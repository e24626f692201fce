/**
 * The legacy description bag and factory: the same `isset` reads as the
 * current description, but `set` stores any value without a check, and the
 * description is labelled with a payload type instead of holding a resource.
 */
module LegacyDescriptions {
  import opened Wrappers
  import opened Resources
  import opened Descriptions
  import DescriptionFactories
  import PhpArrays

  /** A sequence of unchecked `set` calls, in order. */
  function StoreAll(d: PhpArrays.PhpArray<Value>, ws: seq<Write>): (r: PhpArrays.PhpArray<Value>)
    requires PhpArrays.Valid(d)
    ensures PhpArrays.Valid(r)
    ensures forall k :: k in d.values ==> k in r.values
    ensures forall i :: 0 <= i < |ws| ==> ws[i].descriptor in r.values
    decreases |ws|
  {
    if |ws| == 0 then d
    else
      var r := StoreAll(PhpArrays.Set(d, ws[0].descriptor, ws[0].value), ws[1..]);
      assert forall i :: 1 <= i < |ws| ==> ws[i] == ws[1..][i - 1];
      r
  }

  /** The legacy pipeline: the supporting enhancers' writes, stored unchecked, in order. */
  function Enhanced(enhancers: seq<DescriptionFactories.Enhancer>, resource: Resource, d: PhpArrays.PhpArray<Value>): (r: Result<PhpArrays.PhpArray<Value>>)
    requires PhpArrays.Valid(d)
    ensures r.Ok? ==> PhpArrays.Valid(r.value)
    decreases |enhancers|
  {
    if |enhancers| == 0 then Ok(d)
    else if !enhancers[0].supports(resource) then Enhanced(enhancers[1..], resource, d)
    else
      match enhancers[0].enhance(resource, d)
      case Err(x) => Err(x)
      case Ok(ws) => Enhanced(enhancers[1..], resource, StoreAll(d, ws))
  }

  class Description {
    /** The label the `get` error names. */
    const payloadType: string
    var descriptors: PhpArrays.PhpArray<Value>

    ghost predicate Valid()
      reads this
    {
      PhpArrays.Valid(descriptors)
    }

    constructor(payloadType: string)
      ensures Valid()
      ensures this.payloadType == payloadType
      ensures descriptors.keys == [] && descriptors.values == map[]
    {
      this.payloadType := payloadType;
      descriptors := PhpArrays.Empty();
    }

    /**
     * `get`: the stored non-null value, or an error naming the key, the
     * payload type and the stored keys in insertion order.
     */
    function Get(key: string): (r: Result<Value>)
      reads this
      ensures r.Ok? <==> key in descriptors.values && descriptors.values[key] != Null
      ensures r.Ok? ==> r.value == descriptors.values[key]
      ensures r.Err? ==> r.error == UnknownDescriptor(key, payloadType, descriptors.keys)
    {
      Lookup(descriptors, payloadType, key)
    }

    /** `set`: any value is stored; an existing key keeps its place, a new one goes last. */
    method Set(key: string, value: Value)
      requires Valid()
      modifies this
      ensures Valid()
      ensures descriptors == PhpArrays.Set(old(descriptors), key, value)
    {
      descriptors := PhpArrays.Set(descriptors, key, value);
    }
  }

  /**
   * The legacy factory. It hands the resource itself to the description's
   * payload-type parameter; `render` is PHP's string conversion of that
   * resource object, which is what the `get` error would print.
   */
  datatype DescriptionFactory = DescriptionFactory(enhancers: seq<DescriptionFactories.Enhancer>, render: Resource -> string)
  {
    method GetPayloadDescriptionFor(resource: Resource) returns (r: Result<Description>)
      ensures r.Ok? ==> fresh(r.value) && r.value.Valid() && r.value.payloadType == render(resource)
      ensures r.Ok? ==> Enhanced(enhancers, resource, PhpArrays.Empty()) == Ok(r.value.descriptors)
      ensures r.Err? ==> Enhanced(enhancers, resource, PhpArrays.Empty()) == Err(r.error)
    {
      var description := new Description(render(resource));
      for i := 0 to |enhancers|
        invariant fresh(description) && description.Valid() && description.payloadType == render(resource)
        invariant Enhanced(enhancers, resource, PhpArrays.Empty()) == Enhanced(enhancers[i..], resource, description.descriptors)
      {
        var enhancer := enhancers[i];
        assert enhancers[i..][0] == enhancer && enhancers[i..][1..] == enhancers[i + 1..];
        if !enhancer.supports(resource) {
          continue;
        }
        var start := description.descriptors;
        var writes := enhancer.enhance(resource, start);
        if writes.Err? {
          return Err(writes.error);
        }
        var ws := writes.value;
        for j := 0 to |ws|
          invariant description.Valid() && description.payloadType == render(resource)
          invariant StoreAll(start, ws) == StoreAll(description.descriptors, ws[j..])
        {
          assert ws[j..][0] == ws[j] && ws[j..][1..] == ws[j + 1..];
          description.Set(ws[j].descriptor, ws[j].value);
        }
      }
      return Ok(description);
    }
  }

  /** A non-null value that is set is returned by `get`, whatever it is. */
  lemma SetThenGet(d: PhpArrays.PhpArray<Value>, payloadType: string, k: string, v: Value)
    requires PhpArrays.Valid(d)
    requires v != Null
    ensures Lookup(PhpArrays.Set(d, k, v), payloadType, k) == Ok(v)
  {
  }

  /** Storing null keeps the key listed, but `get` treats it as missing. */
  lemma NullIsMissing(d: PhpArrays.PhpArray<Value>, payloadType: string, k: string)
    requires PhpArrays.Valid(d)
    ensures k in PhpArrays.Set(d, k, Null).keys
    ensures Lookup(PhpArrays.Set(d, k, Null), payloadType, k).Err?
  {
  }

  /**
   * With "foo" and then "bar" set on a description of "some-type", asking for
   * "not there" names the payload type and both keys in order.
   */
  lemma UnsupportedNamesPayloadType()
    ensures
      var d := PhpArrays.Set(PhpArrays.Set(PhpArrays.Empty(), "foo", Text("bar")), "bar", Text("foo"));
      Lookup(d, "some-type", "not there") == Err(UnknownDescriptor("not there", "some-type", ["foo", "bar"]))
  {
    var e: PhpArrays.PhpArray<Value> := PhpArrays.Empty();
    var d1 := PhpArrays.Set(e, "foo", Text("bar"));
    assert d1.keys == ["foo"];
    assert "bar" !in d1.values;
    var d2 := PhpArrays.Set(d1, "bar", Text("foo"));
    assert d2.keys == ["foo", "bar"];
    assert "not there" !in d2.values;
  }

  /** With every value accepted, the checked and unchecked `set` sequences agree. */
  lemma {:induction false} StoreAllAgrees(d: PhpArrays.PhpArray<Value>, ws: seq<Write>)
    requires PhpArrays.Valid(d)
    requires forall i :: 0 <= i < |ws| ==> Accepted(ws[i].value)
    ensures ApplyAll(d, ws) == Ok(StoreAll(d, ws))
    decreases |ws|
  {
    if |ws| > 0 {
      assert forall i :: 0 <= i < |ws[1..]| ==> ws[1..][i] == ws[i + 1];
      StoreAllAgrees(PhpArrays.Set(d, ws[0].descriptor, ws[0].value), ws[1..]);
    }
  }

  /**
   * The legacy pipeline agrees with the current one as long as no enhancer
   * sets a value the current description refuses.
   */
  lemma {:induction false} LegacyAgrees(enhancers: seq<DescriptionFactories.Enhancer>, resource: Resource, d: PhpArrays.PhpArray<Value>)
    requires PhpArrays.Valid(d)
    requires forall e, x, i :: e in enhancers && e.enhance(resource, x).Ok? && 0 <= i < |e.enhance(resource, x).value| ==>
      Accepted(e.enhance(resource, x).value[i].value)
    ensures Enhanced(enhancers, resource, d) == DescriptionFactories.Enhanced(enhancers, resource, d)
    decreases |enhancers|
  {
    if |enhancers| > 0 {
      var e := enhancers[0];
      if e.supports(resource) {
        match e.enhance(resource, d)
        case Err(_) =>
        case Ok(ws) =>
          StoreAllAgrees(d, ws);
          LegacyAgrees(enhancers[1..], resource, StoreAll(d, ws));
      } else {
        LegacyAgrees(enhancers[1..], resource, d);
      }
    }
  }

  /** An enhancer that does not support the resource is never run. */
  lemma {:induction false} UnsupportedSkipped(before: seq<DescriptionFactories.Enhancer>, e: DescriptionFactories.Enhancer, after: seq<DescriptionFactories.Enhancer>, resource: Resource, d: PhpArrays.PhpArray<Value>)
    requires PhpArrays.Valid(d)
    requires !e.supports(resource)
    ensures Enhanced(before + [e] + after, resource, d) == Enhanced(before + after, resource, d)
    decreases |before|
  {
    if |before| == 0 {
      assert before + [e] + after == [e] + after;
      assert ([e] + after)[1..] == after;
      assert before + after == after;
    } else {
      var rest := before[1..];
      assert (before + [e] + after)[0] == before[0] && (before + after)[0] == before[0];
      assert (before + [e] + after)[1..] == rest + [e] + after;
      assert (before + after)[1..] == rest + after;
      if !before[0].supports(resource) {
        UnsupportedSkipped(rest, e, after, resource, d);
      } else {
        match before[0].enhance(resource, d)
        case Err(_) =>
        case Ok(ws) => UnsupportedSkipped(rest, e, after, resource, StoreAll(d, ws));
      }
    }
  }
}
