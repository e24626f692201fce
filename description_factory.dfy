/**
 * The description factory: a fresh description of the resource, handed in
 * turn to every enhancer that supports the resource.
 */
module DescriptionFactories {
  import opened Wrappers
  import opened Resources
  import opened Descriptions
  import PhpArrays

  /**
   * An enhancer as the factory sees it: whether it supports a resource, and
   * the `set` calls its `enhance` makes on a description of that resource
   * holding the given descriptors (or the exception it raises).
   */
  datatype Enhancer = Enhancer(
    supports: Resource -> bool,
    enhance: (Resource, PhpArrays.PhpArray<Value>) -> Result<seq<Write>>)

  /** One enhancer's `enhance` run on descriptors `d`: its writes, applied in order. */
  function Enhance(e: Enhancer, resource: Resource, d: PhpArrays.PhpArray<Value>): (r: Result<PhpArrays.PhpArray<Value>>)
    requires PhpArrays.Valid(d)
    ensures r.Ok? ==> PhpArrays.Valid(r.value)
  {
    match e.enhance(resource, d)
    case Err(x) => Err(x)
    case Ok(ws) => ApplyAll(d, ws)
  }

  /**
   * The descriptors after `enhancers`, in order, have had their turn: an
   * enhancer that does not support the resource is skipped, and the first
   * exception ends the run.
   */
  function Enhanced(enhancers: seq<Enhancer>, resource: Resource, d: PhpArrays.PhpArray<Value>): (r: Result<PhpArrays.PhpArray<Value>>)
    requires PhpArrays.Valid(d)
    ensures r.Ok? ==> PhpArrays.Valid(r.value)
    decreases |enhancers|
  {
    if |enhancers| == 0 then Ok(d)
    else if !enhancers[0].supports(resource) then Enhanced(enhancers[1..], resource, d)
    else
      match Enhance(enhancers[0], resource, d)
      case Err(x) => Err(x)
      case Ok(d1) => Enhanced(enhancers[1..], resource, d1)
  }

  datatype DescriptionFactory = DescriptionFactory(enhancers: seq<Enhancer>)
  {
    /**
     * `getPayloadDescriptionFor`: a new description of `resource` whose
     * descriptors are those the supporting enhancers set, in order; an
     * exception raised on the way is passed on.
     */
    method GetPayloadDescriptionFor(resource: Resource) returns (r: Result<Description>)
      ensures r.Ok? ==> fresh(r.value) && r.value.Valid() && r.value.resource == resource
      ensures r.Ok? ==> Enhanced(enhancers, resource, PhpArrays.Empty()) == Ok(r.value.descriptors)
      ensures r.Err? ==> Enhanced(enhancers, resource, PhpArrays.Empty()) == Err(r.error)
    {
      var description := new Description(resource);
      for i := 0 to |enhancers|
        invariant fresh(description) && description.Valid() && description.resource == resource
        invariant Enhanced(enhancers, resource, PhpArrays.Empty()) == Enhanced(enhancers[i..], resource, description.descriptors)
      {
        var enhancer := enhancers[i];
        assert enhancers[i..][0] == enhancer && enhancers[i..][1..] == enhancers[i + 1..];
        if !enhancer.supports(resource) {
          continue;
        }
        var start := description.descriptors;
        var writes := enhancer.enhance(resource, start);
        if writes.Err? {
          return Err(writes.error);
        }
        var ws := writes.value;
        for j := 0 to |ws|
          invariant description.Valid() && description.resource == resource
          invariant ApplyAll(start, ws) == ApplyAll(description.descriptors, ws[j..])
        {
          assert ws[j..][0] == ws[j] && ws[j..][1..] == ws[j + 1..];
          var o := description.Set(ws[j].descriptor, ws[j].value);
          if o.Fail? {
            return Err(o.error);
          }
        }
      }
      return Ok(description);
    }
  }

  /** With no enhancers, the description is empty. */
  lemma NoEnhancers(resource: Resource)
    ensures Enhanced([], resource, PhpArrays.Empty()) == Ok(PhpArrays.Empty())
  {
  }

  /** An enhancer that does not support the resource is never run. */
  lemma {:induction false} UnsupportedSkipped(before: seq<Enhancer>, e: Enhancer, after: seq<Enhancer>, resource: Resource, d: PhpArrays.PhpArray<Value>)
    requires PhpArrays.Valid(d)
    requires !e.supports(resource)
    ensures Enhanced(before + [e] + after, resource, d) == Enhanced(before + after, resource, d)
    decreases |before|
  {
    if |before| == 0 {
      assert before + [e] + after == [e] + after;
      assert ([e] + after)[1..] == after;
      assert before + after == after;
    } else {
      var rest := before[1..];
      assert (before + [e] + after)[0] == before[0] && (before + after)[0] == before[0];
      assert (before + [e] + after)[1..] == rest + [e] + after;
      assert (before + after)[1..] == rest + after;
      if !before[0].supports(resource) {
        UnsupportedSkipped(rest, e, after, resource, d);
      } else {
        match Enhance(before[0], resource, d)
        case Err(_) =>
        case Ok(d1) => UnsupportedSkipped(rest, e, after, resource, d1);
      }
    }
  }

  /** Appending an enhancer runs it on the result of the ones before it. */
  lemma {:induction false} EnhancedAppend(enhancers: seq<Enhancer>, e: Enhancer, resource: Resource, d: PhpArrays.PhpArray<Value>)
    requires PhpArrays.Valid(d)
    ensures Enhanced(enhancers + [e], resource, d) ==
      (match Enhanced(enhancers, resource, d)
       case Err(x) => Err(x)
       case Ok(d1) => if e.supports(resource) then Enhance(e, resource, d1) else Ok(d1))
    decreases |enhancers|
  {
    if |enhancers| == 0 {
      assert enhancers + [e] == [e];
      assert [e][1..] == [];
    } else {
      assert (enhancers + [e])[0] == enhancers[0];
      assert (enhancers + [e])[1..] == enhancers[1..] + [e];
      if !enhancers[0].supports(resource) {
        EnhancedAppend(enhancers[1..], e, resource, d);
      } else {
        match Enhance(enhancers[0], resource, d)
        case Err(_) =>
        case Ok(d1) => EnhancedAppend(enhancers[1..], e, resource, d1);
      }
    }
  }

  /**
   * Two supporting enhancers that set different descriptors, one each: both
   * values can be read back from the description.
   */
  lemma BothEnhancersApplied(e1: Enhancer, e2: Enhancer, resource: Resource, k1: string, v1: Value, k2: string, v2: Value)
    requires e1.supports(resource) && e2.supports(resource)
    requires forall d :: e1.enhance(resource, d) == Ok([Write(k1, v1)])
    requires forall d :: e2.enhance(resource, d) == Ok([Write(k2, v2)])
    requires k1 != k2
    requires Accepted(v1) && v1 != Null && Accepted(v2) && v2 != Null
    ensures Enhanced([e1, e2], resource, PhpArrays.Empty()).Ok?
    ensures Lookup(Enhanced([e1, e2], resource, PhpArrays.Empty()).value, resource.path, k1) == Ok(v1)
    ensures Lookup(Enhanced([e1, e2], resource, PhpArrays.Empty()).value, resource.path, k2) == Ok(v2)
  {
    var e: PhpArrays.PhpArray<Value> := PhpArrays.Empty();
    var d1 := PhpArrays.Set(e, k1, v1);
    assert Enhance(e1, resource, e) == Ok(d1) by {
      assert ApplyAll(e, [Write(k1, v1)]) == ApplyAll(d1, []);
    }
    var d2 := PhpArrays.Set(d1, k2, v2);
    assert Enhance(e2, resource, d1) == Ok(d2) by {
      assert ApplyAll(d1, [Write(k2, v2)]) == ApplyAll(d2, []);
    }
    assert [e1, e2][1..] == [e2] && [e2][1..] == [];
    assert Enhanced([e1, e2], resource, e) == Enhanced([e2], resource, d1);
    assert Enhanced([e2], resource, d1) == Enhanced([], resource, d2);
  }

  /** When two supporting enhancers set the same descriptor, the later one wins. */
  lemma LaterEnhancerWins(e1: Enhancer, e2: Enhancer, resource: Resource, k: string, v1: Value, v2: Value)
    requires e1.supports(resource) && e2.supports(resource)
    requires forall d :: e1.enhance(resource, d) == Ok([Write(k, v1)])
    requires forall d :: e2.enhance(resource, d) == Ok([Write(k, v2)])
    requires Accepted(v1) && Accepted(v2)
    ensures Enhanced([e1, e2], resource, PhpArrays.Empty()).Ok?
    ensures k in Enhanced([e1, e2], resource, PhpArrays.Empty()).value.values
    ensures Enhanced([e1, e2], resource, PhpArrays.Empty()).value.values[k] == v2
    ensures Enhanced([e1, e2], resource, PhpArrays.Empty()).value.keys == [k]
  {
    var e: PhpArrays.PhpArray<Value> := PhpArrays.Empty();
    var d1 := PhpArrays.Set(e, k, v1);
    assert Enhance(e1, resource, e) == Ok(d1) by {
      assert ApplyAll(e, [Write(k, v1)]) == ApplyAll(d1, []);
    }
    var d2 := PhpArrays.Set(d1, k, v2);
    assert Enhance(e2, resource, d1) == Ok(d2) by {
      assert ApplyAll(d1, [Write(k, v2)]) == ApplyAll(d2, []);
    }
    assert [e1, e2][1..] == [e2] && [e2][1..] == [];
    assert Enhanced([e1, e2], resource, e) == Enhanced([e2], resource, d1);
    assert Enhanced([e2], resource, d1) == Enhanced([], resource, d2);
  }
}
