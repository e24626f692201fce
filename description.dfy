/**
 * The description of a resource: an insertion-ordered bag of descriptors
 * (string keys) whose values must be null, scalar or array. A descriptor
 * holding null is stored but reads as missing, because `get` and `has` use
 * `isset`.
 */
module Descriptions {
  import opened Wrappers
  import opened Resources
  import PhpArrays

  /** `Descriptor::CHILDREN_ALLOW`: whether the resource may have children. */
  const ChildrenAllow := "children.allow"
  /** `Descriptor::CHILDREN_TYPES`: the classes a child may have. */
  const ChildrenTypes := "children.types"

  /** The PHP values a descriptor can be given. */
  datatype Value =
    | Null
    | Bool(b: bool)
    | Int(i: int)
    | Float(f: real)
    | Text(s: string)
    /** A PHP array, modelled as a list of values. */
    | List(items: seq<Value>)
    /** An object of the named class. */
    | Object(className: string)
    /** A PHP resource handle (an open stream, say). */
    | Handle

  predicate IsScalar(v: Value)
  {
    v.Bool? || v.Int? || v.Float? || v.Text?
  }

  /** What `set` lets through: null, a scalar or an array. */
  predicate Accepted(v: Value)
  {
    v.Null? || IsScalar(v) || v.List?
  }

  /** PHP's `gettype`. */
  function TypeName(v: Value): (t: string)
    ensures v.Object? ==> t == "object"
    ensures v.Handle? ==> t == "resource"
    ensures t == "array" <==> v.List?
  {
    match v
    case Null => "NULL"
    case Bool(_) => "boolean"
    case Int(_) => "integer"
    case Float(_) => "double"
    case Text(_) => "string"
    case List(_) => "array"
    case Object(_) => "object"
    case Handle => "resource"
  }

  /** `isset($descriptors[$k])`: the key is present and its value is not null. */
  predicate IsSet(d: PhpArrays.PhpArray<Value>, k: string)
  {
    k in d.values && d.values[k] != Null
  }

  /**
   * `get`: the stored value when it is set; otherwise an error naming the
   * descriptor, the subject (the resource's path) and every stored key in
   * insertion order, null-valued ones included.
   */
  function Lookup(d: PhpArrays.PhpArray<Value>, subject: string, k: string): (r: Result<Value>)
    ensures r.Ok? <==> IsSet(d, k)
    ensures r.Ok? ==> r.value != Null && r.value == d.values[k]
    ensures r.Err? ==> r.error == UnknownDescriptor(k, subject, d.keys)
  {
    if IsSet(d, k) then Ok(d.values[k]) else Err(UnknownDescriptor(k, subject, d.keys))
  }

  /**
   * `set`: a value that is not null, scalar or array is refused with its
   * type name and the descriptor; any other value is stored under the key.
   */
  function Assign(d: PhpArrays.PhpArray<Value>, k: string, v: Value): (r: Result<PhpArrays.PhpArray<Value>>)
    requires PhpArrays.Valid(d)
    ensures r.Ok? <==> Accepted(v)
    ensures r.Err? ==> r.error == InvalidDescriptorValue(TypeName(v), k)
    ensures r.Ok? ==> PhpArrays.Valid(r.value) && r.value == PhpArrays.Set(d, k, v)
  {
    if !Accepted(v) then Err(InvalidDescriptorValue(TypeName(v), k))
    else Ok(PhpArrays.Set(d, k, v))
  }

  /** One call of `set` on a description. */
  datatype Write = Write(descriptor: string, value: Value)

  /**
   * A sequence of `set` calls, in order; the first refused value raises and
   * ends the sequence. It succeeds exactly when every value is accepted.
   */
  function ApplyAll(d: PhpArrays.PhpArray<Value>, ws: seq<Write>): (r: Result<PhpArrays.PhpArray<Value>>)
    requires PhpArrays.Valid(d)
    ensures r.Ok? ==> PhpArrays.Valid(r.value)
    ensures r.Ok? <==> forall i :: 0 <= i < |ws| ==> Accepted(ws[i].value)
    ensures r.Err? ==> exists i :: 0 <= i < |ws| && r.error == InvalidDescriptorValue(TypeName(ws[i].value), ws[i].descriptor)
    decreases |ws|
  {
    if |ws| == 0 then Ok(d)
    else
      match Assign(d, ws[0].descriptor, ws[0].value)
      case Err(e) => Err(e)
      case Ok(d1) =>
        var r := ApplyAll(d1, ws[1..]);
        assert forall i :: 1 <= i < |ws| ==> ws[i] == ws[1..][i - 1];
        r
  }

  class Description {
    const resource: Resource
    var descriptors: PhpArrays.PhpArray<Value>

    ghost predicate Valid()
      reads this
    {
      PhpArrays.Valid(descriptors)
    }

    /** A description of `resource` with no descriptors. */
    constructor(resource: Resource)
      ensures Valid()
      ensures this.resource == resource
      ensures descriptors.keys == [] && descriptors.values == map[]
    {
      this.resource := resource;
      descriptors := PhpArrays.Empty();
    }

    /** `has`: the descriptor is stored with a non-null value. */
    function Has(descriptor: string): (r: bool)
      reads this
      ensures r <==> descriptor in descriptors.values && descriptors.values[descriptor] != Null
    {
      IsSet(descriptors, descriptor)
    }

    /** `get` succeeds exactly when `has` holds, and reports the stored keys otherwise. */
    function Get(descriptor: string): (r: Result<Value>)
      reads this
      ensures r.Ok? <==> Has(descriptor)
      ensures r.Ok? ==> r.value == descriptors.values[descriptor]
      ensures r.Err? ==> r.error == UnknownDescriptor(descriptor, resource.path, descriptors.keys)
    {
      Lookup(descriptors, resource.path, descriptor)
    }

    /**
     * `all`: the whole descriptor array, null-valued descriptors included, in
     * insertion order; every descriptor `has` reports is among its keys with
     * the value `get` returns.
     */
    function All(): (r: PhpArrays.PhpArray<Value>)
      reads this
      requires Valid()
      ensures PhpArrays.Valid(r)
      ensures r.keys == descriptors.keys && r.values == descriptors.values
      ensures forall k :: Has(k) ==> k in r.keys && r.values[k] == Get(k).value
    {
      descriptors
    }

    /** `getResource`: the resource the description was made for. */
    function GetResource(): (r: Resource)
      reads this
      ensures r == resource
    {
      resource
    }

    /**
     * `set`: a refused value raises and leaves the descriptors as they were;
     * an accepted one is stored, a new key going to the end of the order and
     * an existing key keeping its place.
     */
    method Set(descriptor: string, value: Value) returns (o: Outcome)
      requires Valid()
      modifies this
      ensures Valid()
      ensures o.Pass? <==> Accepted(value)
      ensures Assign(old(descriptors), descriptor, value) == (if o.Pass? then Ok(descriptors) else Err(o.error))
      ensures o.Fail? ==> descriptors == old(descriptors)
    {
      if !Accepted(value) {
        return Fail(InvalidDescriptorValue(TypeName(value), descriptor));
      }
      descriptors := PhpArrays.Set(descriptors, descriptor, value);
      return Pass;
    }
  }

  /** A non-null value that is set can be read back; every other descriptor reads as before. */
  lemma AssignThenLookup(d: PhpArrays.PhpArray<Value>, subject: string, k: string, v: Value, other: string)
    requires PhpArrays.Valid(d)
    requires Accepted(v) && v != Null
    requires other != k
    ensures Assign(d, k, v).Ok?
    ensures Lookup(Assign(d, k, v).value, subject, k) == Ok(v)
    ensures Lookup(Assign(d, k, v).value, subject, other).Ok? <==> Lookup(d, subject, other).Ok?
    ensures Lookup(d, subject, other).Ok? ==>
      Lookup(Assign(d, k, v).value, subject, other) == Lookup(d, subject, other)
  {
  }

  /**
   * Setting a descriptor to null is accepted, but afterwards it reads as
   * missing, and the error raised for it lists it among the supported keys.
   */
  lemma AssignNullUnsets(d: PhpArrays.PhpArray<Value>, subject: string, k: string)
    requires PhpArrays.Valid(d)
    ensures Assign(d, k, Null).Ok?
    ensures !IsSet(Assign(d, k, Null).value, k)
    ensures Lookup(Assign(d, k, Null).value, subject, k).Err?
    ensures k in Lookup(Assign(d, k, Null).value, subject, k).error.keys
  {
  }

  /** Overwriting keeps the key's place; a new key is listed last. */
  lemma AssignOrder(d: PhpArrays.PhpArray<Value>, k: string, v: Value)
    requires PhpArrays.Valid(d)
    requires Accepted(v)
    ensures Assign(d, k, v).Ok?
    ensures k in d.keys ==> Assign(d, k, v).value.keys == d.keys
    ensures k !in d.keys ==> Assign(d, k, v).value.keys == d.keys + [k]
  {
  }

  /** An object is refused with the type name "object". */
  lemma AssignRefusesObject(d: PhpArrays.PhpArray<Value>, k: string, className: string)
    requires PhpArrays.Valid(d)
    ensures Assign(d, k, Object(className)) == Err(InvalidDescriptorValue("object", k))
  {
  }

  /**
   * With "foo" and then "bar" set, asking for "baz" fails with both keys
   * listed in the order they were set.
   */
  lemma UnknownListsKeysInOrder(subject: string)
    ensures
      var d1 := Assign(PhpArrays.Empty(), "foo", Text("bar"));
      d1.Ok? &&
      var d2 := Assign(d1.value, "bar", Text("foo"));
      d2.Ok? &&
      Lookup(d2.value, subject, "baz") == Err(UnknownDescriptor("baz", subject, ["foo", "bar"]))
  {
    assert "foo" != "bar" && "baz" != "foo" && "baz" != "bar";
    UnknownAfterTwo(subject, "foo", Text("bar"), "bar", Text("foo"), "baz");
  }

  /** Two accepted `set` calls on new keys, then a `get` of a third key. */
  lemma UnknownAfterTwo(subject: string, k1: string, v1: Value, k2: string, v2: Value, k: string)
    requires k1 != k2 && k != k1 && k != k2 && Accepted(v1) && Accepted(v2)
    ensures
      var d1 := Assign(PhpArrays.Empty(), k1, v1);
      d1.Ok? &&
      var d2 := Assign(d1.value, k2, v2);
      d2.Ok? &&
      Lookup(d2.value, subject, k) == Err(UnknownDescriptor(k, subject, [k1, k2]))
  {
    var e: PhpArrays.PhpArray<Value> := PhpArrays.Empty();
    var d1 := Assign(e, k1, v1).value;
    assert d1.keys == [k1];
    var d2 := Assign(d1, k2, v2).value;
    assert k2 !in d1.values;
    assert d2.keys == [k1, k2];
    assert k !in d2.values;
  }

  /** Running `a` and then `b` is running `a + b`. */
  lemma {:induction false} ApplyAllConcat(d: PhpArrays.PhpArray<Value>, a: seq<Write>, b: seq<Write>)
    requires PhpArrays.Valid(d)
    ensures ApplyAll(d, a + b) ==
      (match ApplyAll(d, a)
       case Err(e) => Err(e)
       case Ok(d1) => ApplyAll(d1, b))
    decreases |a|
  {
    if |a| == 0 {
      assert a + b == b;
    } else {
      assert (a + b)[0] == a[0];
      assert (a + b)[1..] == a[1..] + b;
      match Assign(d, a[0].descriptor, a[0].value)
      case Err(_) =>
      case Ok(d1) => ApplyAllConcat(d1, a[1..], b);
    }
  }

  /** A sequence of writes that does not touch `k` leaves its entry alone. */
  lemma {:induction false} ApplyAllUntouched(d: PhpArrays.PhpArray<Value>, ws: seq<Write>, k: string)
    requires PhpArrays.Valid(d)
    requires forall i :: 0 <= i < |ws| ==> ws[i].descriptor != k
    requires ApplyAll(d, ws).Ok?
    ensures k in ApplyAll(d, ws).value.values <==> k in d.values
    ensures k in d.values ==> ApplyAll(d, ws).value.values[k] == d.values[k]
    decreases |ws|
  {
    if |ws| > 0 {
      var d1 := Assign(d, ws[0].descriptor, ws[0].value).value;
      assert forall i :: 0 <= i < |ws[1..]| ==> ws[1..][i].descriptor != k by {
        forall i | 0 <= i < |ws[1..]| ensures ws[1..][i].descriptor != k {
          assert ws[1..][i] == ws[i + 1];
        }
      }
      ApplyAllUntouched(d1, ws[1..], k);
    }
  }

  /** The last write to a descriptor decides its value. */
  lemma LastWriteWins(d: PhpArrays.PhpArray<Value>, before: seq<Write>, k: string, v: Value, after: seq<Write>)
    requires PhpArrays.Valid(d)
    requires forall i :: 0 <= i < |after| ==> after[i].descriptor != k
    requires ApplyAll(d, before + [Write(k, v)] + after).Ok?
    ensures k in ApplyAll(d, before + [Write(k, v)] + after).value.values
    ensures ApplyAll(d, before + [Write(k, v)] + after).value.values[k] == v
  {
    var mid := before + [Write(k, v)];
    ApplyAllConcat(d, mid, after);
    ApplyAllConcat(d, before, [Write(k, v)]);
    var d1 := ApplyAll(d, before).value;
    assert ApplyAll(d1, [Write(k, v)]) == ApplyAll(PhpArrays.Set(d1, k, v), []);
    ApplyAllUntouched(ApplyAll(d, mid).value, after, k);
  }
}
