/**
 * The PHPCR-ODM description enhancer: for a CMF resource whose payload class
 * is mapped, it records whether the document may have children and which
 * mapped classes a child may have, expanding each allowed child class or
 * interface into the mapped classes that are it or extend it.
 */
module PhpcrOdmEnhancers {
  import opened Wrappers
  import opened Resources
  import opened Descriptions
  import opened DescriptionFactories
  import PhpArrays
  import Paths

  /** The part of a document class's mapping the enhancer reads. */
  datatype ClassMetadata = ClassMetadata(name: string, childClasses: seq<string>, isLeaf: bool)

  /**
   * The ODM's metadata factory: the mapping of a class, if it has one; every
   * mapping, in the factory's order; `isSubclassOf(c, p)`, reflection's
   * strict subclass (or implementation) test; and the proxy-stripping
   * `ClassUtils::getRealClass`.
   */
  datatype MetadataFactory = MetadataFactory(
    metadataFor: string -> Option<ClassMetadata>,
    allMetadata: seq<ClassMetadata>,
    isSubclassOf: (string, string) -> bool,
    realClass: string -> string)

  /** The resource's payload type; a null type is looked up as "". */
  function PayloadClass(resource: Resource): string
  {
    if resource.payloadType.Some? then resource.payloadType.value else ""
  }

  /** A mapped class is allowed through `childClass` when it is that class or a subclass of it. */
  predicate Allows(f: MetadataFactory, childClass: string, m: ClassMetadata)
  {
    childClass == m.name || f.isSubclassOf(m.name, childClass)
  }

  /** The inner loop: `m`'s name once for every child class that allows it. */
  function MatchesOf(f: MetadataFactory, m: ClassMetadata, childClasses: seq<string>): (r: seq<string>)
    ensures |r| <= |childClasses|
    ensures forall i :: 0 <= i < |r| ==> r[i] == m.name
  {
    if |childClasses| == 0 then []
    else
      var n := |childClasses| - 1;
      MatchesOf(f, m, childClasses[..n]) + (if Allows(f, childClasses[n], m) then [m.name] else [])
  }

  /** The child types: the mappings in order, each contributing `MatchesOf`. */
  function ChildTypes(f: MetadataFactory, all: seq<ClassMetadata>, childClasses: seq<string>): (r: seq<string>)
    ensures |r| <= |all| * |childClasses|
  {
    if |all| == 0 then []
    else
      var n := |all| - 1;
      assert |all| * |childClasses| == n * |childClasses| + |childClasses|;
      ChildTypes(f, all[..n], childClasses) + MatchesOf(f, all[n], childClasses)
  }

  function Texts(names: seq<string>): (r: seq<Value>)
    ensures |r| == |names|
    ensures forall i :: 0 <= i < |r| ==> r[i] == Text(names[i])
  {
    seq(|names|, i requires 0 <= i < |names| => Text(names[i]))
  }

  /**
   * The two nested loops of `enhance`: for every mapping, for every allowed
   * child class, the mapping's name when it is allowed through that class.
   */
  method CollectChildTypes(f: MetadataFactory, childClasses: seq<string>) returns (childTypes: seq<string>)
    ensures childTypes == ChildTypes(f, f.allMetadata, childClasses)
  {
    childTypes := [];
    for i := 0 to |f.allMetadata|
      invariant childTypes == ChildTypes(f, f.allMetadata[..i], childClasses)
    {
      var childMetadata := f.allMetadata[i];
      for j := 0 to |childClasses|
        invariant childTypes == ChildTypes(f, f.allMetadata[..i], childClasses) + MatchesOf(f, childMetadata, childClasses[..j])
      {
        Paths.PrefixStep(childClasses, j);
        if Allows(f, childClasses[j], childMetadata) {
          childTypes := childTypes + [childMetadata.name];
        }
      }
      Paths.PrefixAll(childClasses);
      Paths.PrefixStep(f.allMetadata, i);
    }
    Paths.PrefixAll(f.allMetadata);
  }

  datatype PhpcrOdmEnhancer = PhpcrOdmEnhancer(metadataFactory: MetadataFactory)
  {
    /**
     * `supports`: only a CMF resource, and only when the real class of its
     * payload type is mapped.
     */
    function Supports(resource: Resource): (r: bool)
      ensures r ==> resource.isCmf
      ensures resource.isCmf ==> (r <==> metadataFactory.metadataFor(metadataFactory.realClass(PayloadClass(resource))).Some?)
    {
      resource.isCmf && metadataFactory.metadataFor(metadataFactory.realClass(PayloadClass(resource))).Some?
    }

    /**
     * A supported resource whose payload class is not a proxy (its real
     * class is itself) is enhanced without raising.
     */
    lemma SupportedEnhances(resource: Resource)
      requires Supports(resource)
      requires metadataFactory.realClass(PayloadClass(resource)) == PayloadClass(resource)
      ensures Enhancement(resource).Ok?
    {
    }

    /**
     * The `set` calls `enhance` makes: `children.allow` to whether the
     * payload class is not a leaf, then `children.types` to the child types;
     * an unmapped payload class raises before any of them.
     */
    function Enhancement(resource: Resource): (r: Result<seq<Write>>)
      ensures metadataFactory.metadataFor(PayloadClass(resource)).None? <==> r.Err?
      ensures r.Err? ==> r.error == NoMetadata(PayloadClass(resource))
      ensures r.Ok? ==> |r.value| == 2
      ensures r.Ok? ==>
        var m := metadataFactory.metadataFor(PayloadClass(resource)).value;
        r.value[0] == Write(ChildrenAllow, Bool(!m.isLeaf)) &&
        r.value[1] == Write(ChildrenTypes, List(Texts(ChildTypes(metadataFactory, metadataFactory.allMetadata, m.childClasses))))
    {
      var cls := PayloadClass(resource);
      match metadataFactory.metadataFor(cls)
      case None => Err(NoMetadata(cls))
      case Some(m) =>
        Ok([Write(ChildrenAllow, Bool(!m.isLeaf)),
            Write(ChildrenTypes, List(Texts(ChildTypes(metadataFactory, metadataFactory.allMetadata, m.childClasses))))])
    }

    /** The enhancer as the description factory sees it. */
    function AsEnhancer(): (e: Enhancer)
      ensures forall r :: e.supports(r) == Supports(r)
      ensures forall r, d :: e.enhance(r, d) == Enhancement(r)
    {
      Enhancer(r => Supports(r), (r, d) => Enhancement(r))
    }

    /**
     * `enhance`: an unmapped payload class raises and leaves the description
     * alone; otherwise both descriptors are set, in that order.
     */
    method Enhance(description: Description) returns (o: Outcome)
      requires description.Valid()
      modifies description
      ensures description.Valid()
      ensures Enhancement(description.resource).Err? ==>
        o == Fail(Enhancement(description.resource).error) && description.descriptors == old(description.descriptors)
      ensures Enhancement(description.resource).Ok? ==>
        o == Pass && ApplyAll(old(description.descriptors), Enhancement(description.resource).value) == Ok(description.descriptors)
    {
      var cls := PayloadClass(description.GetResource());
      var metadata := metadataFactory.metadataFor(cls);
      if metadata.None? {
        return Fail(NoMetadata(cls));
      }
      var childTypes := CollectChildTypes(metadataFactory, metadata.value.childClasses);
      ghost var start := description.descriptors;
      ghost var writes := Enhancement(description.resource).value;
      var allow := description.Set(ChildrenAllow, Bool(!metadata.value.isLeaf));
      ghost var middle := description.descriptors;
      var types := description.Set(ChildrenTypes, List(Texts(childTypes)));
      assert ApplyAll(start, writes) == ApplyAll(middle, writes[1..]);
      assert ApplyAll(middle, writes[1..]) == ApplyAll(description.descriptors, []);
      return Pass;
    }
  }

  /** Every child type is the name of a mapping allowed through one of the child classes. */
  lemma {:induction false} ChildTypesSound(f: MetadataFactory, all: seq<ClassMetadata>, childClasses: seq<string>, i: nat)
    requires i < |ChildTypes(f, all, childClasses)|
    ensures exists j, c ::
              0 <= j < |all| && 0 <= c < |childClasses| &&
              ChildTypes(f, all, childClasses)[i] == all[j].name && Allows(f, childClasses[c], all[j])
    decreases |all|
  {
    var n := |all| - 1;
    var front := ChildTypes(f, all[..n], childClasses);
    if i < |front| {
      ChildTypesSound(f, all[..n], childClasses, i);
      var j, c :| 0 <= j < n && 0 <= c < |childClasses| && front[i] == all[..n][j].name && Allows(f, childClasses[c], all[..n][j]);
      assert all[..n][j] == all[j];
    } else {
      var c := MatchesSound(f, all[n], childClasses, i - |front|);
      assert ChildTypes(f, all, childClasses)[i] == all[n].name;
    }
  }

  /** An entry of `MatchesOf` comes from a child class that allows the mapping. */
  lemma {:induction false} MatchesSound(f: MetadataFactory, m: ClassMetadata, childClasses: seq<string>, i: nat) returns (c: nat)
    requires i < |MatchesOf(f, m, childClasses)|
    ensures c < |childClasses| && Allows(f, childClasses[c], m)
    decreases |childClasses|
  {
    var n := |childClasses| - 1;
    var front := MatchesOf(f, m, childClasses[..n]);
    if i < |front| {
      c := MatchesSound(f, m, childClasses[..n], i);
      assert childClasses[..n][c] == childClasses[c];
    } else {
      c := n;
    }
  }

  /** A mapping allowed through a child class is listed. */
  lemma {:induction false} ChildTypesComplete(f: MetadataFactory, all: seq<ClassMetadata>, childClasses: seq<string>, j: nat, c: nat)
    requires j < |all| && c < |childClasses|
    requires Allows(f, childClasses[c], all[j])
    ensures all[j].name in ChildTypes(f, all, childClasses)
    decreases |all|
  {
    var n := |all| - 1;
    var front := ChildTypes(f, all[..n], childClasses);
    var last := MatchesOf(f, all[n], childClasses);
    assert ChildTypes(f, all, childClasses) == front + last;
    if j < n {
      assert all[..n][j] == all[j];
      ChildTypesComplete(f, all[..n], childClasses, j, c);
      assert all[j].name in front;
    } else {
      MatchesComplete(f, all[n], childClasses, c);
      assert all[j].name in last;
    }
  }

  lemma {:induction false} MatchesComplete(f: MetadataFactory, m: ClassMetadata, childClasses: seq<string>, c: nat)
    requires c < |childClasses| && Allows(f, childClasses[c], m)
    ensures m.name in MatchesOf(f, m, childClasses)
    decreases |childClasses|
  {
    var n := |childClasses| - 1;
    if c < n {
      assert childClasses[..n][c] == childClasses[c];
      MatchesComplete(f, m, childClasses[..n], c);
    }
  }

  /**
   * The child types follow the order of the mappings: those of a longer
   * list of mappings extend those of its prefix.
   */
  lemma {:induction false} ChildTypesConcat(f: MetadataFactory, a: seq<ClassMetadata>, b: seq<ClassMetadata>, childClasses: seq<string>)
    ensures ChildTypes(f, a + b, childClasses) == ChildTypes(f, a, childClasses) + ChildTypes(f, b, childClasses)
    decreases |b|
  {
    if |b| == 0 {
      assert a + b == a;
    } else {
      var n := |b| - 1;
      assert (a + b)[..|a + b| - 1] == a + b[..n];
      assert (a + b)[|a + b| - 1] == b[n];
      ChildTypesConcat(f, a, b[..n], childClasses);
    }
  }

  /**
   * A mapping allowed through several child classes is listed once per
   * class: with every child class allowing `m`, `m` is listed that many times.
   */
  lemma {:induction false} MatchesEveryClass(f: MetadataFactory, m: ClassMetadata, childClasses: seq<string>)
    requires forall c :: 0 <= c < |childClasses| ==> Allows(f, childClasses[c], m)
    ensures MatchesOf(f, m, childClasses) == seq(|childClasses|, _ => m.name)
    decreases |childClasses|
  {
    if |childClasses| > 0 {
      var n := |childClasses| - 1;
      MatchesEveryClass(f, m, childClasses[..n]);
    }
  }

  /**
   * Three mappings, allowed respectively through an interface they
   * implement, a class they extend and their own name, and no other way:
   * they are listed in the mappings' order, once each, and the payload
   * class being no leaf allows children.
   */
  lemma ThreeAllowedMappings(f: MetadataFactory, resource: Resource, payload: ClassMetadata,
                             m1: ClassMetadata, m2: ClassMetadata, m3: ClassMetadata, iface: string, base: string)
    requires f.allMetadata == [m1, m2, m3]
    requires f.metadataFor(PayloadClass(resource)) == Some(payload)
    requires payload.childClasses == [iface, base, m3.name] && !payload.isLeaf
    requires m1.name != iface && m1.name != base && m1.name != m3.name
    requires m2.name != iface && m2.name != base && m2.name != m3.name
    requires m3.name != iface && m3.name != base
    requires f.isSubclassOf(m1.name, iface) && !f.isSubclassOf(m1.name, base) && !f.isSubclassOf(m1.name, m3.name)
    requires !f.isSubclassOf(m2.name, iface) && f.isSubclassOf(m2.name, base) && !f.isSubclassOf(m2.name, m3.name)
    requires !f.isSubclassOf(m3.name, iface) && !f.isSubclassOf(m3.name, base)
    ensures PhpcrOdmEnhancer(f).Enhancement(resource) ==
      Ok([Write(ChildrenAllow, Bool(true)), Write(ChildrenTypes, List([Text(m1.name), Text(m2.name), Text(m3.name)]))])
  {
    var cc := payload.childClasses;
    MatchesOfThree(f, m1, cc);
    MatchesOfThree(f, m2, cc);
    MatchesOfThree(f, m3, cc);
    ChildTypesOfThree(f, [m1, m2, m3], cc);
    assert ChildTypes(f, [m1, m2, m3], cc) == [m1.name, m2.name, m3.name];
    assert Texts([m1.name, m2.name, m3.name]) == [Text(m1.name), Text(m2.name), Text(m3.name)];
  }

  /** `MatchesOf` for three child classes, one class at a time. */
  lemma MatchesOfThree(f: MetadataFactory, m: ClassMetadata, cc: seq<string>)
    requires |cc| == 3
    ensures MatchesOf(f, m, cc) ==
      (if Allows(f, cc[0], m) then [m.name] else []) +
      (if Allows(f, cc[1], m) then [m.name] else []) +
      (if Allows(f, cc[2], m) then [m.name] else [])
  {
    var x0 := if Allows(f, cc[0], m) then [m.name] else [];
    var x1 := if Allows(f, cc[1], m) then [m.name] else [];
    var x2 := if Allows(f, cc[2], m) then [m.name] else [];
    Paths.PrefixStep(cc, 0);
    Paths.PrefixStep(cc, 1);
    Paths.PrefixStep(cc, 2);
    Paths.PrefixAll(cc);
    assert MatchesOf(f, m, cc[..0]) == [];
    assert MatchesOf(f, m, cc[..1]) == [] + x0;
    assert MatchesOf(f, m, cc[..2]) == [] + x0 + x1;
    assert MatchesOf(f, m, cc) == [] + x0 + x1 + x2;
    assert [] + x0 == x0;
  }

  /** `ChildTypes` for three mappings, one mapping at a time. */
  lemma ChildTypesOfThree(f: MetadataFactory, all: seq<ClassMetadata>, cc: seq<string>)
    requires |all| == 3
    ensures ChildTypes(f, all, cc) == MatchesOf(f, all[0], cc) + MatchesOf(f, all[1], cc) + MatchesOf(f, all[2], cc)
  {
    var x0, x1, x2 := MatchesOf(f, all[0], cc), MatchesOf(f, all[1], cc), MatchesOf(f, all[2], cc);
    Paths.PrefixStep(all, 0);
    Paths.PrefixStep(all, 1);
    Paths.PrefixStep(all, 2);
    Paths.PrefixAll(all);
    assert ChildTypes(f, all[..0], cc) == [];
    assert ChildTypes(f, all[..1], cc) == [] + x0;
    assert ChildTypes(f, all[..2], cc) == [] + x0 + x1;
    assert ChildTypes(f, all, cc) == [] + x0 + x1 + x2;
    assert [] + x0 == x0;
  }

  /**
   * After `enhance`, `children.allow` holds the negation of `isLeaf` and
   * `children.types` the child types, empty when nothing matches.
   */
  lemma EnhancedDescriptors(enhancer: PhpcrOdmEnhancer, resource: Resource, d: PhpArrays.PhpArray<Value>)
    requires PhpArrays.Valid(d)
    requires enhancer.Enhancement(resource).Ok?
    ensures ApplyAll(d, enhancer.Enhancement(resource).value).Ok?
    ensures
      var f := enhancer.metadataFactory;
      var m := f.metadataFor(PayloadClass(resource)).value;
      var r := ApplyAll(d, enhancer.Enhancement(resource).value).value;
      ChildrenAllow in r.values && r.values[ChildrenAllow] == Bool(!m.isLeaf) &&
      ChildrenTypes in r.values && r.values[ChildrenTypes] == List(Texts(ChildTypes(f, f.allMetadata, m.childClasses)))
  {
    var ws := enhancer.Enhancement(resource).value;
    var w0, w1 := ws[0], ws[1];
    assert w0 == Write(ChildrenAllow, w0.value) && w1 == Write(ChildrenTypes, w1.value);
    Pair(ws);
    LastWriteWins(d, [], ChildrenAllow, w0.value, [w1]);
    LastWriteWins(d, [w0], ChildrenTypes, w1.value, []);
  }

  /** A sequence of two, written with the first or the second as the single middle element. */
  lemma Pair<T>(s: seq<T>)
    requires |s| == 2
    ensures s == [] + [s[0]] + [s[1]] && s == [s[0]] + [s[1]] + []
  {
  }
}
