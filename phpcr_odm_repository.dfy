/**
 * The PHPCR-ODM flavour of the repository: resources wrap mapped documents,
 * removal and moves go through the document manager and end with one
 * `flush`, reordering is one `reorder` call on the parent document.
 *
 * Every node of the store is taken to be a mapped document whose id is its
 * path.
 */
module PhpcrOdmRepository {
  import opened Wrappers
  import opened Paths
  import opened Backend
  import opened Resources
  import opened PathResolution

  /** The resource for a document, exposed at `path`. */
  function DocumentResource(store: Store, path: string, id: string): (r: Resource)
  {
    Resource(path, DocumentPayload(id), Some(store.typeOf(id)), true)
  }

  /**
   * `getDocument`: resolve the path and find the document; the manager
   * answers an unknown path with null, reported with the resolved path.
   */
  function GetDocument(store: Store, basePath: Option<string>, path: PathArg): (r: Result<string>)
    reads store
    ensures ResolvePath(basePath, path).Err? ==> r == ResolvePath(basePath, path)
    ensures ResolvePath(basePath, path).Ok? ==>
      var resolved := ResolvePath(basePath, path).value;
      if resolved in store.tree then r == Ok(resolved) else r == Err(DocumentNotFound(resolved))
  {
    var resolved := ResolvePath(basePath, path);
    if resolved.Err? then resolved
    else if resolved.value !in store.tree then Err(DocumentNotFound(resolved.value))
    else Ok(resolved.value)
  }

  /**
   * `get`: the resource carries the path as the caller wrote it and the
   * document found at the resolved path.
   */
  function Get(store: Store, basePath: Option<string>, path: PathArg): (r: Result<Resource>)
    reads store
    ensures r.Ok? <==> GetDocument(store, basePath, path).Ok?
    ensures r.Err? ==> r.error == GetDocument(store, basePath, path).error
    ensures r.Ok? ==> path.Str? && r.value.path == path.s
    ensures r.Ok? ==> r.value.payload == DocumentPayload(ResolvePath(basePath, path).value) && r.value.isCmf
  {
    var doc := GetDocument(store, basePath, path);
    if doc.Err? then Err(doc.error) else Ok(DocumentResource(store, path.s, doc.value))
  }

  /** `buildCollection`: one resource per document, in order, at the unresolved document id. */
  method BuildCollection(store: Store, basePath: Option<string>, documents: seq<string>) returns (rs: seq<Resource>)
    ensures |rs| == |documents|
    ensures forall i :: 0 <= i < |documents| ==>
      rs[i] == DocumentResource(store, UnresolvePath(basePath, documents[i]), documents[i])
  {
    rs := [];
    if |documents| == 0 {
      return;
    }
    for i := 0 to |documents|
      invariant |rs| == i
      invariant forall j :: 0 <= j < i ==>
        rs[j] == DocumentResource(store, UnresolvePath(basePath, documents[j]), documents[j])
    {
      rs := rs + [DocumentResource(store, UnresolvePath(basePath, documents[i]), documents[i])];
    }
  }

  /** `listChildren`: the collection built from the child documents of the document at `path`. */
  method ListChildren(store: Store, basePath: Option<string>, path: PathArg) returns (r: Result<seq<Resource>>)
    ensures r.Err? <==> Get(store, basePath, path).Err?
    ensures r.Err? ==> r.error == Get(store, basePath, path).error
    ensures r.Ok? ==> var doc := GetDocument(store, basePath, path).value;
      |r.value| == |store.tree[doc]| &&
      forall i :: 0 <= i < |r.value| ==>
        r.value[i] == DocumentResource(store, UnresolvePath(basePath, ChildPath(doc, store.tree[doc][i])), ChildPath(doc, store.tree[doc][i]))
  {
    var resource := Get(store, basePath, path);
    if resource.Err? {
      return Err(resource.error);
    }
    var doc := GetDocument(store, basePath, path).value;
    var rs := BuildCollection(store, basePath, store.ChildNodes(doc));
    return Ok(rs);
  }

  // ---------------------------------------------------------------------
  // remove and move

  /**
   * The calls `removeNodes` issues: a `remove` per document, in order, and
   * one `flush`; the first document the manager fails on ends the sequence.
   */
  function RemoveCalls(documents: seq<string>, failing: set<string>): seq<Call>
  {
    if |documents| == 0 then [Flush]
    else if documents[0] in failing then []
    else [RemoveDocument(documents[0])] + RemoveCalls(documents[1..], failing)
  }

  /**
   * When no document fails, every document is removed, in order, and the
   * manager is flushed exactly once, at the end; otherwise it is never flushed.
   */
  lemma {:induction false} RemoveCallsShape(documents: seq<string>, failing: set<string>)
    ensures var calls := RemoveCalls(documents, failing);
      FirstFailing(documents, failing).None? ==>
        |calls| == |documents| + 1 && calls[|documents|] == Flush &&
        forall i :: 0 <= i < |documents| ==> calls[i] == RemoveDocument(documents[i])
    ensures FirstFailing(documents, failing).Some? ==> Flush !in RemoveCalls(documents, failing)
    decreases |documents|
  {
    if |documents| > 0 && documents[0] !in failing {
      RemoveCallsShape(documents[1..], failing);
    }
  }

  /** `removeNodes`: remove each document, then flush. */
  method RemoveNodes(store: Store, documents: seq<string>) returns (o: Outcome)
    modifies store`log
    ensures o == Escaping(documents, store.failing)
    ensures store.log == old(store.log) + RemoveCalls(documents, store.failing)
  {
    var i := 0;
    while i < |documents|
      invariant 0 <= i <= |documents|
      invariant forall j :: 0 <= j < i ==> documents[j] !in store.failing
      invariant store.log + RemoveCalls(documents[i..], store.failing) == old(store.log) + RemoveCalls(documents, store.failing)
    {
      var step := store.RemoveDocument(documents[i]);
      if step.Fail? {
        EscapingAt(documents, i, store.failing);
        return step;
      }
      assert documents[i..][1..] == documents[i + 1..];
      i := i + 1;
    }
    store.FlushManager();
    EscapingAt(documents, i, store.failing);
    return Pass;
  }

  /**
   * The calls `moveNodes` issues: for a plain query the first document moves
   * to the target itself; for a globbed query every document moves under the
   * target, in order, stopping at the first failure; then the manager is
   * flushed.
   */
  function MoveCalls(documents: seq<string>, globbed: bool, targetPath: string, failing: set<string>): seq<Call>
    requires |documents| > 0
  {
    if !globbed then
      (if documents[0] in failing then [] else [MoveDocument(documents[0], targetPath), Flush])
    else GlobMoveCalls(documents, targetPath, failing)
  }

  function GlobMoveCalls(documents: seq<string>, targetPath: string, failing: set<string>): seq<Call>
  {
    if |documents| == 0 then [Flush]
    else if documents[0] in failing then []
    else [MoveDocument(documents[0], GlobTarget(targetPath, documents[0]))] + GlobMoveCalls(documents[1..], targetPath, failing)
  }

  /**
   * For a globbed query with no failing document, document i moves to the
   * target followed by "/" and its node name, and the manager is flushed
   * once, at the end.
   */
  lemma {:induction false} GlobMoveCallsShape(documents: seq<string>, targetPath: string, failing: set<string>)
    requires FirstFailing(documents, failing).None?
    ensures var calls := GlobMoveCalls(documents, targetPath, failing);
      |calls| == |documents| + 1 && calls[|documents|] == Flush &&
      forall i :: 0 <= i < |documents| ==> calls[i] == MoveDocument(documents[i], targetPath + "/" + Basename(documents[i]))
    decreases |documents|
  {
    if |documents| > 0 {
      GlobMoveCallsShape(documents[1..], targetPath, failing);
    }
  }

  /** `moveNodes`: `doMoveNodes`, then flush. */
  method MoveNodes(store: Store, documents: seq<string>, globbed: bool, targetPath: string) returns (o: Outcome)
    requires |documents| > 0
    modifies store`log
    ensures o == (if globbed then Escaping(documents, store.failing) else Escaping(documents[..1], store.failing))
    ensures store.log == old(store.log) + MoveCalls(documents, globbed, targetPath, store.failing)
  {
    if !globbed {
      o := store.MoveDocument(documents[0], targetPath);
      EscapingAt(documents[..1], if o.Fail? then 0 else 1, store.failing);
      if o.Pass? {
        store.FlushManager();
      }
      return;
    }
    var i := 0;
    while i < |documents|
      invariant 0 <= i <= |documents|
      invariant forall j :: 0 <= j < i ==> documents[j] !in store.failing
      invariant store.log + GlobMoveCalls(documents[i..], targetPath, store.failing)
        == old(store.log) + GlobMoveCalls(documents, targetPath, store.failing)
    {
      var step := store.MoveDocument(documents[i], GlobTarget(targetPath, documents[i]));
      if step.Fail? {
        EscapingAt(documents, i, store.failing);
        return step;
      }
      assert documents[i..][1..] == documents[i + 1..];
      i := i + 1;
    }
    store.FlushManager();
    EscapingAt(documents, i, store.failing);
    return Pass;
  }

  // ---------------------------------------------------------------------
  // reorder

  /**
   * The `reorder` call `reorderNode` issues on the parent document, whose
   * children are `names`, to put the child `name` at `position`: before the
   * first child for 0, before the child after `position` when there is one,
   * and after the last child otherwise.
   */
  function ReorderCall(parent: string, names: seq<string>, name: string, position: nat): Call
    requires |names| > 0
  {
    if position == 0 then Reorder(parent, name, names[0], true)
    else if position + 1 < |names| then Reorder(parent, name, names[position + 1], true)
    else Reorder(parent, name, names[|names| - 1], false)
  }

  /** The child order that the call leaves behind. */
  function Reordered(names: seq<string>, name: string, position: nat): (r: seq<string>)
    requires name in names
    ensures multiset(r) == multiset(names)
  {
    if position == 0 then ReorderName(names, name, names[0], true)
    else if position + 1 < |names| then ReorderName(names, name, names[position + 1], true)
    else ReorderName(names, name, names[|names| - 1], false)
  }

  /** Position 0 always makes the node the first child. */
  lemma ReorderToFront(names: seq<string>, name: string)
    requires Distinct(names) && name in names
    ensures name in Reordered(names, name, 0)
    ensures IndexOf(Reordered(names, name, 0), name) == 0
  {
    assert name in multiset(Reordered(names, name, 0));
    if name != names[0] {
      DistinctIndex(names, 0);
      ReorderIndex(names, name, names[0], true);
    }
  }

  /**
   * A position that has a next sibling puts a node that sits at or before
   * it exactly at that position.
   */
  lemma ReorderForward(names: seq<string>, name: string, position: nat)
    requires Distinct(names) && name in names
    requires position + 1 < |names| && IndexOf(names, name) <= position
    ensures name in Reordered(names, name, position)
    ensures IndexOf(Reordered(names, name, position), name) == position
  {
    if position == 0 {
      ReorderToFront(names, name);
    } else {
      assert name in multiset(Reordered(names, name, position));
      DistinctIndex(names, position + 1);
      ReorderIndex(names, name, names[position + 1], true);
    }
  }

  /**
   * A position without a next sibling (the last one or beyond) makes the
   * node the last child.
   */
  lemma ReorderToEnd(names: seq<string>, name: string, position: nat)
    requires Distinct(names) && name in names
    requires position >= 1 && position + 1 >= |names|
    ensures name in Reordered(names, name, position)
    ensures IndexOf(Reordered(names, name, position), name) == |names| - 1
  {
    var last := names[|names| - 1];
    DistinctIndex(names, |names| - 1);
    if name == last {
      assert Reordered(names, name, position) == names;
    } else {
      assert name in multiset(Reordered(names, name, position));
      ReorderIndex(names, name, last, false);
    }
  }

  /**
   * As written, a node that sits after a position (other than 0) with a next
   * sibling lands one place too far back: at `position + 1`.
   */
  lemma ReorderBackwardOffByOne(names: seq<string>, name: string, position: nat)
    requires Distinct(names) && name in names
    requires 1 <= position && position + 1 < |names| && IndexOf(names, name) > position
    ensures name in Reordered(names, name, position)
    ensures IndexOf(Reordered(names, name, position), name) == position + 1
  {
    var dest := names[position + 1];
    DistinctIndex(names, position + 1);
    if name == dest {
      assert Reordered(names, name, position) == names;
    } else {
      assert name in multiset(Reordered(names, name, position));
      ReorderIndex(names, name, dest, true);
    }
  }

  /** Siblings [a, b, c, d]: moving d to position 1 leaves it at position 2. */
  lemma ReorderBackwardExample()
    ensures "d" in Reordered(["a", "b", "c", "d"], "d", 1)
    ensures IndexOf(Reordered(["a", "b", "c", "d"], "d", 1), "d") == 2
  {
    var names := ["a", "b", "c", "d"];
    DistinctIndex(names, 3);
    ReorderBackwardOffByOne(names, "d", 1);
  }

  /**
   * The child order that puts the node at `position` wherever it starts:
   * before the child now at `position` when the node comes from behind it,
   * before the next one otherwise, and after the last one when there is no
   * next one.
   */
  function ReorderedToPosition(names: seq<string>, name: string, position: nat): (r: seq<string>)
    requires name in names
    ensures multiset(r) == multiset(names)
  {
    if position + 1 < |names| then
      ReorderName(names, name, if IndexOf(names, name) < position then names[position + 1] else names[position], true)
    else ReorderName(names, name, names[|names| - 1], false)
  }

  /** The corrected order puts the node at `position`, or last when there is none. */
  lemma ReorderToPosition(names: seq<string>, name: string, position: nat)
    requires Distinct(names) && name in names
    ensures name in ReorderedToPosition(names, name, position)
    ensures IndexOf(ReorderedToPosition(names, name, position), name) ==
      if position < |names| then position else |names| - 1
  {
    var r := ReorderedToPosition(names, name, position);
    assert name in multiset(r);
    if position + 1 < |names| {
      var dest := if IndexOf(names, name) < position then names[position + 1] else names[position];
      DistinctIndex(names, position);
      DistinctIndex(names, position + 1);
      if name != dest {
        ReorderIndex(names, name, dest, true);
      }
    } else {
      var last := names[|names| - 1];
      DistinctIndex(names, |names| - 1);
      if name != last {
        ReorderIndex(names, name, last, false);
      }
    }
  }

  /**
   * `reorderNode`: find the document, issue the `reorder` call on its parent
   * document and flush. The root has no parent.
   */
  method ReorderNode(store: Store, basePath: Option<string>, sourcePath: PathArg, position: nat) returns (o: Outcome)
    requires store.Valid()
    modifies store`tree, store`log
    ensures store.Valid()
    ensures old(GetDocument(store, basePath, sourcePath)).Err? ==>
      o == Fail(old(GetDocument(store, basePath, sourcePath)).error) && store.tree == old(store.tree) && store.log == old(store.log)
    ensures old(GetDocument(store, basePath, sourcePath)) == Ok("/") ==>
      o == Fail(NoParent("/")) && store.tree == old(store.tree) && store.log == old(store.log)
    ensures old(GetDocument(store, basePath, sourcePath)).Ok? && old(GetDocument(store, basePath, sourcePath)).value != "/" ==>
      var doc := old(GetDocument(store, basePath, sourcePath)).value;
      o == Pass && doc != "" &&
      var parent := Dirname(doc);
      parent in old(store.tree) &&
      var names := old(store.tree)[parent];
      Basename(doc) in names &&
      store.tree == old(store.tree)[parent := Reordered(names, Basename(doc), position)] &&
      store.log == old(store.log) + [ReorderCall(parent, names, Basename(doc), position), Flush]
  {
    var doc := GetDocument(store, basePath, sourcePath);
    if doc.Err? {
      return Fail(doc.error);
    }
    if doc.value == "/" {
      return Fail(NoParent("/"));
    }
    assert ParentLists(store.tree, doc.value);
    var parent := Dirname(doc.value);
    var name := Basename(doc.value);
    ReorderChildren(store, parent, name, position);
    store.FlushManager();
    return Pass;
  }

  /** The `reorder` call of `reorderNode` on the children of `parent`. */
  method ReorderChildren(store: Store, parent: string, name: string, position: nat)
    requires store.Valid() && parent in store.tree && name in store.tree[parent]
    modifies store`tree, store`log
    ensures store.Valid()
    ensures store.tree == old(store.tree)[parent := Reordered(old(store.tree)[parent], name, position)]
    ensures store.log == old(store.log) + [ReorderCall(parent, old(store.tree)[parent], name, position)]
  {
    var names := store.tree[parent];
    var before := position == 0 || position + 1 < |names|;
    var target := if position == 0 then names[0] else if position + 1 < |names| then names[position + 1] else names[|names| - 1];
    assert ReorderCall(parent, names, name, position) == Reorder(parent, name, target, before);
    assert Reordered(names, name, position) == ReorderName(names, name, target, before);
    store.ReorderChild(parent, name, target, before);
  }
}
