/**
 * The PHPCR flavour of the repository: resources wrap PHPCR nodes, removal
 * and moves go through the session and end with one `save`, reordering is
 * done with `orderBefore` on the parent node.
 */
module PhpcrRepository {
  import opened Wrappers
  import opened Paths
  import opened Backend
  import opened Resources
  import opened PathResolution

  /** The resource for a node, exposed at `path`. */
  function NodeResource(store: Store, path: string, node: string): (r: Resource)
  {
    Resource(path, NodePayload(node), Some(store.typeOf(node)), true)
  }

  /**
   * `getNode`: resolve the path and look the node up; a missing node is
   * reported with the resolved path.
   */
  function GetNode(store: Store, basePath: Option<string>, path: PathArg): (r: Result<string>)
    reads store
    ensures ResolvePath(basePath, path).Err? ==> r == ResolvePath(basePath, path)
    ensures ResolvePath(basePath, path).Ok? ==> r == store.GetNode(ResolvePath(basePath, path).value)
    ensures r.Ok? ==> r.value in store.tree && r == ResolvePath(basePath, path)
  {
    var resolved := ResolvePath(basePath, path);
    if resolved.Err? then resolved else store.GetNode(resolved.value)
  }

  /**
   * `get`: the resource carries the path as the caller wrote it and the node
   * found at the resolved path.
   */
  function Get(store: Store, basePath: Option<string>, path: PathArg): (r: Result<Resource>)
    reads store
    ensures r.Ok? <==> GetNode(store, basePath, path).Ok?
    ensures r.Err? ==> r.error == GetNode(store, basePath, path).error
    ensures r.Ok? ==> path.Str? && r.value.path == path.s
    ensures r.Ok? ==> r.value.payload == NodePayload(ResolvePath(basePath, path).value) && r.value.isCmf
  {
    var node := GetNode(store, basePath, path);
    if node.Err? then Err(node.error) else Ok(NodeResource(store, path.s, node.value))
  }

  /** `buildCollection`: one resource per node, in order, at the unresolved node path. */
  method BuildCollection(store: Store, basePath: Option<string>, nodes: seq<string>) returns (rs: seq<Resource>)
    ensures |rs| == |nodes|
    ensures forall i :: 0 <= i < |nodes| ==> rs[i] == NodeResource(store, UnresolvePath(basePath, nodes[i]), nodes[i])
  {
    rs := [];
    if |nodes| == 0 {
      return;
    }
    for i := 0 to |nodes|
      invariant |rs| == i
      invariant forall j :: 0 <= j < i ==> rs[j] == NodeResource(store, UnresolvePath(basePath, nodes[j]), nodes[j])
    {
      rs := rs + [NodeResource(store, UnresolvePath(basePath, nodes[i]), nodes[i])];
    }
  }

  /** `listChildren`: the collection built from the child nodes of the node at `path`. */
  method ListChildren(store: Store, basePath: Option<string>, path: PathArg) returns (r: Result<seq<Resource>>)
    ensures r.Err? <==> GetNode(store, basePath, path).Err?
    ensures r.Err? ==> r.error == GetNode(store, basePath, path).error
    ensures r.Ok? ==> var node := GetNode(store, basePath, path).value;
      |r.value| == |store.tree[node]| &&
      forall i :: 0 <= i < |r.value| ==>
        r.value[i] == NodeResource(store, UnresolvePath(basePath, ChildPath(node, store.tree[node][i])), ChildPath(node, store.tree[node][i]))
  {
    var node := GetNode(store, basePath, path);
    if node.Err? {
      return Err(node.error);
    }
    var rs := BuildCollection(store, basePath, store.ChildNodes(node.value));
    return Ok(rs);
  }

  /**
   * With a canonical base path, a child of the node found for `path` is
   * exposed at the sanitized path followed by "/" and the child's name.
   */
  lemma ChildResourcePath(base: seq<string>, path: PathArg, name: string)
    requires CleanSegments(base) && |base| >= 1
    requires PuliAbstractRepository.SanitizePath(path).Ok?
    ensures var s := PuliAbstractRepository.SanitizePath(path).value;
      var node := ResolvePath(Some(AbsPath(base)), path).value;
      UnresolvePath(Some(AbsPath(base)), ChildPath(node, name)) == if s == "/" then "/" + name else s + "/" + name
  {
    var b := AbsPath(base);
    var s := PuliAbstractRepository.SanitizePath(path).value;
    assert |b| > 1 by {
      JoinNoLeadingSlash(base);
    }
    ResolveWithBase(base, path);
    if s == "/" {
      assert ChildPath(b, name) == (b + "/") + name;
      AppendAssoc(b, "/", name);
      UnresolvePrefixed(b, "/" + name);
    } else {
      assert ChildPath(b + s, name) == ((b + s) + "/") + name;
      AppendAssoc(b, s, "/");
      AppendAssoc(b, s + "/", name);
      UnresolvePrefixed(b, s + "/" + name);
    }
  }

  // ---------------------------------------------------------------------
  // remove and move

  /**
   * The calls `removeNodes` issues: a `remove` per node, in order, and one
   * `save`; the first node the backend fails on ends the sequence.
   */
  function RemoveCalls(nodes: seq<string>, failing: set<string>): seq<Call>
  {
    if |nodes| == 0 then [Save]
    else if nodes[0] in failing then []
    else [RemoveNode(nodes[0])] + RemoveCalls(nodes[1..], failing)
  }

  /**
   * When no node fails, every node is removed, in order, and the session is
   * saved exactly once, at the end; otherwise the session is never saved.
   */
  lemma {:induction false} RemoveCallsShape(nodes: seq<string>, failing: set<string>)
    ensures var calls := RemoveCalls(nodes, failing);
      FirstFailing(nodes, failing).None? ==>
        |calls| == |nodes| + 1 && calls[|nodes|] == Save &&
        forall i :: 0 <= i < |nodes| ==> calls[i] == RemoveNode(nodes[i])
    ensures FirstFailing(nodes, failing).Some? ==> Save !in RemoveCalls(nodes, failing)
    decreases |nodes|
  {
    if |nodes| > 0 && nodes[0] !in failing {
      RemoveCallsShape(nodes[1..], failing);
    }
  }

  /** `removeNodes`: remove each node, then save the session. */
  method RemoveNodes(store: Store, nodes: seq<string>) returns (o: Outcome)
    modifies store`log
    ensures o == Escaping(nodes, store.failing)
    ensures store.log == old(store.log) + RemoveCalls(nodes, store.failing)
  {
    var i := 0;
    while i < |nodes|
      invariant 0 <= i <= |nodes|
      invariant forall j :: 0 <= j < i ==> nodes[j] !in store.failing
      invariant store.log + RemoveCalls(nodes[i..], store.failing) == old(store.log) + RemoveCalls(nodes, store.failing)
    {
      var step := store.RemoveNode(nodes[i]);
      if step.Fail? {
        EscapingAt(nodes, i, store.failing);
        return step;
      }
      assert nodes[i..][1..] == nodes[i + 1..];
      i := i + 1;
    }
    store.SaveSession();
    EscapingAt(nodes, i, store.failing);
    return Pass;
  }

  /**
   * The calls `moveNodes` issues: for a plain query the first node moves to
   * the target itself; for a globbed query every node moves under the target,
   * in order, stopping at the first failure; then the session is saved.
   */
  function MoveCalls(nodes: seq<string>, globbed: bool, targetPath: string, failing: set<string>): seq<Call>
    requires |nodes| > 0
  {
    if !globbed then
      (if nodes[0] in failing then [] else [MoveNode(nodes[0], targetPath), Save])
    else GlobMoveCalls(nodes, targetPath, failing)
  }

  function GlobMoveCalls(nodes: seq<string>, targetPath: string, failing: set<string>): seq<Call>
  {
    if |nodes| == 0 then [Save]
    else if nodes[0] in failing then []
    else [MoveNode(nodes[0], GlobTarget(targetPath, nodes[0]))] + GlobMoveCalls(nodes[1..], targetPath, failing)
  }

  /**
   * For a globbed query with no failing node, node i moves to the target
   * followed by "/" and its name, and the session is saved once, at the end.
   */
  lemma {:induction false} GlobMoveCallsShape(nodes: seq<string>, targetPath: string, failing: set<string>)
    requires FirstFailing(nodes, failing).None?
    ensures var calls := GlobMoveCalls(nodes, targetPath, failing);
      |calls| == |nodes| + 1 && calls[|nodes|] == Save &&
      forall i :: 0 <= i < |nodes| ==> calls[i] == MoveNode(nodes[i], targetPath + "/" + Basename(nodes[i]))
    decreases |nodes|
  {
    if |nodes| > 0 {
      GlobMoveCallsShape(nodes[1..], targetPath, failing);
    }
  }

  /** `moveNodes`: `doMoveNodes`, then save the session. */
  method MoveNodes(store: Store, nodes: seq<string>, globbed: bool, targetPath: string) returns (o: Outcome)
    requires |nodes| > 0
    modifies store`log
    ensures o == (if globbed then Escaping(nodes, store.failing) else Escaping(nodes[..1], store.failing))
    ensures store.log == old(store.log) + MoveCalls(nodes, globbed, targetPath, store.failing)
  {
    if !globbed {
      o := store.MoveNode(nodes[0], targetPath);
      EscapingAt(nodes[..1], if o.Fail? then 0 else 1, store.failing);
      if o.Pass? {
        store.SaveSession();
      }
      return;
    }
    var i := 0;
    while i < |nodes|
      invariant 0 <= i <= |nodes|
      invariant forall j :: 0 <= j < i ==> nodes[j] !in store.failing
      invariant store.log + GlobMoveCalls(nodes[i..], targetPath, store.failing)
        == old(store.log) + GlobMoveCalls(nodes, targetPath, store.failing)
    {
      var step := store.MoveNode(nodes[i], GlobTarget(targetPath, nodes[i]));
      if step.Fail? {
        EscapingAt(nodes, i, store.failing);
        return step;
      }
      assert nodes[i..][1..] == nodes[i + 1..];
      i := i + 1;
    }
    store.SaveSession();
    EscapingAt(nodes, i, store.failing);
    return Pass;
  }

  // ---------------------------------------------------------------------
  // reorder

  /**
   * The `orderBefore` calls `reorderNode` issues on `parent`, whose children
   * are `names`, to put the child `name` at `position`.
   */
  function ReorderCalls(parent: string, names: seq<string>, name: string, position: nat): seq<Call>
    requires |names| > 0
  {
    if position == 0 then [OrderBefore(parent, name, names[0])]
    else if position + 1 < |names| then [OrderBefore(parent, name, names[position + 1])]
    else
      var last := names[|names| - 1];
      [OrderBefore(parent, name, last), OrderBefore(parent, last, name)]
  }

  /** The child order that the calls leave behind. */
  function Reordered(names: seq<string>, name: string, position: nat): (r: seq<string>)
    requires name in names
    ensures multiset(r) == multiset(names)
  {
    if position == 0 then OrderNameBefore(names, name, names[0])
    else if position + 1 < |names| then OrderNameBefore(names, name, names[position + 1])
    else
      ToEnd(names, name)
  }

  /** Position 0 always makes the node the first child. */
  lemma ReorderToFront(names: seq<string>, name: string)
    requires Distinct(names) && name in names
    ensures name in Reordered(names, name, 0)
    ensures IndexOf(Reordered(names, name, 0), name) == 0
  {
    assert name in multiset(Reordered(names, name, 0));
    if name != names[0] {
      DistinctIndex(names, 0);
      OrderBeforePosition(names, name, names[0]);
    }
  }

  /**
   * A position that has a next sibling puts a node that sits at or before
   * it exactly at that position.
   */
  lemma ReorderForward(names: seq<string>, name: string, position: nat)
    requires Distinct(names) && name in names
    requires position + 1 < |names| && IndexOf(names, name) <= position
    ensures name in Reordered(names, name, position)
    ensures IndexOf(Reordered(names, name, position), name) == position
  {
    if position == 0 {
      ReorderToFront(names, name);
    } else {
      var dest := names[position + 1];
      DistinctIndex(names, position + 1);
      OrderBeforePosition(names, name, dest);
    }
  }

  /**
   * A position without a next sibling (the last one or beyond) makes the
   * node the last child.
   */
  lemma ReorderToEnd(names: seq<string>, name: string, position: nat)
    requires Distinct(names) && name in names
    requires position >= 1 && position + 1 >= |names|
    ensures name in Reordered(names, name, position)
    ensures IndexOf(Reordered(names, name, position), name) == |names| - 1
  {
    ToEndMovesToEnd(names, name);
    MovedToEndIsLast(names, name);
  }

  /**
   * As written, a node that sits after a position (other than 0) with a next
   * sibling lands one place too far back: at `position + 1`.
   */
  lemma ReorderBackwardOffByOne(names: seq<string>, name: string, position: nat)
    requires Distinct(names) && name in names
    requires 1 <= position && position + 1 < |names| && IndexOf(names, name) > position
    ensures name in Reordered(names, name, position)
    ensures IndexOf(Reordered(names, name, position), name) == position + 1
  {
    var dest := names[position + 1];
    DistinctIndex(names, position + 1);
    if name == dest {
      assert Reordered(names, name, position) == names;
    } else {
      OrderBeforePosition(names, name, dest);
    }
  }

  /** Siblings [a, b, c, d]: moving d to position 1 leaves it at position 2. */
  lemma ReorderBackwardExample()
    ensures "d" in Reordered(["a", "b", "c", "d"], "d", 1)
    ensures IndexOf(Reordered(["a", "b", "c", "d"], "d", 1), "d") == 2
  {
    var names := ["a", "b", "c", "d"];
    DistinctIndex(names, 3);
    ReorderBackwardOffByOne(names, "d", 1);
  }

  /**
   * The child order that puts the node at `position` wherever it starts:
   * before the child now at `position` when the node comes from behind it,
   * before the next one otherwise, and last when there is no next one.
   */
  function ReorderedToPosition(names: seq<string>, name: string, position: nat): (r: seq<string>)
    requires name in names
    ensures multiset(r) == multiset(names)
  {
    if position + 1 < |names| then
      OrderNameBefore(names, name, if IndexOf(names, name) < position then names[position + 1] else names[position])
    else
      ToEnd(names, name)
  }

  /** The corrected order puts the node at `position`, or last when there is none. */
  lemma ReorderToPosition(names: seq<string>, name: string, position: nat)
    requires Distinct(names) && name in names
    ensures name in ReorderedToPosition(names, name, position)
    ensures IndexOf(ReorderedToPosition(names, name, position), name) ==
      if position < |names| then position else |names| - 1
  {
    var r := ReorderedToPosition(names, name, position);
    assert name in multiset(r);
    if position + 1 < |names| {
      var dest := if IndexOf(names, name) < position then names[position + 1] else names[position];
      DistinctIndex(names, position);
      DistinctIndex(names, position + 1);
      if name != dest {
        OrderBeforePosition(names, name, dest);
      }
    } else {
      ToEndMovesToEnd(names, name);
      MovedToEndIsLast(names, name);
    }
  }

  /**
   * `reorderNode`: find the node, issue the `orderBefore` calls on its parent
   * and save the session. The root has no parent.
   */
  method ReorderNode(store: Store, basePath: Option<string>, sourcePath: PathArg, position: nat) returns (o: Outcome)
    requires store.Valid()
    modifies store`tree, store`log
    ensures store.Valid()
    ensures old(GetNode(store, basePath, sourcePath)).Err? ==>
      o == Fail(old(GetNode(store, basePath, sourcePath)).error) && store.tree == old(store.tree) && store.log == old(store.log)
    ensures old(GetNode(store, basePath, sourcePath)) == Ok("/") ==>
      o == Fail(NoParent("/")) && store.tree == old(store.tree) && store.log == old(store.log)
    ensures old(GetNode(store, basePath, sourcePath)).Ok? && old(GetNode(store, basePath, sourcePath)).value != "/" ==>
      var node := old(GetNode(store, basePath, sourcePath)).value;
      o == Pass && node != "" &&
      var parent := Dirname(node);
      parent in old(store.tree) &&
      var names := old(store.tree)[parent];
      Basename(node) in names &&
      store.tree == old(store.tree)[parent := Reordered(names, Basename(node), position)] &&
      store.log == old(store.log) + ReorderCalls(parent, names, Basename(node), position) + [Save]
  {
    var node := GetNode(store, basePath, sourcePath);
    if node.Err? {
      return Fail(node.error);
    }
    if node.value == "/" {
      return Fail(NoParent("/"));
    }
    assert ParentLists(store.tree, node.value);
    var parent := Dirname(node.value);
    var name := Basename(node.value);
    OrderChildren(store, parent, name, position);
    store.SaveSession();
    return Pass;
  }

  /** The `orderBefore` calls of `reorderNode` on the children of `parent`. */
  method OrderChildren(store: Store, parent: string, name: string, position: nat)
    requires store.Valid() && parent in store.tree && name in store.tree[parent]
    modifies store`tree, store`log
    ensures store.Valid()
    ensures store.tree == old(store.tree)[parent := Reordered(old(store.tree)[parent], name, position)]
    ensures store.log == old(store.log) + ReorderCalls(parent, old(store.tree)[parent], name, position)
  {
    var names := store.tree[parent];
    if position == 0 {
      store.OrderChildBefore(parent, name, names[0]);
    } else if position + 1 < |names| {
      store.OrderChildBefore(parent, name, names[position + 1]);
    } else {
      store.OrderChildToEnd(parent, name);
      ToEndMovesToEnd(names, name);
    }
  }
}
