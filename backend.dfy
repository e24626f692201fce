/**
 * The content repository behind the repositories: a tree of nodes, each
 * identified by its absolute path and holding the ordered names of its
 * children. The same tree serves as PHPCR session and as PHPCR-ODM document
 * manager (a document's id is its node's path). Removals, moves, saves and
 * flushes are recorded in a call log; child reordering changes the tree.
 */
module Backend {
  import opened Wrappers
  import opened Paths

  /** Node path -> ordered child names. */
  type Tree = map<string, seq<string>>

  /** A call issued on the session or the document manager. */
  datatype Call =
    | RemoveNode(path: string)
    | MoveNode(src: string, dst: string)
    | OrderBefore(parent: string, src: string, dest: string)
    | Save
    | RemoveDocument(id: string)
    | MoveDocument(id: string, dst: string)
    | Reorder(parent: string, src: string, target: string, before: bool)
    | Flush

  // ---------------------------------------------------------------------
  // ordered child-name lists

  predicate Distinct<T(==)>(s: seq<T>)
  {
    forall i, j :: 0 <= i < j < |s| ==> s[i] != s[j]
  }

  /** The position of the first occurrence of `x`. */
  function IndexOf<T(==)>(s: seq<T>, x: T): (i: nat)
    requires x in s
    ensures i < |s| && s[i] == x && x !in s[..i]
  {
    if s[0] == x then 0
    else
      var k := IndexOf(s[1..], x);
      assert s[..k + 1] == [s[0]] + s[1..][..k];
      k + 1
  }

  /** The list without the first occurrence of `x`. */
  function RemoveName<T(==)>(s: seq<T>, x: T): (r: seq<T>)
    requires x in s
    ensures |r| == |s| - 1
    ensures multiset(r) + multiset{x} == multiset(s)
  {
    var i := IndexOf(s, x);
    assert s == s[..i] + [x] + s[i + 1..];
    s[..i] + s[i + 1..]
  }

  /** The list with `x` inserted at position `k`. */
  function InsertAt<T(==)>(s: seq<T>, k: nat, x: T): (r: seq<T>)
    requires k <= |s|
    ensures |r| == |s| + 1 && r[k] == x
    ensures multiset(r) == multiset(s) + multiset{x}
  {
    assert s == s[..k] + s[k..];
    s[..k] + [x] + s[k..]
  }

  /**
   * PHPCR `orderBefore(src, dest)`: `src` is moved to the place immediately
   * before `dest`; when both are the same child nothing changes.
   */
  function OrderNameBefore<T(==)>(names: seq<T>, src: T, dest: T): (r: seq<T>)
    requires src in names && dest in names
    ensures multiset(r) == multiset(names)
  {
    if src == dest then names
    else
      var rest := RemoveName(names, src);
      assert dest in multiset(rest);
      InsertAt(rest, IndexOf(rest, dest), src)
  }

  /**
   * PHPCR-ODM `reorder(parent, src, target, before)`: `src` is moved to the
   * place immediately before (or after) `target`; the same child is left alone.
   */
  function ReorderName<T(==)>(names: seq<T>, src: T, target: T, before: bool): (r: seq<T>)
    requires src in names && target in names
    ensures multiset(r) == multiset(names)
  {
    if src == target then names
    else
      var rest := RemoveName(names, src);
      assert target in multiset(rest);
      var k := IndexOf(rest, target);
      InsertAt(rest, if before then k else k + 1, src)
  }

  // ---------------------------------------------------------------------
  // positions in distinct lists

  lemma DistinctIndex<T>(s: seq<T>, j: nat)
    requires Distinct(s) && j < |s|
    ensures IndexOf(s, s[j]) == j
  {
  }

  lemma RemoveNameDistinct<T>(s: seq<T>, x: T)
    requires Distinct(s) && x in s
    ensures Distinct(RemoveName(s, x)) && x !in RemoveName(s, x)
  {
    var i := IndexOf(s, x);
    var r := RemoveName(s, x);
    assert r == s[..i] + s[i + 1..];
    forall a, b | 0 <= a < b < |r| ensures r[a] != r[b] {
      var a' := if a < i then a else a + 1;
      var b' := if b < i then b else b + 1;
      assert r[a] == s[a'] && r[b] == s[b'];
    }
  }

  lemma InsertAtDistinct<T>(s: seq<T>, k: nat, x: T)
    requires Distinct(s) && x !in s && k <= |s|
    ensures Distinct(InsertAt(s, k, x))
  {
    var r := InsertAt(s, k, x);
    assert r == s[..k] + [x] + s[k..];
    forall a, b | 0 <= a < b < |r| ensures r[a] != r[b] {
      if a != k && b != k {
        var a' := if a < k then a else a - 1;
        var b' := if b < k then b else b - 1;
        assert r[a] == s[a'] && r[b] == s[b'];
      } else if a == k {
        assert r[b] == s[b - 1];
      } else {
        assert r[a] == s[a];
      }
    }
  }

  /** Removing `x` shifts the children after it one place to the front. */
  lemma IndexAfterRemove<T>(s: seq<T>, x: T, y: T)
    requires Distinct(s) && x in s && y in s && x != y
    ensures y in RemoveName(s, x)
    ensures IndexOf(RemoveName(s, x), y) ==
      if IndexOf(s, y) > IndexOf(s, x) then IndexOf(s, y) - 1 else IndexOf(s, y)
  {
    var i, j := IndexOf(s, x), IndexOf(s, y);
    var r := RemoveName(s, x);
    assert r == s[..i] + s[i + 1..];
    RemoveNameDistinct(s, x);
    var j' := if j > i then j - 1 else j;
    assert r[j'] == y;
    DistinctIndex(r, j');
  }

  /** Inserting a new child at `k` shifts the children from `k` on one place back. */
  lemma IndexAfterInsert<T>(s: seq<T>, k: nat, x: T, y: T)
    requires Distinct(s) && x !in s && k <= |s| && y in s
    ensures y in InsertAt(s, k, x)
    ensures IndexOf(InsertAt(s, k, x), y) == if IndexOf(s, y) >= k then IndexOf(s, y) + 1 else IndexOf(s, y)
  {
    var j := IndexOf(s, y);
    var r := InsertAt(s, k, x);
    assert r == s[..k] + [x] + s[k..];
    InsertAtDistinct(s, k, x);
    var j' := if j >= k then j + 1 else j;
    assert r[j'] == y;
    DistinctIndex(r, j');
  }

  lemma IndexOfInserted<T>(s: seq<T>, k: nat, x: T)
    requires Distinct(s) && x !in s && k <= |s|
    ensures IndexOf(InsertAt(s, k, x), x) == k
  {
    InsertAtDistinct(s, k, x);
    DistinctIndex(InsertAt(s, k, x), k);
  }

  /**
   * `orderBefore(src, dest)` leaves `src` at the position `dest` had, less one
   * when `dest` came after `src`.
   */
  lemma OrderBeforePosition<T>(names: seq<T>, src: T, dest: T)
    requires Distinct(names) && src in names && dest in names && src != dest
    ensures Distinct(OrderNameBefore(names, src, dest))
    ensures IndexOf(OrderNameBefore(names, src, dest), src) ==
      if IndexOf(names, dest) > IndexOf(names, src) then IndexOf(names, dest) - 1 else IndexOf(names, dest)
  {
    var rest := RemoveName(names, src);
    RemoveNameDistinct(names, src);
    IndexAfterRemove(names, src, dest);
    InsertAtDistinct(rest, IndexOf(rest, dest), src);
    IndexOfInserted(rest, IndexOf(rest, dest), src);
  }

  /**
   * Under `orderBefore(src, dest)` any other child keeps its place among the
   * remaining children, and moves one back when it is at or after `dest`.
   */
  lemma OrderBeforeOther<T>(names: seq<T>, src: T, dest: T, y: T)
    requires Distinct(names) && src in names && dest in names && y in names && src != dest && y != src
    ensures y in OrderNameBefore(names, src, dest)
    ensures var rest := RemoveName(names, src);
      y in rest && dest in rest &&
      IndexOf(OrderNameBefore(names, src, dest), y) ==
        if IndexOf(rest, y) >= IndexOf(rest, dest) then IndexOf(rest, y) + 1 else IndexOf(rest, y)
  {
    var rest := RemoveName(names, src);
    RemoveNameDistinct(names, src);
    IndexAfterRemove(names, src, dest);
    IndexAfterRemove(names, src, y);
    IndexAfterInsert(rest, IndexOf(rest, dest), src, y);
  }

  /** Ordering a child before the last child puts it second to last. */
  lemma OrderBeforeLast<T>(names: seq<T>, src: T)
    requires Distinct(names) && src in names && src != names[|names| - 1]
    ensures RemoveName(names, src) == RemoveName(names, src)[..|names| - 2] + [names[|names| - 1]]
    ensures OrderNameBefore(names, src, names[|names| - 1]) ==
      RemoveName(names, src)[..|names| - 2] + [src, names[|names| - 1]]
  {
    var n := |names|;
    var last := names[n - 1];
    var rest := RemoveName(names, src);
    assert rest[n - 2..] == [last] by {
      var i := IndexOf(names, src);
      assert rest == names[..i] + names[i + 1..];
    }
    assert IndexOf(rest, last) == n - 2 by {
      RemoveNameDistinct(names, src);
      DistinctIndex(rest, n - 2);
    }
    assert OrderNameBefore(names, src, last) == rest[..n - 2] + [src] + rest[n - 2..];
    assert rest == rest[..n - 2] + rest[n - 2..];
  }

  /** Ordering the last child before the one ahead of it swaps the two. */
  lemma OrderLastBeforePrevious<T>(p: seq<T>, a: T, b: T)
    requires Distinct(p + [a, b])
    ensures OrderNameBefore(p + [a, b], b, a) == p + [b, a]
  {
    var s := p + [a, b];
    DistinctIndex(s, |s| - 1);
    var rest := RemoveName(s, b);
    assert rest == p + [a];
    RemoveNameDistinct(s, b);
    DistinctIndex(rest, |p|);
    assert rest[..|p|] == p && rest[|p|..] == [a];
  }

  /** The order left by moving `name` before the last child and then the last child before it. */
  function ToEnd<T(==)>(names: seq<T>, name: T): (r: seq<T>)
    requires name in names
    ensures multiset(r) == multiset(names)
  {
    var last := names[|names| - 1];
    var first := OrderNameBefore(names, name, last);
    OrderNameBefore(first, last, name)
  }

  /** The child `name` taken out of the children and appended behind them. */
  function MovedToEnd<T(==)>(names: seq<T>, name: T): (r: seq<T>)
    requires name in names
    ensures multiset(r) == multiset(names)
  {
    RemoveName(names, name) + [name]
  }

  /**
   * Ordering a child before the last one and then the last one before it
   * appends the child to the others, which keep their order.
   */
  lemma ToEndMovesToEnd<T>(names: seq<T>, name: T)
    requires Distinct(names) && name in names
    ensures ToEnd(names, name) == MovedToEnd(names, name)
  {
    if name == names[|names| - 1] {
      LastToEnd(names);
    } else {
      OtherToEnd(names, name);
    }
  }

  /** Moving the last child to the end leaves the order as it was. */
  lemma LastToEnd<T>(names: seq<T>)
    requires Distinct(names) && |names| > 0
    ensures ToEnd(names, names[|names| - 1]) == names
    ensures MovedToEnd(names, names[|names| - 1]) == names
  {
    var n := |names|;
    DistinctIndex(names, n - 1);
    assert RemoveName(names, names[n - 1]) == names[..n - 1];
    assert names == names[..n - 1] + [names[n - 1]];
  }

  /** Moving any other child to the end takes two steps through the last child. */
  lemma OtherToEnd<T>(names: seq<T>, name: T)
    requires Distinct(names) && name in names && name != names[|names| - 1]
    ensures ToEnd(names, name) == MovedToEnd(names, name)
  {
    var n := |names|;
    var last := names[n - 1];
    var rest := RemoveName(names, name);
    var p := rest[..n - 2];
    assert ToEnd(names, name) == p + [last, name] by {
      OrderBeforeLast(names, name);
      OrderBeforePosition(names, name, last);
      assert OrderNameBefore(names, name, last) == p + [name, last];
      OrderLastBeforePrevious(p, name, last);
    }
    assert rest == p + [last] by {
      OrderBeforeLast(names, name);
    }
    SnocSnoc(p, last, name);
  }

  /** Appending two elements one at a time appends the pair. */
  lemma SnocSnoc<T>(p: seq<T>, a: T, b: T)
    ensures (p + [a]) + [b] == p + [a, b]
  {
    assert [a] + [b] == [a, b];
    AppendAssoc(p, [a], [b]);
  }

  /** The appended child is the last one, and the children stay distinct. */
  lemma MovedToEndIsLast<T>(names: seq<T>, name: T)
    requires Distinct(names) && name in names
    ensures Distinct(MovedToEnd(names, name))
    ensures name in MovedToEnd(names, name) && IndexOf(MovedToEnd(names, name), name) == |names| - 1
  {
    var rest := RemoveName(names, name);
    RemoveNameDistinct(names, name);
    var r := rest + [name];
    forall i, j | 0 <= i < j < |r| ensures r[i] != r[j] {
      if j == |rest| {
        assert r[i] == rest[i];
      }
    }
    DistinctIndex(r, |rest|);
  }

  /** `reorder(src, target, before)` puts `src` right before or right after `target`. */
  lemma ReorderPosition<T>(names: seq<T>, src: T, target: T, before: bool)
    requires Distinct(names) && src in names && target in names && src != target
    ensures Distinct(ReorderName(names, src, target, before))
    ensures var r := ReorderName(names, src, target, before);
      target in r && IndexOf(r, src) == if before then IndexOf(r, target) - 1 else IndexOf(r, target) + 1
  {
    var rest := RemoveName(names, src);
    RemoveNameDistinct(names, src);
    assert target in multiset(rest);
    var k := IndexOf(rest, target);
    var at := if before then k else k + 1;
    InsertAtDistinct(rest, at, src);
    IndexOfInserted(rest, at, src);
    IndexAfterInsert(rest, at, src, target);
  }

  /**
   * In terms of the old order, `src` lands at the position `target` had,
   * less one when `target` came after `src`, plus one when it goes after.
   */
  lemma ReorderIndex<T>(names: seq<T>, src: T, target: T, before: bool)
    requires Distinct(names) && src in names && target in names && src != target
    ensures var t := IndexOf(names, target);
      IndexOf(ReorderName(names, src, target, before), src) ==
        (if t > IndexOf(names, src) then t - 1 else t) + (if before then 0 else 1)
  {
    var rest := RemoveName(names, src);
    RemoveNameDistinct(names, src);
    IndexAfterRemove(names, src, target);
    var k := IndexOf(rest, target);
    IndexOfInserted(rest, if before then k else k + 1, src);
  }

  /** The paths of the children `names` of the node at `parent`. */
  function ChildPaths(parent: string, names: seq<string>): (r: seq<string>)
    ensures |r| == |names|
    ensures forall i :: 0 <= i < |r| ==> r[i] == ChildPath(parent, names[i])
  {
    if |names| == 0 then [] else [ChildPath(parent, names[0])] + ChildPaths(parent, names[1..])
  }

  /** The child paths of a list are those of all but its last name, then the last one's. */
  lemma ChildPathsSnoc(parent: string, names: seq<string>)
    requires |names| > 0
    ensures ChildPaths(parent, names) == ChildPaths(parent, names[..|names| - 1]) + [ChildPath(parent, names[|names| - 1])]
  {
    var n := |names|;
    var init := ChildPaths(parent, names[..n - 1]);
    var all := ChildPaths(parent, names);
    forall i | 0 <= i < n - 1
      ensures all[i] == init[i]
    {
      assert names[..n - 1][i] == names[i];
    }
    SnocOf(all, init, ChildPath(parent, names[n - 1]));
  }

  /** A sequence that is `init` followed by `x`, element by element, is `init + [x]`. */
  lemma SnocOf<T>(all: seq<T>, init: seq<T>, x: T)
    requires |all| == |init| + 1 && all[|init|] == x
    requires forall i :: 0 <= i < |init| ==> all[i] == init[i]
    ensures all == init + [x]
  {
  }

  // ---------------------------------------------------------------------
  // failures

  /** The first node the backend fails on, if any. */
  function FirstFailing(nodes: seq<string>, failing: set<string>): (r: Option<string>)
    ensures r.None? <==> forall i :: 0 <= i < |nodes| ==> nodes[i] !in failing
    ensures r.Some? ==> r.value in failing && r.value in nodes
    ensures r.Some? ==> exists i :: 0 <= i < |nodes| && nodes[i] == r.value && forall j :: 0 <= j < i ==> nodes[j] !in failing
  {
    if |nodes| == 0 then None
    else if nodes[0] in failing then Some(nodes[0])
    else FirstFailing(nodes[1..], failing)
  }

  /** The exception that escapes an operation over `nodes`, if any. */
  function Escaping(nodes: seq<string>, failing: set<string>): (o: Outcome)
  {
    var f := FirstFailing(nodes, failing);
    if f.Some? then Fail(BackendFailure(f.value)) else Pass
  }

  /** The escaping failure is decided by the first failing node. */
  lemma {:induction false} EscapingAt(nodes: seq<string>, i: nat, failing: set<string>)
    requires i <= |nodes| && forall j :: 0 <= j < i ==> nodes[j] !in failing
    ensures i < |nodes| && nodes[i] in failing ==> Escaping(nodes, failing) == Fail(BackendFailure(nodes[i]))
    ensures i == |nodes| ==> Escaping(nodes, failing) == Pass
    decreases i
  {
    if i > 0 {
      EscapingAt(nodes[1..], i - 1, failing);
    }
  }

  /** The destination of a node moved by a globbed query: its name under the target. */
  function GlobTarget(targetPath: string, node: string): string
  {
    targetPath + "/" + Basename(node)
  }

  // ---------------------------------------------------------------------
  // the backend

  /** `k` is an absolute path and, unless it is the root, its parent lists its name. */
  predicate ParentLists(tree: Tree, k: string)
  {
    k != "" && k[0] == '/' &&
    (k != "/" ==> Dirname(k) in tree && Basename(k) in tree[Dirname(k)])
  }

  class Store {
    /** The nodes and their ordered children. */
    var tree: Tree
    /** Every removal, move, reorder, save and flush issued, in order. */
    var log: seq<Call>
    /** Nodes on which the backend throws when they are removed or moved. */
    const failing: set<string>
    /** Paths for which the session returns null instead of a node or an exception. */
    const nullNodes: set<string>
    /** A node's primary node type or a document's class. */
    const typeOf: string -> string

    /**
     * A consistent tree: every node is absolute and listed, once, by its
     * parent, and the root exists.
     */
    ghost predicate Valid()
      reads this
    {
      "/" in tree &&
      (forall k {:trigger Distinct(tree[k])} | k in tree :: Distinct(tree[k])) &&
      (forall k {:trigger ParentLists(tree, k)} | k in tree :: ParentLists(tree, k))
    }

    constructor (tree: Tree, failing: set<string>, nullNodes: set<string>, typeOf: string -> string)
      ensures this.tree == tree && this.log == []
      ensures this.failing == failing && this.nullNodes == nullNodes && this.typeOf == typeOf
    {
      this.tree := tree;
      this.log := [];
      this.failing := failing;
      this.nullNodes := nullNodes;
      this.typeOf := typeOf;
    }

    /**
     * PHPCR `getNode`: the node at `path`; an unknown path is a not-found
     * error, and a path the session answers with null is reported as such.
     */
    function GetNode(path: string): (r: Result<string>)
      reads this
      ensures r.Ok? <==> path in tree && path !in nullNodes
      ensures r.Ok? ==> r.value == path
      ensures path !in tree ==> r == Err(NodeNotFound(path))
      ensures path in tree && path in nullNodes ==> r == Err(SessionReturnedNull)
    {
      if path !in tree then Err(NodeNotFound(path))
      else if path in nullNodes then Err(SessionReturnedNull)
      else Ok(path)
    }

    /** The child nodes of the node at `path`, in order. */
    function ChildNodes(path: string): (r: seq<string>)
      reads this
      requires path in tree
      ensures |r| == |tree[path]|
      ensures forall i :: 0 <= i < |r| ==> r[i] == ChildPath(path, tree[path][i])
    {
      ChildPaths(path, tree[path])
    }

    /** `$node->remove()`. */
    method RemoveNode(path: string) returns (o: Outcome)
      modifies this`log
      ensures path in failing ==> o == Fail(BackendFailure(path)) && log == old(log)
      ensures path !in failing ==> o == Pass && log == old(log) + [Call.RemoveNode(path)]
    {
      if path in failing {
        return Fail(BackendFailure(path));
      }
      log := log + [Call.RemoveNode(path)];
      return Pass;
    }

    /** `$session->move($src, $dst)`. */
    method MoveNode(src: string, dst: string) returns (o: Outcome)
      modifies this`log
      ensures src in failing ==> o == Fail(BackendFailure(src)) && log == old(log)
      ensures src !in failing ==> o == Pass && log == old(log) + [Call.MoveNode(src, dst)]
    {
      if src in failing {
        return Fail(BackendFailure(src));
      }
      log := log + [Call.MoveNode(src, dst)];
      return Pass;
    }

    /** `$documentManager->remove($document)`. */
    method RemoveDocument(id: string) returns (o: Outcome)
      modifies this`log
      ensures id in failing ==> o == Fail(BackendFailure(id)) && log == old(log)
      ensures id !in failing ==> o == Pass && log == old(log) + [Call.RemoveDocument(id)]
    {
      if id in failing {
        return Fail(BackendFailure(id));
      }
      log := log + [Call.RemoveDocument(id)];
      return Pass;
    }

    /** `$documentManager->move($document, $dst)`. */
    method MoveDocument(id: string, dst: string) returns (o: Outcome)
      modifies this`log
      ensures id in failing ==> o == Fail(BackendFailure(id)) && log == old(log)
      ensures id !in failing ==> o == Pass && log == old(log) + [Call.MoveDocument(id, dst)]
    {
      if id in failing {
        return Fail(BackendFailure(id));
      }
      log := log + [Call.MoveDocument(id, dst)];
      return Pass;
    }

    /** `$session->save()`. */
    method SaveSession()
      modifies this`log
      ensures log == old(log) + [Save]
    {
      log := log + [Save];
    }

    /** `$documentManager->flush()`. */
    method FlushManager()
      modifies this`log
      ensures log == old(log) + [Flush]
    {
      log := log + [Flush];
    }

    /** `$parent->orderBefore($src, $dest)` on the children of `parent`. */
    method OrderChildBefore(parent: string, src: string, dest: string)
      requires Valid() && parent in tree && src in tree[parent] && dest in tree[parent]
      modifies this`tree, this`log
      ensures Valid()
      ensures tree == old(tree)[parent := OrderNameBefore(old(tree)[parent], src, dest)]
      ensures log == old(log) + [OrderBefore(parent, src, dest)]
    {
      var names := OrderNameBefore(tree[parent], src, dest);
      if src != dest {
        OrderBeforePosition(tree[parent], src, dest);
      }
      SetChildren(parent, names);
      log := log + [OrderBefore(parent, src, dest)];
    }

    /**
     * `orderBefore(name, last)` followed by `orderBefore(last, name)` on the
     * children of `parent`, applied as one update: their combined order is
     * `ToEnd`, which `ToEndMovesToEnd` shows to be `MovedToEnd`.
     */
    method OrderChildToEnd(parent: string, name: string)
      requires Valid() && parent in tree && name in tree[parent]
      modifies this`tree, this`log
      ensures Valid()
      ensures tree == old(tree)[parent := MovedToEnd(old(tree)[parent], name)]
      ensures var last := old(tree)[parent][|old(tree)[parent]| - 1];
        log == old(log) + [OrderBefore(parent, name, last), OrderBefore(parent, last, name)]
    {
      var names := tree[parent];
      var last := names[|names| - 1];
      MovedToEndIsLast(names, name);
      SetChildren(parent, MovedToEnd(names, name));
      log := log + [OrderBefore(parent, name, last), OrderBefore(parent, last, name)];
    }

    /** `$documentManager->reorder($parent, $src, $target, $before)`. */
    method ReorderChild(parent: string, src: string, target: string, before: bool)
      requires Valid() && parent in tree && src in tree[parent] && target in tree[parent]
      modifies this`tree, this`log
      ensures Valid()
      ensures tree == old(tree)[parent := ReorderName(old(tree)[parent], src, target, before)]
      ensures log == old(log) + [Reorder(parent, src, target, before)]
    {
      var names := ReorderName(tree[parent], src, target, before);
      if src != target {
        ReorderPosition(tree[parent], src, target, before);
      }
      SetChildren(parent, names);
      log := log + [Reorder(parent, src, target, before)];
    }

    /** Replaces a child list by a distinct permutation of it. */
    method SetChildren(parent: string, names: seq<string>)
      requires Valid() && parent in tree
      requires Distinct(names) && multiset(names) == multiset(tree[parent])
      modifies this`tree
      ensures Valid() && tree == old(tree)[parent := names]
    {
      tree := tree[parent := names];
      forall k | k in tree
        ensures ParentLists(tree, k)
      {
        assert ParentLists(old(tree), k);
        if k != "/" && Dirname(k) == parent {
          assert Basename(k) in multiset(old(tree)[parent]);
        }
      }
    }
  }
}
