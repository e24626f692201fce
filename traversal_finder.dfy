/**
 * The PHPCR traversal finder: a glob selector, parsed into static and
 * pattern segments, is walked down the node tree. A static segment extends
 * the path; a pattern segment lists the matching children of the node
 * reached so far and either returns them (last segment) or walks on from
 * each of them with the remaining segments.
 */
module TraversalFinder {
  import opened Wrappers
  import opened Paths
  import opened Backend

  /**
   * One parsed selector segment: the path element and the parser's flags
   * (static name, name pattern, last segment).
   */
  datatype Segment = Segment(element: string, isStatic: bool, isPattern: bool, isLast: bool)

  /**
   * What the finder sees of the session: the node tree, the paths for which
   * the session answers null, and PHPCR's name-pattern match of a child
   * name against a pattern element.
   */
  datatype View = View(tree: Tree, nullNodes: set<string>, matches: (string, string) -> bool)

  /** `getNode($path)`: the node at "/" followed by the joined elements; not-found and null give None. */
  function LookUp(v: View, path: seq<string>): (r: Option<string>)
    ensures r.Some? <==> AbsPath(path) in v.tree && AbsPath(path) !in v.nullNodes
    ensures r.Some? ==> r.value == AbsPath(path)
  {
    var abs := AbsPath(path);
    if abs in v.tree && abs !in v.nullNodes then Some(abs) else None
  }

  /** The names among `names` that match the pattern `element`, in order. */
  function Matching(v: View, names: seq<string>, element: string): (r: seq<string>)
    ensures forall i :: 0 <= i < |r| ==> r[i] in names && v.matches(r[i], element)
    ensures |r| <= |names|
  {
    if |names| == 0 then []
    else if v.matches(names[0], element) then [names[0]] + Matching(v, names[1..], element)
    else Matching(v, names[1..], element)
  }

  /** Every matching name is kept. */
  lemma {:induction false} MatchingComplete(v: View, names: seq<string>, element: string, x: string)
    requires x in names && v.matches(x, element)
    ensures x in Matching(v, names, element)
  {
    if names[0] != x {
      MatchingComplete(v, names[1..], element, x);
    }
  }

  /** Every matching name is kept, for all names at once. */
  lemma MatchingCompleteAll(v: View, names: seq<string>, element: string)
    ensures forall n :: n in names && v.matches(n, element) ==> n in Matching(v, names, element)
  {
    forall n | n in names && v.matches(n, element) {
      MatchingComplete(v, names, element, n);
    }
  }

  /**
   * `$parentNode->getNodes($element)`: the child nodes of `parent` whose
   * names match `element`, no more than the parent has children.
   */
  function MatchingChildren(v: View, parent: string, element: string): (r: seq<string>)
    requires parent in v.tree
    ensures |r| <= |v.tree[parent]|
    ensures forall x :: x in r <==>
      exists n :: n in v.tree[parent] && v.matches(n, element) && x == ChildPath(parent, n)
  {
    var m := Matching(v, v.tree[parent], element);
    MatchingCompleteAll(v, v.tree[parent], element);
    ChildPaths(parent, m)
  }

  /** The path elements of a node handed to `traverse`: its path without the leading "/", exploded. */
  function StartPath(node: string): seq<string>
  {
    Split(Substr(node, 1))
  }

  /**
   * The results one `traverse` frame adds, from the elements `path` walked
   * so far and the segments not yet shifted. A static last segment whose
   * node exists ends the frame with that node; a pattern segment ends it
   * with what its matching children contribute; otherwise the loop goes on
   * while segments remain. With no segment left, nothing is added.
   */
  function Frame(v: View, path: seq<string>, segments: seq<Segment>): seq<string>
    decreases |segments|, 2, 0
  {
    if |segments| == 0 then []
    else
      var seg := segments[0];
      Step(v, if seg.isStatic then path + [seg.element] else path, seg, segments[1..])
  }

  /** One pass of the loop, after `seg` was shifted and `walked` extended by a static element. */
  function Step(v: View, walked: seq<string>, seg: Segment, rest: seq<Segment>): seq<string>
    decreases |rest| + 1, 1, 0
  {
    var found := LookUp(v, walked);
    if seg.isStatic && seg.isLast && found.Some? then [found.value]
    else if seg.isPattern then
      if found.None? then []
      else Children(v, found.value, Matching(v, v.tree[found.value], seg.element), seg, rest)
    else Frame(v, walked, rest)
  }

  /**
   * What the matching children `names` of `parent` contribute, in order: the
   * child itself under a last segment, otherwise the frame started at the
   * child with the remaining segments.
   */
  function Children(v: View, parent: string, names: seq<string>, seg: Segment, rest: seq<Segment>): seq<string>
    decreases |rest| + 1, 0, |names|
  {
    if |names| == 0 then []
    else
      Children(v, parent, names[..|names| - 1], seg, rest) + Visit(v, ChildPath(parent, names[|names| - 1]), seg, rest)
  }

  /** What one matching child contributes. */
  function Visit(v: View, child: string, seg: Segment, rest: seq<Segment>): seq<string>
    decreases |rest| + 1, 0, 0
  {
    if seg.isLast then [child] else Frame(v, StartPath(child), rest)
  }

  class Finder {
    /** The PHPCR session. */
    const session: Store
    /** The selector parser, which is not part of this model. */
    const parse: string -> seq<Segment>
    /** PHPCR's name-pattern match used by `getNodes`. */
    const matches: (string, string) -> bool

    constructor (session: Store, parse: string -> seq<Segment>, matches: (string, string) -> bool)
      ensures this.session == session && this.parse == parse && this.matches == matches
    {
      this.session := session;
      this.parse := parse;
      this.matches := matches;
    }

    function SessionView(): View
      reads session
    {
      View(session.tree, session.nullNodes, matches)
    }

    /**
     * `find`: the selector "/" is the root lookup alone, bypassing the
     * parser; any other selector is traversed from no node.
     */
    method Find(selector: string) returns (result: seq<Option<string>>)
      ensures selector == "/" ==> result == [LookUp(SessionView(), [])]
      ensures selector != "/" ==> result == Present(Frame(SessionView(), [], parse(selector)))
    {
      if selector == "/" {
        return [LookUp(SessionView(), [])];
      }
      var segments := parse(selector);
      var nodes := Traverse(None, segments, []);
      result := Present(nodes);
    }

    /**
     * `traverse`: appends to `result` what the frame started at `node` (or
     * at the root when there is none) finds for `segments`.
     */
    method Traverse(node: Option<string>, segments: seq<Segment>, result: seq<string>) returns (out: seq<string>)
      ensures out == result + Frame(SessionView(), if node.Some? then StartPath(node.value) else [], segments)
      decreases |segments|, 1
    {
      var v := SessionView();
      var path: seq<string> := if node.Some? then StartPath(node.value) else [];
      ghost var start := path;
      out := result;
      if |segments| == 0 {
        // Shifting an empty list yields no flags, and the loop ends.
        return;
      }
      var segs := segments;
      while true
        invariant 1 <= |segs| <= |segments|
        invariant result + Frame(v, start, segments) == out + Frame(v, path, segs)
        decreases |segs|
      {
        ghost var frame := Frame(v, path, segs);
        var seg := segs[0];
        segs := segs[1..];
        if seg.isStatic {
          path := path + [seg.element];
        }
        assert frame == Step(v, path, seg, segs);
        if seg.isStatic && seg.isLast {
          var found := LookUp(v, path);
          if found.Some? {
            out := out + [found.value];
            return;
          }
        }
        if seg.isPattern {
          var parent := LookUp(v, path);
          if parent.None? {
            return;
          }
          out := VisitChildren(parent.value, seg, segs, out);
          return;
        }
        if |segs| == 0 {
          assert Frame(v, path, segs) == [];
          return;
        }
      }
    }

    /**
     * The `foreach` over the matching children of `parent`: a last segment
     * appends each child, otherwise each child is traversed with `rest`.
     */
    method VisitChildren(parent: string, seg: Segment, rest: seq<Segment>, result: seq<string>) returns (out: seq<string>)
      requires parent in session.tree
      ensures out == result + Children(SessionView(), parent, Matching(SessionView(), session.tree[parent], seg.element), seg, rest)
      decreases |rest| + 1, 0
    {
      var v := SessionView();
      ghost var names := Matching(v, v.tree[parent], seg.element);
      var children := MatchingChildren(v, parent, seg.element);
      assert |children| == |names|;
      out := result;
      for i := 0 to |children|
        invariant out == result + Children(v, parent, names[..i], seg, rest)
      {
        var child := children[i];
        assert child == ChildPath(parent, names[i]);
        ghost var before := out;
        if seg.isLast {
          out := out + [child];
        } else {
          out := Traverse(Some(child), rest, out);
        }
        ChildrenStep(v, parent, names, i, seg, rest, result, before, out);
      }
      assert names[..|children|] == names;
    }
  }

  /** Adding one more matching child adds what that child contributes. */
  lemma ChildrenStep(v: View, parent: string, names: seq<string>, i: nat, seg: Segment, rest: seq<Segment>,
                     result: seq<string>, before: seq<string>, after: seq<string>)
    requires i < |names|
    requires before == result + Children(v, parent, names[..i], seg, rest)
    requires after == before + Visit(v, ChildPath(parent, names[i]), seg, rest)
    ensures after == result + Children(v, parent, names[..i + 1], seg, rest)
  {
    var prefix := names[..i + 1];
    assert prefix[..|prefix| - 1] == names[..i] && prefix[|prefix| - 1] == names[i];
    assert Children(v, parent, prefix, seg, rest) ==
      Children(v, parent, names[..i], seg, rest) + Visit(v, ChildPath(parent, names[i]), seg, rest);
    AppendAssoc(result, Children(v, parent, names[..i], seg, rest), Visit(v, ChildPath(parent, names[i]), seg, rest));
  }

  /** The results as the nullable nodes `find` returns. */
  function Present(nodes: seq<string>): (r: seq<Option<string>>)
    ensures |r| == |nodes|
    ensures forall i :: 0 <= i < |nodes| ==> r[i] == Some(nodes[i])
  {
    if |nodes| == 0 then [] else [Some(nodes[0])] + Present(nodes[1..])
  }

  // ---------------------------------------------------------------------
  // what a query finds

  /** `find("/")` on a PHPCR session, whose root always exists: the root node alone. */
  lemma FindRoot(v: View)
    requires "/" in v.tree && "/" !in v.nullNodes
    ensures LookUp(v, []) == Some("/")
  {
    assert AbsPath([]) == "/";
  }

  /** Path elements and node names: not empty and without "/". */
  predicate Named(parts: seq<string>)
  {
    forall i :: 0 <= i < |parts| ==> parts[i] != "" && NoSlash(parts[i])
  }

  /** Every child name the tree lists is a proper node name. */
  predicate NamedChildren(tree: Tree)
  {
    forall k :: k in tree ==> Named(tree[k])
  }

  /**
   * A query as the selector parser produces it: each segment is either
   * static or a pattern, only the final one is flagged last, and static
   * elements are proper node names.
   */
  predicate WellFormed(segments: seq<Segment>)
  {
    |segments| >= 1 &&
    forall i :: 0 <= i < |segments| ==>
      segments[i].isStatic != segments[i].isPattern &&
      (segments[i].isLast <==> i == |segments| - 1) &&
      (segments[i].isStatic ==> segments[i].element != "" && NoSlash(segments[i].element))
  }

  /**
   * The names `q` below the start fit the query: one name per segment, the
   * element itself for a static segment, a matching name for a pattern.
   */
  predicate Accepts(v: View, q: seq<string>, segments: seq<Segment>)
  {
    |q| == |segments| && Named(q) &&
    forall i :: 0 <= i < |segments| ==>
      (segments[i].isStatic ==> q[i] == segments[i].element) &&
      (segments[i].isPattern ==> v.matches(q[i], segments[i].element))
  }

  /** The child `name` of the node at `path` is at `path + [name]`, and `traverse` restarts from those elements. */
  lemma ChildOfPath(path: seq<string>, name: string)
    requires Named(path) && name != "" && NoSlash(name)
    ensures ChildPath(AbsPath(path), name) == AbsPath(path + [name])
    ensures StartPath(AbsPath(path + [name])) == path + [name]
  {
    ChildPathAppend(path, name);
    NamedAppend(path, name);
    StartPathOf(path + [name]);
  }

  /** Appending a name to the path of a node gives the path of its child. */
  lemma ChildPathAppend(path: seq<string>, name: string)
    requires Named(path)
    ensures ChildPath(AbsPath(path), name) == AbsPath(path + [name])
  {
    if |path| == 0 {
      assert [] + [name] == [name];
      assert Join([name]) == name;
    } else {
      var j := Join(path);
      assert AbsPath(path) != "/" by {
        JoinNoLeadingSlash(path);
      }
      assert Join(path + [name]) == (j + "/") + name by {
        JoinAppend(path, [name]);
        assert Join([name]) == name;
      }
      AppendAssoc("/", j, "/");
      AppendAssoc("/", j + "/", name);
    }
  }

  /** `traverse` restarts from the elements of a named path. */
  lemma StartPathOf(parts: seq<string>)
    requires |parts| >= 1 && Named(parts)
    ensures StartPath(AbsPath(parts)) == parts
  {
    assert Substr(AbsPath(parts), 1) == Join(parts);
    assert NoSlashes(parts);
    SplitJoin(parts);
  }

  /** A static segment's element extends a named path to a named path. */
  lemma NamedAppend(path: seq<string>, name: string)
    requires Named(path) && name != "" && NoSlash(name)
    ensures Named(path + [name])
  {
    assert forall i :: 0 <= i < |path| ==> (path + [name])[i] == path[i];
  }

  /** The segments after the first of a well-formed query of two or more are well formed. */
  lemma WellFormedRest(segments: seq<Segment>)
    requires WellFormed(segments) && |segments| >= 2
    ensures WellFormed(segments[1..])
  {
    forall i | 0 <= i < |segments| - 1
      ensures segments[1..][i] == segments[i + 1]
    {
    }
  }

  /** Putting one name in front of a fitting tail gives a fitting sequence for the whole query. */
  lemma AcceptsCons(v: View, name: string, q: seq<string>, segments: seq<Segment>)
    requires |segments| >= 1 && Accepts(v, q, segments[1..])
    requires name != "" && NoSlash(name)
    requires segments[0].isStatic ==> name == segments[0].element
    requires segments[0].isPattern ==> v.matches(name, segments[0].element)
    ensures Accepts(v, [name] + q, segments)
  {
    var full := [name] + q;
    forall i | 1 <= i < |segments|
      ensures full[i] == q[i - 1] && segments[i] == segments[1..][i - 1]
    {
    }
  }

  /**
   * Soundness and depth: every node a well-formed query finds from `path`
   * is at `path` followed by one fitting name per segment, so it lies
   * exactly as many levels below the start as the query has segments.
   */
  lemma {:induction false} FrameSound(v: View, path: seq<string>, segments: seq<Segment>)
    requires Named(path) && WellFormed(segments) && NamedChildren(v.tree)
    ensures forall r :: r in Frame(v, path, segments) ==>
      exists q :: Accepts(v, q, segments) && r == AbsPath(path + q)
    decreases |segments|, 1
  {
    var seg := segments[0];
    var rest := segments[1..];
    assert seg.isLast <==> |rest| == 0;
    if seg.isStatic {
      var walked := path + [seg.element];
      NamedAppend(path, seg.element);
      if seg.isLast {
        assert forall r :: r in Frame(v, path, segments) ==> r == AbsPath(walked) by {
          assert Frame(v, walked, rest) == [];
        }
        forall r | r in Frame(v, path, segments)
          ensures exists q :: Accepts(v, q, segments) && r == AbsPath(path + q)
        {
          assert Accepts(v, [seg.element], segments);
        }
      } else {
        WellFormedRest(segments);
        assert Frame(v, path, segments) == Frame(v, walked, rest);
        FrameSound(v, walked, rest);
        forall r | r in Frame(v, path, segments)
          ensures exists q :: Accepts(v, q, segments) && r == AbsPath(path + q)
        {
          var q' :| Accepts(v, q', rest) && r == AbsPath(walked + q');
          AcceptsCons(v, seg.element, q', segments);
          AppendAssoc(path, [seg.element], q');
        }
      }
    } else {
      var found := LookUp(v, path);
      if found.Some? {
        var names := Matching(v, v.tree[found.value], seg.element);
        assert Frame(v, path, segments) == Children(v, found.value, names, seg, rest);
        ChildrenSound(v, path, names, segments);
      }
    }
  }

  /**
   * Soundness for the matching children `names` of the node at `path`,
   * under the pattern segment that starts `segments`.
   */
  lemma {:induction false} ChildrenSound(v: View, path: seq<string>, names: seq<string>, segments: seq<Segment>)
    requires Named(path) && WellFormed(segments) && NamedChildren(v.tree)
    requires segments[0].isPattern && Named(names)
    requires forall i :: 0 <= i < |names| ==> v.matches(names[i], segments[0].element)
    ensures forall r :: r in Children(v, AbsPath(path), names, segments[0], segments[1..]) ==>
      exists q :: Accepts(v, q, segments) && r == AbsPath(path + q)
    decreases |segments|, 0, |names|
  {
    if |names| > 0 {
      var seg := segments[0];
      var rest := segments[1..];
      var init := names[..|names| - 1];
      var name := names[|names| - 1];
      assert Named(init) by {
        assert forall i :: 0 <= i < |init| ==> init[i] == names[i];
      }
      ChildrenSound(v, path, init, segments);
      VisitSound(v, path, name, segments);
      assert Children(v, AbsPath(path), names, seg, rest) ==
        Children(v, AbsPath(path), init, seg, rest) + Visit(v, ChildPath(AbsPath(path), name), seg, rest);
    }
  }

  /** Soundness for one matching child `name` of the node at `path`. */
  lemma {:induction false} VisitSound(v: View, path: seq<string>, name: string, segments: seq<Segment>)
    requires Named(path) && WellFormed(segments) && NamedChildren(v.tree)
    requires segments[0].isPattern && name != "" && NoSlash(name) && v.matches(name, segments[0].element)
    ensures forall r :: r in Visit(v, ChildPath(AbsPath(path), name), segments[0], segments[1..]) ==>
      exists q :: Accepts(v, q, segments) && r == AbsPath(path + q)
    decreases |segments|, 0, 0
  {
    var seg := segments[0];
    var rest := segments[1..];
    ChildOfPath(path, name);
    var child := path + [name];
    NamedAppend(path, name);
    var visit := Visit(v, ChildPath(AbsPath(path), name), seg, rest);
    if seg.isLast {
      assert |rest| == 0;
      assert Accepts(v, [name], segments);
      assert visit == [AbsPath(path + [name])];
    } else {
      WellFormedRest(segments);
      assert visit == Frame(v, child, rest);
      FrameSound(v, child, rest);
      forall r | r in visit
        ensures exists q :: Accepts(v, q, segments) && r == AbsPath(path + q)
      {
        var q' :| Accepts(v, q', rest) && r == AbsPath(child + q');
        AcceptsCons(v, name, q', segments);
        AppendAssoc(path, [name], q');
      }
    }
  }

  /**
   * The nodes on the way to `path + q` are there: the parent of each
   * pattern segment's node exists and lists it, and the node of a final
   * static segment exists.
   */
  predicate Reached(v: View, path: seq<string>, q: seq<string>, segments: seq<Segment>)
    requires |q| == |segments|
    decreases |segments|
  {
    |segments| == 0 ||
    var seg := segments[0];
    (seg.isStatic && seg.isLast ==> LookUp(v, path + [q[0]]).Some?) &&
    (seg.isPattern ==> LookUp(v, path).Some? && q[0] in v.tree[AbsPath(path)]) &&
    Reached(v, path + [q[0]], q[1..], segments[1..])
  }

  /** The tail of a fitting sequence fits the tail of the query. */
  lemma AcceptsTail(v: View, q: seq<string>, segments: seq<Segment>)
    requires |segments| >= 1 && Accepts(v, q, segments)
    ensures Accepts(v, q[1..], segments[1..])
  {
    forall i | 0 <= i < |segments| - 1
      ensures q[1..][i] == q[i + 1] && segments[1..][i] == segments[i + 1]
    {
    }
  }

  /**
   * Completeness: a well-formed query finds every node below the start whose
   * names fit the query and whose way down exists.
   */
  lemma {:induction false} FrameComplete(v: View, path: seq<string>, q: seq<string>, segments: seq<Segment>)
    requires Named(path) && WellFormed(segments) && NamedChildren(v.tree)
    requires Accepts(v, q, segments) && Reached(v, path, q, segments)
    ensures AbsPath(path + q) in Frame(v, path, segments)
    decreases |segments|, 1
  {
    var seg := segments[0];
    var rest := segments[1..];
    assert seg.isLast <==> |rest| == 0;
    var walked := path + [q[0]];
    NamedAppend(path, q[0]);
    assert path + q == walked + q[1..];
    if seg.isStatic {
      if seg.isLast {
        assert q == [q[0]];
        assert walked == path + [seg.element];
        assert Frame(v, path, segments) == [AbsPath(walked)];
      } else {
        WellFormedRest(segments);
        AcceptsTail(v, q, segments);
        assert Frame(v, path, segments) == Frame(v, walked, rest);
        FrameComplete(v, walked, q[1..], rest);
      }
    } else {
      var parent := AbsPath(path);
      var names := Matching(v, v.tree[parent], seg.element);
      MatchingComplete(v, v.tree[parent], seg.element, q[0]);
      assert Frame(v, path, segments) == Children(v, parent, names, seg, rest);
      assert Named(names) by {
        assert Named(v.tree[parent]);
      }
      ChildrenComplete(v, path, names, q, segments);
    }
  }

  /** Completeness for the matching children `names` of the node at `path`, which list `q[0]`. */
  lemma {:induction false} ChildrenComplete(v: View, path: seq<string>, names: seq<string>, q: seq<string>, segments: seq<Segment>)
    requires Named(path) && WellFormed(segments) && NamedChildren(v.tree)
    requires Accepts(v, q, segments) && Reached(v, path, q, segments)
    requires segments[0].isPattern && q[0] in names
    ensures AbsPath(path + q) in Children(v, AbsPath(path), names, segments[0], segments[1..])
    decreases |segments|, 0, |names|
  {
    var seg := segments[0];
    var rest := segments[1..];
    var init := names[..|names| - 1];
    var walked := path + [q[0]];
    if names[|names| - 1] == q[0] {
      ChildOfPath(path, q[0]);
      NamedAppend(path, q[0]);
      assert path + q == walked + q[1..];
      var visit := Visit(v, ChildPath(AbsPath(path), q[0]), seg, rest);
      assert Children(v, AbsPath(path), names, seg, rest) == Children(v, AbsPath(path), init, seg, rest) + visit;
      if seg.isLast {
        assert |rest| == 0 && q == [q[0]];
        assert visit == [AbsPath(walked)];
      } else {
        WellFormedRest(segments);
        AcceptsTail(v, q, segments);
        assert visit == Frame(v, walked, rest);
        FrameComplete(v, walked, q[1..], rest);
      }
    } else {
      assert q[0] in init by {
        assert names == init + [names[|names| - 1]];
      }
      ChildrenComplete(v, path, init, q, segments);
    }
  }

  /**
   * A query made only of static segments finds the node at the joined path
   * if it exists, and nothing otherwise: at most one node.
   */
  lemma {:induction false} StaticQuery(v: View, path: seq<string>, segments: seq<Segment>)
    requires WellFormed(segments)
    requires forall i :: 0 <= i < |segments| ==> segments[i].isStatic
    ensures Frame(v, path, segments) ==
      var target := path + Elements(segments);
      if LookUp(v, target).Some? then [AbsPath(target)] else []
    decreases |segments|
  {
    var seg := segments[0];
    var walked := path + [seg.element];
    assert seg.isStatic && !seg.isPattern;
    assert Frame(v, path, segments) == Step(v, walked, seg, segments[1..]);
    ElementsAfter(path, segments);
    if |segments| == 1 {
      assert seg.isLast;
      assert Elements(segments[1..]) == [];
      assert path + Elements(segments) == walked;
    } else {
      assert !seg.isLast;
      WellFormedRest(segments);
      StaticQuery(v, walked, segments[1..]);
    }
  }

  /** Walking the first static element, then the rest, reaches the same elements. */
  lemma ElementsAfter(path: seq<string>, segments: seq<Segment>)
    requires |segments| >= 1
    ensures path + Elements(segments) == (path + [segments[0].element]) + Elements(segments[1..])
  {
    assert Elements(segments) == [segments[0].element] + Elements(segments[1..]);
    AppendAssoc(path, [segments[0].element], Elements(segments[1..]));
  }

  /** The elements of the segments, in order. */
  function Elements(segments: seq<Segment>): (r: seq<string>)
    ensures |r| == |segments|
    ensures forall i :: 0 <= i < |segments| ==> r[i] == segments[i].element
  {
    if |segments| == 0 then [] else [segments[0].element] + Elements(segments[1..])
  }

  /**
   * A single pattern segment flagged last finds exactly the matching children
   * of the node reached so far, in backend order, and nothing when that node
   * is missing.
   */
  lemma PatternLast(v: View, path: seq<string>, seg: Segment)
    requires seg.isPattern && !seg.isStatic && seg.isLast
    ensures Frame(v, path, [seg]) ==
      var parent := LookUp(v, path);
      if parent.None? then [] else MatchingChildren(v, parent.value, seg.element)
  {
    var parent := LookUp(v, path);
    assert [seg][0] == seg && [seg][1..] == [];
    assert Frame(v, path, [seg]) == Step(v, path, seg, []);
    if parent.Some? {
      ChildrenLast(v, parent.value, Matching(v, v.tree[parent.value], seg.element), seg, []);
    }
  }

  /** Under a last segment, the children contribute themselves, in order. */
  lemma {:induction false} ChildrenLast(v: View, parent: string, names: seq<string>, seg: Segment, rest: seq<Segment>)
    requires seg.isLast
    ensures Children(v, parent, names, seg, rest) == ChildPaths(parent, names)
    decreases |names|
  {
    if |names| > 0 {
      var init := names[..|names| - 1];
      ChildrenLast(v, parent, init, seg, rest);
      ChildPathsSnoc(parent, names);
    }
  }
}
