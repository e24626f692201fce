/**
 * The legacy abstract PHPCR repository: `getPath` validates a caller's path,
 * puts the (truthy) base path in front of it, canonicalizes the result and
 * only then checks that it is absolute; `buildCollection` strips
 * `strlen(basePath)` characters from every node path.
 */
module LegacyRepository {
  import opened Wrappers
  import opened Paths
  import opened Resources
  import opened PathResolution
  import opened PuliAbstractRepository

  /** The path handed to `Path::canonicalize`: the base in front of it when the base is truthy. */
  function Rebased(basePath: Option<string>, path: string): string
  {
    if HasBase(basePath) then basePath.value + path else path
  }

  /**
   * `getPath`: "" is rejected first, then a non-string; a canonical result
   * that does not start with "/" is rejected as not absolute, so a path that
   * starts with a backslash once the base is in front is accepted.
   */
  function GetPath(basePath: Option<string>, arg: PathArg): (r: Result<string>)
    ensures arg == Str("") ==> r == Err(EmptyPath)
    ensures arg.NonString? ==> r == Err(PathNotAString(arg.typeName))
    ensures r.Ok? ==> r.value != "" && r.value[0] == '/'
    ensures r.Ok? ==> Canonicalize(r.value) == r.value
    ensures r.Ok? ==> r.value == Canonicalize(Rebased(basePath, arg.s))
    ensures arg.Str? && arg.s != "" ==>
      (r.Ok? <==> Rooted(Rebased(basePath, arg.s)))
  {
    match arg
    case Str(s) =>
      if s == "" then Err(EmptyPath)
      else
        var path := Canonicalize(Rebased(basePath, s));
        CanonicalizeKeepsRoot(Rebased(basePath, s));
        if path == "" || path[0] != '/' then Err(PathNotAbsolute(path))
        else
          CanonicalizeIdempotent(Rebased(basePath, s));
          Ok(path)
    case NonString(t) => Err(PathNotAString(t))
  }

  /**
   * Absoluteness is checked after the base is put in front: with the relative
   * base "asd", the path "asd" is rejected, and a relative path is accepted
   * under an absolute base.
   */
  lemma GetPathChecksAfterRebase()
    ensures GetPath(Some("asd"), Str("asd")).Err?
    ensures GetPath(Some("asd"), Str("asd")).error.PathNotAbsolute?
    ensures GetPath(Some("/site"), Str("cmf")).Ok?
    ensures GetPath(None, Str("cmf/foobar")).Err?
  {
    assert Rebased(Some("asd"), "asd")[0] == 'a';
    assert Rebased(Some("/site"), "cmf")[0] == '/';
  }

  /** Without a base path, the legacy `getPath` agrees with `resolvePath` on absolute paths. */
  lemma GetPathWithoutBase(basePath: Option<string>, s: string)
    requires !HasBase(basePath)
    requires s != "" && s[0] == '/'
    ensures GetPath(basePath, Str(s)) == ResolvePath(basePath, Str(s))
  {
    CanonicalizeKeepsRoot(s);
  }

  /**
   * Absoluteness is checked on the canonical form, where a leading backslash
   * has become "/": without a base, a backslash followed by a clean segment x
   * is accepted as "/x", while `resolvePath` rejects it as not absolute.
   */
  lemma GetPathBackslashRoot(basePath: Option<string>, x: string)
    requires !HasBase(basePath) && CleanSegment(x)
    ensures GetPath(basePath, Str("\\" + x)) == Ok("/" + x)
    ensures ResolvePath(basePath, Str("\\" + x)) == Err(PathNotAbsolute("\\" + x))
  {
    var s := "\\" + x;
    assert s[0] == '\\' && Rebased(basePath, s) == s;
    assert Canonicalize(s) == "/" + x by {
      assert ToSlashes(s) == AbsPath([x]) by {
        ToSlashesAppend("\\", x);
      }
      CanonicalizeReadsBackslashes(s);
      CanonicalizeAbsPath([x]);
    }
  }

  /** The concrete case: without a base, "\\cmf" is "/cmf". */
  lemma GetPathLeadingBackslash()
    ensures GetPath(None, Str("\\cmf")) == Ok("/cmf")
    ensures ResolvePath(None, Str("\\cmf")) == Err(PathNotAbsolute("\\cmf"))
  {
    GetPathBackslashRoot(None, "cmf");
    assert "\\" + "cmf" == "\\cmf" && "/" + "cmf" == "/cmf";
  }

  /** The segments of "a/b/c/../d". */
  lemma SplitRebased(a: string, b: string, c: string, d: string)
    requires CleanSegment(a) && CleanSegment(b) && CleanSegment(c) && CleanSegment(d)
    ensures Split(a + "/" + (b + "/" + (c + "/" + (".." + "/" + d)))) == [a, b, c, "..", d]
  {
    var parts := [a, b, c, "..", d];
    assert Join(parts) == a + "/" + (b + "/" + (c + "/" + (".." + "/" + d))) by {
      assert Join(parts[4..]) == d;
      assert Join(parts[3..]) == ".." + "/" + d;
      assert Join(parts[2..]) == c + "/" + (".." + "/" + d);
      assert Join(parts[1..]) == b + "/" + (c + "/" + (".." + "/" + d));
    }
    assert NoSlashes(parts);
    SplitJoin(parts);
  }

  /** Collapsing [a, b, c, "..", d] keeps [a, b, d]. */
  lemma CollapseRebased(a: string, b: string, c: string, d: string)
    requires CleanSegment(a) && CleanSegment(b) && CleanSegment(c) && CleanSegment(d)
    ensures Collapse([], [a, b, c, "..", d], true) == [a, b, d]
  {
    var parts := [a, b, c, "..", d];
    assert [] + [a] == [a] && [a] + [b] == [a, b] && [a, b] + [c] == [a, b, c] && [a, b] + [d] == [a, b, d];
    assert Collapse([], parts, true) == Collapse([a], parts[1..], true);
    assert Collapse([a], parts[1..], true) == Collapse([a, b], parts[2..], true);
    assert Collapse([a, b], parts[2..], true) == Collapse([a, b, c], parts[3..], true);
    assert [a, b, c][..2] == [a, b];
    assert Collapse([a, b, c], parts[3..], true) == Collapse([a, b], parts[4..], true);
    assert Collapse([a, b], parts[4..], true) == Collapse([a, b, d], [], true);
  }

  /**
   * ".." removes the segment before it: "/a/b/c/../d" is "/a/b/d", for any
   * clean segments a, b, c and d.
   */
  lemma CanonicalizeRebased(a: string, b: string, c: string, d: string)
    requires CleanSegment(a) && CleanSegment(b) && CleanSegment(c) && CleanSegment(d)
    ensures Canonicalize("/" + a + "/" + b + "/" + c + "/../" + d) == "/" + a + "/" + b + "/" + d
  {
    var p := "/" + a + "/" + b + "/" + c + "/../" + d;
    assert Canonicalize(p) == AbsPath([a, b, d]) by {
      assert p[0] == '/';
      assert p[1..] == a + "/" + (b + "/" + (c + "/" + (".." + "/" + d)));
      SplitRebased(a, b, c, d);
      CollapseRebased(a, b, c, d);
    }
    AbsPathThree(a, b, d);
  }

  /** The absolute path of three segments, written out. */
  lemma AbsPathThree(a: string, b: string, d: string)
    ensures AbsPath([a, b, d]) == "/" + a + "/" + b + "/" + d
  {
    var kept := [a, b, d];
    assert Join(kept) == a + "/" + (b + "/" + d) by {
      assert Join(kept[2..]) == d;
      assert Join(kept[1..]) == b + "/" + d;
    }
  }

  /**
   * The base path is put in front of the raw path: with base "/site/foo.com",
   * "/bar/../foobar" gives "/site/foo.com/foobar" (here for any clean segments).
   */
  lemma GetPathWithBase(a: string, b: string, c: string, d: string)
    requires CleanSegment(a) && CleanSegment(b) && CleanSegment(c) && CleanSegment(d)
    ensures GetPath(Some("/" + a + "/" + b), Str("/" + c + "/../" + d)) == Ok("/" + a + "/" + b + "/" + d)
  {
    var base := "/" + a + "/" + b;
    assert HasBase(Some(base));
    assert Rebased(Some(base), "/" + c + "/../" + d) == "/" + a + "/" + b + "/" + c + "/../" + d;
    CanonicalizeRebased(a, b, c, d);
  }

  /** A ".." at the root of an absolute path is dropped: "/../x" is "/x". */
  lemma CanonicalizeRootClimb(x: string)
    requires CleanSegment(x)
    ensures Canonicalize("/../" + x) == "/" + x
  {
    var parts := ["..", x];
    var p := "/../" + x;
    assert Split(p[1..]) == parts by {
      assert Join(parts) == ".." + "/" + x by {
        assert Join(parts[1..]) == x;
      }
      assert p[1..] == ".." + "/" + x;
      assert NoSlashes(parts);
      SplitJoin(parts);
    }
    assert Collapse([], parts, true) == [x] by {
      assert Collapse([], parts, true) == Collapse([], parts[1..], true);
      assert Collapse([], parts[1..], true) == Collapse([x], [], true);
    }
  }

  /**
   * Unlike `resolvePath`, which canonicalizes the path before the base is put
   * in front, a leading ".." climbs out of the base: base "/a" with "/../x"
   * gives "/x", where `resolvePath` gives "/a/x".
   */
  lemma GetPathClimbsOutOfBase(a: string, x: string)
    requires CleanSegment(a) && CleanSegment(x)
    ensures GetPath(Some("/" + a), Str("/../" + x)) == Ok("/" + x)
    ensures ResolvePath(Some("/" + a), Str("/../" + x)) == Ok("/" + a + "/" + x)
  {
    assert HasBase(Some("/" + a));
    assert Rebased(Some("/" + a), "/../" + x) == "/" + a + "/../" + x;
    CanonicalizeClimb(a, x);
    CanonicalizeRootClimb(x);
    assert SanitizePath(Str("/../" + x)) == Ok("/" + x);
    assert Join([a]) == a;
    assert CleanSegments([a]) && AbsPath([a]) == "/" + a;
    ResolveWithBase([a], Str("/../" + x));
    assert ("/" + a) + ("/" + x) == "/" + a + "/" + x;
  }

  /** The node path with `strlen(basePath)` leading characters removed. */
  function Stripped(basePath: Option<string>, nodePath: string): string
  {
    Substr(nodePath, BaseLength(basePath))
  }

  /**
   * `buildCollection`: one resource per node, in input order, created at the
   * node path with the base path's length stripped. `createResource` is the
   * subclass's factory, given the stripped path and the node path.
   */
  method BuildCollection(basePath: Option<string>, nodes: seq<string>, createResource: (string, string) -> Resource)
    returns (collection: seq<Resource>)
    ensures |collection| == |nodes|
    ensures forall i :: 0 <= i < |nodes| ==> collection[i] == createResource(Stripped(basePath, nodes[i]), nodes[i])
  {
    collection := [];
    if |nodes| == 0 {
      return;
    }
    for i := 0 to |nodes|
      invariant |collection| == i
      invariant forall j :: 0 <= j < i ==> collection[j] == createResource(Stripped(basePath, nodes[j]), nodes[j])
    {
      collection := collection + [createResource(Stripped(basePath, nodes[i]), nodes[i])];
    }
  }

  /**
   * Stripping undoes the rebasing of `getPath`: a node at the base path
   * followed by `q` is handed out at `q`.
   */
  lemma StrippedUndoesRebase(basePath: Option<string>, q: string)
    requires HasBase(basePath)
    ensures Stripped(basePath, Rebased(basePath, q)) == q
  {
    UnresolvePrefixed(basePath.value, q);
  }
}
