/**
 * Rebasing of repository paths onto the repository's optional base path:
 * `resolvePath` turns a caller's path into a backend path, `unresolvePath`
 * turns a backend path back into a repository path.
 */
module PathResolution {
  import opened Wrappers
  import opened Paths
  import opened PuliAbstractRepository

  /** PHP truthiness of the base path: null, "" and "0" are false. */
  predicate HasBase(basePath: Option<string>)
  {
    basePath.Some? && basePath.value != "" && basePath.value != "0"
  }

  /** `strlen($this->basePath)`, with `strlen(null) == 0`. */
  function BaseLength(basePath: Option<string>): nat
  {
    if basePath.Some? then |basePath.value| else 0
  }

  /**
   * `resolvePath`: sanitize the path, put a (truthy) base path in front of it,
   * canonicalize the result.
   */
  function ResolvePath(basePath: Option<string>, arg: PathArg): (r: Result<string>)
    ensures r.Err? <==> SanitizePath(arg).Err?
    ensures r.Err? ==> r == SanitizePath(arg)
  {
    var sanitized := SanitizePath(arg);
    if sanitized.Err? then sanitized
    else
      var path := if HasBase(basePath) then basePath.value + sanitized.value else sanitized.value;
      Ok(Canonicalize(path))
  }

  /** `unresolvePath`: drop as many leading characters as the base path has. */
  function UnresolvePath(basePath: Option<string>, path: string): (r: string)
    ensures BaseLength(basePath) <= |path| ==> path == path[..BaseLength(basePath)] + r
    ensures BaseLength(basePath) >= |path| ==> r == ""
  {
    Substr(path, BaseLength(basePath))
  }

  /** Without a base path, resolving is sanitizing: the canonical form of the path. */
  lemma ResolveWithoutBase(basePath: Option<string>, arg: PathArg)
    requires !HasBase(basePath)
    ensures ResolvePath(basePath, arg) == SanitizePath(arg)
    ensures arg.Str? && arg.s != "" && arg.s[0] == '/' ==> ResolvePath(basePath, arg) == Ok(Canonicalize(arg.s))
  {
    if SanitizePath(arg).Ok? {
      CanonicalizeIdempotent(arg.s);
    }
  }

  /**
   * With a canonical base path (not the root), the resolved path is the base
   * followed by the sanitized path; a path that sanitizes to "/" resolves to
   * the base itself.
   */
  lemma {:induction false} ResolveWithBase(base: seq<string>, arg: PathArg)
    requires CleanSegments(base) && |base| >= 1
    requires SanitizePath(arg).Ok?
    ensures var p := SanitizePath(arg).value;
      ResolvePath(Some(AbsPath(base)), arg) == Ok(if p == "/" then AbsPath(base) else AbsPath(base) + p)
  {
    var b := AbsPath(base);
    var p := SanitizePath(arg).value;
    var rel := CanonicalSegments(arg.s);
    assert p == AbsPath(rel);
    assert ResolvePath(Some(b), arg) == Ok(Canonicalize(b + p)) by {
      assert b[0] == '/';
      assert HasBase(Some(b));
    }
    assert Canonicalize(b + p) == AbsPath(base + rel) by {
      CanonicalizeConcat(base, rel);
    }
    if |rel| == 0 {
      assert base + rel == base;
    } else {
      assert p != "/" by {
        JoinNoLeadingSlash(rel);
      }
      AbsPathAppend(base, rel);
    }
  }

  /** Stripping the base from a path that starts with it leaves the rest. */
  lemma UnresolvePrefixed(b: string, q: string)
    ensures UnresolvePath(Some(b), b + q) == q
  {
    assert (b + q)[|b|..] == q;
  }

  /**
   * With a canonical base that is not the root, `unresolvePath` undoes
   * `resolvePath` for every path that does not sanitize to "/".
   */
  lemma ResolveRoundTrip(base: seq<string>, arg: PathArg)
    requires CleanSegments(base) && |base| >= 1
    requires SanitizePath(arg).Ok? && SanitizePath(arg).value != "/"
    ensures UnresolvePath(Some(AbsPath(base)), ResolvePath(Some(AbsPath(base)), arg).value) == SanitizePath(arg).value
  {
    ResolveWithBase(base, arg);
    UnresolvePrefixed(AbsPath(base), SanitizePath(arg).value);
  }

  /** Without a base path, `unresolvePath` returns the resolved path unchanged. */
  lemma ResolveRoundTripWithoutBase(arg: PathArg)
    requires SanitizePath(arg).Ok?
    ensures UnresolvePath(None, ResolvePath(None, arg).value) == SanitizePath(arg).value
  {
    ResolveWithoutBase(None, arg);
  }

  /**
   * As written, the root path does not survive the round trip: with a base
   * path, "/" resolves to the base and unresolves to the empty string.
   */
  lemma RootUnresolvesToEmpty(base: seq<string>)
    requires CleanSegments(base) && |base| >= 1
    ensures ResolvePath(Some(AbsPath(base)), Str("/")) == Ok(AbsPath(base))
    ensures UnresolvePath(Some(AbsPath(base)), AbsPath(base)) == ""
  {
    CanonicalizeAbsPath([]);
    assert AbsPath([]) == "/";
    assert SanitizePath(Str("/")) == Ok("/");
    ResolveWithBase(base, Str("/"));
  }

  /**
   * `unresolvePath` with the empty remainder mapped to the root path "/",
   * which every repository path must be.
   */
  function UnresolvePathToRoot(basePath: Option<string>, path: string): (r: string)
    ensures r != ""
  {
    var rest := Substr(path, BaseLength(basePath));
    if rest == "" then "/" else rest
  }

  /**
   * With the corrected unresolve, every sanitized path round-trips through a
   * canonical base that is not the root, "/" included.
   */
  lemma ResolveRoundTripToRoot(base: seq<string>, arg: PathArg)
    requires CleanSegments(base) && |base| >= 1
    requires SanitizePath(arg).Ok?
    ensures UnresolvePathToRoot(Some(AbsPath(base)), ResolvePath(Some(AbsPath(base)), arg).value) == SanitizePath(arg).value
  {
    ResolveWithBase(base, arg);
    var p := SanitizePath(arg).value;
    if p == "/" {
      assert Substr(AbsPath(base), |AbsPath(base)|) == "";
    } else {
      UnresolvePrefixed(AbsPath(base), p);
    }
  }
}
