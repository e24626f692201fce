/**
 * The shared checks of the Puli abstract repository: the query language must
 * be "glob", and a path must be a non-empty absolute string, which is then
 * brought into canonical form.
 */
module PuliAbstractRepository {
  import opened Wrappers
  import opened Paths

  /** `failUnlessGlob`: only the language "glob" is accepted. */
  function FailUnlessGlob(language: string): (r: Outcome)
    ensures r == Pass <==> language == "glob"
    ensures r.Fail? ==> r.error == UnsupportedLanguage(language)
  {
    if language != "glob" then Fail(UnsupportedLanguage(language)) else Pass
  }

  /**
   * `sanitizePath`: rejects a non-string, then the empty string, then a
   * path not starting with "/"; otherwise returns its canonical form.
   */
  function SanitizePath(arg: PathArg): (r: Result<string>)
    ensures arg.NonString? ==> r == Err(PathNotAString(arg.typeName))
    ensures arg == Str("") ==> r == Err(EmptyPath)
    ensures arg.Str? && arg.s != "" && arg.s[0] != '/' ==> r == Err(PathNotAbsolute(arg.s))
    ensures r.Ok? <==> arg.Str? && arg.s != "" && arg.s[0] == '/'
    ensures r.Ok? ==> CanonicalAbsolute(r.value) && r.value[0] == '/'
  {
    match arg
    case NonString(t) => Err(PathNotAString(t))
    case Str(s) =>
      if s == "" then Err(EmptyPath)
      else if s[0] != '/' then Err(PathNotAbsolute(s))
      else
        CanonicalizeAbsolute(s);
        Ok(Canonicalize(s))
  }

  /** Sanitizing an already sanitized path returns it unchanged. */
  lemma SanitizePathIdempotent(arg: PathArg)
    requires SanitizePath(arg).Ok?
    ensures SanitizePath(Str(SanitizePath(arg).value)) == SanitizePath(arg)
  {
    CanonicalizeIdempotent(arg.s);
  }

  /** A canonical absolute path is accepted and returned unchanged. */
  lemma SanitizeCanonical(p: string)
    requires CanonicalAbsolute(p)
    ensures SanitizePath(Str(p)) == Ok(p)
  {
    CanonicalFixpoint(p);
    var parts :| CleanSegments(parts) && p == AbsPath(parts);
    assert p[0] == '/';
  }

  /** ".." removes the segment before it: "/a/../x" is "/x" for any clean segments a and x. */
  lemma SanitizeClimb(a: string, x: string)
    requires CleanSegment(a) && CleanSegment(x)
    ensures SanitizePath(Str("/" + a + "/../" + x)) == Ok("/" + x)
  {
    CanonicalizeClimb(a, x);
  }

  /** The provideGet case: "/bar/../foobar" becomes "/foobar". */
  lemma SanitizeDotDotExample()
    ensures SanitizePath(Str("/bar/../foobar")) == Ok("/foobar")
  {
    SanitizeClimb("bar", "foobar");
    assert "/" + "bar" + "/../" + "foobar" == "/bar/../foobar";
    assert "/" + "foobar" == "/foobar";
  }

  /**
   * Once the path starts with "/", a backslash separates segments like a
   * slash: "/a\\..\\x" is "/x" for any clean segments a and x.
   */
  lemma SanitizeBackslashClimb(a: string, x: string)
    requires CleanSegment(a) && CleanSegment(x)
    ensures SanitizePath(Str("/" + a + "\\..\\" + x)) == Ok("/" + x)
  {
    var s := "/" + a + "\\..\\" + x;
    assert ToSlashes(s) == "/" + a + "/../" + x by {
      ToSlashesAppend("/" + a + "\\..\\", x);
      ToSlashesAppend("/" + a, "\\..\\");
      ToSlashesAppend("/", a);
      assert ToSlashes("\\..\\") == "/../";
    }
    CanonicalizeReadsBackslashes(s);
    CanonicalizeClimb(a, x);
  }

  /** The backslash case with concrete segments: "/a\\..\\b" becomes "/b". */
  lemma SanitizeBackslashExample()
    ensures SanitizePath(Str("/a\\..\\b")) == Ok("/b")
  {
    SanitizeBackslashClimb("a", "b");
    assert "/" + "a" + "\\..\\" + "b" == "/a\\..\\b";
    assert "/" + "b" == "/b";
  }

  /** A relative path such as "cmf/foobar" is rejected as not absolute. */
  lemma SanitizeRejectsRelative()
    ensures SanitizePath(Str("cmf/foobar")) == Err(PathNotAbsolute("cmf/foobar"))
  {
  }
}
