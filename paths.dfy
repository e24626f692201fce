/**
 * Path strings: PHP's `explode`/`implode` on "/", the canonical form computed
 * by `Path::canonicalize` (webmozart/path-util) and the PHPCR path helpers
 * the repositories use (node name, parent path, child path, prefix test).
 */
module Paths {

  /** The argument a caller passes where a path is expected: a PHP string or any other value. */
  datatype PathArg = Str(s: string) | NonString(typeName: string)

  /** `explode('/', s)`: the pieces between the slashes, empty pieces included. */
  function Split(s: string): (r: seq<string>)
    ensures |r| >= 1
    decreases |s|
  {
    if |s| == 0 then [""]
    else if s[0] == '/' then [""] + Split(s[1..])
    else
      var rest := Split(s[1..]);
      [[s[0]] + rest[0]] + rest[1..]
  }

  /** Concatenation regroups freely. */
  lemma AppendAssoc<T>(a: seq<T>, b: seq<T>, c: seq<T>)
    ensures (a + b) + c == a + (b + c)
  {
  }

  /** The prefix of length `i + 1` is the prefix of length `i` followed by `s[i]`. */
  lemma PrefixStep<T>(s: seq<T>, i: nat)
    requires i < |s|
    ensures s[..i + 1][..i] == s[..i] && s[..i + 1][i] == s[i]
    ensures s[..i + 1] == s[..i] + [s[i]]
  {
  }

  /** The whole sequence is its own longest prefix. */
  lemma PrefixAll<T>(s: seq<T>)
    ensures s[..|s|] == s
  {
  }

  /** `implode('/', parts)`. */
  function Join(parts: seq<string>): string
  {
    if |parts| == 0 then ""
    else if |parts| == 1 then parts[0]
    else parts[0] + "/" + Join(parts[1..])
  }

  /** The absolute path whose segments are `parts`. */
  function AbsPath(parts: seq<string>): string
  {
    "/" + Join(parts)
  }

  predicate NoSlash(x: string)
  {
    '/' !in x
  }

  predicate NoSlashes(parts: seq<string>)
  {
    forall i :: 0 <= i < |parts| ==> NoSlash(parts[i])
  }

  predicate NoBackslash(x: string)
  {
    '\\' !in x
  }

  predicate NoBackslashes(parts: seq<string>)
  {
    forall i :: 0 <= i < |parts| ==> NoBackslash(parts[i])
  }

  /**
   * A segment of a canonical path: not empty, not "." or "..", and without a
   * separator (`Path::canonicalize` reads a backslash as a slash).
   */
  predicate CleanSegment(x: string)
  {
    x != "" && x != "." && x != ".." && NoSlash(x) && NoBackslash(x)
  }

  predicate CleanSegments(parts: seq<string>)
  {
    forall i :: 0 <= i < |parts| ==> CleanSegment(parts[i])
  }

  /** Segments that are non-empty and slash-free ("." and ".." allowed). */
  predicate NamedSegments(parts: seq<string>)
  {
    forall i :: 0 <= i < |parts| ==> parts[i] != "" && NoSlash(parts[i])
  }

  /**
   * The segment loop of `Path::canonicalize`: "." and empty segments are
   * dropped; ".." removes the previous segment unless that is itself "..";
   * a ".." that removes nothing is kept in a relative path and dropped in an
   * absolute one.
   */
  function Collapse(acc: seq<string>, parts: seq<string>, absolute: bool): seq<string>
    decreases |parts|
  {
    if |parts| == 0 then acc
    else
      var part := parts[0];
      if part == "." || part == "" then Collapse(acc, parts[1..], absolute)
      else if part == ".." && |acc| > 0 && acc[|acc| - 1] != ".." then
        Collapse(acc[..|acc| - 1], parts[1..], absolute)
      else if part != ".." || !absolute then Collapse(acc + [part], parts[1..], absolute)
      else Collapse(acc, parts[1..], absolute)
  }

  /** `str_replace('\\', '/', s)`: every backslash becomes a slash, every other character stays. */
  function ToSlashes(s: string): (r: string)
    ensures |r| == |s|
    ensures NoBackslash(r)
    ensures NoBackslash(s) ==> r == s
  {
    seq(|s|, i requires 0 <= i < |s| => if s[i] == '\\' then '/' else s[i])
  }

  /**
   * `Path::canonicalize`: backslashes are turned into slashes first; then the
   * root ("/" or none) is followed by the collapsed segments joined with "/".
   * A rooted path comes out absolute with clean segments; any other path
   * comes out relative.
   */
  function Canonicalize(p: string): (r: string)
    ensures p == "" ==> r == ""
    ensures Rooted(p) ==> CanonicalAbsolute(r)
    ensures !Rooted(p) ==> r == "" || r[0] != '/'
  {
    var q := ToSlashes(p);
    if q == "" then ""
    else if q[0] == '/' then
      SplitNoSlashes(q[1..]);
      SplitNoBackslashes(q[1..]);
      CollapseAbsoluteIsClean([], Split(q[1..]));
      AbsPath(Collapse([], Split(q[1..]), true))
    else
      SplitNoSlashes(q);
      CollapseNonEmptySegments([], Split(q), false);
      var segments := Collapse([], Split(q), false);
      if |segments| > 0 then
        JoinNoLeadingSlash(segments);
        Join(segments)
      else
        Join(segments)
  }

  /** A path `Path::canonicalize` treats as absolute: it starts with a slash or a backslash. */
  predicate Rooted(p: string)
  {
    |p| > 0 && (p[0] == '/' || p[0] == '\\')
  }

  /** An absolute path in canonical form: "/" followed by clean segments. */
  ghost predicate CanonicalAbsolute(p: string)
  {
    exists parts :: CleanSegments(parts) && p == AbsPath(parts)
  }

  /** PHP `strpos($haystack, $needle) === 0`: `needle` is a prefix of `haystack`. */
  predicate StartsWith(haystack: string, needle: string)
  {
    |needle| <= |haystack| && haystack[..|needle|] == needle
  }

  /** PHP 8 `substr($s, $start)` for a start offset that is not negative. */
  function Substr(s: string, start: nat): (r: string)
    ensures start <= |s| ==> s == s[..start] + r
    ensures start >= |s| ==> r == ""
  {
    if start >= |s| then "" else s[start..]
  }

  /** PHP `substr_count($s, '/')`. */
  function SlashCount(s: string): nat
  {
    if |s| == 0 then 0 else (if s[0] == '/' then 1 else 0) + SlashCount(s[1..])
  }

  /** PHPCR node name: the last segment of the path ("" for the root). */
  function Basename(p: string): (r: string)
    ensures NoSlash(r)
    ensures NoSlash(p) ==> r == p
  {
    SplitNoSlashes(p);
    SplitName(p);
    var parts := Split(p);
    parts[|parts| - 1]
  }

  /** A path without "/" is its own only piece. */
  lemma SplitName(p: string)
    ensures NoSlash(p) ==> Split(p) == [p]
  {
    if NoSlash(p) {
      SplitSingle(p);
    }
  }

  /** PHPCR parent path of a non-root absolute path: always an absolute path. */
  function Dirname(p: string): (r: string)
    requires |p| > 0
    ensures r != "" && r[0] == '/'
  {
    var parts := Split(p[1..]);
    AbsPath(parts[..|parts| - 1])
  }

  /** PHPCR path of the child `name` of the node at `parent`. */
  function ChildPath(parent: string, name: string): string
  {
    if parent == "/" then "/" + name else parent + "/" + name
  }
  /**
   * A node's path is its parent path joined with its name, and for a
   * non-root path the parent's segments are all but the last, which is the
   * name.
   */
  lemma ParentAndName(parts: seq<string>)
    requires CleanSegments(parts)
    ensures ChildPath(Dirname(AbsPath(parts)), Basename(AbsPath(parts))) == AbsPath(parts)
    ensures |parts| >= 1 ==> Dirname(AbsPath(parts)) == AbsPath(parts[..|parts| - 1])
    ensures |parts| >= 1 ==> Basename(AbsPath(parts)) == parts[|parts| - 1]
  {
    if |parts| == 0 {
      RootParentAndName();
    } else {
      var n := |parts|;
      var init, last := parts[..n - 1], parts[n - 1];
      ParentAndNameSplit(parts);
      assert init + [last] == parts;
      ChildOfParent(init, last);
    }
  }

  /** Joining the path of `init` with the name `last` gives the path of `init + [last]`. */
  lemma ChildOfParent(init: seq<string>, last: string)
    requires CleanSegments(init) && CleanSegment(last)
    ensures ChildPath(AbsPath(init), last) == AbsPath(init + [last])
  {
    if |init| == 0 {
      assert AbsPath(init) == "/" && init + [last] == [last];
    } else {
      assert AbsPath(init) != "/" by {
        JoinNoLeadingSlash(init);
      }
      AbsPathAppend(init, [last]);
    }
  }

  /** The root is its own parent, with the empty name. */
  lemma RootParentAndName()
    ensures Dirname(AbsPath([])) == "/" && Basename(AbsPath([])) == ""
  {
    var p := AbsPath([]);
    assert p == "/" && p[1..] == "";
    assert Split(p) == [""] + Split("");
  }

  /** Below the root, the parent path holds all but the last segment, which is the name. */
  lemma ParentAndNameSplit(parts: seq<string>)
    requires CleanSegments(parts) && |parts| >= 1
    ensures Dirname(AbsPath(parts)) == AbsPath(parts[..|parts| - 1])
    ensures Basename(AbsPath(parts)) == parts[|parts| - 1]
  {
    var p := AbsPath(parts);
    assert Split(p[1..]) == parts by {
      assert p[1..] == Join(parts);
      assert NoSlashes(parts);
      SplitJoin(parts);
    }
    assert Split(p) == [""] + Split(p[1..]) by {
      assert p[0] == '/';
    }
  }



  // ---------------------------------------------------------------------
  // explode / implode

  lemma {:induction false} SplitNoSlashes(s: string)
    ensures NoSlashes(Split(s))
    decreases |s|
  {
    if |s| > 0 {
      SplitNoSlashes(s[1..]);
    }
  }

  lemma {:induction false} SplitNoBackslashes(s: string)
    requires NoBackslash(s)
    ensures NoBackslashes(Split(s))
    decreases |s|
  {
    if |s| > 0 {
      assert NoBackslash(s[1..]) by {
        assert forall i :: 0 <= i < |s[1..]| ==> s[1..][i] == s[i + 1];
      }
      SplitNoBackslashes(s[1..]);
    }
  }

  /** Joining backslash-free pieces with "/" gives a backslash-free string. */
  lemma {:induction false} JoinNoBackslash(parts: seq<string>)
    requires NoBackslashes(parts)
    ensures NoBackslash(Join(parts))
    decreases |parts|
  {
    if |parts| > 1 {
      JoinNoBackslash(parts[1..]);
      assert NoBackslash(parts[0]);
    }
  }

  /** A string without "/" explodes to itself. */
  lemma {:induction false} SplitSingle(x: string)
    requires NoSlash(x)
    ensures Split(x) == [x]
    decreases |x|
  {
    if |x| > 0 {
      SplitSingle(x[1..]);
      assert [x[0]] + x[1..] == x;
    }
  }

  /** Exploding "x/t" for a slash-free `x` gives `x` followed by the pieces of `t`. */
  lemma {:induction false} SplitCons(x: string, t: string)
    requires NoSlash(x)
    ensures Split(x + "/" + t) == [x] + Split(t)
    decreases |x|
  {
    if |x| == 0 {
      assert x + "/" + t == "/" + t;
      assert ("/" + t)[1..] == t;
    } else {
      var s := x + "/" + t;
      assert s[0] == x[0] && s[1..] == x[1..] + "/" + t;
      SplitCons(x[1..], t);
      assert [x[0]] + x[1..] == x;
    }
  }

  /** `explode` undoes `implode` on slash-free pieces. */
  lemma {:induction false} SplitJoin(parts: seq<string>)
    requires |parts| >= 1 && NoSlashes(parts)
    ensures Split(Join(parts)) == parts
    decreases |parts|
  {
    if |parts| == 1 {
      SplitSingle(parts[0]);
    } else {
      SplitJoin(parts[1..]);
      SplitCons(parts[0], Join(parts[1..]));
      assert [parts[0]] + parts[1..] == parts;
    }
  }

  lemma {:induction false} JoinAppend(a: seq<string>, b: seq<string>)
    requires |a| >= 1 && |b| >= 1
    ensures Join(a + b) == Join(a) + "/" + Join(b)
    decreases |a|
  {
    if |a| == 1 {
      assert (a + b)[1..] == b;
    } else {
      assert (a + b)[1..] == a[1..] + b;
      JoinAppend(a[1..], b);
    }
  }

  /** The absolute path of two non-empty segment lists, one after the other. */
  lemma AbsPathAppend(a: seq<string>, b: seq<string>)
    requires |a| >= 1 && |b| >= 1
    ensures AbsPath(a + b) == AbsPath(a) + AbsPath(b)
  {
    var ja, jb := Join(a), Join(b);
    assert Join(a + b) == (ja + "/") + jb by {
      JoinAppend(a, b);
    }
    AppendAssoc(ja, "/", jb);
    AppendAssoc("/", ja, "/" + jb);
  }

  lemma {:induction false} JoinNoLeadingSlash(parts: seq<string>)
    requires |parts| >= 1 && parts[0] != "" && NoSlash(parts[0])
    ensures Join(parts) != "" && Join(parts)[0] == parts[0][0] && Join(parts)[0] != '/'
  {
    if |parts| > 1 {
      assert Join(parts) == parts[0] + ("/" + Join(parts[1..]));
    }
  }

  // ---------------------------------------------------------------------
  // canonical form

  /** Collapsing appends already clean segments unchanged. */
  lemma {:induction false} CollapseClean(acc: seq<string>, parts: seq<string>, tail: seq<string>, absolute: bool)
    requires CleanSegments(parts)
    ensures Collapse(acc, parts + tail, absolute) == Collapse(acc + parts, tail, absolute)
    decreases |parts|
  {
    if |parts| == 0 {
      assert parts + tail == tail && acc + parts == acc;
    } else {
      assert (parts + tail)[0] == parts[0] && (parts + tail)[1..] == parts[1..] + tail;
      CollapseClean(acc + [parts[0]], parts[1..], tail, absolute);
      assert acc + [parts[0]] + parts[1..] == acc + parts;
    }
  }

  /** In an absolute path every collapsed segment is clean. */
  lemma {:induction false} CollapseAbsoluteIsClean(acc: seq<string>, parts: seq<string>)
    requires CleanSegments(acc) && NoSlashes(parts) && NoBackslashes(parts)
    ensures CleanSegments(Collapse(acc, parts, true))
    decreases |parts|
  {
    if |parts| > 0 {
      var part := parts[0];
      if part == "." || part == "" {
        CollapseAbsoluteIsClean(acc, parts[1..]);
      } else if part == ".." && |acc| > 0 && acc[|acc| - 1] != ".." {
        CollapseAbsoluteIsClean(acc[..|acc| - 1], parts[1..]);
      } else if part != ".." {
        CollapseAbsoluteIsClean(acc + [part], parts[1..]);
      } else {
        CollapseAbsoluteIsClean(acc, parts[1..]);
      }
    }
  }

  /** Every collapsed segment is non-empty and slash-free, relative or not. */
  lemma {:induction false} CollapseNonEmptySegments(acc: seq<string>, parts: seq<string>, absolute: bool)
    requires NamedSegments(acc) && NoSlashes(parts)
    ensures NamedSegments(Collapse(acc, parts, absolute))
    decreases |parts|
  {
    if |parts| > 0 {
      var part := parts[0];
      if part == "." || part == "" {
        CollapseNonEmptySegments(acc, parts[1..], absolute);
      } else if part == ".." && |acc| > 0 && acc[|acc| - 1] != ".." {
        CollapseNonEmptySegments(acc[..|acc| - 1], parts[1..], absolute);
      } else if part != ".." || !absolute {
        CollapseNonEmptySegments(acc + [part], parts[1..], absolute);
      } else {
        CollapseNonEmptySegments(acc, parts[1..], absolute);
      }
    }
  }

  /** The segments of the canonical form of an absolute path. */
  function CanonicalSegments(p: string): (parts: seq<string>)
    requires Rooted(p)
    ensures CleanSegments(parts)
    ensures Canonicalize(p) == AbsPath(parts)
  {
    var q := ToSlashes(p);
    assert q[0] == '/';
    SplitNoSlashes(q[1..]);
    SplitNoBackslashes(q[1..]);
    CollapseAbsoluteIsClean([], Split(q[1..]));
    Collapse([], Split(q[1..]), true)
  }

  /** The canonical form of an absolute path is "/" followed by clean segments. */
  lemma CanonicalizeAbsolute(p: string)
    requires Rooted(p)
    ensures CanonicalAbsolute(Canonicalize(p))
    ensures Canonicalize(p)[0] == '/'
  {
    var parts := CanonicalSegments(p);
    assert CleanSegments(parts) && Canonicalize(p) == AbsPath(parts);
  }

  /** Canonicalizing "/" followed by clean segments changes nothing. */
  lemma {:induction false} CanonicalizeAbsPath(parts: seq<string>)
    requires CleanSegments(parts)
    ensures Canonicalize(AbsPath(parts)) == AbsPath(parts)
  {
    var p := AbsPath(parts);
    assert p[0] == '/' && p[1..] == Join(parts);
    assert ToSlashes(p) == p by {
      JoinNoBackslash(parts);
    }
    if |parts| == 0 {
      assert Split(p[1..]) == [""];
      assert Collapse([], [""], true) == Collapse([], [], true);
    } else {
      SplitJoin(parts);
      CollapseClean([], parts, [], true);
      assert parts + [] == parts && [] + parts == parts;
    }
  }

  /** Replacing backslashes distributes over concatenation. */
  lemma ToSlashesAppend(a: string, b: string)
    ensures ToSlashes(a + b) == ToSlashes(a) + ToSlashes(b)
  {
    var l, r := ToSlashes(a + b), ToSlashes(a) + ToSlashes(b);
    assert forall i :: 0 <= i < |l| ==> l[i] == r[i] by {
      forall i | 0 <= i < |l|
        ensures l[i] == r[i]
      {
        if i < |a| {
          assert (a + b)[i] == a[i];
        } else {
          assert (a + b)[i] == b[i - |a|];
        }
      }
    }
  }

  /** A backslash and a slash separate segments alike: canonicalizing first turns the one into the other. */
  lemma CanonicalizeReadsBackslashes(p: string)
    ensures Canonicalize(p) == Canonicalize(ToSlashes(p))
  {
    var q := ToSlashes(p);
    assert ToSlashes(q) == q;
  }

  /** `Path::canonicalize` is idempotent on absolute paths. */
  lemma CanonicalizeIdempotent(p: string)
    requires Rooted(p)
    ensures Canonicalize(Canonicalize(p)) == Canonicalize(p)
  {
    var parts := CanonicalSegments(p);
    CanonicalizeAbsPath(parts);
  }

  /** A canonical absolute path is its own canonical form. */
  lemma CanonicalFixpoint(p: string)
    requires CanonicalAbsolute(p)
    ensures Canonicalize(p) == p
  {
    var parts :| CleanSegments(parts) && p == AbsPath(parts);
    CanonicalizeAbsPath(parts);
  }

  /**
   * Canonicalizing the concatenation of two canonical absolute paths joins
   * their segments: the base is kept as written and the path is appended.
   */
  lemma {:induction false} CanonicalizeConcat(base: seq<string>, rel: seq<string>)
    requires CleanSegments(base) && CleanSegments(rel) && |base| >= 1
    ensures Canonicalize(AbsPath(base) + AbsPath(rel)) == AbsPath(base + rel)
  {
    var s := AbsPath(base) + AbsPath(rel);
    assert s[0] == '/';
    assert ToSlashes(s) == s by {
      JoinNoBackslash(base);
      JoinNoBackslash(rel);
    }
    if |rel| == 0 {
      assert s[1..] == Join(base) + "/" + "";
      assert Join(base + [""]) == Join(base) + "/" + Join([""]) by { JoinAppend(base, [""]); }
      assert s[1..] == Join(base + [""]);
      SplitJoin(base + [""]);
      CollapseClean([], base, [""], true);
      assert Collapse(base, [""], true) == Collapse(base, [], true);
      assert [] + base == base && base + rel == base;
    } else {
      assert s[1..] == Join(base) + "/" + Join(rel);
      JoinAppend(base, rel);
      SplitJoin(base + rel);
      CollapseClean([], base + rel, [], true);
      assert (base + rel) + [] == base + rel && [] + (base + rel) == base + rel;
    }
  }

  /** A ".." right after the first segment removes it: "/a/../x" is "/x". */
  lemma CanonicalizeClimb(a: string, x: string)
    requires CleanSegment(a) && CleanSegment(x)
    ensures Canonicalize("/" + a + "/../" + x) == "/" + x
  {
    var parts := [a, "..", x];
    var p := "/" + a + "/../" + x;
    assert Split(p[1..]) == parts by {
      assert Join(parts) == a + "/" + (".." + "/" + x) by {
        assert Join(parts[2..]) == x;
        assert Join(parts[1..]) == ".." + "/" + x;
      }
      assert p[1..] == a + "/" + (".." + "/" + x);
      assert NoSlashes(parts);
      SplitJoin(parts);
    }
    assert Collapse([], parts, true) == [x] by {
      assert Collapse([], parts, true) == Collapse([a], parts[1..], true);
      assert Collapse([a], parts[1..], true) == Collapse([], parts[2..], true);
      assert Collapse([], parts[2..], true) == Collapse([x], [], true);
    }
  }

  /**
   * The canonical form of a non-empty path starts with "/" exactly when the
   * path starts with a slash or a backslash: canonicalization never turns a
   * relative path absolute.
   */
  lemma CanonicalizeKeepsRoot(p: string)
    requires p != ""
    ensures (Canonicalize(p) != "" && Canonicalize(p)[0] == '/') <==> Rooted(p)
  {
    var q := ToSlashes(p);
    if q[0] != '/' {
      SplitNoSlashes(q);
      CollapseNonEmptySegments([], Split(q), false);
      var r := Collapse([], Split(q), false);
      if |r| > 0 {
        JoinNoLeadingSlash(r);
      }
    }
  }
}
