/**
 * The composite repository: a mount table from paths to repositories. A
 * request is routed to one mounted repository (or to a virtual root that
 * lists the top-level mounts), delegated with the remainder of the path, and
 * the resources that come back are re-addressed under the mount point.
 */
module CompositeRepository {
  import opened Wrappers
  import opened Paths
  import opened Resources
  import PhpArrays

  /**
   * A mounted repository, seen through the operations the composite calls
   * on it; each may fail with the repository's own error.
   */
  datatype Mounted = Mounted(
    get: string -> Result<Resource>,
    find: string -> Result<seq<Resource>>,
    listChildren: string -> Result<seq<Resource>>)

  /** One resource added to the virtual root, at the mount key. */
  datatype Entry = Entry(path: string, resource: Resource)

  /** The repository a request goes to, its mount point and the path handed to it. */
  datatype Route = Route(repository: Mounted, mountPoint: string, path: string)

  /**
   * How a mount key is tested against the requested path: as written, the
   * key must start with the path; as intended, the path must lie at or
   * below the key.
   */
  datatype PrefixTest = KeyStartsWithPath | PathUnderKey

  /** A requested path lies at or below the mount key, on a segment boundary. */
  predicate Under(key: string, path: string)
  {
    key == "/" || path == key || StartsWith(path, key + "/")
  }

  predicate Fits(test: PrefixTest, key: string, path: string)
  {
    match test
    case KeyStartsWithPath => StartsWith(key, path)
    case PathUnderKey => Under(key, path)
  }

  /**
   * The mount key chosen for `path` among `keys`, scanned in order: a key
   * that fits replaces the current choice when there is none or when it is
   * strictly longer. So the choice is the first of the longest fitting keys.
   */
  function Longest(keys: seq<string>, path: string, test: PrefixTest): (r: Option<string>)
    ensures r.None? <==> forall i :: 0 <= i < |keys| ==> !Fits(test, keys[i], path)
    ensures r.Some? ==> r.value in keys && Fits(test, r.value, path)
    ensures r.Some? ==> forall i :: 0 <= i < |keys| && Fits(test, keys[i], path) ==> |keys[i]| <= |r.value|
  {
    if |keys| == 0 then None
    else
      var init := keys[..|keys| - 1];
      var key := keys[|keys| - 1];
      var prev := Longest(init, path, test);
      assert forall i :: 0 <= i < |init| ==> init[i] == keys[i];
      if !Fits(test, key, path) then prev
      else if prev.None? || |key| > |prev.value| then Some(key)
      else prev
  }

  /** Among fitting keys of the same greatest length, the first one is chosen. */
  lemma {:induction false} LongestFirst(keys: seq<string>, path: string, test: PrefixTest, i: nat)
    requires i < |keys| && Fits(test, keys[i], path)
    requires Longest(keys, path, test).Some? && |keys[i]| == |Longest(keys, path, test).value|
    ensures Longest(keys, path, test).value in keys[..i + 1]
    decreases |keys|
  {
    var init := keys[..|keys| - 1];
    assert forall j :: 0 <= j < |init| ==> init[j] == keys[j];
    if i < |keys| - 1 {
      LongestFirst(init, path, test, i);
      assert init[..i + 1] == keys[..i + 1];
    } else {
      assert keys[..i + 1] == keys;
    }
  }

  /**
   * The additions that build the virtual root: for each mount key with at
   * most one "/", in mount order, that repository's root resource at the
   * key. The first failing `get("/")` fails the whole.
   */
  function MemoryEntries(repos: PhpArrays.PhpArray<Mounted>, n: nat): (r: Result<seq<Entry>>)
    requires PhpArrays.Valid(repos) && n <= |repos.keys|
    ensures r.Ok? ==> |r.value| <= n
  {
    if n == 0 then Ok([])
    else
      var key := repos.keys[n - 1];
      var prev := MemoryEntries(repos, n - 1);
      if prev.Err? then prev
      else if SlashCount(key) > 1 then prev
      else
        var root := repos.values[key].get("/");
        if root.Err? then Err(root.error) else Ok(prev.value + [Entry(key, root.value)])
  }

  /** Each entry is a top-level mount key holding that repository's root resource. */
  lemma {:induction false} MemoryEntriesSound(repos: PhpArrays.PhpArray<Mounted>, n: nat)
    requires PhpArrays.Valid(repos) && n <= |repos.keys|
    requires MemoryEntries(repos, n).Ok?
    ensures forall e :: e in MemoryEntries(repos, n).value ==>
      e.path in repos.values && SlashCount(e.path) <= 1 && repos.values[e.path].get("/") == Ok(e.resource)
    decreases n
  {
    if n > 0 {
      MemoryEntriesSound(repos, n - 1);
    }
  }

  /** The virtual root route: the in-memory repository built from the entries, at mount point "/". */
  function MemoryRoute(repos: PhpArrays.PhpArray<Mounted>, memory: seq<Entry> -> Mounted, path: string): (r: Result<Route>)
    requires PhpArrays.Valid(repos)
    ensures r.Ok? ==> r.value.mountPoint == "/" && r.value.path == path
  {
    var entries := MemoryEntries(repos, |repos.keys|);
    if entries.Err? then Err(entries.error) else Ok(Route(memory(entries.value), "/", path))
  }

  /**
   * `getRepository`, as written: "/" goes to the virtual root; otherwise the
   * first longest key that starts with the path, with the remainder "/" +
   * the path after the key's length; with no such key, the virtual root.
   */
  function RouteOf(repos: PhpArrays.PhpArray<Mounted>, memory: seq<Entry> -> Mounted, path: string): Result<Route>
    requires PhpArrays.Valid(repos)
  {
    if path == "/" then MemoryRoute(repos, memory, path)
    else
      match Longest(repos.keys, path, KeyStartsWithPath)
      case Some(key) => Ok(Route(repos.values[key], key, "/" + Substr(path, |key|)))
      case None => MemoryRoute(repos, memory, path)
  }

  /**
   * `replaceByReferences`: unchanged under mount point "/", otherwise each
   * resource is re-addressed at the mount point followed by its path.
   */
  function References(resources: seq<Resource>, mountPoint: string): (r: seq<Resource>)
    ensures |r| == |resources|
    ensures mountPoint == "/" ==> r == resources
    ensures mountPoint != "/" ==> forall i :: 0 <= i < |r| ==>
      r[i] == CreateReference(resources[i], mountPoint + resources[i].path)
  {
    if mountPoint == "/" then resources
    else seq(|resources|, i requires 0 <= i < |resources| => CreateReference(resources[i], mountPoint + resources[i].path))
  }

  /**
   * `replaceByReferences`, the loop that replaces each entry of the
   * collection in place.
   */
  method ReplaceByReferences(resources: seq<Resource>, mountPoint: string) returns (out: seq<Resource>)
    ensures out == References(resources, mountPoint)
  {
    if mountPoint == "/" {
      return resources;
    }
    out := resources;
    for key := 0 to |out|
      invariant |out| == |resources|
      invariant forall i :: 0 <= i < key ==> out[i] == CreateReference(resources[i], mountPoint + resources[i].path)
      invariant forall i :: key <= i < |out| ==> out[i] == resources[i]
    {
      out := out[key := CreateReference(out[key], mountPoint + out[key].path)];
    }
  }

  class Composite {
    /** The mount table: mount path to repository, in mount order. */
    var repos: PhpArrays.PhpArray<Mounted>
    /** The in-memory repository holding the given additions (not part of this model). */
    const memory: seq<Entry> -> Mounted

    ghost predicate Valid()
      reads this
    {
      PhpArrays.Valid(repos)
    }

    constructor (memory: seq<Entry> -> Mounted)
      ensures Valid() && repos.keys == [] && repos.values == map[]
      ensures this.memory == memory
    {
      repos := PhpArrays.Empty();
      this.memory := memory;
    }

    /**
     * `mount`: the repository is stored under `path`, replacing any earlier
     * mount there; every other mount is kept, and the mount order only grows
     * by a new key.
     */
    method Mount(path: string, repository: Mounted)
      requires Valid()
      modifies this
      ensures Valid()
      ensures repos == PhpArrays.Set(old(repos), path, repository)
      ensures repos.values[path] == repository
      ensures forall k :: k != path && k in old(repos.values) ==> k in repos.values && repos.values[k] == old(repos.values)[k]
    {
      repos := PhpArrays.Set(repos, path, repository);
    }

    /** `getMemoryRepository`: the virtual root, built from the top-level mounts. */
    method GetMemoryRepository(path: string) returns (r: Result<Route>)
      requires Valid()
      ensures r == MemoryRoute(repos, memory, path)
    {
      var entries: seq<Entry> := [];
      for i := 0 to |repos.keys|
        invariant MemoryEntries(repos, i) == Ok(entries)
      {
        var key := repos.keys[i];
        if SlashCount(key) > 1 {
          continue;
        }
        var root := repos.values[key].get("/");
        if root.Err? {
          MemoryEntriesFailure(repos, |repos.keys|, i + 1);
          return Err(root.error);
        }
        entries := entries + [Entry(key, root.value)];
      }
      r := Ok(Route(memory(entries), "/", path));
    }

    /** `getRepository`: the scan of the mount table, as written. */
    method GetRepository(path: string) returns (r: Result<Route>)
      requires Valid()
      ensures r == RouteOf(repos, memory, path)
    {
      if path == "/" {
        r := GetMemoryRepository(path);
        return;
      }
      var resolved: Option<string> := None;
      for i := 0 to |repos.keys|
        invariant resolved == Longest(repos.keys[..i], path, KeyStartsWithPath)
      {
        var key := repos.keys[i];
        PrefixStep(repos.keys, i);
        if !StartsWith(key, path) {
          continue;
        }
        if resolved.None? || |key| > |resolved.value| {
          resolved := Some(key);
        }
      }
      PrefixAll(repos.keys);
      if resolved.Some? {
        return Ok(Route(repos.values[resolved.value], resolved.value, "/" + Substr(path, |resolved.value|)));
      }
      r := GetMemoryRepository(path);
    }

    /**
     * `get`: the routed repository's resource at the remainder, re-addressed
     * at the mount point followed by the remainder.
     */
    method Get(path: string) returns (r: Result<Resource>)
      requires Valid()
      ensures var route := RouteOf(repos, memory, path);
        r == if route.Err? then Err(route.error)
             else
               var found := route.value.repository.get(route.value.path);
               if found.Err? then Err(found.error)
               else Ok(CreateReference(found.value, route.value.mountPoint + route.value.path))
    {
      var route := GetRepository(path);
      if route.Err? {
        return Err(route.error);
      }
      var found := route.value.repository.get(route.value.path);
      if found.Err? {
        return Err(found.error);
      }
      r := Ok(CreateReference(found.value, route.value.mountPoint + route.value.path));
    }

    /** `find`: the routed repository's matches, re-addressed; the language is not consulted. */
    method Find(query: string, language: string) returns (r: Result<seq<Resource>>)
      requires Valid()
      ensures r == FindOf(repos, memory, query)
    {
      var route := GetRepository(query);
      if route.Err? {
        return Err(route.error);
      }
      var found := route.value.repository.find(route.value.path);
      if found.Err? {
        return Err(found.error);
      }
      var replaced := ReplaceByReferences(found.value, route.value.mountPoint);
      r := Ok(replaced);
    }

    /** `contains`: whether `find` returns anything. */
    method Contains(query: string, language: string) returns (r: Result<bool>)
      requires Valid()
      ensures var found := FindOf(repos, memory, query);
        r == if found.Err? then Err(found.error) else Ok(|found.value| > 0)
    {
      var found := Find(query, language);
      if found.Err? {
        return Err(found.error);
      }
      r := Ok(|found.value| > 0);
    }

    /** `listChildren`: the routed repository's children, re-addressed. */
    method ListChildren(path: string) returns (r: Result<seq<Resource>>)
      requires Valid()
      ensures r == ChildrenOf(repos, memory, path)
    {
      var route := GetRepository(path);
      if route.Err? {
        return Err(route.error);
      }
      var children := route.value.repository.listChildren(route.value.path);
      if children.Err? {
        return Err(children.error);
      }
      var replaced := ReplaceByReferences(children.value, route.value.mountPoint);
      r := Ok(replaced);
    }

    /** `hasChildren`: whether `listChildren` returns anything. */
    method HasChildren(path: string) returns (r: Result<bool>)
      requires Valid()
      ensures var children := ChildrenOf(repos, memory, path);
        r == if children.Err? then Err(children.error) else Ok(|children.value| > 0)
    {
      var children := ListChildren(path);
      if children.Err? {
        return Err(children.error);
      }
      r := Ok(|children.value| > 0);
    }
  }

  /** What `find` returns for a query: the routed repository's matches, re-addressed. */
  function FindOf(repos: PhpArrays.PhpArray<Mounted>, memory: seq<Entry> -> Mounted, query: string): (r: Result<seq<Resource>>)
    requires PhpArrays.Valid(repos)
  {
    var route := RouteOf(repos, memory, query);
    if route.Err? then Err(route.error)
    else
      var found := route.value.repository.find(route.value.path);
      if found.Err? then Err(found.error) else Ok(References(found.value, route.value.mountPoint))
  }

  /** What `listChildren` returns for a path: the routed repository's children, re-addressed. */
  function ChildrenOf(repos: PhpArrays.PhpArray<Mounted>, memory: seq<Entry> -> Mounted, path: string): (r: Result<seq<Resource>>)
    requires PhpArrays.Valid(repos)
  {
    var route := RouteOf(repos, memory, path);
    if route.Err? then Err(route.error)
    else
      var children := route.value.repository.listChildren(route.value.path);
      if children.Err? then Err(children.error) else Ok(References(children.value, route.value.mountPoint))
  }

  /** A failing root lookup at key `keys[i - 1]` fails the scan of the first `n` keys with the same error. */
  lemma {:induction false} MemoryEntriesFailure(repos: PhpArrays.PhpArray<Mounted>, n: nat, i: nat)
    requires PhpArrays.Valid(repos) && 1 <= i <= n <= |repos.keys|
    requires MemoryEntries(repos, i - 1).Ok?
    requires SlashCount(repos.keys[i - 1]) <= 1 && repos.values[repos.keys[i - 1]].get("/").Err?
    ensures MemoryEntries(repos, n) == Err(repos.values[repos.keys[i - 1]].get("/").error)
    decreases n
  {
    if i < n {
      MemoryEntriesFailure(repos, n - 1, i);
      assert MemoryEntries(repos, n - 1).Err?;
      assert MemoryEntries(repos, n) == MemoryEntries(repos, n - 1);
    } else {
      var key := repos.keys[n - 1];
      assert MemoryEntries(repos, n) == Err(repos.values[key].get("/").error);
    }
  }

  // ---------------------------------------------------------------------
  // routing as written

  /** "/" always goes to the virtual root, whatever is mounted. */
  lemma RootRoutesToMemory(repos: PhpArrays.PhpArray<Mounted>, memory: seq<Entry> -> Mounted)
    requires PhpArrays.Valid(repos)
    ensures RouteOf(repos, memory, "/") == MemoryRoute(repos, memory, "/")
    ensures RouteOf(repos, memory, "/").Ok? ==> RouteOf(repos, memory, "/").value.mountPoint == "/"
  {
  }

  /**
   * A chosen key starts with the path, so it is at least as long and the
   * path handed to the mounted repository is always "/".
   */
  lemma RoutedRemainderIsRoot(repos: PhpArrays.PhpArray<Mounted>, memory: seq<Entry> -> Mounted, path: string)
    requires PhpArrays.Valid(repos)
    requires path != "/" && Longest(repos.keys, path, KeyStartsWithPath).Some?
    ensures RouteOf(repos, memory, path).Ok?
    ensures RouteOf(repos, memory, path).value.path == "/"
    ensures StartsWith(RouteOf(repos, memory, path).value.mountPoint, path)
  {
    var key := Longest(repos.keys, path, KeyStartsWithPath).value;
    assert Substr(path, |key|) == "";
  }

  /** With no key that starts with the path, the virtual root gets the path unchanged. */
  lemma NoCandidateFallsBack(repos: PhpArrays.PhpArray<Mounted>, memory: seq<Entry> -> Mounted, path: string)
    requires PhpArrays.Valid(repos)
    requires forall i :: 0 <= i < |repos.keys| ==> !StartsWith(repos.keys[i], path)
    ensures RouteOf(repos, memory, path) == MemoryRoute(repos, memory, path)
    ensures RouteOf(repos, memory, path).Ok? ==>
      RouteOf(repos, memory, path).value.mountPoint == "/" && RouteOf(repos, memory, path).value.path == path
  {
    assert Longest(repos.keys, path, KeyStartsWithPath).None?;
  }

  /** Every mount key with at most one "/" has its root resource in the virtual root. */
  lemma {:induction false} MemoryEntriesComplete(repos: PhpArrays.PhpArray<Mounted>, n: nat, j: nat)
    requires PhpArrays.Valid(repos) && j < n <= |repos.keys|
    requires MemoryEntries(repos, n).Ok? && SlashCount(repos.keys[j]) <= 1
    ensures exists e :: e in MemoryEntries(repos, n).value && e.path == repos.keys[j]
    decreases n
  {
    if j == n - 1 {
      var last := Entry(repos.keys[j], repos.values[repos.keys[j]].get("/").value);
      assert last in MemoryEntries(repos, n).value;
    } else {
      MemoryEntriesComplete(repos, n - 1, j);
      var e :| e in MemoryEntries(repos, n - 1).value && e.path == repos.keys[j];
      assert e in MemoryEntries(repos, n).value;
    }
  }

  /**
   * Re-addressed resources lie under the mount point, and stripping the
   * mount point gives back the path the mounted repository used.
   */
  lemma ReferencesUnderMount(resources: seq<Resource>, mountPoint: string)
    ensures forall i :: 0 <= i < |resources| ==>
      var r := References(resources, mountPoint)[i];
      r.payload == resources[i].payload &&
      (mountPoint != "/" ==> StartsWith(r.path, mountPoint) && Substr(r.path, |mountPoint|) == resources[i].path)
  {
    forall i | 0 <= i < |resources| && mountPoint != "/"
      ensures (mountPoint + resources[i].path)[..|mountPoint|] == mountPoint
      ensures (mountPoint + resources[i].path)[|mountPoint|..] == resources[i].path
    {
    }
  }

  /**
   * With "/" and "/child" mounted, "/child/file1.txt" fits neither key as
   * written (neither key starts with it) and goes to the virtual root; the
   * intended test picks "/child".
   */
  lemma RoutingCounterexample(root: Mounted, child: Mounted, memory: seq<Entry> -> Mounted)
    ensures var repos := PhpArrays.PhpArray(["/", "/child"], map["/" := root, "/child" := child]);
      PhpArrays.Valid(repos) &&
      RouteOf(repos, memory, "/child/file1.txt") == MemoryRoute(repos, memory, "/child/file1.txt") &&
      Longest(repos.keys, "/child/file1.txt", PathUnderKey) == Some("/child")
  {
    var repos := PhpArrays.PhpArray(["/", "/child"], map["/" := root, "/child" := child]);
    var path := "/child/file1.txt";
    assert !StartsWith("/", path) && !StartsWith("/child", path);
    assert Longest(repos.keys, path, KeyStartsWithPath).None?;
    assert Under("/child", path) by {
      assert path[..|"/child/"|] == "/child/";
    }
  }

  /**
   * `get` joins the mount point and the remainder by concatenation: a path
   * that goes to the virtual root comes back with "/" in front of it, so
   * "/child/file1.txt" becomes "//child/file1.txt".
   */
  lemma GetDoublesLeadingSlash(repos: PhpArrays.PhpArray<Mounted>, memory: seq<Entry> -> Mounted, path: string)
    requires PhpArrays.Valid(repos)
    requires path != "" && path[0] == '/'
    requires forall i :: 0 <= i < |repos.keys| ==> !StartsWith(repos.keys[i], path)
    requires RouteOf(repos, memory, path).Ok?
    ensures var route := RouteOf(repos, memory, path).value;
      route.mountPoint + route.path == "/" + path &&
      (route.mountPoint + route.path)[..2] == "//"
  {
    NoCandidateFallsBack(repos, memory, path);
  }

  // ---------------------------------------------------------------------
  // routing as intended

  /** The path handed to the repository mounted at `key`: what follows the key, as an absolute path. */
  function Remainder(key: string, path: string): (r: string)
    requires Under(key, path)
  {
    if key == "/" then path
    else if path == key then "/"
    else path[|key|..]
  }

  /** The mount point and the remainder put back together. */
  function MountJoin(mountPoint: string, rest: string): string
  {
    if mountPoint == "/" then rest
    else if rest == "/" then mountPoint
    else mountPoint + rest
  }

  /**
   * Routing with the intended prefix test: "/" goes to the virtual root;
   * otherwise the first longest key the path lies under, with what follows
   * the key; with no such key, the virtual root.
   */
  function CorrectedRouteOf(repos: PhpArrays.PhpArray<Mounted>, memory: seq<Entry> -> Mounted, path: string): Result<Route>
    requires PhpArrays.Valid(repos)
  {
    if path == "/" then MemoryRoute(repos, memory, path)
    else
      match Longest(repos.keys, path, PathUnderKey)
      case Some(key) => Ok(Route(repos.values[key], key, Remainder(key, path)))
      case None => MemoryRoute(repos, memory, path)
  }

  /**
   * With the intended routing, an absolute path without a trailing "/" goes
   * to the longest mount it lies under, the remainder is absolute, and
   * joining mount point and remainder gives back the requested path.
   */
  lemma CorrectedRouteRecomposes(repos: PhpArrays.PhpArray<Mounted>, memory: seq<Entry> -> Mounted, path: string)
    requires PhpArrays.Valid(repos)
    requires path != "" && path[0] == '/' && (path == "/" || path[|path| - 1] != '/')
    requires CorrectedRouteOf(repos, memory, path).Ok?
    ensures var route := CorrectedRouteOf(repos, memory, path).value;
      route.path != "" && route.path[0] == '/' &&
      MountJoin(route.mountPoint, route.path) == path &&
      (route.mountPoint != "/" ==> forall i :: 0 <= i < |repos.keys| && Under(repos.keys[i], path) ==>
        |repos.keys[i]| <= |route.mountPoint|)
  {
    var route := CorrectedRouteOf(repos, memory, path).value;
    if path != "/" && Longest(repos.keys, path, PathUnderKey).Some? {
      var key := Longest(repos.keys, path, PathUnderKey).value;
      if key != "/" && path != key {
        assert path[..|key| + 1] == key + "/";
        assert path[|key|] == '/';
        assert |path| > |key| + 1;
        assert path[|key|..] != "/";
        assert key + path[|key|..] == path by {
          assert path[..|key|] == key;
        }
      }
    }
  }
}
