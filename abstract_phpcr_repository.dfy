/**
 * The repository shared by the PHPCR and PHPCR-ODM flavours: query
 * language checks, path resolution through the finder, the count-returning
 * `remove` and `move` with their error wrapping, and the position check of
 * `reorder`. The flavour-specific steps are dispatched to the modules
 * `PhpcrRepository` and `PhpcrOdmRepository`.
 */
module AbstractPhpcrRepository {
  import opened Wrappers
  import opened Paths
  import opened Backend
  import opened Resources
  import opened PathResolution
  import PuliAbstractRepository
  import PhpcrRepository
  import PhpcrOdmRepository

  /** Which concrete repository class the object is. */
  datatype Flavour = Phpcr | PhpcrOdm

  /** The log the flavour's `removeNodes` leaves behind. */
  function RemoveCalls(flavour: Flavour, nodes: seq<string>, failing: set<string>): seq<Call>
  {
    match flavour
    case Phpcr => PhpcrRepository.RemoveCalls(nodes, failing)
    case PhpcrOdm => PhpcrOdmRepository.RemoveCalls(nodes, failing)
  }

  /** The log the flavour's `moveNodes` leaves behind. */
  function MoveCalls(flavour: Flavour, nodes: seq<string>, globbed: bool, targetPath: string, failing: set<string>): seq<Call>
    requires |nodes| > 0
  {
    match flavour
    case Phpcr => PhpcrRepository.MoveCalls(nodes, globbed, targetPath, failing)
    case PhpcrOdm => PhpcrOdmRepository.MoveCalls(nodes, globbed, targetPath, failing)
  }

  /** The child order the flavour's `reorderNode` leaves behind. */
  function Reordered(flavour: Flavour, names: seq<string>, name: string, position: nat): (r: seq<string>)
    requires name in names
    ensures multiset(r) == multiset(names)
  {
    match flavour
    case Phpcr => PhpcrRepository.Reordered(names, name, position)
    case PhpcrOdm => PhpcrOdmRepository.Reordered(names, name, position)
  }

  /** The log the flavour's `reorderNode` leaves behind. */
  function ReorderCalls(flavour: Flavour, parent: string, names: seq<string>, name: string, position: nat): seq<Call>
    requires |names| > 0
  {
    match flavour
    case Phpcr => PhpcrRepository.ReorderCalls(parent, names, name, position) + [Save]
    case PhpcrOdm => [PhpcrOdmRepository.ReorderCall(parent, names, name, position), Flush]
  }

  /**
   * Whatever the flavour, a position with no next sibling makes the node the
   * last child, and position 0 makes it the first.
   */
  lemma ReorderEnds(flavour: Flavour, names: seq<string>, name: string, position: nat)
    requires Distinct(names) && name in names
    ensures name in Reordered(flavour, names, name, position)
    ensures position == 0 ==> IndexOf(Reordered(flavour, names, name, position), name) == 0
    ensures position >= 1 && position + 1 >= |names| ==>
      IndexOf(Reordered(flavour, names, name, position), name) == |names| - 1
  {
    assert name in multiset(Reordered(flavour, names, name, position));
    match flavour
    case Phpcr =>
      if position == 0 {
        PhpcrRepository.ReorderToFront(names, name);
      } else if position + 1 >= |names| {
        PhpcrRepository.ReorderToEnd(names, name, position);
      }
    case PhpcrOdm =>
      if position == 0 {
        PhpcrOdmRepository.ReorderToFront(names, name);
      } else if position + 1 >= |names| {
        PhpcrOdmRepository.ReorderToEnd(names, name, position);
      }
  }

  class Repository {
    const flavour: Flavour
    /** The base path every path is served from; null, "" and "0" mean none. */
    const basePath: Option<string>
    /** The PHPCR session, or the document manager with its session. */
    const store: Store
    /** `FinderInterface::find`: the backend paths a resolved query selects in the tree. */
    const finder: (Tree, string) -> seq<string>
    /** `GlobHelper::isGlobbed`. */
    const isGlobbed: string -> bool

    constructor (flavour: Flavour, store: Store, finder: (Tree, string) -> seq<string>, isGlobbed: string -> bool, basePath: Option<string>)
      ensures this.flavour == flavour && this.store == store && this.finder == finder
      ensures this.isGlobbed == isGlobbed && this.basePath == basePath
    {
      this.flavour := flavour;
      this.store := store;
      this.finder := finder;
      this.isGlobbed := isGlobbed;
      this.basePath := basePath;
    }

    /** The backend the repository works on is consistent. */
    ghost predicate Valid()
      reads this, store
    {
      store.Valid()
    }

    /**
     * The node or document `get` finds for `path`: path errors pass through;
     * a resolved path missing from the tree is not found (a node or a
     * document, by flavour); the PHPCR session may answer null; otherwise
     * the node or document at the resolved path is found.
     */
    function Lookup(path: PathArg): (r: Result<string>)
      reads store
      ensures r.Ok? ==> ResolvePath(basePath, path) == r && r.value in store.tree
      ensures ResolvePath(basePath, path).Err? ==> r == ResolvePath(basePath, path)
      ensures ResolvePath(basePath, path).Ok? ==>
        var p := ResolvePath(basePath, path).value;
        p !in store.tree ==> r == Err(if flavour.Phpcr? then NodeNotFound(p) else DocumentNotFound(p))
      ensures ResolvePath(basePath, path).Ok? ==>
        var p := ResolvePath(basePath, path).value;
        flavour.Phpcr? && p in store.tree && p in store.nullNodes ==> r == Err(SessionReturnedNull)
      ensures ResolvePath(basePath, path).Ok? ==>
        var p := ResolvePath(basePath, path).value;
        p in store.tree && (flavour.PhpcrOdm? || p !in store.nullNodes) ==> r == Ok(p)
    {
      match flavour
      case Phpcr => PhpcrRepository.GetNode(store, basePath, path)
      case PhpcrOdm => PhpcrOdmRepository.GetDocument(store, basePath, path)
    }

    /** `get`: the resource at `path`, wrapping the node or document found there. */
    function Get(path: PathArg): (r: Result<Resource>)
      reads store
      ensures r.Ok? <==> Lookup(path).Ok?
      ensures r.Err? ==> r.error == Lookup(path).error
      ensures r.Ok? ==> path.Str? && r.value.path == path.s && r.value.isCmf
      ensures r.Ok? ==> r.value == ResourceAt(path.s, Lookup(path).value)
    {
      match flavour
      case Phpcr => PhpcrRepository.Get(store, basePath, path)
      case PhpcrOdm => PhpcrOdmRepository.Get(store, basePath, path)
    }

    /** The resource for the node or document at the backend path `p`, exposed at `path`. */
    function ResourceAt(path: string, p: string): (r: Resource)
      reads store
      ensures r.path == path && r.isCmf
    {
      match flavour
      case Phpcr => PhpcrRepository.NodeResource(store, path, p)
      case PhpcrOdm => PhpcrOdmRepository.DocumentResource(store, path, p)
    }

    /** `buildCollection`: one resource per backend path, at its unresolved path. */
    method BuildCollection(nodes: seq<string>) returns (rs: seq<Resource>)
      ensures |rs| == |nodes|
      ensures forall i :: 0 <= i < |nodes| ==> rs[i] == ResourceAt(UnresolvePath(basePath, nodes[i]), nodes[i])
    {
      match flavour
      case Phpcr => rs := PhpcrRepository.BuildCollection(store, basePath, nodes);
      case PhpcrOdm => rs := PhpcrOdmRepository.BuildCollection(store, basePath, nodes);
    }

    /** `listChildren`: the children of the resource at `path`, in order. */
    method ListChildren(path: PathArg) returns (r: Result<seq<Resource>>)
      ensures r.Err? <==> Lookup(path).Err?
      ensures r.Err? ==> r.error == Lookup(path).error
      ensures r.Ok? ==> var p := Lookup(path).value;
        |r.value| == |store.tree[p]| &&
        forall i :: 0 <= i < |r.value| ==>
          r.value[i] == ResourceAt(UnresolvePath(basePath, ChildPath(p, store.tree[p][i])), ChildPath(p, store.tree[p][i]))
    {
      match flavour
      case Phpcr => r := PhpcrRepository.ListChildren(store, basePath, path);
      case PhpcrOdm => r := PhpcrOdmRepository.ListChildren(store, basePath, path);
    }

    /** `hasChildren`: whether the resource at `path` has at least one child. */
    method HasChildren(path: PathArg) returns (r: Result<bool>)
      ensures r.Err? <==> Lookup(path).Err?
      ensures r.Err? ==> r.error == Lookup(path).error
      ensures r.Ok? ==> r.value == (|store.tree[Lookup(path).value]| > 0)
    {
      var children := ListChildren(path);
      if children.Err? {
        return Err(children.error);
      }
      return Ok(|children.value| > 0);
    }

    /**
     * `find`: only the glob language is supported; the query is resolved and
     * handed to the finder, whose matches become the collection.
     */
    method Find(query: PathArg, language: string) returns (r: Result<seq<Resource>>)
      ensures language != "glob" ==> r == Err(UnsupportedLanguage(language))
      ensures language == "glob" && ResolvePath(basePath, query).Err? ==> r == Err(ResolvePath(basePath, query).error)
      ensures language == "glob" && ResolvePath(basePath, query).Ok? ==>
        var nodes := finder(store.tree, ResolvePath(basePath, query).value);
        r.Ok? && |r.value| == |nodes| &&
        forall i :: 0 <= i < |nodes| ==> r.value[i] == ResourceAt(UnresolvePath(basePath, nodes[i]), nodes[i])
    {
      if language != "glob" {
        return Err(UnsupportedLanguage(language));
      }
      var resolved := ResolvePath(basePath, query);
      if resolved.Err? {
        return Err(resolved.error);
      }
      var rs := BuildCollection(finder(store.tree, resolved.value));
      return Ok(rs);
    }

    /** `contains`: whether `find` selects at least one resource. */
    method Contains(selector: PathArg, language: string) returns (r: Result<bool>)
      ensures language != "glob" ==> r == Err(UnsupportedLanguage(language))
      ensures language == "glob" ==> (r.Err? <==> ResolvePath(basePath, selector).Err?)
      ensures language == "glob" && ResolvePath(basePath, selector).Ok? ==>
        r == Ok(|finder(store.tree, ResolvePath(basePath, selector).value)| > 0)
    {
      var found := Find(selector, language);
      if found.Err? {
        return Err(found.error);
      }
      return Ok(|found.value| > 0);
    }

    /**
     * `remove`: the nodes the query selects are removed and their number
     * returned; nothing selected is 0 and touches nothing. A backend failure
     * is rethrown with the query.
     */
    method Remove(query: PathArg, language: string) returns (r: Result<nat>)
      modifies store`log
      ensures language != "glob" ==> r == Err(UnsupportedLanguage(language)) && store.log == old(store.log)
      ensures language == "glob" && ResolvePath(basePath, query).Err? ==>
        r == Err(ResolvePath(basePath, query).error) && store.log == old(store.log)
      ensures language == "glob" && ResolvePath(basePath, query).Ok? ==>
        var nodes := finder(store.tree, ResolvePath(basePath, query).value);
        var failure := Escaping(nodes, store.failing);
        query.Str? &&
        (|nodes| == 0 ==> r == Ok(0) && store.log == old(store.log)) &&
        (|nodes| > 0 ==>
          store.log == old(store.log) + RemoveCalls(flavour, nodes, store.failing) &&
          r == if failure.Fail? then Err(RemoveFailed(query.s, failure.error)) else Ok(|nodes|))
    {
      var check := PuliAbstractRepository.FailUnlessGlob(language);
      if check.Fail? {
        return Err(check.error);
      }
      var resolved := ResolvePath(basePath, query);
      if resolved.Err? {
        return Err(resolved.error);
      }
      var nodes := finder(store.tree, resolved.value);
      if |nodes| == 0 {
        return Ok(0);
      }
      var o;
      match flavour {
        case Phpcr => o := PhpcrRepository.RemoveNodes(store, nodes);
        case PhpcrOdm => o := PhpcrOdmRepository.RemoveNodes(store, nodes);
      }
      if o.Fail? {
        return Err(RemoveFailed(query.s, o.error));
      }
      return Ok(|nodes|);
    }

    /**
     * `move`: the nodes the query selects are moved to the resolved target
     * (a globbed query moves each under it) and their number returned;
     * nothing selected is 0, before the target is even looked at. A backend
     * failure is rethrown with the query; a bad target path is not wrapped.
     */
    method Move(query: PathArg, targetPath: PathArg, language: string) returns (r: Result<nat>)
      modifies store`log
      ensures language != "glob" ==> r == Err(UnsupportedLanguage(language)) && store.log == old(store.log)
      ensures language == "glob" && ResolvePath(basePath, query).Err? ==>
        r == Err(ResolvePath(basePath, query).error) && store.log == old(store.log)
      ensures language == "glob" && ResolvePath(basePath, query).Ok? ==>
        var nodes := finder(store.tree, ResolvePath(basePath, query).value);
        var target := ResolvePath(basePath, targetPath);
        query.Str? &&
        (|nodes| == 0 ==> r == Ok(0) && store.log == old(store.log)) &&
        (|nodes| > 0 && target.Err? ==> r == Err(target.error) && store.log == old(store.log)) &&
        (|nodes| > 0 && target.Ok? ==>
          var globbed := isGlobbed(query.s);
          var failure := Escaping(if globbed then nodes else nodes[..1], store.failing);
          store.log == old(store.log) + MoveCalls(flavour, nodes, globbed, target.value, store.failing) &&
          r == if failure.Fail? then Err(MoveFailed(query.s, failure.error)) else Ok(|nodes|))
    {
      var check := PuliAbstractRepository.FailUnlessGlob(language);
      if check.Fail? {
        return Err(check.error);
      }
      var resolved := ResolvePath(basePath, query);
      if resolved.Err? {
        return Err(resolved.error);
      }
      var nodes := finder(store.tree, resolved.value);
      if |nodes| == 0 {
        return Ok(0);
      }
      var target := ResolvePath(basePath, targetPath);
      if target.Err? {
        return Err(target.error);
      }
      var o;
      match flavour {
        case Phpcr => o := PhpcrRepository.MoveNodes(store, nodes, isGlobbed(query.s), target.value);
        case PhpcrOdm => o := PhpcrOdmRepository.MoveNodes(store, nodes, isGlobbed(query.s), target.value);
      }
      if o.Fail? {
        return Err(MoveFailed(query.s, o.error));
      }
      return Ok(|nodes|);
    }

    /** `clear` is not supported. */
    method Clear() returns (o: Outcome)
      ensures o == Fail(NotSupported("clear"))
    {
      return Fail(NotSupported("clear"));
    }

    /** `add` is not supported. */
    method Add(path: string, resource: Resource) returns (o: Outcome)
      ensures o == Fail(NotSupported("add"))
    {
      return Fail(NotSupported("add"));
    }

    /**
     * `reorder`: a negative position is rejected before anything is looked
     * up; otherwise the node at `sourcePath` is moved among its siblings as
     * the flavour's `reorderNode` does it.
     */
    method Reorder(sourcePath: PathArg, position: int) returns (o: Outcome)
      requires Valid()
      modifies store`tree, store`log
      ensures Valid()
      ensures position < 0 ==>
        o == Fail(NegativePosition(position)) && store.tree == old(store.tree) && store.log == old(store.log)
      ensures position >= 0 && old(Lookup(sourcePath)).Err? ==>
        o == Fail(old(Lookup(sourcePath)).error) && store.tree == old(store.tree) && store.log == old(store.log)
      ensures position >= 0 && old(Lookup(sourcePath)) == Ok("/") ==>
        o == Fail(NoParent("/")) && store.tree == old(store.tree) && store.log == old(store.log)
      ensures position >= 0 && old(Lookup(sourcePath)).Ok? && old(Lookup(sourcePath)).value != "/" ==>
        var p := old(Lookup(sourcePath)).value;
        o == Pass && p != "" &&
        var parent := Dirname(p);
        parent in old(store.tree) &&
        var names := old(store.tree)[parent];
        Basename(p) in names &&
        store.tree == old(store.tree)[parent := Reordered(flavour, names, Basename(p), position)] &&
        store.log == old(store.log) + ReorderCalls(flavour, parent, names, Basename(p), position)
    {
      if position < 0 {
        return Fail(NegativePosition(position));
      }
      match flavour
      case Phpcr => o := PhpcrRepository.ReorderNode(store, basePath, sourcePath, position);
      case PhpcrOdm => o := PhpcrOdmRepository.ReorderNode(store, basePath, sourcePath, position);
    }
  }
}
