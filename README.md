# symfony-cmf/resource in Dafny

This project models the core of the Symfony CMF resource component. The
component puts a filesystem-like resource repository in front of a PHPCR
content repository (nodes) or a PHPCR-ODM document manager (documents).

What is modelled:

- **Paths.** Path validation and canonicalisation (`sanitizePath`), and
  rebasing onto an optional base path (`resolvePath`, `unresolvePath`, and
  the legacy `getPath`).
- **Repository operations.** The shared `find`, `remove`, `move`,
  `reorder`, `hasChildren`, `clear` and `add`.
- **The two backend flavours.** For PHPCR and for PHPCR-ODM: `get`,
  `listChildren`, `buildCollection`, `removeNodes`, `moveNodes` and
  `reorderNode`.
- **The traversal finder.** It walks a parsed glob selector down the node
  tree.
- **The composite repository.** A mount table that routes a request to one
  mounted repository, or to a virtual root built from the top-level mounts.
- **Descriptions.** The description bag, its factory with the enhancer
  pipeline, the PHPCR-ODM enhancer, and the legacy bag and factory.

The backend is one `Store` class. Its node tree maps an absolute path to
the ordered names of the node's children. Removals, moves, saves and
flushes go to a call log. Child reordering changes the tree. Errors are
`Result`/`Outcome` values whose `Error` cases mirror the exceptions the PHP
code throws.

Module layout:

| file | module | PHP source |
|---|---|---|
| wrappers.dfy | `Wrappers` | (Option, Result, the exceptions) |
| paths.dfy | `Paths` | webmozart `Path::canonicalize` (backslashes read as slashes), `explode`/`implode`, `substr` |
| php_arrays.dfy | `PhpArrays` | PHP's insertion-ordered arrays |
| resources.dfy | `Resources` | resources and `createReference` |
| puli_abstract_repository.dfy | `PuliAbstractRepository` | puli/AbstractRepository.php |
| path_resolution.dfy | `PathResolution` | `resolvePath`/`unresolvePath` of src/Repository/AbstractPhpcrRepository.php |
| backend.dfy | `Backend` | the PHPCR session and the PHPCR-ODM document manager |
| abstract_phpcr_repository.dfy | `AbstractPhpcrRepository` | src/Repository/AbstractPhpcrRepository.php |
| phpcr_repository.dfy | `PhpcrRepository` | src/Repository/PhpcrRepository.php |
| phpcr_odm_repository.dfy | `PhpcrOdmRepository` | src/Repository/PhpcrOdmRepository.php |
| legacy_repository.dfy | `LegacyRepository` | Repository/AbstractPhpcrRepository.php |
| traversal_finder.dfy | `TraversalFinder` | Finder/Phpcr/TraversalFinder.php |
| composite_repository.dfy | `CompositeRepository` | Repository/CompositeRepository.php |
| description.dfy | `Descriptions` | src/Description/Description.php |
| description_factory.dfy | `DescriptionFactories` | src/Description/DescriptionFactory.php |
| phpcr_odm_enhancer.dfy | `PhpcrOdmEnhancers` | src/Description/Enhancer/Doctrine/PhpcrOdmEnhancer.php |
| legacy_description.dfy | `LegacyDescriptions` | Description/Description.php, Description/DescriptionFactory.php |

PHP has abstract classes with two concrete subclasses, and Dafny here has
no traits. So `AbstractPhpcrRepository.Repository` is one class with a
`flavour` field. It dispatches the flavour-specific steps to the modules
`PhpcrRepository` and `PhpcrOdmRepository`.

## Model

| member | source | states |
|---|---|---|
| PuliAbstractRepository.FailUnlessGlob | puli/AbstractRepository.php:33-41 | passes exactly for the language "glob"; any other language fails with that language named |
| PuliAbstractRepository.SanitizePath | puli/AbstractRepository.php:50-56 | a non-string and "" are rejected, then a path not starting with "/"; an accepted path comes back absolute and canonical (no ".", ".." or empty segments) |
| PuliAbstractRepository.SanitizePathIdempotent | puli/AbstractRepository.php:55 | sanitizing a sanitized path returns it unchanged |
| PuliAbstractRepository.SanitizeCanonical | puli/AbstractRepository.php:50-56 | a canonical absolute path is accepted as it is |
| PuliAbstractRepository.SanitizeClimb | puli/AbstractRepository.php:50-56 | for any clean segments a and x, "/a/../x" sanitizes to "/x" |
| PuliAbstractRepository.SanitizeDotDotExample | puli/AbstractRepository.php:55 | "/bar/../foobar" sanitizes to "/foobar" |
| PuliAbstractRepository.SanitizeBackslashClimb | puli/AbstractRepository.php:53-55 | the absolute check looks at the raw path, then canonicalizing reads a backslash as a slash: `"/a\\..\\x"` sanitizes to "/x" |
| PuliAbstractRepository.SanitizeBackslashExample | puli/AbstractRepository.php:53-55 | `"/a\\..\\b"` sanitizes to "/b" |
| PuliAbstractRepository.SanitizeRejectsRelative | puli/AbstractRepository.php:53 | "cmf/foobar" is rejected as not absolute |
| Paths.Split | puli/AbstractRepository.php:55 | PHP `explode` on "/": always at least one segment |
| Paths.Basename | src/Repository/PhpcrRepository.php:145-151 | PHPCR `getName`: the name contains no "/", and a path without "/" is its own name |
| Paths.Dirname | src/Repository/PhpcrRepository.php:141 | PHPCR `getParent`'s path: always absolute |
| Paths.ParentAndName | src/Repository/PhpcrRepository.php:141-151 | for a canonical path, the parent path joined with the name gives the path back; below the root the parent has all but the last segment and the name is the last |
| Paths.Substr | src/Repository/AbstractPhpcrRepository.php:193 | PHP `substr($s, $n)`: the suffix after `n` characters, "" past the end |
| Paths.SplitNoSlashes | puli/AbstractRepository.php:55 | no exploded segment contains "/" |
| Paths.SplitJoin | puli/AbstractRepository.php:55 | exploding an imploded list of slash-free segments gives the list back |
| Paths.Canonicalize | puli/AbstractRepository.php:55 | `Path::canonicalize`: "" stays ""; a path starting with "/" or a backslash comes out as "/" followed by clean segments; any other path comes out not starting with "/" |
| Paths.CanonicalSegments | puli/AbstractRepository.php:55 | an absolute path canonicalizes to "/" joined with clean segments (no "", "." or "..") |
| Paths.CanonicalizeAbsolute | puli/AbstractRepository.php:55 | canonicalizing an absolute path gives an absolute path |
| Paths.CanonicalizeAbsPath | puli/AbstractRepository.php:55 | an absolute path of clean segments is already canonical |
| Paths.CanonicalizeIdempotent | puli/AbstractRepository.php:55 | canonicalizing twice is canonicalizing once |
| Paths.CanonicalFixpoint | puli/AbstractRepository.php:55 | a canonical result is a fixpoint of canonicalization |
| Paths.CanonicalizeConcat | src/Repository/AbstractPhpcrRepository.php:175-179 | a clean base followed by a clean absolute path canonicalizes to the joined path |
| Paths.CanonicalizeKeepsRoot | puli/AbstractRepository.php:55 | a canonical path starts with "/" exactly when the input starts with "/" or a backslash |
| Paths.CanonicalizeReadsBackslashes | puli/AbstractRepository.php:55 | canonicalizing a path gives the same result as canonicalizing it with every backslash replaced by "/" |
| Paths.CanonicalizeClimb | Repository/AbstractPhpcrRepository.php:79 | "/a/../x" is "/x" |
| PhpArrays.Empty | src/Description/Description.php:26 | the empty array: no keys, no values |
| PhpArrays.Set | src/Description/Description.php:107 | the value is stored; a new key is appended to the order, an existing key keeps its place; every other entry is kept |
| PhpArrays.Values | src/Description/Description.php:80-83 | the values in key order |
| Resources.CreateReference | Repository/CompositeRepository.php:57 | the same resource (payload, type) at the new path |
| Resources.Paths | Repository/CompositeRepository.php:175 | the paths of a collection, in order |
| PathResolution.ResolvePath | src/Repository/AbstractPhpcrRepository.php:171-182 | fails exactly when sanitizing fails, with the same error |
| PathResolution.UnresolvePath | src/Repository/AbstractPhpcrRepository.php:191-196 | exactly `strlen(basePath)` leading characters are dropped; "" when the path is not longer |
| PathResolution.ResolveWithoutBase | src/Repository/AbstractPhpcrRepository.php:171-182 | without a (truthy) base, resolving is sanitizing, which canonicalizes an absolute path |
| PathResolution.ResolveWithBase | src/Repository/AbstractPhpcrRepository.php:173-179 | with a canonical non-root base, the result is the base followed by the sanitized path, or the base itself for "/" |
| PathResolution.UnresolvePrefixed | src/Repository/AbstractPhpcrRepository.php:193 | unresolving `base + q` gives `q` |
| PathResolution.ResolveRoundTrip | src/Repository/AbstractPhpcrRepository.php:171-196 | with a canonical non-root base, unresolve undoes resolve for every path other than "/" |
| PathResolution.ResolveRoundTripWithoutBase | src/Repository/AbstractPhpcrRepository.php:171-196 | without a base, unresolve returns the resolved path |
| PathResolution.RootUnresolvesToEmpty | src/Repository/AbstractPhpcrRepository.php:191-196 | as written, with a base, "/" resolves to the base and unresolves to "" |
| PathResolution.UnresolvePathToRoot | src/Repository/AbstractPhpcrRepository.php:191-196 | the corrected unresolve never gives the empty path |
| PathResolution.ResolveRoundTripToRoot | src/Repository/AbstractPhpcrRepository.php:171-196 | with the corrected unresolve, every sanitized path, "/" included, round-trips |
| Backend.IndexOf | src/Repository/PhpcrRepository.php:142 | the position of the first occurrence of a child name |
| Backend.RemoveName | src/Repository/PhpcrRepository.php:145-151 | the child list without that child, the others in order |
| Backend.InsertAt | src/Repository/PhpcrRepository.php:145-151 | the child list with the name inserted at the position |
| Backend.OrderNameBefore | src/Repository/PhpcrRepository.php:145-151 | `orderBefore(src, dest)`: `src` is taken out and put back in front of `dest`; the result is a permutation of the children |
| Backend.ReorderName | src/Repository/PhpcrOdmRepository.php:104-111 | `reorder(src, target, before)`: the result is a permutation of the children |
| Backend.OrderBeforePosition | src/Repository/PhpcrRepository.php:145-147 | `src` ends at `dest`'s old index, less one when `dest` came after it |
| Backend.OrderBeforeOther | src/Repository/PhpcrRepository.php:145-147 | any other child's new index is its index once `src` is removed, plus one when it is at or after `dest` |
| Backend.OrderBeforeLast | src/Repository/PhpcrRepository.php:149-150 | ordering before the last child puts the node second to last, the others in order |
| Backend.OrderLastBeforePrevious | src/Repository/PhpcrRepository.php:151 | ordering the last child before the one ahead of it swaps the two |
| Backend.ToEnd | src/Repository/PhpcrRepository.php:149-151 | the order the two `orderBefore` calls of the end case leave: a permutation of the children |
| Backend.MovedToEnd | src/Repository/PhpcrOdmRepository.php:109-110 | the child taken out and appended last: a permutation of the children |
| Backend.ToEndMovesToEnd | src/Repository/PhpcrRepository.php:149-151 | the two calls append the node behind the others, which keep their order |
| Backend.MovedToEndIsLast | src/Repository/PhpcrRepository.php:149-151 | the moved child is last and the children stay distinct |
| Backend.ReorderPosition | src/Repository/PhpcrOdmRepository.php:104-111 | after `reorder`, the children stay distinct and `src` is right before or right after `target`, as requested |
| Backend.ReorderIndex | src/Repository/PhpcrOdmRepository.php:104-111 | `src`'s new index in terms of `target`'s old index |
| Backend.ChildPaths | src/Repository/PhpcrRepository.php:66 | child i's path is the parent path joined with name i |
| Backend.FirstFailing | src/Repository/PhpcrRepository.php:119-121 | None exactly when no node fails; otherwise a failing node at an index before which no node fails, that is, the first node the backend fails on |
| Backend.EscapingAt | src/Repository/AbstractPhpcrRepository.php:98-106 | the exception that escapes is that of the first failing node |
| Backend.Store.constructor | src/Repository/PhpcrRepository.php:39-44 | a store over the given tree with an empty call log |
| Backend.Store.GetNode | src/Repository/PhpcrRepository.php:168-186 | a node exactly when the path is in the tree and the session does not answer null; an unknown path is not found, and a null answer is its own error |
| Backend.Store.ChildNodes | src/Repository/PhpcrRepository.php:66 | the child node paths, in child order |
| Backend.Store.RemoveNode | src/Repository/PhpcrRepository.php:120 | logs the removal, or fails for a failing node; the tree is unchanged |
| Backend.Store.MoveNode | src/Repository/PhpcrRepository.php:157-166 | logs the move, or fails for a failing node |
| Backend.Store.RemoveDocument | src/Repository/PhpcrOdmRepository.php:146 | logs the document removal, or fails |
| Backend.Store.MoveDocument | src/Repository/PhpcrOdmRepository.php:161-171 | logs the document move, or fails |
| Backend.Store.SaveSession | src/Repository/PhpcrRepository.php:123 | appends one save to the log |
| Backend.Store.FlushManager | src/Repository/PhpcrOdmRepository.php:149 | appends one flush to the log |
| Backend.Store.OrderChildBefore | src/Repository/PhpcrRepository.php:145-147 | the parent's children become `OrderNameBefore` of them; the call is logged |
| Backend.Store.OrderChildToEnd | src/Repository/PhpcrRepository.php:149-151 | the parent's children become `MovedToEnd` of them; both `orderBefore` calls are logged |
| Backend.Store.ReorderChild | src/Repository/PhpcrOdmRepository.php:104-111 | the parent's children become `ReorderName` of them; the call is logged |
| Backend.Store.SetChildren | src/Repository/PhpcrRepository.php:145-151 | a permutation of a child list replaces it, keeping the store consistent |
| AbstractPhpcrRepository.Reordered | src/Repository/AbstractPhpcrRepository.php:236 | the child order the flavour's `reorderNode` leaves |
| AbstractPhpcrRepository.ReorderEnds | src/Repository/AbstractPhpcrRepository.php:157-161 | in both flavours, position 0 makes the node first and a position without a next sibling makes it last |
| AbstractPhpcrRepository.Repository.constructor | src/Repository/AbstractPhpcrRepository.php:52-57 | keeps the finder, the base path and the backend |
| AbstractPhpcrRepository.Repository.Lookup | src/Repository/PhpcrRepository.php:168-186 | path errors pass through; a resolved path missing from the tree is not found, as a node or a document by flavour; a PHPCR null answer is its own error; otherwise exactly the node or document at the resolved path is found |
| AbstractPhpcrRepository.Repository.Get | src/Repository/PhpcrRepository.php:49-57 | succeeds exactly when the lookup does, with its error otherwise; the resource keeps the caller's path and wraps the node or document the lookup found |
| AbstractPhpcrRepository.Repository.ResourceAt | src/Repository/PhpcrRepository.php:106 | a CMF resource at the given path |
| AbstractPhpcrRepository.Repository.BuildCollection | src/Repository/PhpcrRepository.php:96-112 | one resource per node, in order, at its unresolved path |
| AbstractPhpcrRepository.Repository.ListChildren | src/Repository/PhpcrRepository.php:62-67 | the children of the found node, in order, at their unresolved paths; lookup errors pass through |
| AbstractPhpcrRepository.Repository.HasChildren | src/Repository/AbstractPhpcrRepository.php:62-67 | true exactly when the found node has a child, which is when `listChildren` lists one; lookup errors pass through |
| AbstractPhpcrRepository.Repository.Find | src/Repository/AbstractPhpcrRepository.php:72-84 | a non-glob language fails before anything else; path errors pass through; otherwise one resource per finder match, in order, at its unresolved path |
| AbstractPhpcrRepository.Repository.Contains | src/Repository/PhpcrRepository.php:72-75 | as `find` on errors; otherwise true exactly when the finder matches something |
| AbstractPhpcrRepository.Repository.Remove | src/Repository/AbstractPhpcrRepository.php:89-109 | language checked first; no match returns 0 and logs nothing; otherwise the number of matched nodes, or the backend failure wrapped with the query |
| AbstractPhpcrRepository.Repository.Move | src/Repository/AbstractPhpcrRepository.php:114-136 | as `remove`, and the target is resolved only after a match; its path error is not wrapped |
| AbstractPhpcrRepository.Repository.Clear | src/Repository/AbstractPhpcrRepository.php:141-144 | always fails as not supported |
| AbstractPhpcrRepository.Repository.Add | src/Repository/AbstractPhpcrRepository.php:149-152 | always fails as not supported |
| AbstractPhpcrRepository.Repository.Reorder | src/Repository/AbstractPhpcrRepository.php:157-161 | a negative position fails and changes nothing; lookup errors change nothing; the root has no parent; otherwise the parent's children become the flavour's `Reordered` order |
| PhpcrRepository.GetNode | src/Repository/PhpcrRepository.php:168-186 | path errors pass through; otherwise the session's answer for the resolved path: not found names that path, a found node is in the tree |
| PhpcrRepository.Get | src/Repository/PhpcrRepository.php:49-57 | the resource has the caller's path and the node at the resolved path |
| PhpcrRepository.BuildCollection | src/Repository/PhpcrRepository.php:96-112 | one resource per node, in order, at the unresolved node path |
| PhpcrRepository.ListChildren | src/Repository/PhpcrRepository.php:62-67 | the resources of the child nodes, in order |
| PhpcrRepository.ChildResourcePath | src/Repository/PhpcrRepository.php:62-112 | with a canonical base, a child is exposed at the sanitized path + "/" + its name |
| PhpcrRepository.RemoveCallsShape | src/Repository/PhpcrRepository.php:117-124 | without failures, one removal per node in order, then exactly one save; with one, no save |
| PhpcrRepository.RemoveNodes | src/Repository/PhpcrRepository.php:117-124 | the log grows by `RemoveCalls`; the outcome is the first failure |
| PhpcrRepository.GlobMoveCallsShape | src/Repository/PhpcrRepository.php:163-165 | without failures, node i moves to target + "/" + its name, then one save |
| PhpcrRepository.MoveNodes | src/Repository/PhpcrRepository.php:129-166 | the log grows by `MoveCalls`: the first node alone to the target for a plain query, every node under it for a globbed one |
| PhpcrRepository.Reordered | src/Repository/PhpcrRepository.php:144-152 | the order the `orderBefore` calls leave |
| PhpcrRepository.ReorderToFront | src/Repository/PhpcrRepository.php:144-145 | position 0 makes the node first, the others keep their order |
| PhpcrRepository.ReorderForward | src/Repository/PhpcrRepository.php:146-147 | a node at or before a position with a next sibling lands exactly at the position |
| PhpcrRepository.ReorderToEnd | src/Repository/PhpcrRepository.php:148-151 | a position without a next sibling makes the node last |
| PhpcrRepository.ReorderBackwardOffByOne | src/Repository/PhpcrRepository.php:146-147 | as written, a node after such a position lands at position + 1 |
| PhpcrRepository.ReorderBackwardExample | src/Repository/PhpcrRepository.php:146-147 | [a, b, c, d] with d to position 1 gives [a, b, d, c] |
| PhpcrRepository.ReorderedToPosition | src/Repository/PhpcrRepository.php:144-152 | the corrected order |
| PhpcrRepository.ReorderToPosition | src/Repository/PhpcrRepository.php:144-152 | the corrected order puts the node at the position, or last, from any start |
| PhpcrRepository.ReorderNode | src/Repository/PhpcrRepository.php:138-155 | lookup errors pass through; the root has no parent; otherwise the children become `Reordered` and the session is saved |
| PhpcrRepository.OrderChildren | src/Repository/PhpcrRepository.php:144-152 | the `orderBefore` calls of `reorderNode`, leaving `Reordered` |
| PhpcrOdmRepository.GetDocument | src/Repository/PhpcrOdmRepository.php:173-186 | path errors pass through; no document names the resolved path |
| PhpcrOdmRepository.Get | src/Repository/PhpcrOdmRepository.php:49-56 | the resource has the caller's path and the document at the resolved path |
| PhpcrOdmRepository.BuildCollection | src/Repository/PhpcrOdmRepository.php:119-138 | one resource per document, in order, at its unresolved id |
| PhpcrOdmRepository.ListChildren | src/Repository/PhpcrOdmRepository.php:61-67 | the resources of the child documents, in order |
| PhpcrOdmRepository.RemoveCallsShape | src/Repository/PhpcrOdmRepository.php:143-150 | without failures, one removal per document in order, then exactly one flush; with one, no flush |
| PhpcrOdmRepository.RemoveNodes | src/Repository/PhpcrOdmRepository.php:143-150 | the log grows by `RemoveCalls`; the outcome is the first failure |
| PhpcrOdmRepository.GlobMoveCallsShape | src/Repository/PhpcrOdmRepository.php:167-170 | without failures, document i moves to target + "/" + its node name, then one flush |
| PhpcrOdmRepository.MoveNodes | src/Repository/PhpcrOdmRepository.php:155-171 | the log grows by `MoveCalls` |
| PhpcrOdmRepository.Reordered | src/Repository/PhpcrOdmRepository.php:104-111 | the order the `reorder` call leaves |
| PhpcrOdmRepository.ReorderToFront | src/Repository/PhpcrOdmRepository.php:104-105 | position 0 makes the node first |
| PhpcrOdmRepository.ReorderForward | src/Repository/PhpcrOdmRepository.php:106-107 | a node at or before a position with a next sibling lands exactly there |
| PhpcrOdmRepository.ReorderToEnd | src/Repository/PhpcrOdmRepository.php:108-111 | a position without a next sibling makes the node last |
| PhpcrOdmRepository.ReorderBackwardOffByOne | src/Repository/PhpcrOdmRepository.php:106-107 | as written, a node after such a position lands at position + 1 |
| PhpcrOdmRepository.ReorderBackwardExample | src/Repository/PhpcrOdmRepository.php:106-107 | [a, b, c, d] with d to position 1 gives [a, b, d, c] |
| PhpcrOdmRepository.ReorderedToPosition | src/Repository/PhpcrOdmRepository.php:104-111 | the corrected order |
| PhpcrOdmRepository.ReorderToPosition | src/Repository/PhpcrOdmRepository.php:104-111 | the corrected order puts the node at the position, or last, from any start |
| PhpcrOdmRepository.ReorderNode | src/Repository/PhpcrOdmRepository.php:96-114 | lookup errors pass through; otherwise the children become `Reordered` and the manager is flushed |
| PhpcrOdmRepository.ReorderChildren | src/Repository/PhpcrOdmRepository.php:104-111 | the one `reorder` call is logged and leaves the parent's children as `Reordered` says |
| LegacyRepository.GetPath | Repository/AbstractPhpcrRepository.php:62-89 | "" then a non-string are rejected; the base goes in front before canonicalizing; a result is canonical and absolute, and one is returned exactly when the rebased path starts with "/" or a backslash |
| LegacyRepository.GetPathBackslashRoot | Repository/AbstractPhpcrRepository.php:79-86 | without a base, a backslash followed by a clean segment x is accepted as "/x", because the absolute check comes after canonicalizing; `resolvePath` rejects it as not absolute |
| LegacyRepository.GetPathLeadingBackslash | Repository/AbstractPhpcrRepository.php:79-86 | without a base, `"\\cmf"` is accepted as "/cmf", because the absolute check comes after canonicalizing; `resolvePath` rejects it |
| LegacyRepository.GetPathChecksAfterRebase | Repository/AbstractPhpcrRepository.php:75-86 | base "asd" with "asd" is not absolute; "cmf" under "/site" is accepted; "cmf/foobar" without a base is rejected |
| LegacyRepository.GetPathWithoutBase | Repository/AbstractPhpcrRepository.php:62-89 | without a base, `getPath` agrees with `resolvePath` on absolute paths |
| LegacyRepository.CanonicalizeRebased | Repository/AbstractPhpcrRepository.php:79 | "/a/b/c/../d" canonicalizes to "/a/b/d" for any clean segments |
| LegacyRepository.GetPathWithBase | Repository/AbstractPhpcrRepository.php:75-79 | base "/a/b" with "/c/../d" gives "/a/b/d" for any clean segments |
| LegacyRepository.CanonicalizeRootClimb | Repository/AbstractPhpcrRepository.php:79 | "/../x" is "/x" |
| LegacyRepository.GetPathClimbsOutOfBase | Repository/AbstractPhpcrRepository.php:75-79 | with base "/a", "/../x" gives "/x", where `resolvePath` gives "/a/x" |
| LegacyRepository.BuildCollection | Repository/AbstractPhpcrRepository.php:96-110 | one created resource per node, in order, with `strlen(basePath)` characters stripped |
| LegacyRepository.StrippedUndoesRebase | Repository/AbstractPhpcrRepository.php:75-105 | stripping undoes putting the base in front |
| TraversalFinder.LookUp | Finder/Phpcr/TraversalFinder.php:120-131 | some node exactly when "/" + the joined elements exists and the session does not answer null |
| TraversalFinder.Matching | Finder/Phpcr/TraversalFinder.php:105 | only names of the list that match the pattern |
| TraversalFinder.MatchingComplete | Finder/Phpcr/TraversalFinder.php:105 | every matching name is kept |
| TraversalFinder.MatchingChildren | Finder/Phpcr/TraversalFinder.php:101-105 | a path is returned exactly when it is the child path of one of the parent's children whose name matches the pattern; there are no more results than children |
| TraversalFinder.Finder.constructor | Finder/Phpcr/TraversalFinder.php:46-50 | keeps the session and the parser |
| TraversalFinder.Finder.Find | Finder/Phpcr/TraversalFinder.php:55-67 | "/" is the root lookup alone; otherwise the frame traversed from no node |
| TraversalFinder.Finder.Traverse | Finder/Phpcr/TraversalFinder.php:78-118 | appends exactly what `Frame` gives for the node's path and the segments |
| TraversalFinder.Finder.VisitChildren | Finder/Phpcr/TraversalFinder.php:107-113 | appends what `Children` gives for the matching children |
| TraversalFinder.Present | Finder/Phpcr/TraversalFinder.php:93-109 | the found nodes as present results, in order |
| TraversalFinder.FindRoot | Finder/Phpcr/TraversalFinder.php:57-59 | a present root is found by "/" |
| TraversalFinder.FrameSound | Finder/Phpcr/TraversalFinder.php:78-118 | every node found is at the start followed by one fitting name per segment: exactly as deep as the query |
| TraversalFinder.ChildrenSound | Finder/Phpcr/TraversalFinder.php:107-113 | the same for the nodes reached through the matching children |
| TraversalFinder.FrameComplete | Finder/Phpcr/TraversalFinder.php:78-118 | every node whose names fit the query and whose way down exists is found |
| TraversalFinder.ChildrenComplete | Finder/Phpcr/TraversalFinder.php:107-113 | the same through the matching children |
| TraversalFinder.StaticQuery | Finder/Phpcr/TraversalFinder.php:89-97 | an all-static query finds the node at the joined path if it exists, else nothing |
| TraversalFinder.Elements | Finder/Phpcr/TraversalFinder.php:87-90 | the segments' elements, in order |
| TraversalFinder.PatternLast | Finder/Phpcr/TraversalFinder.php:100-115 | a last pattern finds exactly the matching children, or nothing when the parent is missing |
| TraversalFinder.ChildrenLast | Finder/Phpcr/TraversalFinder.php:108-109 | under a last segment each matching child is itself the result |
| CompositeRepository.Longest | Repository/CompositeRepository.php:112-123 | none exactly when no key fits; otherwise a fitting key no shorter than any other fitting key |
| CompositeRepository.LongestFirst | Repository/CompositeRepository.php:119 | among fitting keys of the greatest length, the first in mount order wins |
| CompositeRepository.MemoryEntries | Repository/CompositeRepository.php:140-158 | scanning the first `n` mount keys adds at most one entry per key |
| CompositeRepository.MemoryEntriesSound | Repository/CompositeRepository.php:146-155 | each entry is a mount key with at most one "/" holding that repository's root resource |
| CompositeRepository.MemoryRoute | Repository/CompositeRepository.php:140-158 | when built, the virtual root at mount point "/" with the path unchanged |
| CompositeRepository.References | Repository/CompositeRepository.php:169-179 | unchanged under "/"; otherwise each resource at mount point + its path, in order |
| CompositeRepository.ReplaceByReferences | Repository/CompositeRepository.php:169-179 | the in-place loop returns `References` |
| CompositeRepository.Composite.constructor | Repository/CompositeRepository.php:34 | an empty mount table |
| CompositeRepository.Composite.Mount | Repository/CompositeRepository.php:45-48 | stores under the path, replacing an earlier mount there; all other mounts are kept |
| CompositeRepository.Composite.GetMemoryRepository | Repository/CompositeRepository.php:140-158 | builds the virtual root from the top-level mounts; the first failing root lookup fails it |
| CompositeRepository.Composite.GetRepository | Repository/CompositeRepository.php:106-130 | returns the routing as written, whose cases the routing lemmas below state |
| CompositeRepository.Composite.Get | Repository/CompositeRepository.php:53-58 | routing and lookup errors pass through; otherwise the routed repository's resource, re-addressed at mount point + remainder |
| CompositeRepository.Composite.Find | Repository/CompositeRepository.php:63-67 | the routed repository's matches, re-addressed |
| CompositeRepository.Composite.Contains | Repository/CompositeRepository.php:72-75 | true exactly when `find` returns something |
| CompositeRepository.Composite.ListChildren | Repository/CompositeRepository.php:88-92 | the routed repository's children, re-addressed |
| CompositeRepository.Composite.HasChildren | Repository/CompositeRepository.php:80-83 | true exactly when `listChildren` returns something |
| CompositeRepository.MemoryEntriesFailure | Repository/CompositeRepository.php:151 | a failing root lookup of a top-level mount fails the virtual root with that error |
| CompositeRepository.RootRoutesToMemory | Repository/CompositeRepository.php:108-110 | "/" always goes to the virtual root |
| CompositeRepository.RoutedRemainderIsRoot | Repository/CompositeRepository.php:115-126 | as written, a chosen key starts with the path, so the remainder is always "/" |
| CompositeRepository.NoCandidateFallsBack | Repository/CompositeRepository.php:125-129 | with no fitting key, the virtual root gets the path unchanged |
| CompositeRepository.MemoryEntriesComplete | Repository/CompositeRepository.php:146-155 | every top-level mount has its root resource in the virtual root |
| CompositeRepository.ReferencesUnderMount | Repository/CompositeRepository.php:175 | re-addressed resources start with the mount point, and stripping it gives the inner path |
| CompositeRepository.RoutingCounterexample | Repository/CompositeRepository.php:115 | with "/" and "/child" mounted, "/child/file1.txt" goes to the virtual root as written; the intended test picks "/child" |
| CompositeRepository.GetDoublesLeadingSlash | Repository/CompositeRepository.php:53-158 | when no key starts with the path, mount point + remainder is "/" + path, which begins with "//" |
| CompositeRepository.CorrectedRouteRecomposes | Repository/CompositeRepository.php:106-130 | corrected routing picks the longest mount the path lies under, and mount point joined with the remainder gives the path back |
| Descriptions.TypeName | src/Description/Description.php:103 | PHP `gettype`: "object" for objects, "resource" for handles, "array" exactly for arrays |
| Descriptions.Lookup | src/Description/Description.php:48-61 | a value exactly when the key is set and not null; otherwise an error with the key, the subject and all keys in order |
| Descriptions.Assign | src/Description/Description.php:98-108 | accepted exactly for null, scalars and arrays; a refusal names the type and the descriptor; an accepted value is stored |
| Descriptions.ApplyAll | src/Description/DescriptionFactory.php:50 | a sequence of `set` calls succeeds exactly when every value is accepted; a failure is one of their refusals |
| Descriptions.Description.constructor | src/Description/Description.php:36-39 | bound to the resource, with no descriptors |
| Descriptions.Description.Has | src/Description/Description.php:70-73 | present and not null |
| Descriptions.Description.Get | src/Description/Description.php:48-61 | succeeds exactly when `has` holds; otherwise names the descriptor, the resource path and the keys in order |
| Descriptions.Description.All | src/Description/Description.php:80-83 | the whole descriptor array: the same keys in insertion order, null-valued ones included, and the same values; every descriptor `has` reports is listed with the value `get` returns |
| Descriptions.Description.GetResource | src/Description/Description.php:115-118 | the constructor's resource |
| Descriptions.Description.Set | src/Description/Description.php:98-108 | a refused value fails and changes nothing; an accepted one is stored as `Assign` says |
| Descriptions.AssignThenLookup | src/Description/Description.php:48-108 | a non-null value set is read back; other keys read as before |
| Descriptions.AssignNullUnsets | src/Description/Description.php:50-107 | null is accepted, then reads as missing while listed among the keys |
| Descriptions.AssignOrder | src/Description/Description.php:107 | overwriting keeps the key's place; a new key goes last |
| Descriptions.AssignRefusesObject | src/Description/Description.php:100-105 | an object is refused with "object" and the descriptor |
| Descriptions.UnknownListsKeysInOrder | src/Description/Description.php:50-57 | after "foo" and "bar", asking for "baz" lists ["foo", "bar"] |
| Descriptions.UnknownAfterTwo | src/Description/Description.php:50-57 | after two accepted `set` calls on distinct keys, asking for a third key lists both keys in the order they were set |
| Descriptions.ApplyAllConcat | src/Description/DescriptionFactory.php:45-51 | running `a` then `b` is running `a + b` |
| Descriptions.ApplyAllUntouched | src/Description/Description.php:107 | writes to other keys leave a key alone |
| Descriptions.LastWriteWins | src/Description/Description.php:107 | the last write to a key decides its value |
| DescriptionFactories.Enhance | src/Description/DescriptionFactory.php:50 | one enhancer's run keeps the array consistent |
| DescriptionFactories.Enhanced | src/Description/DescriptionFactory.php:45-51 | the supporting enhancers' runs, in order, keep the array consistent |
| DescriptionFactories.DescriptionFactory.GetPayloadDescriptionFor | src/Description/DescriptionFactory.php:41-54 | a fresh description of the resource holding `Enhanced` of no descriptors; an exception on the way is passed on |
| DescriptionFactories.NoEnhancers | src/Description/DescriptionFactory.php:43-53 | no enhancers give an empty description |
| DescriptionFactories.UnsupportedSkipped | src/Description/DescriptionFactory.php:46-48 | an enhancer that does not support the resource changes nothing, wherever it is |
| DescriptionFactories.EnhancedAppend | src/Description/DescriptionFactory.php:45-51 | appending an enhancer runs it on what the ones before left |
| DescriptionFactories.BothEnhancersApplied | src/Description/DescriptionFactory.php:45-51 | two supporting enhancers setting different keys: both values read back |
| DescriptionFactories.LaterEnhancerWins | src/Description/DescriptionFactory.php:45-51 | two supporting enhancers setting the same key: the later value stands |
| PhpcrOdmEnhancers.MatchesOf | src/Description/Enhancer/Doctrine/PhpcrOdmEnhancer.php:49-53 | only the mapping's name, at most once per child class |
| PhpcrOdmEnhancers.ChildTypes | src/Description/Enhancer/Doctrine/PhpcrOdmEnhancer.php:48-54 | at most one entry per mapping and child class |
| PhpcrOdmEnhancers.Texts | src/Description/Enhancer/Doctrine/PhpcrOdmEnhancer.php:57 | the names as string values, in order |
| PhpcrOdmEnhancers.CollectChildTypes | src/Description/Enhancer/Doctrine/PhpcrOdmEnhancer.php:45-54 | the nested loops return `ChildTypes` of all mappings |
| PhpcrOdmEnhancers.PhpcrOdmEnhancer.Enhancement | src/Description/Enhancer/Doctrine/PhpcrOdmEnhancer.php:41-58 | an unmapped payload class fails; otherwise `children.allow` := not leaf, then `children.types` := the child types |
| PhpcrOdmEnhancers.PhpcrOdmEnhancer.Supports | src/Description/Enhancer/Doctrine/PhpcrOdmEnhancer.php:63-70 | only a CMF resource is supported, and a CMF resource exactly when the real class of its payload type has metadata |
| PhpcrOdmEnhancers.PhpcrOdmEnhancer.SupportedEnhances | src/Description/Enhancer/Doctrine/PhpcrOdmEnhancer.php:41-70 | a supported resource whose payload class is its own real class is enhanced without raising |
| PhpcrOdmEnhancers.PhpcrOdmEnhancer.AsEnhancer | src/Description/Enhancer/Doctrine/PhpcrOdmEnhancer.php:41-70 | the enhancer as the factory uses it: same `supports`, same writes |
| PhpcrOdmEnhancers.PhpcrOdmEnhancer.Enhance | src/Description/Enhancer/Doctrine/PhpcrOdmEnhancer.php:41-58 | a failure leaves the description alone; otherwise its descriptors become the writes applied |
| PhpcrOdmEnhancers.ChildTypesSound | src/Description/Enhancer/Doctrine/PhpcrOdmEnhancer.php:50-51 | every child type is a mapping that is, or is a subclass of, some allowed child class |
| PhpcrOdmEnhancers.MatchesSound | src/Description/Enhancer/Doctrine/PhpcrOdmEnhancer.php:50-51 | each inner-loop entry comes from a child class that allows the mapping |
| PhpcrOdmEnhancers.ChildTypesComplete | src/Description/Enhancer/Doctrine/PhpcrOdmEnhancer.php:48-54 | every mapping allowed through a child class is listed |
| PhpcrOdmEnhancers.MatchesComplete | src/Description/Enhancer/Doctrine/PhpcrOdmEnhancer.php:49-53 | an allowing child class yields the mapping's name |
| PhpcrOdmEnhancers.ChildTypesConcat | src/Description/Enhancer/Doctrine/PhpcrOdmEnhancer.php:48 | the output follows the mapping order: the types of `a + b` are those of `a` then those of `b` |
| PhpcrOdmEnhancers.MatchesEveryClass | src/Description/Enhancer/Doctrine/PhpcrOdmEnhancer.php:49-53 | a mapping allowed by k child classes is listed k times: no deduplication |
| PhpcrOdmEnhancers.ThreeAllowedMappings | src/Description/Enhancer/Doctrine/PhpcrOdmEnhancer.php:41-58 | an interface, a base class and an exact class allow three mappings, listed once each in mapping order, with children allowed |
| PhpcrOdmEnhancers.EnhancedDescriptors | src/Description/Enhancer/Doctrine/PhpcrOdmEnhancer.php:56-57 | afterwards `children.allow` is not-leaf and `children.types` is the child types |
| LegacyDescriptions.StoreAll | Description/Description.php:59-62 | unchecked writes keep earlier keys and store every written key |
| LegacyDescriptions.Enhanced | Description/DescriptionFactory.php:40-46 | the supporting enhancers' runs keep the array consistent |
| LegacyDescriptions.Description.constructor | Description/Description.php:19-22 | labelled with the payload type, no descriptors |
| LegacyDescriptions.Description.Get | Description/Description.php:33-45 | the stored non-null value; otherwise the key, the payload type and the keys in order |
| LegacyDescriptions.Description.Set | Description/Description.php:59-62 | any value is stored, overwriting in place |
| LegacyDescriptions.DescriptionFactory.GetPayloadDescriptionFor | Description/DescriptionFactory.php:36-49 | a fresh description labelled from the resource, holding the legacy `Enhanced` |
| LegacyDescriptions.SetThenGet | Description/Description.php:33-62 | any non-null value set is returned by `get` |
| LegacyDescriptions.NullIsMissing | Description/Description.php:35 | a null value stays listed but reads as missing |
| LegacyDescriptions.UnsupportedNamesPayloadType | Description/Description.php:35-42 | "not there" on "some-type" with "foo", "bar" set names both keys in order |
| LegacyDescriptions.StoreAllAgrees | Description/Description.php:59-62 | with accepted values, unchecked and checked writes agree |
| LegacyDescriptions.LegacyAgrees | Description/DescriptionFactory.php:36-49 | the legacy pipeline equals the current one when no enhancer writes a refused value |
| LegacyDescriptions.UnsupportedSkipped | Description/DescriptionFactory.php:41-43 | a non-supporting enhancer changes nothing |

## Left out

- The finder behind the repositories is a parameter of `AbstractPhpcrRepository.Repository`, and so is `GlobHelper::isGlobbed`. The glob helper is not part of this model.
- The selector parser behind the traversal finder is a parameter. So is PHPCR's name-pattern match that `getNodes($pattern)` uses. Neither is part of this model.
- Mounted repositories in the composite are values of arrow functions (`get`, `find`, `listChildren`). The `InMemoryRepository` that holds the virtual root is a parameter. It is built from the entries the model computes; its own behaviour is not modelled.
- The composite's `find` ignores the language argument, and so does the model. Resource collections are sequences.
- The subclasses' `createResource` behind the legacy `buildCollection` is a parameter.
- Sessions, transactions and persistence are left out. Removals and moves are recorded in the call log rather than rewriting the tree.
- Backend.Store.OrderChildToEnd: the two `orderBefore` calls of the PHPCR end case are applied as one update to `MovedToEnd`. `ToEndMovesToEnd` proves that the two single steps (`ToEnd`) give the same order when the child names are distinct.
- PHPCR-ODM: every node of the store is taken to be a mapped document whose id is its path. Proxies and the unit of work are not modelled.
- `ClassUtils::getRealClass`, `hasMetadataFor`/`getMetadataFor`, `getAllMetadata` and reflection's `isSubclassOf` are parameters of the metadata factory. An unknown class is the `NoMetadata` error.
- Enhancers other than the PHPCR-ODM one are left out: the Sylius and Sonata enhancers are router glue. An enhancer is seen by the factory through `supports` and through the `set` calls its `enhance` makes.
- PHP arrays as descriptor values are lists of values; string keys inside them are not modelled.
- Descriptions.Description.Get: the class name of the resource object in the error message is not modelled; the error carries the descriptor, the resource path and the keys.
- LegacyDescriptions.DescriptionFactory.GetPayloadDescriptionFor: the legacy factory passes the resource object where the description expects a payload type. Its string form (`render`) is a parameter.
- `findByTag` and `getTags` are left out: they only throw or return an empty list.
- Paths.Canonicalize: a backslash is read as a slash, as `Path::canonicalize` does, but three other parts of it are not modelled. A leading "~" is not expanded to the home directory, because that comes from the environment. A "scheme://" prefix and a Windows drive root such as "C:/" are not kept as the root. A path holding "://" or starting with a drive letter is canonicalized as a plain path.
- The exception classes are one `Error` datatype; messages are reduced to the values they carry.

## Findings

| source | as written | input that shows it | evidently intended | confidence | as-written member | corrected member |
|---|---|---|---|---|---|---|
| Repository/CompositeRepository.php:115 | the mount key must start with the requested path | "/" and "/child" mounted, `get("/child/file1.txt")`: no key starts with the path, so the virtual root gets it | the requested path lies at or below the mount key, as the doc comment and Tests/Unit/Repository/CompositeRepositoryTest.php:80-90 expect | not executed; high | CompositeRepository.RoutingCounterexample | CompositeRepository.CorrectedRouteRecomposes |
| Repository/CompositeRepository.php:57 | `get` joins mount point and remainder by concatenation | a path routed to the virtual root ("/" + "/child/file1.txt") comes back as "//child/file1.txt" | the requested path comes back unchanged | not executed; medium, assumes `createReference` does not canonicalize | CompositeRepository.GetDoublesLeadingSlash | CompositeRepository.CorrectedRouteRecomposes |
| src/Repository/PhpcrRepository.php:146-147 | a position p ≥ 1 with a next sibling orders the node before the child at p + 1 | children [a, b, c, d], `reorder` of d to position 1 gives [a, b, d, c]: d at index 2 | the node ends at index p from any starting index | not executed; high | PhpcrRepository.ReorderBackwardOffByOne | PhpcrRepository.ReorderToPosition |
| src/Repository/PhpcrOdmRepository.php:106-107 | the same choice of target as the PHPCR flavour | children [a, b, c, d], d to position 1 gives [a, b, d, c] | the node ends at index p | not executed; high | PhpcrOdmRepository.ReorderBackwardOffByOne | PhpcrOdmRepository.ReorderToPosition |
| src/Repository/AbstractPhpcrRepository.php:193 | `unresolvePath` strips `strlen(basePath)` characters | base "/site", `resolvePath("/")` is "/site", which unresolves to "" | the repository root "/" | not executed; high | PathResolution.RootUnresolvesToEmpty | PathResolution.ResolveRoundTripToRoot |
