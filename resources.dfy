/**
 * Resources as the repositories hand them out: a path, the backend object
 * behind it (the payload) and the payload's type name.
 */
module Resources {
  import opened Wrappers

  /** The object a resource wraps. */
  datatype Payload =
    | NoPayload
      /** A PHPCR node, identified by its backend path. */
    | NodePayload(nodePath: string)
      /** A PHPCR-ODM document, identified by its id (its backend path). */
    | DocumentPayload(id: string)

  /**
   * A resource. `isCmf` tells a CMF resource (one that exposes its payload
   * and payload type) from any other resource implementation.
   */
  datatype Resource = Resource(path: string, payload: Payload, payloadType: Option<string>, isCmf: bool)

  /** `createReference($path)`: the same resource seen at another path. */
  function CreateReference(r: Resource, path: string): (ref: Resource)
    ensures ref.path == path
    ensures ref.payload == r.payload && ref.payloadType == r.payloadType && ref.isCmf == r.isCmf
  {
    r.(path := path)
  }

  /** The paths of a collection, in order (`getPaths()`). */
  function Paths(rs: seq<Resource>): (ps: seq<string>)
    ensures |ps| == |rs|
    ensures forall i :: 0 <= i < |rs| ==> ps[i] == rs[i].path
  {
    if |rs| == 0 then [] else [rs[0].path] + Paths(rs[1..])
  }
}
