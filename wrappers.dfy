/**
 * Option, Result and the errors raised by the resource repositories.
 *
 * Every PHP exception of the modelled code becomes an `Error` value that
 * carries the fields its message is built from (path, query, keys, cause).
 */
module Wrappers {

  datatype Option<T> = None | Some(value: T)

  datatype Result<T> = Ok(value: T) | Err(error: Error)

  /** The outcome of an operation that returns nothing or throws. */
  datatype Outcome = Pass | Fail(error: Error)

  datatype Error =
    /** `failUnlessGlob` / `find`: a query language other than "glob". */
    | UnsupportedLanguage(language: string)
    /** The path argument is the empty string. */
    | EmptyPath
    /** The path argument is not a PHP string (its `gettype`). */
    | PathNotAString(typeName: string)
    /** The path does not start with "/". */
    | PathNotAbsolute(path: string)
    /** `reorder` with a negative position. */
    | NegativePosition(position: int)
    /** PHPCR `PathNotFoundException`, rethrown with the resolved path. */
    | NodeNotFound(resolvedPath: string)
    /** The PHPCR session returned null without throwing. */
    | SessionReturnedNull
    /** The document manager found no document at the resolved path. */
    | DocumentNotFound(resolvedPath: string)
    /** `getParent()` on the root node. */
    | NoParent(path: string)
    /** An exception raised by the backend while handling the node at `path`. */
    | BackendFailure(path: string)
    /** `remove` rethrows a backend exception with the query and the cause. */
    | RemoveFailed(query: string, cause: Error)
    /** `move` rethrows a backend exception with the query and the cause. */
    | MoveFailed(query: string, cause: Error)
    /** `clear` and `add` are not supported. */
    | NotSupported(operation: string)
    /** A repository has no resource at `path`. */
    | ResourceNotFound(path: string)
    /** `Description::get` on a key that is not set; lists the set keys. */
    | UnknownDescriptor(descriptor: string, subject: string, keys: seq<string>)
    /** `Description::set` with a value that is neither null, scalar nor array. */
    | InvalidDescriptorValue(typeName: string, descriptor: string)
    /** The ODM metadata factory has no mapping for the class. */
    | NoMetadata(className: string)
}
