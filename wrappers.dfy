/** Option and Result, used for the script's optional arguments and for the
    exceptions it raises. */
module Wrappers {
  datatype Option<+T> = None | Some(value: T)

  datatype Result<+R, +E> = Ok(value: R) | Err(error: E)
}

/** The failures the packaging script reports to its caller. */
module Errors {
  datatype Error =
    | ManifestNotFound(path: string)  // `FileNotFoundError` raised by `load_manifest`
    | MalformedManifest               // the parser rejected the manifest text
    | NotAnObject                     // the manifest is valid JSON but not an object: item assignment fails
    | EmptyName                       // `with_suffix` on a path whose name is empty
}
