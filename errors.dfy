/**
 * The ways an operation of the tool stops early. FileNotFound, NoParent and
 * NoFileName are `unwrap` panics in the source, MalformedHeader is a string
 * slice panic, and CyclicInclude has no counterpart: there the source
 * recurses without end.
 */
module Errors {

  datatype Error =
    | FileNotFound(path: string)      // read_to_string of a missing file; open of a missing file without `create`
    | CyclicInclude(path: string)     // the include chain re-enters an ancestor: the source recurses without end
    | NoParent(path: string)          // `parent()` of the root config path is None
    | NoFileName(path: string)        // `file_name()` of a walked path is None
    | MalformedHeader(header: string) // `[3..]` of a header shorter than three bytes or cut inside a character
}
