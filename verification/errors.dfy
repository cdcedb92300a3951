/** The ways an operation of the object store can fail. The named
    exceptions of lib/git/exceptions.rb appear as variants, next to the
    Ruby runtime errors the code lets escape (a failed regular-expression
    match, an out-of-range string index, an unknown class name). */
module Errors {

  /** Which validation of a stored object failed. */
  datatype Check = BadType | BadLength | BadHash

  /** Why a store lookup found nothing usable. */
  datatype Absence = Missing | Ambiguous

  datatype Error =
    | CorruptLooseObject(check: Check)
    | CorruptSha1File(check: Check)
    | ObjectNotFound(why: Absence)
    | InflateFailed      // zlib could not inflate the file
    | HeaderMismatch     // the header regexp did not match: `nil[1]`
    | IndexOutOfString   // `String#insert` past the end of the hash
    | UnknownClass       // `const_get` found no class for the type name
    | NilDump            // an object whose `_dump` returned nil
    | MalformedDump      // the deferred loader could not decode the dump
}
