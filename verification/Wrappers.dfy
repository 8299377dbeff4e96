/** Optional values, results, and the byte strings every other module works on. */
module Wrappers {
  datatype Option<+T> = None | Some(value: T)

  datatype Result<+T, +E> = Ok(value: T) | Err(error: E)

  // A Go string or []byte, or a JavaScript string of code points below 256: one char per byte.
  // A nil []byte and an empty one compare equal in Go and are one value here.
  type Bytes = seq<char>

  function GetOr<T>(o: Option<T>, default: T): T {
    match o
    case Some(v) => v
    case None => default
  }

  function Min(a: int, b: int): int {
    if a < b then a else b
  }

  function Last<T>(s: seq<T>): T
    requires s != []
  {
    s[|s| - 1]
  }

  function DropLast<T>(s: seq<T>): seq<T>
    requires s != []
  {
    s[..|s| - 1]
  }

  // Concatenation of a list of pages.
  function Flatten<T>(pages: seq<seq<T>>): seq<T> {
    if pages == [] then [] else Flatten(DropLast(pages)) + Last(pages)
  }
}
