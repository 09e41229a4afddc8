/** The decoded request data the sanitiser works on, and the outcomes of its codecs. */
module Values {

  /** A JSON document as encoding/json decodes it with UseNumber: numbers keep their
      decimal text, and an object is the sequence of its (key, value) pairs in the
      order in which Go's map iteration happens to visit them. */
  datatype Value =
    | Null
    | Bool(b: bool)
    | Num(text: string)
    | Str(s: string)
    | Arr(items: seq<Value>)
    | Obj(entries: seq<Entry>)

  datatype Entry = Entry(key: string, val: Value)

  /** Why a codec gave up on a body. */
  datatype Failure =
    | UnknownContentType   // a top-level JSON value that is neither an object nor an array
    | NonObjectElement     // a top-level JSON array holding a non-object (a type-assertion panic in Go)
    | PartReadFailed       // copying a multipart part's body failed
    | EmptyPart            // a multipart part with no bytes
    | BoundaryOutOfRange   // the boundary slice of the content type is out of range (a panic in Go)

  datatype Result<T> = Ok(value: T) | Err(failure: Failure)
}
