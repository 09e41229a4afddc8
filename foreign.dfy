/** Library code the sanitiser calls but does not define. Each is an arbitrary total
    function: nothing in the model depends on what it computes. */
module Foreign {
  import opened Values

  /** A bluemonday policy's Sanitize method. */
  type Sanitizer = string -> string

  /** A policy is idempotent when sanitising sanitised text changes nothing. */
  ghost predicate Idempotent(p: Sanitizer)
  {
    forall s :: p(p(s)) == p(s)
  }

  datatype Lib = Lib(
    quote: string -> string,        // fmt's %q of a string (strconv.Quote)
    formatQ: Value -> string,       // fmt's %q of a decoded array or object (reflection printer)
    queryEscape: string -> string,  // url.QueryEscape
    strictSanitize: Sanitizer)      // bluemonday.StrictPolicy().Sanitize
}
