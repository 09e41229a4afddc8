/** XssRemove's routing decision on the request verb and headers. */
module Dispatch {
  import opened Text

  /** Which handler XssRemove runs. */
  datatype Handler = HandleJson | HandleXFormEncoded | HandleMultiPartFormData | HandleGETRequest | NoHandler

  const JsonType := "application/json"
  const FormType := "application/x-www-form-urlencoded"
  const MultipartType := "multipart/form-data"

  /** POST, PUT and PATCH carry a body. */
  predicate HasBody(verb: string)
  {
    verb == "POST" || verb == "PUT" || verb == "PATCH"
  }

  /** The handler for a method, a Content-Type header and the value strconv.Atoi returns
      for the Content-Length header, whose error is ignored: 0 on a syntax error, the
      clamped extreme on overflow. */
  function Route(verb: string, contentType: string, contentLength: int): (h: Handler)
    ensures h == HandleJson <==> HasBody(verb) && contentType == JsonType && contentLength > 1
    ensures h == HandleXFormEncoded <==> HasBody(verb) && contentType == FormType
    ensures h == HandleMultiPartFormData <==> HasBody(verb) && Contains(contentType, MultipartType)
    ensures h == HandleGETRequest <==> verb == "GET"
    ensures h == NoHandler <==>
      (!HasBody(verb) && verb != "GET") ||
      (HasBody(verb) && (contentType == JsonType ==> contentLength <= 1) && contentType != FormType &&
       !Contains(contentType, MultipartType))
  {
    FormTypeIsNotMultipart();
    if HasBody(verb) then
      if contentLength > 1 && contentType == JsonType then HandleJson
      else if contentType == FormType then HandleXFormEncoded
      else if Contains(contentType, MultipartType) then HandleMultiPartFormData
      else NoHandler
    else if verb == "GET" then HandleGETRequest
    else NoHandler
  }

  /** The exact form content type does not contain the multipart one, so the order of
      the two tests in XssRemove does not matter. */
  lemma FormTypeIsNotMultipart()
    ensures !Contains(FormType, MultipartType)
  {
    forall j | 0 <= j <= |FormType| - |MultipartType|
      ensures !OccursAt(FormType, MultipartType, j)
    {
      assert FormType[j] != 'm';
      assert MultipartType[0] == 'm';
    }
  }
}
