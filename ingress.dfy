/** The first middleware of app.js, which every request passes before the
    routes: it refuses PATCH, PUT and DELETE, and checks the content type
    (and, when UTF-8 is enforced, the charset) of POST requests. */
module Ingress {
  import opened Common
  import opened Settings

  /** Either a refusal with its status and text, or `next()`. */
  datatype Verdict = Refuse(status: int, text: string) | Next

  /** The gate for a request with this method (`verb`) and the media type and
      charset parameter of its `Content-Type` header (None when absent). The
      guard meant for a missing header, `!header === undefined`, compares a
      boolean with `undefined` and never holds, so a missing header is
      refused only by the media-type comparison that follows it. */
  function Gate(verb: string, mediaType: Option<string>, charset: Option<string>, enforceUtf8: bool): (v: Verdict)
    ensures v.Refuse? ==> v.status == 405 || v.status == 415
    ensures v.Refuse? && v.status == 405 <==> verb == "PATCH" || verb == "PUT" || verb == "DELETE"
    ensures v.Refuse? && v.status == 405 ==> v.text == "method not implemented"
    ensures v.Refuse? && v.status == 415 <==>
      && verb == "POST"
      && (|| mediaType != Some("application/x-www-form-urlencoded")
          || (enforceUtf8 && (charset.None? || AsciiLower(charset.value) != "utf-8")))
    ensures v != Refuse(415, "content type header missing")
    ensures v == Next <==>
      && verb != "PATCH" && verb != "PUT" && verb != "DELETE"
      && (verb == "POST" ==>
            && mediaType == Some("application/x-www-form-urlencoded")
            && (enforceUtf8 ==> charset.Some? && AsciiLower(charset.value) == "utf-8"))
  {
    if verb == "PATCH" || verb == "PUT" || verb == "DELETE" then
      Refuse(405, "method not implemented")
    else if verb == "POST" then
      if mediaType != Some("application/x-www-form-urlencoded") then
        Refuse(415, "content type must be `application/x-www-form-urlencoded`")
      else if enforceUtf8 && charset.None? then
        Refuse(415, "charset missing in the content type header")
      else if enforceUtf8 && AsciiLower(charset.value) != "utf-8" then
        Refuse(415, "charset encoding must be `utf-8`")
      else Next
    else Next
  }

  /** With the shipped setting (UTF-8 not enforced), the charset makes no
      difference to any request. */
  lemma CharsetIgnoredByDefault(verb: string, mediaType: Option<string>, c1: Option<string>, c2: Option<string>)
    ensures Gate(verb, mediaType, c1, EnforceUtf8) == Gate(verb, mediaType, c2, EnforceUtf8)
  {
  }

  /** Methods other than PATCH, PUT, DELETE and POST always go on. */
  lemma OtherMethodsPass(verb: string, mediaType: Option<string>, charset: Option<string>, enforceUtf8: bool)
    requires verb != "PATCH" && verb != "PUT" && verb != "DELETE" && verb != "POST"
    ensures Gate(verb, mediaType, charset, enforceUtf8) == Next
  {
  }
}
