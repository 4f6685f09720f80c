/**
 * The request helpers of the frontend: URL building, the choice between a
 * JSON and a text body, and the decision to return the payload or throw an
 * error with a message. The `fetch` call itself is I/O and stays outside.
 */
module FrontendApi {
  import opened Wrappers
  import Text

  /** `buildUrl`: joins the base URL and the path with exactly the one slash the path may lack. */
  function BuildUrl(base: string, path: string): (url: string)
    ensures base + "/" <= url
    ensures !("/" <= path) ==> url == base + "/" + path
    ensures "/" <= path ==> url == base + "/" + path[1..]
  {
    if !("/" <= path) then base + "/" + path else base + path
  }

  /** A path and the same path with a leading slash give the same URL. */
  lemma BuildUrlSlashInsensitive(base: string, path: string)
    requires !("/" <= path)
    ensures BuildUrl(base, "/" + path) == BuildUrl(base, path)
  {
    assert ("/" + path)[1..] == path;
  }

  /** How `readResponse` reads the body. */
  datatype BodyReader = ParseJson | ReadText

  /** `readResponse`: JSON iff the content-type header, read as "" when absent, mentions application/json. */
  function ReadResponse(contentType: Option<string>): (reader: BodyReader)
    ensures reader == ParseJson <==>
              contentType.Some? && exists i :: Text.OccursAt(contentType.value, "application/json", i)
    ensures contentType.None? ==> reader == ReadText
  {
    var header := contentType.GetOr("");
    assert !Text.OccursAt("", "application/json", 0);
    if Text.Contains(header, "application/json") then ParseJson else ReadText
  }

  /**
   * A payload: a string (a text body, or a JSON string), a JSON value with
   * the truthy string `message` it may carry, or JSON null.
   */
  datatype Payload = Str(s: string) | Obj(message: Option<string>) | Null

  /**
   * The message of the error `apiFetch` throws:
   * the trimmed string payload, then `payload.message`, then
   * `response.statusText`, then "Request failed" — the first that is not empty.
   */
  function ErrorMessage(payload: Payload, statusText: string): (m: string)
    ensures m != []
    ensures payload.Str? && !Text.IsBlank(Text.JavaScript, payload.s) ==> m == Text.Trim(Text.JavaScript, payload.s)
    ensures (payload.Str? ==> Text.IsBlank(Text.JavaScript, payload.s)) ==>
              if payload.Obj? && payload.message.Some? && payload.message.value != "" then m == payload.message.value
              else if statusText != "" then m == statusText
              else m == "Request failed"
  {
    if payload.Str? && Text.Trim(Text.JavaScript, payload.s) != "" then Text.Trim(Text.JavaScript, payload.s)
    else if payload.Obj? && payload.message.Some? && payload.message.value != "" then payload.message.value
    else if statusText != "" then statusText
    else "Request failed"
  }

  /** What `apiFetch` does with a response once its body is read. */
  datatype FetchResult = Returned(payload: Payload) | Thrown(message: string)

  /** `apiFetch`: throws iff the response is not ok, with a message that is never empty. */
  function ApiFetch(ok: bool, statusText: string, payload: Payload): (r: FetchResult)
    ensures r.Thrown? <==> !ok
    ensures ok ==> r == Returned(payload)
    ensures r.Thrown? ==> r.message == ErrorMessage(payload, statusText) && r.message != []
  {
    if !ok then Thrown(ErrorMessage(payload, statusText)) else Returned(payload)
  }
}
