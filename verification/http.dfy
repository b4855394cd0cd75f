/**
 * Requests, responses and the small response writers of the server:
 * http.Error, FastResp (trans.go:42-47), localRedirect (trans.go:310-316)
 * and toHTTPError (trans.go:295-305).
 */
module Http {
  import opened Streams

  /** Canonical header names to their single value. */
  type Header = map<string, string>

  /** Header.Get: the value, or "" when the header is absent. */
  function HeaderGet(h: Header, key: string): string
  {
    if key in h then h[key] else ""
  }

  /** A response body: plain text, or the flushed writes of a file copy. */
  datatype Body = Text(text: string) | Chunks(writes: seq<seq<byte>>)

  datatype Response = Response(status: int, header: Header, body: Body)

  /**
   * A request: its method (`verb`), its URL path and raw query, the first value of
   * each query parameter, and its headers.
   */
  datatype Request = Request(verb: string, path: string, rawQuery: string,
                             query: map<string, string>, header: Header)

  /** URL.Query().Get: the first value, or "" when the parameter is absent. */
  function QueryGet(r: Request, key: string): string
  {
    if key in r.query then r.query[key] else ""
  }

  const TextPlain := "text/plain; charset=utf-8"

  /** http.Error: a plain-text body of `msg` and a newline, sniffing disabled. */
  function Error(h: Header, msg: string, code: int): (r: Response)
    ensures r.status == code && r.body == Text(msg + "\n")
    ensures HeaderGet(r.header, "Content-Type") == TextPlain
    ensures HeaderGet(r.header, "X-Content-Type-Options") == "nosniff"
    ensures forall k :: k in h && k != "Content-Type" && k != "X-Content-Type-Options" ==>
      k in r.header && r.header[k] == h[k]
  {
    Response(code, h["Content-Type" := TextPlain]["X-Content-Type-Options" := "nosniff"], Text(msg + "\n"))
  }

  /** FastResp: an empty plain-text response with the given status. */
  function FastResp(h: Header, code: int): (r: Response)
    ensures r.status == code && r.body == Text("")
    ensures HeaderGet(r.header, "Content-Length") == "0"
    ensures HeaderGet(r.header, "Content-Type") == TextPlain
    ensures HeaderGet(r.header, "X-Content-Type-Options") == "nosniff"
  {
    Response(code, h["Content-Length" := "0"]["Content-Type" := TextPlain]["X-Content-Type-Options" := "nosniff"], Text(""))
  }

  /**
   * localRedirect: a 301 whose Location is `newPath`, followed by `?` and
   * the raw query when the request has one; no other header changes.
   */
  function LocalRedirect(h: Header, r: Request, newPath: string): (resp: Response)
    ensures resp.status == 301 && resp.body == Text("")
    ensures "Location" in resp.header
    ensures var loc := resp.header["Location"];
      && |newPath| <= |loc| && loc[..|newPath|] == newPath
      && (r.rawQuery == "" ==> loc == newPath)
      && (r.rawQuery != "" ==> |loc| > |newPath| && loc[|newPath|] == '?' && loc[|newPath| + 1..] == r.rawQuery)
    ensures forall k :: k != "Location" ==> (k in resp.header <==> k in h)
    ensures forall k :: k in h && k != "Location" ==> resp.header[k] == h[k]
  {
    var loc := if r.rawQuery != "" then newPath + "?" + r.rawQuery else newPath;
    Response(301, h["Location" := loc], Text(""))
  }

  /** What localRedirect appends to the new path: `?` and the raw query, when there is one. */
  function QuerySuffix(rawQuery: string): (s: string)
    ensures s == "" <==> rawQuery == ""
    ensures s != "" ==> s[0] == '?' && s[1..] == rawQuery
  {
    if rawQuery == "" then "" else "?" + rawQuery
  }

  /** The Location of a local redirect, as one string. */
  lemma RedirectLocation(h: Header, r: Request, newPath: string)
    ensures LocalRedirect(h, r, newPath).header["Location"] == newPath + QuerySuffix(r.rawQuery)
  {
  }

  /** toHTTPError: every error is reported as the same internal server error. */
  function ToHttpError<E>(err: E): (string, int)
  {
    ("500 Internal Server Error", 500)
  }
}
