/**
 * The library and operating-system services the server calls but whose
 * internals are not modelled: MIME tables, content sniffing, date parsing
 * and formatting, URL path escaping, the two-decimal float format, the
 * static page fragment, directory reads and the static upload page. Each is a field of `Env`, so
 * every property proved here holds whatever those services return.
 */
module Platform {
  import opened Wrappers
  import opened Streams
  import opened FileSystem
  import opened Http

  datatype Env = Env(
    /** mime.TypeByExtension */
    typeByExtension: string -> string,
    /** http.DetectContentType */
    detectContentType: seq<byte> -> string,
    /** http.ParseTime, in nanoseconds since the Unix epoch */
    parseHttpTime: string -> Option<int>,
    /** modtime.UTC().Format(http.TimeFormat) */
    httpDate: int -> string,
    /** modtime.Format("2006-01-02 15:04:05") */
    listingTime: int -> string,
    /** url.URL{Path: name}.String() */
    escapePath: string -> string,
    /** fmt.Sprintf("%.2f", float64(size)/float64(divisor)) */
    twoDecimals: (int, int) -> string,
    /** the contents of static/index_part.html, or None when it cannot be read */
    indexPart: Option<string>,
    /** ReadDir(-1) on an opened directory, or None on failure */
    readDir: string -> Option<seq<Entry>>,
    /** http.ServeFile(w, r, "static/index.html"), the upload page */
    uploadPage: Request -> Response)
}
