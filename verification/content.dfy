/**
 * serveContent (trans.go:397-527): the Last-Modified header, the content
 * type from a preset header, the name's extension or a sniffed sample, the
 * size probe, and the body copied in buffer-sized writes unless the request
 * is HEAD. Range requests are not served (that code is commented out in the
 * source).
 */
module Content {
  import opened Wrappers
  import opened Streams
  import opened Http
  import opened Cache
  import opened Paths
  import opened Decimal
  import opened Platform

  /** The sample serveContent sniffs: up to SniffLen bytes from the read position. */
  function Sample(content: Stream): seq<byte>
  {
    ReadFull(content, SniffLen).0
  }

  /**
   * The header after the content type is settled, and the stream to read
   * next; None when rewinding after the sniff fails.
   */
  function Typed(h: Header, name: string, content: Stream, env: Env): (r: Option<(Header, Stream)>)
    ensures r.None? <==> "Content-Type" !in h && env.typeByExtension(Ext(name)) == "" && !content.seekable
    ensures r.Some? ==> r.value.1.data == content.data && r.value.1.seekable == content.seekable
    ensures r.Some? ==> "Content-Type" in r.value.0
    ensures r.Some? ==> forall k :: k != "Content-Type" ==>
      (k in r.value.0 <==> k in h) && (k in h ==> r.value.0[k] == h[k])
    ensures r.Some? && "Content-Type" in h ==> r.value.0 == h
    ensures "Content-Type" !in h && env.typeByExtension(Ext(name)) != "" ==>
      r.Some? && r.value.0["Content-Type"] == env.typeByExtension(Ext(name))
    ensures r.Some? && "Content-Type" !in h && env.typeByExtension(Ext(name)) == "" ==>
      r.value.0["Content-Type"] == env.detectContentType(Sample(content))
  {
    if "Content-Type" in h then Some((h, content))
    else
      var byExt := env.typeByExtension(Ext(name));
      if byExt != "" then Some((h["Content-Type" := byExt], content))
      else
        var (sample, afterSniff) := ReadFull(content, SniffLen);
        match Rewind(afterSniff)
        case None => None
        case Some(start) => Some((h["Content-Type" := env.detectContentType(sample)], start))
  }

  /** The Accept-Ranges and Content-Length headers of a successful response. */
  function SizeHeaders(h: Header, size: nat): (r: Header)
    ensures ParseInt(HeaderGet(r, "Content-Length")) == Some(size)
    ensures HeaderGet(r, "Accept-Ranges") == "bytes"
    ensures forall k :: k in h && k != "Accept-Ranges" && k != "Content-Length" ==> k in r && r[k] == h[k]
  {
    IntTextRoundTrip(size);
    h["Accept-Ranges" := "bytes"]["Content-Length" := IntText(size)]
  }

  /** The body: the copy loop's writes, or nothing for HEAD. */
  function CopyBody(verb: string, start: Stream): (b: Body)
    ensures b.Chunks?
    ensures verb != "HEAD" ==> Concat(b.writes) == Remaining(start)
    ensures verb == "HEAD" ==> b.writes == []
  {
    CopyWritesConcat(start);
    if verb != "HEAD" then Chunks(CopyWrites(start)) else Chunks([])
  }

  /**
   * The part of serveContent after the type is settled: the size probe,
   * then the headers and the copied body, or errSeeker as a 500.
   */
  function Deliver(h: Header, verb: string, s: Stream): (r: Response)
    ensures r.status == 200 <==> s.seekable
    ensures r.status != 200 ==> r == Error(h, SeekerError, 500)
    ensures r.status == 200 ==> ParseInt(HeaderGet(r.header, "Content-Length")) == Some(|s.data|)
    ensures r.status == 200 ==> HeaderGet(r.header, "Accept-Ranges") == "bytes"
    ensures r.status == 200 ==> forall k :: k in h && k != "Accept-Ranges" && k != "Content-Length" ==>
      k in r.header && r.header[k] == h[k]
    ensures r.status == 200 && verb != "HEAD" ==> r.body.Chunks? && Concat(r.body.writes) == s.data
    ensures r.status == 200 && verb == "HEAD" ==> r.body == Chunks([])
  {
    match FileSize(s)
    case Err(msg) => Error(h, msg, 500)
    case Ok((size, start)) => Response(200, SizeHeaders(h, size), CopyBody(verb, start))
  }

  function ServeContent(h: Header, verb: string, name: string, modtime: int,
                        content: Stream, env: Env): (r: Response)
    ensures r.status == 200 <==> content.seekable
    ensures r.status != 200 ==> r.status == 500 && r.body == Text(SeekerError + "\n")
    ensures !IsZeroTime(modtime) ==> HeaderGet(r.header, "Last-Modified") == env.httpDate(modtime)
    ensures r.status == 200 ==> ParseInt(HeaderGet(r.header, "Content-Length")) == Some(|content.data|)
    ensures r.status == 200 ==> HeaderGet(r.header, "Accept-Ranges") == "bytes"
    ensures r.status == 200 && verb != "HEAD" ==> r.body.Chunks? && Concat(r.body.writes) == content.data
    ensures r.status == 200 && verb == "HEAD" ==> r.body == Chunks([])
    ensures r.status == 200 && "Content-Type" in h ==> HeaderGet(r.header, "Content-Type") == h["Content-Type"]
    ensures r.status == 200 && "Content-Type" !in h && env.typeByExtension(Ext(name)) != "" ==>
      HeaderGet(r.header, "Content-Type") == env.typeByExtension(Ext(name))
    ensures r.status == 200 && "Content-Type" !in h && env.typeByExtension(Ext(name)) == "" ==>
      HeaderGet(r.header, "Content-Type") == env.detectContentType(Sample(content))
  {
    var h1 := SetLastModified(h, modtime, env.httpDate);
    match Typed(h1, name, content, env)
    case None => Error(h1, SeekerError, 500)
    case Some((h2, s)) => Deliver(h2, verb, s)
  }
}
