/**
 * Modification times and conditional requests: isZeroTime
 * (trans.go:342-347), setLastModified (trans.go:350-354),
 * checkIfModifiedSince (trans.go:358-377) and writeNotModified
 * (trans.go:319-332). Times are nanoseconds since the Unix epoch.
 */
module Cache {
  import opened Wrappers
  import opened Http

  const NanosPerSecond: int := 1_000_000_000

  /** time.Time{} (January 1 of year 1, UTC) in nanoseconds since the Unix epoch. */
  const ZeroTime: int := -62_135_596_800 * NanosPerSecond

  /** isZeroTime: the zero time or the Unix epoch itself. */
  predicate IsZeroTime(t: int)
  {
    t == ZeroTime || t == 0
  }

  /** setLastModified: a Last-Modified header unless the time is a zero time. */
  function SetLastModified(h: Header, modtime: int, httpDate: int -> string): (r: Header)
    ensures IsZeroTime(modtime) ==> r == h
    ensures !IsZeroTime(modtime) ==> "Last-Modified" in r && r["Last-Modified"] == httpDate(modtime)
    ensures r.Keys == h.Keys || r.Keys == h.Keys + {"Last-Modified"}
    ensures forall k :: k in h && k != "Last-Modified" ==> r[k] == h[k]
  {
    if IsZeroTime(modtime) then h else h["Last-Modified" := httpDate(modtime)]
  }

  /** time.Truncate(time.Second): rounded down to a whole second. */
  function TruncateToSecond(t: int): (r: int)
    ensures r % NanosPerSecond == 0
    ensures r <= t < r + NanosPerSecond
  {
    t - t % NanosPerSecond
  }

  datatype Cond = CondNone | CondTrue | CondFalse

  /** The request carries a usable If-Modified-Since date and the time is known. */
  predicate Evaluable(verb: string, header: Header, modtime: int, parse: string -> Option<int>)
  {
    && (verb == "GET" || verb == "HEAD")
    && HeaderGet(header, "If-Modified-Since") != ""
    && !IsZeroTime(modtime)
    && parse(HeaderGet(header, "If-Modified-Since")).Some?
  }

  /**
   * checkIfModifiedSince: only GET and HEAD with a parseable header and a
   * known time are evaluated; the answer is "not modified" exactly when the
   * time falls before the end of the second the client named.
   */
  function CheckIfModifiedSince(verb: string, header: Header, modtime: int,
                                parse: string -> Option<int>): (r: Cond)
    ensures !Evaluable(verb, header, modtime, parse) <==> r == CondNone
    ensures Evaluable(verb, header, modtime, parse) ==>
      var t := parse(HeaderGet(header, "If-Modified-Since")).value;
      (r == CondFalse <==> modtime < TruncateToSecond(t) + NanosPerSecond)
  {
    if verb != "GET" && verb != "HEAD" then CondNone
    else
      var ims := HeaderGet(header, "If-Modified-Since");
      if ims == "" || IsZeroTime(modtime) then CondNone
      else match parse(ims)
        case None => CondNone
        case Some(t) =>
          TruncationOrder(modtime, t);
          if TruncateToSecond(modtime) <= t then CondFalse else CondTrue
  }

  /** A truncated time is at most `t` exactly when the time is before the second after `t`'s. */
  lemma TruncationOrder(m: int, t: int)
    ensures TruncateToSecond(m) <= t <==> m < TruncateToSecond(t) + NanosPerSecond
  {
    var a := TruncateToSecond(m);
    var b := TruncateToSecond(t);
    if a <= t {
      assert a <= b by { WholeSecondsBelow(a, t); }
    } else {
      assert a >= b + NanosPerSecond by { WholeSecondsAbove(a, b); }
    }
  }

  lemma WholeSecondsBelow(a: int, t: int)
    requires a % NanosPerSecond == 0 && a <= t
    ensures a <= TruncateToSecond(t)
  {
    if a > TruncateToSecond(t) {
      WholeSecondsAbove(a, TruncateToSecond(t));
    }
  }

  lemma WholeSecondsAbove(a: int, b: int)
    requires a % NanosPerSecond == 0 && b % NanosPerSecond == 0 && a > b
    ensures a >= b + NanosPerSecond
  {
    var qa := a / NanosPerSecond;
    var qb := b / NanosPerSecond;
    assert a == qa * NanosPerSecond;
    assert b == qb * NanosPerSecond;
    assert qa >= qb + 1;
  }

  /**
   * writeNotModified: a 304 that drops Content-Type and Content-Length, and
   * Last-Modified too when an Etag is set; every other header is kept.
   */
  function WriteNotModified(h: Header): (r: Response)
    ensures r.status == 304 && r.body == Text("")
    ensures "Content-Type" !in r.header && "Content-Length" !in r.header
    ensures "Last-Modified" in r.header <==> "Last-Modified" in h && HeaderGet(h, "Etag") == ""
    ensures forall k :: k in r.header ==> k in h && r.header[k] == h[k]
    ensures forall k :: k in h && k != "Content-Type" && k != "Content-Length" && k != "Last-Modified" ==> k in r.header
  {
    var h1 := h - {"Content-Type", "Content-Length"};
    var h2 := if HeaderGet(h1, "Etag") != "" then h1 - {"Last-Modified"} else h1;
    Response(304, h2, Text(""))
  }

  /** Answering "not modified" twice changes nothing more. */
  lemma NotModifiedIdempotent(h: Header)
    ensures WriteNotModified(WriteNotModified(h).header) == WriteNotModified(h)
  {
    var r1 := WriteNotModified(h).header;
    var r2 := WriteNotModified(r1).header;
    assert HeaderGet(r1, "Etag") == HeaderGet(h, "Etag");
    assert r2 == r1;
  }
}
