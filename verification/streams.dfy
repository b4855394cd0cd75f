/**
 * An opened file as an io.ReadSeeker: its bytes, a read position and whether
 * seeking works on it. Reads, seeks, the size probe (get_file_size,
 * trans.go:383-393) and the chunked copy loop of serveContent
 * (trans.go:512-526) are modelled on this value.
 */
module Streams {
  import opened Wrappers

  newtype byte = x: int | 0 <= x < 256

  datatype Stream = Stream(data: seq<byte>, pos: nat, seekable: bool)

  /** The size of the copy buffer (trans.go:514). */
  const ChunkSize: nat := 4096

  /** The number of bytes read to sniff a content type (sniffLen). */
  const SniffLen: nat := 512

  /** errSeeker's message. */
  const SeekerError := "seeker can't seek"

  /** The bytes a reader at the current position will still see. */
  function Remaining(s: Stream): seq<byte>
  {
    if s.pos <= |s.data| then s.data[s.pos..] else []
  }

  /** Seek(0, io.SeekStart). */
  function Rewind(s: Stream): (r: Option<Stream>)
    ensures r.Some? <==> s.seekable
    ensures r.Some? ==> Remaining(r.value) == s.data
  {
    if s.seekable then Some(s.(pos := 0)) else None
  }

  /**
   * get_file_size: seek to the end to learn the size, then back to the start;
   * either seek failing gives errSeeker.
   */
  function FileSize(s: Stream): (r: Result<(nat, Stream), string>)
    ensures r.Ok? <==> s.seekable
    ensures r.Ok? ==> r.value.0 == |s.data| && Remaining(r.value.1) == s.data
    ensures r.Ok? ==> r.value.1.data == s.data && r.value.1.seekable
    ensures r.Err? ==> r.error == SeekerError
  {
    if !s.seekable then Err(SeekerError)
    else Ok((|s.data|, s.(pos := 0)))
  }

  /**
   * One Read into a buffer of `max` bytes: the next bytes up to `max`, or no
   * bytes and end-of-file once the position is at the end.
   */
  function Read(s: Stream, max: nat): (r: (seq<byte>, Stream, bool))
    requires max > 0
    ensures r.1.data == s.data && r.1.seekable == s.seekable
    ensures r.2 <==> Remaining(s) == []
    ensures r.2 ==> r.0 == [] && Remaining(r.1) == []
    ensures !r.2 ==> 0 < |r.0| <= max && Remaining(s) == r.0 + Remaining(r.1)
    ensures !r.2 && |r.0| < max ==> Remaining(r.1) == []
  {
    if s.pos >= |s.data| then ([], s, true)
    else
      var n := Min(max, |s.data| - s.pos);
      var next := s.(pos := s.pos + n);
      assert s.data[s.pos..] == s.data[s.pos..s.pos + n] + s.data[s.pos + n..];
      (s.data[s.pos..s.pos + n], next, false)
  }

  /** io.ReadFull into an `n`-byte buffer: as many bytes as are left, up to `n`. */
  function ReadFull(s: Stream, n: nat): (r: (seq<byte>, Stream))
    ensures |r.0| == Min(n, |Remaining(s)|)
    ensures Remaining(s) == r.0 + Remaining(r.1)
    ensures r.1.data == s.data && r.1.seekable == s.seekable
  {
    var rest := Remaining(s);
    var m := Min(n, |rest|);
    assert rest == rest[..m] + rest[m..];
    (rest[..m], s.(pos := s.pos + m))
  }

  /** The bytes of all writes, in order. */
  function Concat(writes: seq<seq<byte>>): seq<byte>
  {
    if |writes| == 0 then [] else Concat(writes[..|writes| - 1]) + writes[|writes| - 1]
  }

  lemma {:induction false} ConcatAppend(a: seq<seq<byte>>, b: seq<seq<byte>>)
    ensures Concat(a + b) == Concat(a) + Concat(b)
    decreases |b|
  {
    if |b| == 0 {
      assert a + b == a;
    } else {
      ConcatAppend(a, b[..|b| - 1]);
      assert (a + b)[..|a + b| - 1] == a + b[..|b| - 1];
    }
  }

  lemma ConcatSingle(w: seq<byte>)
    ensures Concat([w]) == w
  {
    assert [w][..0] == [];
  }

  lemma ConcatAssocWrites(a: seq<seq<byte>>, b: seq<seq<byte>>, c: seq<seq<byte>>)
    ensures (a + b) + c == a + (b + c)
  {
  }

  /**
   * The writes the copy loop of serveContent makes: each Read's bytes are
   * written and flushed, the empty read at end-of-file included, after which
   * the loop stops.
   */
  function CopyWrites(s: Stream): seq<seq<byte>>
    decreases |Remaining(s)|
  {
    var r := Read(s, ChunkSize);
    if r.2 then [r.0] else [r.0] + CopyWrites(r.1)
  }

  /**
   * What the writes of the copy loop amount to: the unread bytes, in buffers
   * that are full except for the last two, the very last one empty.
   */
  lemma CopyWritesFacts(s: Stream)
    ensures Concat(CopyWrites(s)) == Remaining(s)
    ensures var w := CopyWrites(s); |w| >= 1 && w[|w| - 1] == []
    ensures var w := CopyWrites(s); forall i :: 0 <= i < |w| ==> |w[i]| <= ChunkSize
    ensures var w := CopyWrites(s); forall i :: 0 <= i < |w| - 2 ==> |w[i]| == ChunkSize
  {
    CopyWritesConcat(s);
    CopyWritesShape(s);
  }

  /** The writes together are the unread bytes. */
  lemma {:induction false} CopyWritesConcat(s: Stream)
    ensures Concat(CopyWrites(s)) == Remaining(s)
    decreases |Remaining(s)|
  {
    var r := Read(s, ChunkSize);
    CopyWritesUnfold(s);
    ConcatSingle(r.0);
    if !r.2 {
      CopyWritesConcat(r.1);
      ConcatAppend([r.0], CopyWrites(r.1));
    }
  }

  /** Only the last two writes may be short, and the last one is empty. */
  lemma {:induction false} CopyWritesShape(s: Stream)
    ensures var w := CopyWrites(s); |w| >= 1 && w[|w| - 1] == []
    ensures var w := CopyWrites(s); forall i :: 0 <= i < |w| ==> |w[i]| <= ChunkSize
    ensures var w := CopyWrites(s); forall i :: 0 <= i < |w| - 2 ==> |w[i]| == ChunkSize
    decreases |Remaining(s)|
  {
    var r := Read(s, ChunkSize);
    CopyWritesUnfold(s);
    if !r.2 {
      var rest := CopyWrites(r.1);
      CopyWritesShape(r.1);
      if |r.0| < ChunkSize {
        CopyWritesUnfold(r.1);
        assert rest == [[]];
      }
      var w := [r.0] + rest;
      assert forall i :: 1 <= i < |w| ==> w[i] == rest[i - 1];
    }
  }

  /**
   * The copy loop (trans.go:512-526). Every write is at most one buffer, the
   * writes together are exactly the unread bytes of the file, and the last
   * write is the empty one made when the end of the file is reached.
   */
  method CopyLoop(src: Stream) returns (writes: seq<seq<byte>>)
    ensures writes == CopyWrites(src)
    ensures Concat(writes) == Remaining(src)
    ensures |writes| >= 1 && writes[|writes| - 1] == []
    ensures forall i :: 0 <= i < |writes| ==> |writes[i]| <= ChunkSize
    ensures forall i :: 0 <= i < |writes| - 2 ==> |writes[i]| == ChunkSize
  {
    var s := src;
    writes := [];
    var done := false;
    while !done
      invariant writes + (if done then [] else CopyWrites(s)) == CopyWrites(src)
      decreases |Remaining(s)| + (if done then 0 else 1)
    {
      var r := Read(s, ChunkSize);
      CopyWritesUnfold(s);
      ConcatAssocWrites(writes, [r.0], if r.2 then [] else CopyWrites(r.1));
      writes := writes + [r.0];
      s := r.1;
      done := r.2;
    }
    assert writes + [] == writes;
    CopyWritesFacts(src);
  }

  /** One round of the copy loop: the write of one Read, then the rest of the loop. */
  lemma CopyWritesUnfold(s: Stream)
    ensures var r := Read(s, ChunkSize);
      CopyWrites(s) == [r.0] + (if r.2 then [] else CopyWrites(r.1))
  {
    var r := Read(s, ChunkSize);
    if r.2 {
      assert [r.0] + [] == [r.0];
    }
  }
}
