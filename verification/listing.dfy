/**
 * The HTML directory listing (dirList, trans.go:194-262) and the size
 * column's text (formatFileSize, trans.go:177-191): entries sorted by name,
 * directories marked with a trailing slash, rows alternately "even" and
 * "odd", link text escaped.
 */
module Listing {
  import opened Wrappers
  import opened Segments
  import opened Decimal
  import opened Html
  import opened Http
  import opened FileSystem
  import opened Platform

  /** Go's `<` on strings: lexicographic by character, a proper prefix first. */
  predicate Less(a: string, b: string)
    decreases |a|
  {
    if |a| == 0 then |b| > 0
    else if |b| == 0 then false
    else if a[0] != b[0] then a[0] < b[0]
    else Less(a[1..], b[1..])
  }

  lemma {:induction false} LessIrreflexive(a: string)
    ensures !Less(a, a)
    decreases |a|
  {
    if |a| > 0 {
      LessIrreflexive(a[1..]);
    }
  }

  lemma {:induction false} LessTransitive(a: string, b: string, c: string)
    requires Less(a, b) && Less(b, c)
    ensures Less(a, c)
    decreases |a|
  {
    if |a| > 0 && a[0] == b[0] && b[0] == c[0] {
      LessTransitive(a[1..], b[1..], c[1..]);
    }
  }

  lemma {:induction false} LessTotal(a: string, b: string)
    requires a != b
    ensures Less(a, b) || Less(b, a)
    decreases |a|
  {
    if |a| > 0 && |b| > 0 && a[0] == b[0] {
      assert a == [a[0]] + a[1..] && b == [b[0]] + b[1..];
      LessTotal(a[1..], b[1..]);
    }
  }

  /** `!Less(b, a)` is a total preorder: it chains. */
  lemma NotLessChains(a: string, b: string, c: string)
    requires !Less(b, a) && !Less(c, b)
    ensures !Less(c, a)
  {
    if Less(c, a) {
      if a == b {
      } else if b == c {
      } else {
        LessTotal(a, b);
        LessTotal(b, c);
        LessTransitive(a, b, c);
        LessTransitive(c, a, b);
        LessIrreflexive(c);
      }
    }
  }

  /** Entries in ascending name order. */
  predicate SortedByName(s: seq<Entry>)
  {
    forall i, j :: 0 <= i < j < |s| ==> !Less(s[j].name, s[i].name)
  }

  function Insert(e: Entry, s: seq<Entry>): (r: seq<Entry>)
    requires SortedByName(s)
    ensures SortedByName(r)
    ensures multiset(r) == multiset(s) + multiset{e}
  {
    if |s| == 0 then [e]
    else if !Less(s[0].name, e.name) then
      InsertFront(e, s);
      [e] + s
    else
      var rest := Insert(e, s[1..]);
      InsertBehind(e, s, rest);
      assert s == [s[0]] + s[1..];
      [s[0]] + rest
  }

  lemma InsertFront(e: Entry, s: seq<Entry>)
    requires SortedByName(s) && |s| > 0 && !Less(s[0].name, e.name)
    ensures SortedByName([e] + s)
  {
    forall j | 0 < j < |s| + 1
      ensures !Less(([e] + s)[j].name, e.name)
    {
      if j > 1 {
        NotLessChains(e.name, s[0].name, s[j - 1].name);
      }
    }
  }

  lemma InsertBehind(e: Entry, s: seq<Entry>, rest: seq<Entry>)
    requires SortedByName(s) && |s| > 0 && Less(s[0].name, e.name)
    requires SortedByName(rest) && multiset(rest) == multiset(s[1..]) + multiset{e}
    ensures SortedByName([s[0]] + rest)
  {
    forall j | 0 <= j < |rest|
      ensures !Less(rest[j].name, s[0].name)
    {
      assert rest[j] in multiset(rest);
      if rest[j] == e {
        if Less(e.name, s[0].name) {
          LessTransitive(e.name, s[0].name, e.name);
          LessIrreflexive(e.name);
        }
      } else {
        assert rest[j] in multiset(s[1..]);
        var k :| 0 <= k < |s[1..]| && s[1..][k] == rest[j];
        assert s[k + 1] == rest[j];
      }
    }
  }

  /** sort.Slice by name: ascending order, and a permutation of the entries. */
  function SortByName(s: seq<Entry>): (r: seq<Entry>)
    ensures SortedByName(r)
    ensures multiset(r) == multiset(s)
  {
    if |s| == 0 then []
    else
      assert s == [s[0]] + s[1..];
      Insert(s[0], SortByName(s[1..]))
  }

  datatype Unit = B | KB | MB | GB | TB | PB | EB

  function Rank(u: Unit): nat
  {
    match u
    case B => 0
    case KB => 1
    case MB => 2
    case GB => 3
    case TB => 4
    case PB => 5
    case EB => 6
  }

  function UnitName(u: Unit): string
  {
    match u
    case B => "B"
    case KB => "KB"
    case MB => "MB"
    case GB => "GB"
    case TB => "TB"
    case PB => "PB"
    case EB => "EB"
  }

  function Pow1024(n: nat): (r: nat)
    ensures r >= 1
  {
    if n == 0 then 1 else 1024 * Pow1024(n - 1)
  }

  /** The quantity a unit name stands for. */
  function Magnitude(u: Unit): nat
  {
    Pow1024(Rank(u))
  }

  /**
   * The unit formatFileSize prints, as written: the last branch covers every
   * size from 1024^5 up and labels it EB.
   */
  function SizeUnit(size: int): (u: Unit)
    ensures u != PB
    ensures u == B <==> size < 1024
    ensures u == EB <==> size >= Pow1024(5)
    ensures u != EB ==> size < 1024 * Magnitude(u)
    ensures u != B ==> Magnitude(u) <= size || u == EB
  {
    if size < 1024 then B
    else if size < 1024 * 1024 then KB
    else if size < 1024 * 1024 * 1024 then MB
    else if size < 1024 * 1024 * 1024 * 1024 then GB
    else if size < 1024 * 1024 * 1024 * 1024 * 1024 then TB
    else EB
  }

  /** The number formatFileSize divides by, as written. */
  function Divisor(size: int): (d: nat)
    ensures size < 1024 ==> d == 1
    ensures size >= 1024 ==> 1024 <= d <= size
  {
    if size < 1024 then 1
    else if size < 1024 * 1024 then 1024
    else if size < 1024 * 1024 * 1024 then 1024 * 1024
    else if size < 1024 * 1024 * 1024 * 1024 then 1024 * 1024 * 1024
    else if size < 1024 * 1024 * 1024 * 1024 * 1024 then 1024 * 1024 * 1024 * 1024
    else 1024 * 1024 * 1024 * 1024 * 1024
  }

  /**
   * formatFileSize: a size under one KB in whole bytes, any other size as a
   * two-decimal quotient followed by its unit.
   */
  function FormatFileSize(size: int, twoDecimals: (int, int) -> string): (r: string)
    ensures EndsWith(r, UnitName(SizeUnit(size)))
    ensures size < 1024 ==> ParseInt(r[..|r| - 1]) == Some(size)
  {
    var u := SizeUnit(size);
    if u == B then
      IntTextRoundTrip(size);
      var r := IntText(size) + "B";
      assert r[..|r| - 1] == IntText(size);
      r
    else twoDecimals(size, Divisor(size)) + UnitName(u)
  }

  /** As written, sizes of at least 1024^5 bytes are divided by 1024^5 but labelled EB, 1024^6. */
  lemma PebibytesLabelledExbibytes()
    ensures var size := Pow1024(5);
      SizeUnit(size) == EB && Divisor(size) == size && Magnitude(SizeUnit(size)) == 1024 * size
  {
  }

  /** The unit with the PB step restored: the label always names the divisor. */
  function CorrectedSizeUnit(size: int): (u: Unit)
    ensures u == B <==> size < 1024
  {
    if size < 1024 then B
    else if size < 1024 * 1024 then KB
    else if size < 1024 * 1024 * 1024 then MB
    else if size < 1024 * 1024 * 1024 * 1024 then GB
    else if size < 1024 * 1024 * 1024 * 1024 * 1024 then TB
    else if size < 1024 * 1024 * 1024 * 1024 * 1024 * 1024 then PB
    else EB
  }

  /**
   * With the corrected unit every int64 size prints as a quotient in
   * [1, 1024) of the unit it is labelled with.
   */
  lemma CorrectedUnitFitsSize(size: int)
    requires 0 <= size < 0x8000_0000_0000_0000
    ensures var u := CorrectedSizeUnit(size);
      Magnitude(u) <= size || u == B
    ensures size < 1024 * Magnitude(CorrectedSizeUnit(size))
  {
  }

  /** formatFileSize with the corrected unit. */
  function CorrectedFormatFileSize(size: int, twoDecimals: (int, int) -> string): (r: string)
    ensures EndsWith(r, UnitName(CorrectedSizeUnit(size)))
    ensures size < 1024 ==> ParseInt(r[..|r| - 1]) == Some(size)
  {
    var u := CorrectedSizeUnit(size);
    if u == B then FormatFileSize(size, twoDecimals)
    else twoDecimals(size, Magnitude(u)) + UnitName(u)
  }

  /** The name shown for an entry: directories get a trailing slash. */
  function DisplayName(e: Entry): string
  {
    if e.isDir then e.name + "/" else e.name
  }

  /** One table row, before rendering; the size column uses the corrected unit. */
  datatype Row = Row(rowClass: string, href: string, text: string, time: string, size: string)

  function RowOf(i: nat, e: Entry, env: Env): Row
  {
    var name := DisplayName(e);
    Row(if i % 2 == 0 then "even" else "odd",
        env.escapePath(name),
        Escape(name),
        env.listingTime(e.modTime),
        CorrectedFormatFileSize(e.size, env.twoDecimals))
  }

  /**
   * The rows of the listing: one per entry in name order, classes
   * alternating from "even", the link text decoding to the entry's name
   * with a slash added for directories.
   */
  function ListingRows(entries: seq<Entry>, env: Env): (rows: seq<Row>)
    ensures |rows| == |entries|
    ensures forall i :: 0 <= i < |rows| ==>
      (rows[i].rowClass == "even" <==> i % 2 == 0) && (rows[i].rowClass == "odd" <==> i % 2 == 1)
    ensures forall i :: 0 <= i < |rows| ==>
      Unescape(rows[i].text) == DisplayName(SortByName(entries)[i])
    ensures forall i :: 0 <= i < |rows| ==>
      EndsWith(rows[i].size, UnitName(CorrectedSizeUnit(SortByName(entries)[i].size)))
  {
    var sorted := SortByName(entries);
    assert |sorted| == |multiset(sorted)| == |multiset(entries)| == |entries|;
    var rows := seq(|sorted|, i requires 0 <= i < |sorted| => RowOf(i, sorted[i], env));
    forall i | 0 <= i < |rows|
      ensures Unescape(rows[i].text) == DisplayName(sorted[i])
    {
      UnescapeEscape(DisplayName(sorted[i]));
    }
    rows
  }

  function RenderRow(r: Row): string
  {
    "<tr class=\"" + r.rowClass + "\"><td class=\"name_c\">"
    + "<a class=\"filenameclass\" href=\"" + r.href + "\">" + r.text + "</a>\n"
    + "</td><td class=\"time_c\">" + r.time + "</td><td class=\"size_c\">" + r.size + "</td></tr>"
  }

  function RenderRows(rows: seq<Row>): string
  {
    if |rows| == 0 then "" else RenderRow(rows[0]) + RenderRows(rows[1..])
  }

  const TableHead := "<table><tr><th class=\"name_c\">Name</th><th class=\"time_c\">Last modified</th><th class=\"size_c\">Size</th></tr>"
  const TableEnd := "</table>\n"
  const ListingError := "Error reading directory"
  const HtmlType := "text/html; charset=utf-8"

  /**
   * dirList given the outcome of reading the directory: a read failure and
   * a missing page fragment both give 500 "Error reading directory";
   * otherwise an HTML page of the fragment, the table head, one row per
   * entry and the table end.
   */
  function DirList(h: Header, listing: Option<seq<Entry>>, env: Env): (r: Response)
    ensures r.status == 200 <==> listing.Some? && env.indexPart.Some?
    ensures r.status != 200 ==> r.status == 500 && r.body == Text(ListingError + "\n")
    ensures r.status != 200 ==> HeaderGet(r.header, "Content-Type") == TextPlain
    ensures r.status == 200 ==> HeaderGet(r.header, "Content-Type") == HtmlType
    ensures r.status == 200 ==> r.body == Text(env.indexPart.value + TableHead
                                               + RenderRows(ListingRows(listing.value, env)) + TableEnd)
  {
    match listing
    case None => Error(h, ListingError, 500)
    case Some(entries) =>
      var h1 := h["Content-Type" := HtmlType];
      match env.indexPart
      case None => Error(h1 - {"Content-Type"}, ListingError, 500)
      case Some(part) =>
        Response(200, h1, Text(part + TableHead + RenderRows(ListingRows(entries, env)) + TableEnd))
  }
}
