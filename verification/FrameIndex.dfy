/** The frame index of a recording: its text form, and the lookups by time. */
module FrameIndex {
  import opened Bytes
  import opened Lpxstd
  import opened Text

  /** When a frame was asked for and when it arrived, in microseconds. */
  datatype FrameMeta = FrameMeta(start: int, end: int)

  predicate Fits(m: FrameMeta)
  {
    IsInt64(m.start) && IsInt64(m.end)
  }

  predicate AllFit(ms: seq<FrameMeta>)
  {
    forall i :: 0 <= i < |ms| ==> Fits(ms[i])
  }

  // ---------------------------------------------------------------- index.csv

  const LINE_BUFFER: nat := 256

  function PrintLine(m: FrameMeta): (s: seq<Byte>)
    ensures s != []
  {
    PrintInt(m.start) + [COMMA] + PrintInt(m.end) + [NEWLINE]
  }

  function PrintIndex(ms: seq<FrameMeta>): seq<Byte>
  {
    if ms == [] then [] else PrintLine(ms[0]) + PrintIndex(ms[1..])
  }

  /** How many bytes `fgets` takes: up to the newline, at most `limit`. */
  function LineLength(text: seq<Byte>, limit: nat): (k: nat)
    ensures k <= |text| && k <= limit
    ensures text != [] && limit > 0 ==> k > 0
  {
    if text == [] || limit == 0 then 0
    else if text[0] == NEWLINE then 1
    else 1 + LineLength(text[1..], limit - 1)
  }

  /** `sscanf` with two signed longs and a comma; the newline of the format matches any white space. */
  function ScanLine(buf: seq<Byte>): (r: Option<FrameMeta>)
    ensures r.Some? ==> Fits(r.value)
  {
    match ScanInt(buf)
    case NoMatch => None
    case Match(start, rest) =>
      if rest == [] || rest[0] != COMMA then None
      else
        match ScanInt(rest[1..])
        case NoMatch => None
        case Match(end, _) => Some(FrameMeta(start, end))
  }

  /** None when some line does not scan. */
  function ParseIndex(text: seq<Byte>): (r: Option<seq<FrameMeta>>)
    ensures r.Some? ==> AllFit(r.value)
  {
    if text == [] then Some([])
    else
      var k := LineLength(text, LINE_BUFFER - 1);
      match ScanLine(text[..k])
      case None => None
      case Some(m) => Prepend([m], ParseIndex(text[k..]))
  }

  function Prepend<T>(xs: seq<T>, r: Option<seq<T>>): Option<seq<T>>
  {
    match r
    case None => None
    case Some(ys) => Some(xs + ys)
  }

  /** Every printed line, with its terminator, fits the line buffer. */
  lemma PrintLineFits(m: FrameMeta)
    requires Fits(m)
    ensures |PrintLine(m)| + 1 <= LINE_BUFFER
  {
    PrintIntLength(m.start);
    PrintIntLength(m.end);
  }

  /** A line ends with the first newline, at the limit, or with the text. */
  lemma {:induction false} LineEnds(text: seq<Byte>, limit: nat)
    ensures var k := LineLength(text, limit);
            && (forall i :: 0 <= i < k - 1 ==> text[i] != 10)
            && (k == limit || k == |text| || (k > 0 && text[k - 1] == 10))
  {
    if text != [] && limit > 0 && text[0] != NEWLINE {
      LineEnds(text[1..], limit - 1);
      assert forall i :: 0 < i < |text| ==> text[i] == text[1..][i - 1];
    }
  }

  lemma {:induction false} LineLengthStops(body: seq<Byte>, t: seq<Byte>, limit: nat)
    requires forall i :: 0 <= i < |body| ==> body[i] != NEWLINE
    requires |body| < limit
    ensures LineLength(body + [NEWLINE] + t, limit) == |body| + 1
  {
    var s := body + [NEWLINE] + t;
    if body != [] {
      assert s[1..] == body[1..] + [NEWLINE] + t;
      LineLengthStops(body[1..], t, limit - 1);
    }
  }

  /** Two numbers of any size with a comma between them are read as the nearest 64-bit numbers, whatever
      stands behind them. */
  lemma ScanLineReads(start: int, end: int, rest: seq<Byte>)
    requires rest == [] || !IsDigit(rest[0])
    ensures ScanLine(PrintInt(start) + [44] + PrintInt(end) + rest) == Some(FrameMeta(Clamp64(start), Clamp64(end)))
  {
    var afterStart := [COMMA] + PrintInt(end) + rest;
    ScanIntReads(start, afterStart);
    assert PrintInt(start) + [44] + PrintInt(end) + rest == PrintInt(start) + afterStart;
    ScanIntReads(end, rest);
    assert afterStart[1..] == PrintInt(end) + rest;
  }

  /** Reading back what was written gives the same records in the same order. */
  lemma {:induction false} IndexRoundTrip(ms: seq<FrameMeta>)
    requires AllFit(ms)
    ensures ParseIndex(PrintIndex(ms)) == Some(ms)
  {
    if ms != [] {
      var m, rest := ms[0], PrintIndex(ms[1..]);
      var body := PrintInt(m.start) + [COMMA] + PrintInt(m.end);
      PrintLineFits(m);
      LineLengthStops(body, rest, LINE_BUFFER - 1);
      assert PrintIndex(ms) == body + [NEWLINE] + rest;
      assert (body + [NEWLINE] + rest)[..|body| + 1] == PrintLine(m);
      assert (body + [NEWLINE] + rest)[|body| + 1..] == rest;
      ScanLineReads(m.start, m.end, [NEWLINE]);
      IndexRoundTrip(ms[1..]);
      assert [m] + ms[1..] == ms;
    }
  }

  lemma {:induction false} PrintIndexAppend(ms: seq<FrameMeta>, m: FrameMeta)
    ensures PrintIndex(ms + [m]) == PrintIndex(ms) + PrintLine(m)
  {
    if ms != [] {
      PrintIndexAppend(ms[1..], m);
      assert (ms + [m])[1..] == ms[1..] + [m];
    } else {
      assert [m][1..] == [];
    }
  }

  /** The text of the record (10, 20): "10,20" and a newline. */
  lemma LineBytes()
    ensures PrintLine(FrameMeta(10, 20)) == [49, 48, 44, 50, 48, 10]
  {
    assert Digits(10) == Digits(1) + [48] && Digits(20) == Digits(2) + [48];
  }

  /** Nothing but a comma may separate the two numbers. */
  lemma OtherSeparator(x: int, rest: seq<Byte>)
    requires rest == [] || (!IsDigit(rest[0]) && rest[0] != 44)
    ensures ScanLine(PrintInt(x) + rest) == None
  {
    ScanIntReads(x, rest);
  }
}
