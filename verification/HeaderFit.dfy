/** The writer copies the count, names and sizes without asking whether they fit the buffer. Here is
    exactly when they do: for any schedule, for constant buffers, and for the server's buffers. */
module HeaderFit {
  import opened Bytes
  import opened Lpxstd
  import opened Text
  import opened Archive
  import opened StreamMachine
  import opened StreamRuns

  function ArchiveLength(es: seq<Entry>): nat
  {
    4 + BodyLength(es, |es|)
  }

  lemma {:induction false} BodyFromLength(es: seq<Entry>, k: nat)
    requires k <= |es|
    ensures BodyLength(es, k) + |BodyFrom(Opened(es), k)| == BodyLength(es, |es|)
    decreases |es| - k
  {
    if k < |es| {
      BodyFromLength(es, k + 1);
    }
  }

  lemma RemainingLength(es: seq<Entry>, st: State)
    requires Reached(es, st)
    ensures Position(es, st) + |Remaining(Opened(es), st)| == ArchiveLength(es)
  {
    BodyFromLength(es, st.next);
  }

  /** A call moves the writer to the boundary, or to the end of the archive. */
  lemma CallReachesBoundary(es: seq<Entry>, st: State, max: nat)
    requires Reached(es, st) && ReadLoop(Opened(es), st, max).Wrote?
    ensures var st' := ReadLoop(Opened(es), st, max).st;
            Reached(es, st') && Position(es, st') == Min(Position(es, st) + max, ArchiveLength(es))
  {
    CallTracks(es, st, max, ReadLoop(Opened(es), st, max));
    RemainingLength(es, st);
    CallSplits(Opened(es), st, max);
  }

  /** No boundary of the schedule, which starts at offset `c`, cuts a header. */
  predicate NoCut(es: seq<Entry>, c: nat, maxes: seq<nat>)
    decreases |maxes|
  {
    maxes == [] || (!Splits(es, c + maxes[0]) && NoCut(es, c + maxes[0], maxes[1..]))
  }

  lemma TotalStep(maxes: seq<nat>, j: nat)
    requires 0 < j <= |maxes|
    ensures Total(maxes[..j]) == maxes[0] + Total(maxes[1..][..j - 1])
  {
    assert maxes[..j][1..] == maxes[1..][..j - 1];
  }

  lemma {:induction false} NoCutMeaning(es: seq<Entry>, c: nat, maxes: seq<nat>, j: nat)
    requires NoCut(es, c, maxes) && 0 < j <= |maxes|
    ensures !Splits(es, c + Total(maxes[..j]))
    decreases |maxes|
  {
    TotalStep(maxes, j);
    if j > 1 {
      NoCutMeaning(es, c + maxes[0], maxes[1..], j - 1);
      assert c + maxes[0] + Total(maxes[1..][..j - 1]) == c + Total(maxes[..j]);
    }
  }

  lemma {:induction false} SomeCut(es: seq<Entry>, c: nat, maxes: seq<nat>) returns (j: nat)
    requires !NoCut(es, c, maxes)
    ensures 0 < j <= |maxes| && Splits(es, c + Total(maxes[..j]))
    decreases |maxes|
  {
    if Splits(es, c + maxes[0]) {
      j := 1;
      TotalStep(maxes, j);
    } else {
      var i := SomeCut(es, c + maxes[0], maxes[1..]);
      j := i + 1;
      TotalStep(maxes, j);
      assert c + maxes[0] + Total(maxes[1..][..i]) == c + Total(maxes[..j]);
    }
  }

  lemma {:induction false} ScheduleFitsFrom(es: seq<Entry>, st: State, c: nat, maxes: seq<nat>)
    requires Reached(es, st) && Position(es, st) == Min(c, ArchiveLength(es))
    ensures Calls(Opened(es), st, maxes).Done? <==> NoCut(es, c, maxes)
    decreases |maxes|
  {
    if maxes != [] {
      var o := ReadLoop(Opened(es), st, maxes[0]);
      BoundaryStep(es, st, c, maxes[0]);
      CallsStep(Opened(es), st, maxes);
      if o.Wrote? {
        ScheduleFitsFrom(es, o.st, c + maxes[0], maxes[1..]);
      }
    }
  }

  lemma CallsStep(files: Files, st: State, maxes: seq<nat>)
    requires st.next <= |files| && maxes != []
    ensures var o := ReadLoop(files, st, maxes[0]);
            Calls(files, st, maxes).Done? <==> o.Wrote? && Calls(files, o.st, maxes[1..]).Done?
  {
  }

  lemma BoundaryStep(es: seq<Entry>, st: State, c: nat, max: nat)
    requires Reached(es, st) && Position(es, st) == Min(c, ArchiveLength(es))
    ensures var o := ReadLoop(Opened(es), st, max);
            if o.Overrun? then Splits(es, c + max)
            else !Splits(es, c + max) && Reached(es, o.st) && Position(es, o.st) == Min(c + max, ArchiveLength(es))
  {
    CallTracks(es, st, max, ReadLoop(Opened(es), st, max));
    if c > ArchiveLength(es) {
      NoSplitAtEnd(es, c + max);
      NoSplitAtEnd(es, ArchiveLength(es) + max);
    }
    if ReadLoop(Opened(es), st, max).Wrote? {
      CallReachesBoundary(es, st, max);
    }
  }

  /** Boundary `j` of the schedule cuts a header. */
  predicate CutAt(es: seq<Entry>, maxes: seq<nat>, j: nat)
    requires j <= |maxes|
  {
    Splits(es, Total(maxes[..j]))
  }

  lemma NoCutIsNoCutAt(es: seq<Entry>, maxes: seq<nat>)
    ensures NoCut(es, 0, maxes) <==> forall j :: 0 < j <= |maxes| ==> !CutAt(es, maxes, j)
  {
    if NoCut(es, 0, maxes) {
      forall j | 0 < j <= |maxes|
        ensures !CutAt(es, maxes, j)
      {
        NoCutMeaning(es, 0, maxes, j);
        assert 0 + Total(maxes[..j]) == Total(maxes[..j]);
      }
    } else {
      var j := SomeCut(es, 0, maxes);
      assert 0 + Total(maxes[..j]) == Total(maxes[..j]);
      assert CutAt(es, maxes, j);
    }
  }

  /** A download stays within its buffers exactly when no buffer boundary cuts a header. */
  lemma ScheduleFits(es: seq<Entry>, maxes: seq<nat>)
    ensures Calls(Opened(es), START, maxes).Done? <==> forall j :: 0 < j <= |maxes| ==> !CutAt(es, maxes, j)
  {
    ScheduleFitsFrom(es, START, 0, maxes);
    NoCutIsNoCutAt(es, maxes);
  }

  // ---------------------------------------------------------------- buffers of one size

  function Repeat(c: nat, r: nat): (maxes: seq<nat>)
  {
    seq(r, _ => c)
  }

  lemma {:induction false} TotalOfRepeat(c: nat, r: nat)
    ensures Total(Repeat(c, r)) == r * c
  {
    if r > 0 {
      TotalOfRepeat(c, r - 1);
      assert Repeat(c, r)[1..] == Repeat(c, r - 1);
    }
  }

  predicate ConstantFits(es: seq<Entry>, c: nat)
    requires c > 0
  {
    if es == [] then c >= 4
    else
      && c >= 4 + |es[0].name| + 9
      && forall k :: 1 <= k < |es| ==> c - HeaderStart(es, k) % c >= |es[k].name| + 9
  }

  /** The boundary that follows offset `p`. */
  lemma NextBoundary(p: nat, c: nat) returns (q: nat)
    requires c > 0
    ensures q > 0 && q * c == p + (c - p % c)
  {
    q := p / c + 1;
    assert p == c * (p / c) + p % c;
    assert q * c == c * (p / c) + c;
  }

  /** No boundary comes before it. */
  lemma BoundaryAfter(p: nat, c: nat, j: nat)
    requires c > 0 && j * c > p
    ensures j * c >= p + (c - p % c)
  {
    var q := NextBoundary(p, c);
    MulMonotone(if j < q then j else q, if j < q then q - 1 else j, c);
  }

  lemma FittingAvoidsMultiples(es: seq<Entry>, c: nat, j: nat)
    requires c > 0 && ConstantFits(es, c)
    ensures !Splits(es, j * c)
  {
    var b := j * c;
    if b > 0 {
      BoundaryAfter(0, c, j);
      forall k | 0 <= k < |es|
        ensures !(HeaderStart(es, k) < b < HeaderEnd(es, k))
      {
        if HeaderStart(es, k) < b {
          BoundaryAfter(HeaderStart(es, k), c, j);
        }
      }
    }
  }

  lemma UnfitHasMultiple(es: seq<Entry>, c: nat) returns (j: nat)
    requires c > 0 && !ConstantFits(es, c)
    ensures j > 0 && Splits(es, j * c)
  {
    if es == [] || c < HeaderEnd(es, 0) {
      j := 1;
      assert es != [] ==> HeaderStart(es, 0) < j * c < HeaderEnd(es, 0);
    } else {
      var k :| 1 <= k < |es| && c - HeaderStart(es, k) % c < |es[k].name| + 9;
      j := NextBoundary(HeaderStart(es, k), c);
      assert HeaderStart(es, k) < j * c < HeaderEnd(es, k);
    }
  }

  /** Downloads in buffers of size `c`, of any length, stay within them exactly under an arithmetic
      condition on where the headers start. */
  lemma ConstantScheduleFits(es: seq<Entry>, c: nat)
    requires c > 0
    ensures (forall r: nat :: Calls(Opened(es), START, Repeat(c, r)).Done?) <==> ConstantFits(es, c)
  {
    if ConstantFits(es, c) {
      forall r: nat
        ensures Calls(Opened(es), START, Repeat(c, r)).Done?
      {
        ScheduleFits(es, Repeat(c, r));
        forall j | 0 < j <= r
          ensures !CutAt(es, Repeat(c, r), j)
        {
          CutOfRepeat(es, c, r, j);
          FittingAvoidsMultiples(es, c, j);
        }
      }
    } else {
      var j := UnfitHasMultiple(es, c);
      ScheduleFits(es, Repeat(c, j));
      CutOfRepeat(es, c, j, j);
      assert CutAt(es, Repeat(c, j), j);
      assert !Calls(Opened(es), START, Repeat(c, j)).Done?;
    }
  }

  lemma CutOfRepeat(es: seq<Entry>, c: nat, r: nat, j: nat)
    requires j <= r
    ensures CutAt(es, Repeat(c, r), j) <==> Splits(es, j * c)
  {
    assert Repeat(c, r)[..j] == Repeat(c, j);
    TotalOfRepeat(c, j);
  }

  // ---------------------------------------------------------------- the server's buffers

  /** The block size the server asks its HTTP library for. */
  const SERVER_BLOCK: nat := 10240

  /** A 1280 by 800 frame as a BMP file. */
  const IMAGE_SIZE: nat := 1025078

  /** The frames of a recording from the first on, under their numbers. */
  predicate WholeRecording(es: seq<Entry>)
  {
    && |es| < TWO32
    && forall k :: 0 <= k < |es| ==> es[k].name == FrameName(k) && |es[k].bmp| == IMAGE_SIZE
  }

  function NameWidth(k: nat): nat
  {
    if k < 10 then 1 else if k < 100 then 2 else 3
  }

  lemma ShortFrameName(k: nat)
    requires k < TWO63 && |Digits(k)| <= 3
    ensures FrameName(k) == Digits(k)
  {
    FitsInt64(k);
  }

  lemma FrameNameWidth(k: nat)
    requires k < 1000
    ensures |FrameName(k)| == NameWidth(k)
  {
    assert Pow10(1) == 10 && Pow10(2) == 100 && Pow10(3) == 1000;
    DigitsLength(k, 3);
    ShortFrameName(k);
    DigitsLength(k, 2);
    DigitsLength(k, 1);
  }

  /** Where frame `k` of a recording starts in the archive. */
  function StartOffset(k: nat): nat
  {
    4 + k * (IMAGE_SIZE + 9) +
    (if k < 10 then k else if k < 100 then 10 + 2 * (k - 10) else 190 + 3 * (k - 100))
  }

  lemma {:induction false} StartOffsets(es: seq<Entry>, k: nat)
    requires WholeRecording(es) && k <= |es| && k < 1000
    ensures 4 + BodyLength(es, k) == StartOffset(k)
  {
    if k > 0 {
      StartOffsets(es, k - 1);
      FrameNameWidth(k - 1);
      assert |EncodeEntry(es[k - 1])| == NameWidth(k - 1) + 9 + IMAGE_SIZE;
    }
  }

  predicate BlockHolds(k: nat)
  {
    SERVER_BLOCK - StartOffset(k) % SERVER_BLOCK >= NameWidth(k) + 9
  }

  lemma OnlyMultiples(d: int, e: int)
    requires 109 * d == 1024 * e
    ensures d == 1024 * (357 * e - 38 * d)
  {
  }

  /** Three-digit names: the header is cut when `109 k == 1024 q + 1034` for some block `q`, and 498 is
      the only such number below 1024. */
  lemma ThreeDigitResidue(k: nat, q: nat, r: nat)
    requires 100 <= k < 498 && StartOffset(k) - SERVER_BLOCK * (100 * k) == SERVER_BLOCK * q + r && r < SERVER_BLOCK
    ensures r <= SERVER_BLOCK - 12
  {
    if r > SERVER_BLOCK - 12 {
      assert 109 * k == 1024 * q + 1034;
      OnlyMultiples(498 - k, 52 - q);
    }
  }

  lemma TwoDigitResidue(k: nat, q: nat, r: nat)
    requires 10 <= k < 100 && StartOffset(k) - SERVER_BLOCK * (100 * k) == SERVER_BLOCK * q + r && r < SERVER_BLOCK
    ensures r <= SERVER_BLOCK - 11
  {
    assert 1089 * k - 6 == SERVER_BLOCK * q + r;
    assert q <= 10;
    if q <= 5 {
      assert q == 0 || q == 1 || q == 2 || q == 3 || q == 4 || q == 5;
    } else {
      assert q == 6 || q == 7 || q == 8 || q == 9 || q == 10;
    }
  }

  /** How far into its block frame `k` starts. */
  lemma OffsetInBlock(k: nat) returns (q: nat, r: nat)
    ensures StartOffset(k) - SERVER_BLOCK * (100 * k) == SERVER_BLOCK * q + r
    ensures StartOffset(k) % SERVER_BLOCK == r < SERVER_BLOCK
  {
    var x := StartOffset(k) - SERVER_BLOCK * (100 * k);
    q, r := x / SERVER_BLOCK, x % SERVER_BLOCK;
    DivModUnique(StartOffset(k), SERVER_BLOCK, 100 * k + q, r);
  }

  lemma EarlyBlocksHold(k: nat)
    requires k < 498
    ensures BlockHolds(k)
  {
    var q, r := OffsetInBlock(k);
    if k >= 100 {
      ThreeDigitResidue(k, q, r);
    } else if k >= 10 {
      TwoDigitResidue(k, q, r);
    }
  }

  lemma Block498Fails()
    ensures !BlockHolds(498)
  {
    DivModUnique(StartOffset(498), SERVER_BLOCK, 49852, 10234);
  }

  /** The server's blocks hold every header of a whole recording exactly up to 498 frames. */
  lemma ServerBlocksFit(es: seq<Entry>)
    requires WholeRecording(es)
    ensures (forall r: nat :: Calls(Opened(es), START, Repeat(SERVER_BLOCK, r)).Done?) <==> |es| <= 498
  {
    ConstantScheduleFits(es, SERVER_BLOCK);
    forall k | 1 <= k < |es| && k < 1000
      ensures SERVER_BLOCK - HeaderStart(es, k) % SERVER_BLOCK >= |es[k].name| + 9 <==> BlockHolds(k)
    {
      StartOffsets(es, k);
      FrameNameWidth(k);
    }
    if es != [] {
      FrameNameWidth(0);
    }
    if |es| <= 498 {
      forall k | 1 <= k < |es|
        ensures SERVER_BLOCK - HeaderStart(es, k) % SERVER_BLOCK >= |es[k].name| + 9
      {
        EarlyBlocksHold(k);
      }
    } else {
      Block498Fails();
    }
  }
}
