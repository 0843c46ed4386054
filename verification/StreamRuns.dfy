/** Whole downloads: any schedule of buffer sizes gives the same archive, and exactly which schedules
    keep every header inside one buffer. */
module StreamRuns {
  import opened Bytes
  import opened Lpxstd
  import opened Text
  import opened Archive
  import opened StreamMachine

  /** Every file of the list can be opened. */
  function Opened(es: seq<Entry>): (files: Files)
    ensures |files| == |es|
  {
    seq(|es|, i requires 0 <= i < |es| => Some(es[i]))
  }

  function Total(maxes: seq<nat>): nat
  {
    if maxes == [] then 0 else maxes[0] + Total(maxes[1..])
  }

  lemma {:induction false} BodyFromIsBody(es: seq<Entry>, i: nat)
    requires i <= |es|
    ensures BodyFrom(Opened(es), i) == Body(es[i..])
    decreases |es| - i
  {
    if i < |es| {
      BodyFromIsBody(es, i + 1);
      assert es[i..][1..] == es[i + 1..];
    }
  }

  lemma StartRemains(es: seq<Entry>)
    ensures Remaining(Opened(es), START) == Encode(es)
  {
    BodyFromIsBody(es, 0);
    assert es[0..] == es;
    assert Unread(START) + Body(es) == Body(es);
  }

  /** What call `j` reports when `n` bytes are to be sent in all. */
  function Expected(n: nat, maxes: seq<nat>, j: nat): int
    requires j < |maxes|
  {
    var sent := Total(maxes[..j]);
    if sent >= n then EOF else Min(maxes[j], n - sent)
  }

  lemma ExpectedLater(n: nat, maxes: seq<nat>, j: nat)
    requires 0 < j < |maxes|
    ensures Expected(n, maxes, j) == Expected(n - Min(maxes[0], n), maxes[1..], j - 1)
  {
    assert maxes[..j][1..] == maxes[1..][..j - 1];
  }

  lemma CallsUnfold(files: Files, st: State, maxes: seq<nat>)
    requires st.next <= |files| && maxes != [] && Calls(files, st, maxes).Done?
    ensures var r, o := Calls(files, st, maxes), ReadLoop(files, st, maxes[0]);
            && o.Wrote?
            && Calls(files, o.st, maxes[1..]).Done?
            && var r' := Calls(files, o.st, maxes[1..]);
               Flatten(r.chunks) == o.out + Flatten(r'.chunks) && r.st == r'.st && r.results == [Result(o)] + r'.results
  {
    var r, r' := Calls(files, st, maxes), Calls(files, ReadLoop(files, st, maxes[0]).st, maxes[1..]);
    assert r.chunks[1..] == r'.chunks;
  }

  /** What a call writes and what it leaves make up what there was. */
  lemma CallSplits(files: Files, st: State, max: nat)
    requires WellFormed(files, st) && !Breaks(files, st.next) && ReadLoop(files, st, max).Wrote?
    ensures var o, rem := ReadLoop(files, st, max), Remaining(files, st);
            && WellFormed(files, o.st) && !Breaks(files, o.st.next)
            && rem == o.out + Remaining(files, o.st)
            && |o.out| == Min(max, |rem|)
            && (max > 0 ==> Result(o) == if rem == [] then EOF else Min(max, |rem|))
  {
    CallMeaning(files, st, max);
    var rem := Remaining(files, st);
    var n := Min(max, |rem|);
    assert rem == rem[..n] + rem[n..];
  }

  /** The invariant of a download: what was received and what remains make up the same bytes. */
  lemma {:induction false} CallsOutput(files: Files, st: State, maxes: seq<nat>)
    requires WellFormed(files, st) && !Breaks(files, st.next)
    requires Calls(files, st, maxes).Done?
    ensures var r, rem := Calls(files, st, maxes), Remaining(files, st);
            && WellFormed(files, r.st)
            && Flatten(r.chunks) + Remaining(files, r.st) == rem
            && |Flatten(r.chunks)| == Min(Total(maxes), |rem|)
    decreases |maxes|
  {
    if maxes != [] {
      var o := ReadLoop(files, st, maxes[0]);
      CallsUnfold(files, st, maxes);
      CallSplits(files, st, maxes[0]);
      CallsOutput(files, o.st, maxes[1..]);
      var r' := Calls(files, o.st, maxes[1..]);
      ConcatAssociates(o.out, Flatten(r'.chunks), Remaining(files, r'.st));
    }
  }

  lemma {:induction false} CallsResults(files: Files, st: State, maxes: seq<nat>, j: nat)
    requires WellFormed(files, st) && !Breaks(files, st.next)
    requires forall i :: 0 <= i < |maxes| ==> maxes[i] > 0
    requires Calls(files, st, maxes).Done? && j < |maxes|
    ensures Calls(files, st, maxes).results[j] == Expected(|Remaining(files, st)|, maxes, j)
    decreases |maxes|
  {
    CallsUnfold(files, st, maxes);
    CallSplits(files, st, maxes[0]);
    if j > 0 {
      CallsResults(files, ReadLoop(files, st, maxes[0]).st, maxes[1..], j - 1);
      ExpectedLater(|Remaining(files, st)|, maxes, j);
    }
  }

  /** However the caller slices its reads, it receives the archive, cut at what it asked for; every
      call but the last fills its buffer, and after the archive there is only EOF. */
  lemma ChunkIndependence(es: seq<Entry>, maxes: seq<nat>)
    requires forall j :: 0 <= j < |maxes| ==> maxes[j] > 0
    requires Calls(Opened(es), START, maxes).Done?
    ensures var r, archive := Calls(Opened(es), START, maxes), Encode(es);
            && Flatten(r.chunks) + Remaining(Opened(es), r.st) == archive
            && Flatten(r.chunks) == archive[..Min(Total(maxes), |archive|)]
            && (forall j :: 0 <= j < |maxes| ==> r.results[j] == Expected(|archive|, maxes, j))
            && (Total(maxes) >= |archive| ==> Flatten(r.chunks) == archive)
  {
    StartRemains(es);
    CallsOutput(Opened(es), START, maxes);
    var r := Calls(Opened(es), START, maxes);
    var received := Flatten(r.chunks);
    assert received == (received + Remaining(Opened(es), r.st))[..|received|];
    forall j | 0 <= j < |maxes|
      ensures r.results[j] == Expected(|Encode(es)|, maxes, j)
    {
      CallsResults(Opened(es), START, maxes, j);
    }
  }

  /** A client that reads to the end and parses the format has the files. */
  lemma DownloadRoundTrip(es: seq<Entry>, maxes: seq<nat>)
    requires Encodable(es)
    requires forall j :: 0 <= j < |maxes| ==> maxes[j] > 0
    requires Calls(Opened(es), START, maxes).Done?
    requires exists j :: 0 <= j < |maxes| && Calls(Opened(es), START, maxes).results[j] == EOF
    ensures Parse(Flatten(Calls(Opened(es), START, maxes).chunks)) == Some(es)
  {
    ChunkIndependence(es, maxes);
    var j :| 0 <= j < |maxes| && Calls(Opened(es), START, maxes).results[j] == EOF;
    TotalPrefix(maxes, j);
    ArchiveRoundTrip(es);
  }

  /** A download of files of which one cannot be opened: it never reports the end before it reported the
      failure, and it reports the failure once more bytes were asked for than come before that file. */
  lemma {:induction false} BrokenDownload(files: Files, st: State, maxes: seq<nat>)
    requires WellFormed(files, st) && Breaks(files, st.next) && Calls(files, st, maxes).Done?
    requires forall j :: 0 <= j < |maxes| ==> maxes[j] > 0
    ensures NoEndBeforeFailure(Calls(files, st, maxes).results)
    ensures Total(maxes) > |Remaining(files, st)| ==> STRM_IO in Calls(files, st, maxes).results
    decreases |maxes|
  {
    if maxes != [] {
      var o := ReadLoop(files, st, maxes[0]);
      CallsUnfold(files, st, maxes);
      CallMeaning(files, st, maxes[0]);
      if o.code == Ok {
        BrokenDownload(files, o.st, maxes[1..]);
        EndLater(Result(o), Calls(files, o.st, maxes[1..]).results);
      } else {
        FailureFirst(Calls(files, st, maxes).results);
      }
    }
  }

  /** Each report of the end comes after a report of a failure. */
  predicate NoEndBeforeFailure(results: seq<int>)
  {
    forall j :: 0 <= j < |results| && results[j] == EOF ==> STRM_IO in results[..j]
  }

  lemma FailureFirst(results: seq<int>)
    requires results != [] && results[0] == STRM_IO
    ensures NoEndBeforeFailure(results) && STRM_IO in results
  {
    forall j | 0 <= j < |results| && results[j] == EOF
      ensures STRM_IO in results[..j]
    {
      assert results[..j][0] == STRM_IO;
    }
  }

  lemma EndLater(first: int, rest: seq<int>)
    requires first != EOF && NoEndBeforeFailure(rest)
    ensures NoEndBeforeFailure([first] + rest)
  {
    var all := [first] + rest;
    forall j | 0 <= j < |all| && all[j] == EOF
      ensures STRM_IO in all[..j]
    {
      assert all[..j] == [first] + rest[..j - 1];
      assert rest[j - 1] == EOF;
    }
  }

  lemma {:induction false} TotalPrefix(maxes: seq<nat>, j: nat)
    requires j <= |maxes|
    ensures Total(maxes[..j]) <= Total(maxes)
  {
    if j > 0 {
      TotalPrefix(maxes[1..], j - 1);
      assert maxes[..j][1..] == maxes[1..][..j - 1];
    }
  }

  // ---------------------------------------------------------------- headers inside one buffer

  /** Bytes of the first `k` frames. */
  function BodyLength(es: seq<Entry>, k: nat): nat
    requires k <= |es|
  {
    if k == 0 then 0 else BodyLength(es, k - 1) + |EncodeEntry(es[k - 1])|
  }

  /** The count travels together with the first header. */
  function HeaderStart(es: seq<Entry>, k: nat): nat
    requires k < |es|
  {
    if k == 0 then 0 else 4 + BodyLength(es, k)
  }

  function HeaderEnd(es: seq<Entry>, k: nat): nat
    requires k < |es|
  {
    4 + BodyLength(es, k) + |EntryHeader(es[k])|
  }

  /** A buffer boundary at offset `c` of the archive falls inside a header. */
  predicate Splits(es: seq<Entry>, c: nat)
  {
    if es == [] then 0 < c < 4
    else exists k :: 0 <= k < |es| && HeaderStart(es, k) < c < HeaderEnd(es, k)
  }

  lemma {:induction false} BodyLengthGrows(es: seq<Entry>, i: nat, k: nat)
    requires i <= k <= |es|
    ensures BodyLength(es, i) <= BodyLength(es, k)
    decreases k - i
  {
    if i < k {
      BodyLengthGrows(es, i, k - 1);
    }
  }

  /** The states a download goes through, and where in the archive they are. */
  predicate Reached(es: seq<Entry>, st: State)
  {
    && st.next <= |es|
    && (!st.headerRead ==> st.next == 0)
    && (st.headerRead && st.next == 0 ==> es == [])
    && (st.cur.Some? ==> st.next > 0 && |st.cur.value| <= |es[st.next - 1].bmp|)
  }

  function Position(es: seq<Entry>, st: State): nat
    requires Reached(es, st)
  {
    if !st.headerRead then 0
    else if st.cur.Some? then
      assert BodyLength(es, st.next) == BodyLength(es, st.next - 1) + |EncodeEntry(es[st.next - 1])|;
      4 + BodyLength(es, st.next) - |st.cur.value|
    else 4 + BodyLength(es, st.next)
  }

  lemma PositionIsNoSplit(es: seq<Entry>, st: State)
    requires Reached(es, st)
    ensures !Splits(es, Position(es, st))
  {
    if es != [] {
      forall k | 0 <= k < |es|
        ensures !(HeaderStart(es, k) < Position(es, st) < HeaderEnd(es, k))
      {
        if k >= st.next {
          BodyLengthGrows(es, st.next, k);
        } else {
          BodyLengthGrows(es, k, st.next - 1);
          if k < st.next - 1 {
            BodyLengthGrows(es, k + 1, st.next - 1);
          }
        }
      }
    }
  }

  lemma HeaderWithinBody(es: seq<Entry>, k: nat)
    requires k < |es|
    ensures HeaderEnd(es, k) <= 4 + BodyLength(es, |es|)
  {
    BodyLengthGrows(es, k + 1, |es|);
  }

  lemma NoSplitAtEnd(es: seq<Entry>, c: nat)
    requires c >= 4 + BodyLength(es, |es|)
    ensures !Splits(es, c)
  {
    forall k | 0 <= k < |es|
      ensures c >= HeaderEnd(es, k)
    {
      HeaderWithinBody(es, k);
    }
  }

  /** One part: it overruns exactly when the boundary cuts the header it has to write; otherwise it
      moves on and leaves the boundary where it was. */
  lemma PartAgainstBoundary(es: seq<Entry>, st: State, size: nat)
    requires Reached(es, st) && size > 0
    ensures var o, c := ReadPart(Opened(es), st, size), Position(es, st) + size;
            && (o.Overrun? ==> Splits(es, c))
            && (o.Wrote? ==> o.code != Io && Reached(es, o.st) && Position(es, o.st) == Position(es, st) + |o.out|)
            && (o.Wrote? && o.code == Eof ==> !Splits(es, c))
  {
    var o, c := ReadPart(Opened(es), st, size), Position(es, st) + size;
    if st.cur.None? && st.next < |es| {
      var k := st.next;
      assert HeaderStart(es, k) == Position(es, st);
      if o.Overrun? {
        assert HeaderStart(es, k) < c < HeaderEnd(es, k);
      }
    } else if st.cur.None? && o.Wrote? {
      NoSplitAtEnd(es, c);
    }
  }

  /** Where a piece of a download leaves the writer, given where it was and the next boundary `c`. */
  predicate Tracks(es: seq<Entry>, st: State, c: nat, o: Outcome)
    requires Reached(es, st)
  {
    match o
    case Overrun => Splits(es, c)
    case Wrote(out, code, st') =>
      && !Splits(es, c)
      && code != Io
      && Reached(es, st')
      && Position(es, st') == Position(es, st) + |out|
  }

  /** A call, from its first part `p` and the rest of its loop. */
  lemma TracksStep(es: seq<Entry>, st: State, max: nat, p: Outcome, rest: Outcome, o: Outcome)
    requires Reached(es, st) && max > 0 && p == ReadPart(Opened(es), st, max)
    requires o == if p.Wrote? && p.code == Ok then After(p.out, rest) else p
    requires p.Wrote? && p.code == Ok && Reached(es, p.st) ==> Tracks(es, p.st, Position(es, st) + max, rest)
    ensures Tracks(es, st, Position(es, st) + max, o)
  {
    PartAgainstBoundary(es, st, max);
    if p.Wrote? && p.code == Ok {
      TracksAfter(es, st, Position(es, st) + max, p, rest);
    }
  }

  /** One call overruns exactly when its end cuts a header. */
  lemma {:induction false} CallTracks(es: seq<Entry>, st: State, max: nat, o: Outcome)
    requires Reached(es, st) && o == ReadLoop(Opened(es), st, max)
    ensures Tracks(es, st, Position(es, st) + max, o)
    decreases max, if st.cur.Some? then 1 else 0
  {
    if max == 0 {
      PositionIsNoSplit(es, st);
    } else {
      var p := ReadPart(Opened(es), st, max);
      var rest := o;
      PartAgainstBoundary(es, st, max);
      LoopUnfold(Opened(es), st, max);
      if p.Wrote? && p.code == Ok {
        rest := ReadLoop(Opened(es), p.st, max - |p.out|);
        CallTracks(es, p.st, max - |p.out|, rest);
      }
      TracksStep(es, st, max, p, rest, o);
    }
  }

  lemma TracksAfter(es: seq<Entry>, st: State, c: nat, p: Outcome, o: Outcome)
    requires Reached(es, st) && p.Wrote? && Reached(es, p.st)
    requires Position(es, p.st) == Position(es, st) + |p.out| && Tracks(es, p.st, c, o)
    ensures Tracks(es, st, c, After(p.out, o))
  {
  }
}
