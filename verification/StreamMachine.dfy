/** The resumable archive writer as a state machine over the files it serves. A file that cannot be
    loaded is None; a copy past the end of the caller's buffer is the outcome Overrun. */
module StreamMachine {
  import opened Bytes
  import opened Lpxstd
  import opened Archive

  type Files = seq<Option<Entry>>

  /** `cur` holds the unread bytes of the open file. */
  datatype State = State(headerRead: bool, next: nat, cur: Option<seq<Byte>>)

  const START: State := State(false, 0, None)

  datatype Code = Ok | Eof | Io

  datatype Outcome = Overrun | Wrote(out: seq<Byte>, code: Code, st: State)

  /** Puts bytes already written in front of what follows. */
  function After(out: seq<Byte>, o: Outcome): Outcome
  {
    match o
    case Overrun => Overrun
    case Wrote(out', code, st) => Wrote(out + out', code, st)
  }

  lemma AfterAfter(a: seq<Byte>, b: seq<Byte>, o: Outcome)
    ensures After(a, After(b, o)) == After(a + b, o)
  {
    if o.Wrote? {
      ConcatAssociates(a, b, o.out);
    }
  }

  lemma AfterNothing(o: Outcome)
    ensures After([], o) == o
  {
    if o.Wrote? {
      assert [] + o.out == o.out;
    }
  }

  // ---------------------------------------------------------------- one part, one call, one run

  /** Copies as much of the open file as fits and closes it unless the buffer was filled. */
  function CopyCurrent(st: State, size: nat): (o: Outcome)
    requires st.cur.Some?
  {
    var cur := st.cur.value;
    var n := if size < |cur| then size else |cur|;
    Wrote(cur[..n], Ok, st.(cur := if n < size then None else Some(cur[n..])))
  }

  function OpenNext(files: Files, st: State, size: nat): (o: Outcome)
    requires st.next <= |files| && st.cur.None?
  {
    if st.next == |files| then Wrote([], Eof, st)
    else
      var st' := st.(next := st.next + 1);
      match files[st.next]
      case None => Wrote([], Io, st')
      case Some(e) =>
        var h := EntryHeader(e);
        if |h| > size then Overrun
        else After(h, CopyCurrent(st'.(cur := Some(e.bmp)), size - |h|))
  }

  function ReadBody(files: Files, st: State, size: nat): (o: Outcome)
    requires st.next <= |files|
  {
    if st.cur.None? then OpenNext(files, st, size) else CopyCurrent(st, size)
  }

  function Count(files: Files, st: State): seq<Byte>
  {
    if st.headerRead then [] else LittleEndian(|files|, 4)
  }

  function ReadPart(files: Files, st: State, size: nat): (o: Outcome)
    requires st.next <= |files|
    ensures o.Wrote? ==> |o.out| <= size && o.st.next <= |files|
    ensures o.Wrote? && o.code == Ok && o.out == [] && size > 0 ==> st.cur.Some? && o.st.cur.None?
  {
    var count := Count(files, st);
    if |count| > size then Overrun
    else After(count, ReadBody(files, st.(headerRead := true), size - |count|))
  }

  /** The loop of one call. A round may write nothing: it then closes an exhausted file, so the
      measure is lexicographic. */
  function ReadLoop(files: Files, st: State, available: nat): (o: Outcome)
    requires st.next <= |files|
    ensures o.Wrote? ==> |o.out| <= available && o.st.next <= |files|
    decreases available, if st.cur.Some? then 1 else 0
  {
    if available == 0 then Wrote([], Ok, st)
    else
      var o := ReadPart(files, st, available);
      if o.Wrote? && o.code == Ok then After(o.out, ReadLoop(files, o.st, available - |o.out|))
      else o
  }

  lemma LoopUnfold(files: Files, st: State, available: nat)
    requires st.next <= |files| && available > 0
    ensures var o := ReadPart(files, st, available);
            ReadLoop(files, st, available) ==
            if o.Wrote? && o.code == Ok then After(o.out, ReadLoop(files, o.st, available - |o.out|)) else o
  {
  }

  /** A call that comes to `whole` has written `sent` and is in state `st` with `available` bytes to fill:
      the loop, step by step. */
  predicate Continues(files: Files, st: State, available: nat, sent: seq<Byte>, whole: Outcome)
    requires st.next <= |files|
    decreases available, if st.cur.Some? then 1 else 0
  {
    if available == 0 then whole == Wrote(sent, Ok, st)
    else
      var o := ReadPart(files, st, available);
      o.Wrote? &&
      if o.code == Ok then Continues(files, o.st, available - |o.out|, sent + o.out, whole)
      else whole == Wrote(sent + o.out, o.code, o.st)
  }

  /** The steps come to what the loop as a whole gives. */
  lemma {:induction false} LoopContinues(files: Files, st: State, available: nat, sent: seq<Byte>, whole: Outcome)
    requires st.next <= |files| && whole.Wrote? && whole == After(sent, ReadLoop(files, st, available))
    ensures Continues(files, st, available, sent, whole)
    decreases available, if st.cur.Some? then 1 else 0
  {
    if available == 0 {
      assert sent + [] == sent;
    } else {
      var o := ReadPart(files, st, available);
      LoopUnfold(files, st, available);
      if o.code == Ok {
        AfterAfter(sent, o.out, ReadLoop(files, o.st, available - |o.out|));
        LoopContinues(files, o.st, available - |o.out|, sent + o.out, whole);
      }
    }
  }

  lemma RoundStep(files: Files, st: State, available: nat, sent: seq<Byte>, whole: Outcome)
    requires st.next <= |files| && available > 0 && Continues(files, st, available, sent, whole)
    ensures var o := ReadPart(files, st, available);
            && o.Wrote? && |o.out| <= available
            && (o.code == Ok ==> Continues(files, o.st, available - |o.out|, sent + o.out, whole))
            && (o.code == Ok && o.out == [] ==> st.cur.Some? && o.st.cur.None?)
            && (o.code != Ok ==> whole == Wrote(sent + o.out, o.code, o.st))
  {
  }

  /** The state once the next file is open. */
  function Loaded(st: State, e: Entry): State
  {
    State(st.headerRead, st.next + 1, Some(e.bmp))
  }

  lemma LoadedBody(files: Files, st: State, size: nat)
    requires st.next < |files| && st.cur.None? && files[st.next].Some? && ReadBody(files, st, size).Wrote?
    ensures var e := files[st.next].value;
            && |EntryHeader(e)| <= size
            && ReadBody(files, st, size) == After(EntryHeader(e), CopyCurrent(Loaded(st, e), size - |EntryHeader(e)|))
  {
  }

  /** The next file is missing, or there is none. */
  lemma UnloadedBody(files: Files, st: State, size: nat)
    requires st.next <= |files| && st.cur.None? && (st.next < |files| ==> files[st.next].None?)
    ensures ReadBody(files, st, size) ==
            if st.next == |files| then Wrote([], Eof, st) else Wrote([], Io, st.(next := st.next + 1))
  {
  }

  /** The step without output: a file that just filled the buffer stays open, and the next part, of any
      size but zero, only closes it. */
  lemma ZeroStep(files: Files, st: State, size: nat)
    requires st.next <= |files| && st.headerRead && st.cur.Some? && |st.cur.value| > 0 && size > 0
    ensures ReadPart(files, st, |st.cur.value|) == Wrote(st.cur.value, Ok, st.(cur := Some([])))
    ensures ReadPart(files, st.(cur := Some([])), size) == Wrote([], Ok, st.(cur := None))
  {
    CountedBody(files, st, |st.cur.value|);
    CountedBody(files, st.(cur := Some([])), size);
    assert st.cur.value[..|st.cur.value|] == st.cur.value && st.cur.value[|st.cur.value|..] == [];
  }

  lemma CountedBody(files: Files, st: State, size: nat)
    requires st.next <= |files| && st.headerRead
    ensures ReadPart(files, st, size) == ReadBody(files, st, size)
  {
    AfterNothing(ReadBody(files, st, size));
  }

  lemma UncountedBody(files: Files, st: State, size: nat)
    requires st.next <= |files| && !st.headerRead && ReadPart(files, st, size).Wrote?
    ensures size >= 4
    ensures ReadPart(files, st, size) ==
            After(LittleEndian(|files|, 4), ReadBody(files, st.(headerRead := true), size - 4))
  {
  }

  const EOF: int := -1
  const STRM_IO: int := -2

  /** What the caller is told: a count, the end of the archive, or a failure. */
  function Result(o: Outcome): int
    requires o.Wrote?
  {
    match o.code
    case Ok => |o.out|
    case Eof => if o.out == [] then EOF else |o.out|
    case Io => STRM_IO
  }

  datatype Run = RunOverrun | Done(chunks: seq<seq<Byte>>, results: seq<int>, st: State)

  /** One call for each buffer size of the schedule. */
  function Calls(files: Files, st: State, maxes: seq<nat>): (r: Run)
    requires st.next <= |files|
    ensures r.Done? ==> |r.chunks| == |r.results| == |maxes| && r.st.next <= |files|
    decreases |maxes|
  {
    if maxes == [] then Done([], [], st)
    else
      var o := ReadLoop(files, st, maxes[0]);
      if o.Overrun? then RunOverrun
      else
        match Calls(files, o.st, maxes[1..])
        case RunOverrun => RunOverrun
        case Done(chunks, results, st') => Done([o.out] + chunks, [Result(o)] + results, st')
  }

  function Flatten(chunks: seq<seq<Byte>>): seq<Byte>
  {
    if chunks == [] then [] else chunks[0] + Flatten(chunks[1..])
  }

  // ---------------------------------------------------------------- what remains to be sent

  /** The files from `i` on, up to the first that cannot be loaded. */
  function BodyFrom(files: Files, i: nat): seq<Byte>
    requires i <= |files|
    decreases |files| - i
  {
    if i == |files| || files[i].None? then [] else EncodeEntry(files[i].value) + BodyFrom(files, i + 1)
  }

  predicate Breaks(files: Files, i: nat)
    requires i <= |files|
  {
    exists k :: i <= k < |files| && files[k].None?
  }

  function Unread(st: State): seq<Byte>
  {
    if st.cur.Some? then st.cur.value else []
  }

  function Remaining(files: Files, st: State): seq<Byte>
    requires st.next <= |files|
  {
    Count(files, st) + (Unread(st) + BodyFrom(files, st.next))
  }

  /** Nothing is open before the count was sent. */
  predicate WellFormed(files: Files, st: State)
  {
    st.next <= |files| && (!st.headerRead ==> st.cur.None?)
  }

  /** One part moves bytes from the front of what remains to the output. */
  predicate Moves(files: Files, st: State, o: Outcome)
    requires st.next <= |files| && o.Wrote? && o.st.next <= |files|
  {
    && (o.code == Ok ==> Remaining(files, st) == o.out + Remaining(files, o.st))
    && (o.code == Ok ==> (Breaks(files, st.next) <==> Breaks(files, o.st.next)))
    && (o.code != Ok ==> Remaining(files, st) == o.out)
    && (o.code == Eof ==> Remaining(files, o.st) == [] && o.st.next == st.next == |files|)
    && (o.code == Io ==> Breaks(files, st.next))
  }

  lemma CopyCurrentMoves(files: Files, st: State, size: nat)
    requires st.next <= |files| && st.headerRead && st.cur.Some?
    ensures Moves(files, st, CopyCurrent(st, size))
  {
    var o, cur := CopyCurrent(st, size), st.cur.value;
    assert cur == o.out + Unread(o.st);
  }

  lemma LoadedRemains(files: Files, st: State)
    requires st.next < |files| && st.headerRead && st.cur.None? && files[st.next].Some?
    ensures var e := files[st.next].value;
            Remaining(files, st) == EntryHeader(e) + Remaining(files, State(true, st.next + 1, Some(e.bmp)))
  {
    var e := files[st.next].value;
    ConcatAssociates(EntryHeader(e), e.bmp, BodyFrom(files, st.next + 1));
  }

  lemma OpenNextMoves(files: Files, st: State, size: nat)
    requires st.next <= |files| && st.headerRead && st.cur.None? && OpenNext(files, st, size).Wrote?
    ensures Moves(files, st, OpenNext(files, st, size))
  {
    if st.next < |files| && files[st.next].Some? {
      var e := files[st.next].value;
      var loaded := State(true, st.next + 1, Some(e.bmp));
      LoadedRemains(files, st);
      CopyCurrentMoves(files, loaded, size - |EntryHeader(e)|);
      MovesAfter(files, st, EntryHeader(e), loaded, CopyCurrent(loaded, size - |EntryHeader(e)|));
    }
  }

  /** The step of the invariant: output so far plus what remains stays the same archive. */
  lemma ReadPartMoves(files: Files, st: State, size: nat)
    requires WellFormed(files, st) && ReadPart(files, st, size).Wrote?
    ensures var o := ReadPart(files, st, size);
            o.st.headerRead && WellFormed(files, o.st) && Moves(files, st, o)
  {
    var counted := st.(headerRead := true);
    var left := size - |Count(files, st)|;
    assert Remaining(files, st) == Count(files, st) + Remaining(files, counted);
    if st.cur.None? {
      OpenNextMoves(files, counted, left);
      MovesAfter(files, st, Count(files, st), counted, OpenNext(files, counted, left));
    } else {
      CopyCurrentMoves(files, counted, left);
      MovesAfter(files, st, Count(files, st), counted, CopyCurrent(counted, left));
    }
  }

  lemma MovesAfter(files: Files, st: State, out: seq<Byte>, mid: State, o: Outcome)
    requires st.next <= |files| && mid.next <= |files| && o.Wrote? && o.st.next <= |files|
    requires st.next == mid.next || (o.code == Ok && (Breaks(files, st.next) <==> Breaks(files, mid.next)))
    requires Remaining(files, st) == out + Remaining(files, mid) && Moves(files, mid, o)
    ensures Moves(files, st, After(out, o))
  {
    assert After(out, o) == Wrote(out + o.out, o.code, o.st);
    if o.code == Ok {
      ConcatAssociates(out, o.out, Remaining(files, o.st));
    }
  }

  lemma ConcatAssociates(a: seq<Byte>, b: seq<Byte>, c: seq<Byte>)
    ensures a + (b + c) == (a + b) + c
  {
  }

  /** Only the count is left to send: the part that sends it also meets what follows it. */
  predicate CountOnly(files: Files, st: State)
    requires st.next <= |files|
  {
    !st.headerRead && BodyFrom(files, st.next) == []
  }

  /** Whether a call ends because its buffer is full. */
  predicate FillsBuffer(files: Files, st: State, max: nat)
    requires st.next <= |files|
  {
    var n := |Remaining(files, st)|;
    max < n || (max == n && !CountOnly(files, st))
  }

  /** The whole effect of a call that stays within its buffer: it writes what remains, cut at `max`,
      and reports the end or the failure when the bytes ran out first. */
  predicate Serves(files: Files, st: State, max: nat, o: Outcome)
    requires st.next <= |files| && o.Wrote? && o.st.next <= |files|
  {
    var rem := Remaining(files, st);
    && o.out == rem[..Min(max, |rem|)]
    && (o.code == Ok <==> FillsBuffer(files, st, max))
    && (o.code == Io ==> Breaks(files, st.next))
    && (o.code == Eof ==> !Breaks(files, st.next) && o.st.next == |files|)
    && (o.code != Io ==> Remaining(files, o.st) == rem[Min(max, |rem|)..])
    && (o.code == Ok ==> (Breaks(files, st.next) <==> Breaks(files, o.st.next)))
  }

  lemma {:induction false} CallMeaning(files: Files, st: State, max: nat)
    requires WellFormed(files, st) && ReadLoop(files, st, max).Wrote?
    ensures WellFormed(files, ReadLoop(files, st, max).st)
    ensures Serves(files, st, max, ReadLoop(files, st, max))
    decreases max, if st.cur.Some? then 1 else 0
  {
    if max > 0 {
      var p := ReadPart(files, st, max);
      ReadPartMoves(files, st, max);
      if p.code == Ok {
        OkIsNotCountOnly(files, st, max);
        CallMeaning(files, p.st, max - |p.out|);
        ServesAfter(files, st, max, p, ReadLoop(files, p.st, max - |p.out|));
      } else {
        ServesAtEnd(files, st, max, p);
      }
    }
  }

  lemma OkIsNotCountOnly(files: Files, st: State, size: nat)
    requires WellFormed(files, st) && ReadPart(files, st, size).Wrote? && ReadPart(files, st, size).code == Ok
    ensures !CountOnly(files, st)
  {
  }

  lemma ServesAfter(files: Files, st: State, max: nat, p: Outcome, o: Outcome)
    requires st.next <= |files| && p.Wrote? && p.code == Ok && p.st.next <= |files| && |p.out| <= max
    requires Moves(files, st, p) && p.st.headerRead && !CountOnly(files, st)
    requires o.Wrote? && o.st.next <= |files| && Serves(files, p.st, max - |p.out|, o)
    ensures Serves(files, st, max, After(p.out, o))
  {
    var rem, rem' := Remaining(files, st), Remaining(files, p.st);
    CutAfter(p.out, rem', Min(max - |p.out|, |rem'|));
    assert Min(max, |rem|) == |p.out| + Min(max - |p.out|, |rem'|);
  }

  lemma CutAfter(a: seq<Byte>, b: seq<Byte>, n: nat)
    requires n <= |b|
    ensures (a + b)[..|a| + n] == a + b[..n] && (a + b)[|a| + n..] == b[n..]
  {
  }

  lemma ServesAtEnd(files: Files, st: State, max: nat, p: Outcome)
    requires WellFormed(files, st) && max > 0 && p == ReadPart(files, st, max) && p.Wrote? && p.code != Ok
    requires Moves(files, st, p)
    ensures Serves(files, st, max, p)
  {
    assert st.cur.None? && p.out == Count(files, st);
    assert p.out == p.out[..|p.out|];
  }

  function Min(a: nat, b: nat): nat
  {
    if a < b then a else b
  }
}
