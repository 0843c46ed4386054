/** Finding the frame for a moment: the local scan of `stream_find_frame` and its global meaning. */
module FrameLookup {
  import opened Lpxstd
  import opened FrameIndex

  // ---------------------------------------------------------------- the scan, in 64-bit arithmetic

  function Labs(x: int): nat
  {
    if x < 0 then -x else x
  }

  /** The start offset of frame `i` is signed, the requested offset unsigned: their difference is
      taken modulo 2^64 and read back as a signed long. */
  function Distance(index: seq<FrameMeta>, i: nat, timeOffset: nat): nat
    requires i < |index|
  {
    Labs(ToInt64(index[i].start - index[0].start - timeOffset))
  }

  /** The first position from `i` on after which the distance grows, else the last position. */
  function FirstIncrease(index: seq<FrameMeta>, timeOffset: nat, i: nat): (r: nat)
    requires i < |index|
    ensures i <= r < |index|
    ensures forall j :: i <= j < r ==> Distance(index, j + 1, timeOffset) <= Distance(index, j, timeOffset)
    ensures r + 1 < |index| ==> Distance(index, r + 1, timeOffset) > Distance(index, r, timeOffset)
    decreases |index| - i
  {
    if i == |index| - 1 || Distance(index, i + 1, timeOffset) > Distance(index, i, timeOffset) then i
    else FirstIncrease(index, timeOffset, i + 1)
  }

  function Last(index: seq<FrameMeta>): FrameMeta
    requires index != []
  {
    index[|index| - 1]
  }

  function FindFrame(index: seq<FrameMeta>, timeOffset: nat): (r: int)
    requires index != []
    ensures -1 <= r < |index|
  {
    var i := FirstIncrease(index, timeOffset, 0);
    if i < |index| - 1 || ToUint64(index[0].start + timeOffset) < ToUint64(Last(index).end) then i else -1
  }

  method StreamFindFrame(index: array<FrameMeta>, timeOffset: nat) returns (r: int)
    requires index.Length > 0
    ensures r == FindFrame(index[..], timeOffset)
  {
    var base := index[0].start;
    for i := 0 to index.Length - 1
      invariant FirstIncrease(index[..], timeOffset, 0) == FirstIncrease(index[..], timeOffset, i)
    {
      var frameOffset := index[i].start - base;
      var nextFrameOffset := index[i + 1].start - base;
      var nextDistance := Labs(ToInt64(nextFrameOffset - timeOffset));
      var distance := Labs(ToInt64(frameOffset - timeOffset));
      assert nextDistance == Distance(index[..], i + 1, timeOffset) && distance == Distance(index[..], i, timeOffset);
      if nextDistance > distance {
        return i;
      }
    }
    if ToUint64(base + timeOffset) < ToUint64(index[index.Length - 1].end) {
      return index.Length - 1;
    }
    return -1;
  }

  // ---------------------------------------------------------------- what the scan finds

  /** The order the recorder establishes. */
  predicate Ordered(index: seq<FrameMeta>)
  {
    && index != []
    && (forall i, j :: 0 <= i <= j < |index| ==> 0 <= index[i].start <= index[j].start)
    && Last(index).start <= Last(index).end < TWO63
  }

  /** The true distance of frame `i` from the signed offset `x`. */
  function Gap(index: seq<FrameMeta>, i: nat, x: int): nat
    requires i < |index|
  {
    Labs(index[i].start - index[0].start - x)
  }

  predicate LastNearest(index: seq<FrameMeta>, x: int, r: int)
  {
    && 0 <= r < |index|
    && (forall j :: 0 <= j < |index| ==> Gap(index, j, x) >= Gap(index, r, x))
    && (forall j :: r < j < |index| ==> Gap(index, j, x) > Gap(index, r, x))
  }

  /** The requests whose differences fit 64 signed bits: all non-negative ones, and negative ones down
      to the length of the recording. */
  predicate InRange(index: seq<FrameMeta>, x: int)
    requires index != []
  {
    -TWO63 + (Last(index).start - index[0].start) < x < TWO63
  }

  lemma GapIsDistance(index: seq<FrameMeta>, i: nat, x: int)
    requires Ordered(index) && i < |index| && InRange(index, x)
    ensures Distance(index, i, ToUint64(x)) == Gap(index, i, x)
  {
    var d := index[i].start - index[0].start - x;
    assert -TWO63 < d < TWO63;
    SameModulo(x, index[i].start - index[0].start);
  }

  lemma SameModulo(x: int, a: int)
    requires -TWO63 < a - x < TWO63
    ensures ToInt64(a - ToUint64(x)) == a - x
  {
    var q := x / TWO64;
    assert ToUint64(x) == x - TWO64 * q;
    assert (a - x + TWO64 * q) % TWO64 == (a - x) % TWO64;
  }

  /** The scan stops at a local criterion, yet its position is the last one nearest to the request. */
  lemma ScanIsGloballyNearest(index: seq<FrameMeta>, x: int)
    requires Ordered(index) && InRange(index, x)
    ensures LastNearest(index, x, FirstIncrease(index, ToUint64(x), 0))
  {
    var r := FirstIncrease(index, ToUint64(x), 0);
    forall i | 0 <= i < |index|
      ensures Distance(index, i, ToUint64(x)) == Gap(index, i, x)
    {
      GapIsDistance(index, i, x);
    }
    forall j | 0 <= j < |index|
      ensures j <= r ==> Gap(index, j, x) >= Gap(index, r, x)
      ensures j > r ==> Gap(index, j, x) > Gap(index, r, x)
    {
      if j <= r {
        DownTo(index, x, j, r);
      } else {
        assert Gap(index, r + 1, x) > Gap(index, r, x);
        assert index[j].start >= index[r + 1].start >= index[r].start;
      }
    }
  }

  lemma {:induction false} DownTo(index: seq<FrameMeta>, x: int, j: nat, r: nat)
    requires j <= r < |index|
    requires forall k :: j <= k < r ==> Gap(index, k + 1, x) <= Gap(index, k, x)
    ensures Gap(index, j, x) >= Gap(index, r, x)
    decreases r - j
  {
    if j < r {
      DownTo(index, x, j + 1, r);
    }
  }

  /** Every frame that does not start first starts so much later that its distance from `x`, taken
      modulo 2^64, is not above that of the first. */
  predicate Wraps(index: seq<FrameMeta>, x: int)
    requires index != []
  {
    forall i :: 0 <= i < |index| ==> index[i].start == index[0].start || index[i].start - index[0].start >= TWO64 + 2 * x
  }

  /** Which signed offsets the lookup misses. */
  predicate Misses(index: seq<FrameMeta>, x: int)
    requires index != []
  {
    || index[0].start + x >= Last(index).end
    || (index[0].start + x < 0 && Wraps(index, x))
  }

  /** The offsets the server accepts, where no difference is the one number without an absolute value. */
  predicate Accepted(index: seq<FrameMeta>, x: int)
    requires index != []
  {
    && -TWO63 < x < TWO63
    && forall i :: 0 <= i < |index| ==> index[i].start - index[0].start - x != TWO63
  }

  /** The lookup fails exactly on the missed offsets and otherwise finds the last nearest frame. */
  lemma FindFrameMeaning(index: seq<FrameMeta>, x: int)
    requires Ordered(index) && Accepted(index, x)
    ensures FindFrame(index, ToUint64(x)) == -1 <==> Misses(index, x)
    ensures !Misses(index, x) ==> LastNearest(index, x, FindFrame(index, ToUint64(x)))
  {
    FindFrameResult(index, x);
    var r := FirstIncrease(index, ToUint64(x), 0);
    if x < 0 {
      NegativeStops(index, x, r);
    } else {
      ScanIsGloballyNearest(index, x);
      if index[0].start + x >= Last(index).end {
        LateIsLast(index, x, r);
      }
    }
  }

  /** The scan's position counts unless it is the last one and the recording was over, or the request
      wrapped around below zero. */
  lemma FindFrameResult(index: seq<FrameMeta>, x: int)
    requires Ordered(index) && -TWO63 < x < TWO63
    ensures var r := FirstIncrease(index, ToUint64(x), 0);
            FindFrame(index, ToUint64(x)) ==
            if r < |index| - 1 || 0 <= index[0].start + x < Last(index).end then r else -1
  {
    BasePlus(index[0].start, x);
    FitsUint64(Last(index).end);
  }

  /** Before the recording the distances are the true ones up to 2^63 and shrink again from there on. */
  lemma NegativeDistance(index: seq<FrameMeta>, x: int, i: nat)
    requires Ordered(index) && -TWO63 < x < 0 && i < |index|
    ensures var d := index[i].start - index[0].start - x;
            0 < d < TWO64 && Distance(index, i, ToUint64(x)) == if d < TWO63 then d else TWO64 - d
  {
    UnsignedNegative(x);
    WrapUp(index[i].start - index[0].start - x);
  }

  lemma UnsignedNegative(x: int)
    requires -TWO63 < x < 0
    ensures ToUint64(x) == x + TWO64
  {
  }

  lemma WrapUp(d: int)
    requires 0 <= d < TWO64
    ensures ToInt64(d - TWO64) == if d < TWO63 then d else d - TWO64
  {
  }

  /** How the distance of frame `i` compares with that of the frames that start first. */
  predicate NearStart(index: seq<FrameMeta>, x: int, i: nat)
    requires i < |index|
  {
    var a, d := index[i].start - index[0].start, Distance(index, i, ToUint64(x));
    && (a == 0 ==> d == -x)
    && (0 < a < TWO64 + 2 * x ==> d > -x)
    && (a >= TWO64 + 2 * x ==> d == TWO64 - a + x)
  }

  lemma {:induction false} DistanceFalls(index: seq<FrameMeta>, timeOffset: nat, r: nat)
    requires r < |index|
    requires forall j :: 0 <= j < r ==> Distance(index, j + 1, timeOffset) <= Distance(index, j, timeOffset)
    ensures Distance(index, r, timeOffset) <= Distance(index, 0, timeOffset)
  {
    if r > 0 {
      DistanceFalls(index, timeOffset, r - 1);
    }
  }

  lemma NearStartHolds(index: seq<FrameMeta>, x: int, i: nat)
    requires Ordered(index) && -TWO63 < x < 0 && i < |index|
    ensures NearStart(index, x, i)
  {
    NegativeDistance(index, x, i);
  }

  lemma WrapsRunsThrough(index: seq<FrameMeta>, x: int, r: nat)
    requires Ordered(index) && -TWO63 < x < 0 && Wraps(index, x) && r == FirstIncrease(index, ToUint64(x), 0)
    ensures r == |index| - 1
  {
    if r < |index| - 1 {
      NearStartHolds(index, x, r);
      NearStartHolds(index, x, r + 1);
    }
  }

  lemma StopsAtStart(index: seq<FrameMeta>, x: int, r: nat)
    requires Ordered(index) && -TWO63 < x < 0 && !Wraps(index, x) && r == FirstIncrease(index, ToUint64(x), 0)
    ensures r < |index| - 1 && index[r].start == index[0].start < index[r + 1].start
  {
    var i :| 0 <= i < |index| && 0 < index[i].start - index[0].start < TWO64 + 2 * x;
    NearStartHolds(index, x, 0);
    NearStartHolds(index, x, i);
    if i <= r {
      DistanceFalls(index, ToUint64(x), i);
      assert false;
    }
    NearStartHolds(index, x, r);
    NearStartHolds(index, x, r + 1);
    DistanceFalls(index, ToUint64(x), r);
    assert index[r].start <= index[i].start;
  }

  /** For an offset before the recording the scan stops at the last of the frames that start first, or
      runs through when all others wrap around. */
  lemma NegativeStops(index: seq<FrameMeta>, x: int, r: nat)
    requires Ordered(index) && -TWO63 < x < 0 && r == FirstIncrease(index, ToUint64(x), 0)
    ensures Wraps(index, x) <==> r == |index| - 1
    ensures !Wraps(index, x) || index[0].start + x >= 0 ==> LastNearest(index, x, r)
  {
    if Wraps(index, x) {
      WrapsRunsThrough(index, x, r);
    } else {
      StopsAtStart(index, x, r);
      assert forall j :: r < j < |index| ==> index[j].start >= index[r + 1].start;
    }
  }

  /** After the last frame has begun, the last frame is nearest. */
  lemma LateIsLast(index: seq<FrameMeta>, x: int, r: int)
    requires Ordered(index) && LastNearest(index, x, r) && index[0].start + x >= Last(index).start
    ensures r == |index| - 1
  {
    assert Gap(index, |index| - 1, x) <= Gap(index, r, x);
  }

  lemma BasePlus(base: int, x: int)
    requires 0 <= base < TWO63 && -TWO63 < x < TWO63
    ensures base + x >= 0 ==> ToUint64(base + ToUint64(x)) == base + x
    ensures base + x < 0 ==> ToUint64(base + ToUint64(x)) == base + x + TWO64
  {
    var q := x / TWO64;
    assert ToUint64(x) == x - TWO64 * q;
    assert (base + x - TWO64 * q) % TWO64 == (base + x) % TWO64;
  }

  /** For the offsets a client means, counted from the start of the recording. */
  lemma FindFrameAfterStart(index: seq<FrameMeta>, t: nat)
    requires Ordered(index) && t < TWO63
    ensures FindFrame(index, t) == -1 <==> index[0].start + t >= Last(index).end
    ensures index[0].start + t < Last(index).end ==> LastNearest(index, t, FindFrame(index, t))
  {
    FitsUint64(t);
    FindFrameMeaning(index, t);
  }

  /** Later requests are served by later frames, and a request after a missed one is missed. */
  lemma FindFrameMonotone(index: seq<FrameMeta>, t1: nat, t2: nat)
    requires Ordered(index) && t1 <= t2 < TWO63
    ensures FindFrame(index, t1) == -1 ==> FindFrame(index, t2) == -1
    ensures FindFrame(index, t2) != -1 ==> FindFrame(index, t1) <= FindFrame(index, t2)
  {
    FindFrameAfterStart(index, t1);
    FindFrameAfterStart(index, t2);
    var r1, r2 := FindFrame(index, t1), FindFrame(index, t2);
    if r2 != -1 && r1 > r2 {
      GapsNeverCross(index, r2, r1, t1, t2);
    }
  }

  /** Of two frames, the later one gains on the earlier as the request moves on. */
  lemma GapsNeverCross(index: seq<FrameMeta>, i: nat, j: nat, x1: int, x2: int)
    requires i < |index| && j < |index| && index[i].start <= index[j].start && x1 <= x2
    requires Gap(index, i, x1) >= Gap(index, j, x1)
    ensures Gap(index, i, x2) >= Gap(index, j, x2)
  {
  }

  // ---------------------------------------------------------------- with a clock that was set back

  /** The starts rise up to frame `p`, beyond the first one, and the next frame starts earlier again. */
  predicate GoesBackAfter(index: seq<FrameMeta>, p: nat)
  {
    && p + 1 < |index|
    && (forall i :: 0 <= i < |index| ==> 0 <= index[i].start < TWO63)
    && (forall i, j :: 0 <= i <= j <= p ==> index[i].start <= index[j].start)
    && index[0].start < index[p].start
    && index[p + 1].start < index[p].start
  }

  /** The last frame up to `p` that starts no later than `m`. */
  function LastUpTo(index: seq<FrameMeta>, p: nat, m: int): (q: nat)
    requires p < |index| && index[0].start <= m
    ensures q <= p && index[q].start <= m
    ensures forall j :: q < j <= p ==> index[j].start > m
  {
    if index[p].start <= m then p else LastUpTo(index, p - 1, m)
  }

  /** For moments on the clock the distances of the scan are the true ones. */
  lemma ScanInGaps(index: seq<FrameMeta>, x: int)
    requires index != [] && forall i :: 0 <= i < |index| ==> 0 <= index[i].start < TWO63
    requires 0 <= index[0].start + x < TWO63
    ensures var r := FirstIncrease(index, ToUint64(x), 0);
            && (forall j :: 0 <= j < r ==> Gap(index, j + 1, x) <= Gap(index, j, x))
            && (r + 1 < |index| ==> Gap(index, r + 1, x) > Gap(index, r, x))
  {
    forall i | 0 <= i < |index|
      ensures Distance(index, i, ToUint64(x)) == Gap(index, i, x)
    {
      SameModulo(x, index[i].start - index[0].start);
    }
  }

  /** The scan does not get from a nearer frame to one farther away. */
  lemma StopsBefore(index: seq<FrameMeta>, x: int, q: nat, p: nat)
    requires q <= p < |index| && Gap(index, q, x) < Gap(index, p, x)
    requires forall i :: 0 <= i < |index| ==> 0 <= index[i].start < TWO63
    requires 0 <= index[0].start + x < TWO63
    ensures FirstIncrease(index, ToUint64(x), 0) < p
  {
    ScanInGaps(index, x);
    if FirstIncrease(index, ToUint64(x), 0) >= p {
      DownTo(index, x, q, p);
    }
  }

  /** At this moment the scan settles for a frame although the one after the step is nearer. */
  predicate HiddenAt(index: seq<FrameMeta>, p: nat, time: nat)
    requires p + 1 < |index|
  {
    var x := time - index[0].start;
    Gap(index, p + 1, x) < Gap(index, FirstIncrease(index, ToUint64(x), 0), x)
  }

  /** The frame after the step starts before all, or between two starts that leave room: for a moment
      that is nearer to it than to the start below it, and nearer to that one than to frame `p`. */
  predicate StepHides(index: seq<FrameMeta>, p: nat)
    requires GoesBackAfter(index, p)
  {
    var m := index[p + 1].start;
    if m < index[0].start then true
    else
      var q := LastUpTo(index, p, m);
      var d := m - index[q].start;
      d != 0 && (index[q + 1].start < index[p].start || 3 - d % 2 <= index[p].start - m)
  }

  /** A clock that was set back makes some lookups go wrong exactly when the step leaves that room; a step
      of three microseconds to a moment at which no frame started does. */
  lemma ClockStepMisleads(index: seq<FrameMeta>, p: nat)
    requires GoesBackAfter(index, p)
    ensures StepHides(index, p) <==> exists time: nat :: time < TWO63 && HiddenAt(index, p, time)
    ensures index[p + 1].start + 3 <= index[p].start && (forall i :: 0 <= i <= p ==> index[i].start != index[p + 1].start) ==>
              StepHides(index, p)
  {
    if StepHides(index, p) {
      var time := HiddenMoment(index, p);
    } else if time: nat :| time < TWO63 && HiddenAt(index, p, time) {
      HiddenMeansRoom(index, p, time);
      assert false;
    }
  }

  /** Room for a whole number nearer to `m` than to `a`, and nearer to `a` than to `b`. */
  lemma RoomBetween(a: int, m: int, b: int) returns (time: int)
    requires a < m < b && 3 - (m - a) % 2 <= b - m
    ensures a < time <= m && m - time < time - a < b - time
  {
    time := m - (m - a - 1) / 2;
  }

  lemma OnlyRoomBetween(a: int, m: int, b: int, time: int)
    requires a < m < b && Labs(m - time) < Labs(a - time) < Labs(b - time)
    ensures 3 - (m - a) % 2 <= b - m
  {
  }

  /** A moment nearer to the frame after the step than to all before it, and nearer to one of these than
      to frame `p`. */
  lemma HiddenFromScan(index: seq<FrameMeta>, p: nat, near: nat, time: int)
    requires GoesBackAfter(index, p) && near <= p && 0 <= time < TWO63
    requires Labs(index[near].start - time) < Labs(index[p].start - time)
    requires forall i :: 0 <= i <= p ==> Labs(index[p + 1].start - time) < Labs(index[i].start - time)
    ensures HiddenAt(index, p, time)
  {
    StopsBefore(index, time - index[0].start, near, p);
  }

  /** The starts up to `p` are at most that of `q` or at least that of the frame after it. */
  lemma AroundStep(index: seq<FrameMeta>, p: nat, q: nat, time: int)
    requires GoesBackAfter(index, p) && q < p
    requires var a, m, b := index[q].start, index[p + 1].start, index[q + 1].start;
             a < m < b && a < time <= m && m - time < time - a
    ensures forall i :: 0 <= i <= p ==> Labs(index[p + 1].start - time) < Labs(index[i].start - time)
  {
    forall i | 0 <= i <= p
      ensures index[i].start <= index[q].start || index[i].start >= index[q + 1].start
    {
    }
  }

  lemma HiddenMoment(index: seq<FrameMeta>, p: nat) returns (time: nat)
    requires GoesBackAfter(index, p) && StepHides(index, p)
    ensures time < TWO63 && HiddenAt(index, p, time)
  {
    var m := index[p + 1].start;
    if m < index[0].start {
      time := m;
      HiddenFromScan(index, p, 0, time);
    } else {
      var q := LastUpTo(index, p, m);
      if index[q + 1].start < index[p].start {
        time := m;
        AroundStep(index, p, q, time);
        HiddenFromScan(index, p, q + 1, time);
      } else {
        time := RoomBetween(index[q].start, m, index[p].start);
        AroundStep(index, p, q, time);
        HiddenFromScan(index, p, q, time);
      }
    }
  }

  lemma HiddenIsPassed(index: seq<FrameMeta>, p: nat, time: nat)
    requires GoesBackAfter(index, p) && time < TWO63 && HiddenAt(index, p, time)
    ensures FirstIncrease(index, ToUint64(time - index[0].start), 0) < p
  {
    var x := time - index[0].start;
    var r := FirstIncrease(index, ToUint64(x), 0);
    ScanInGaps(index, x);
    if r > p {
      DownTo(index, x, p + 1, r);
    }
  }

  /** Where the scan stopped, seen from the clock. */
  lemma ScanStops(index: seq<FrameMeta>, p: nat, time: nat, r: nat)
    requires GoesBackAfter(index, p) && time < TWO63 && HiddenAt(index, p, time)
    requires r == FirstIncrease(index, ToUint64(time - index[0].start), 0)
    ensures r < p
    ensures Labs(index[p + 1].start - time) < Labs(index[r].start - time) < Labs(index[r + 1].start - time)
  {
    HiddenIsPassed(index, p, time);
    ScanInGaps(index, time - index[0].start);
  }

  /** No frame before where the scan stopped is nearer to the moment. */
  lemma StopIsNearest(index: seq<FrameMeta>, time: nat, r: nat, q: nat)
    requires index != [] && time < TWO63 && forall i :: 0 <= i < |index| ==> 0 <= index[i].start < TWO63
    requires r == FirstIncrease(index, ToUint64(time - index[0].start), 0) && q <= r
    ensures Gap(index, r, time - index[0].start) <= Gap(index, q, time - index[0].start)
  {
    ScanInGaps(index, time - index[0].start);
    DownTo(index, time - index[0].start, q, r);
  }

  /** No start up to `p` is the one after the step. */
  lemma StartsApart(a: int, b: int, m: int, time: int, s: int)
    requires a < b && Labs(m - time) < Labs(a - time) < Labs(b - time)
    requires s >= b || Labs(a - time) <= Labs(s - time)
    ensures s != m && (b <= m ==> s < m)
  {
  }

  lemma HiddenMeansRoom(index: seq<FrameMeta>, p: nat, time: nat)
    requires GoesBackAfter(index, p) && time < TWO63 && HiddenAt(index, p, time)
    ensures StepHides(index, p)
  {
    var m := index[p + 1].start;
    var r := FirstIncrease(index, ToUint64(time - index[0].start), 0);
    ScanStops(index, p, time, r);
    assert index[r].start < index[r + 1].start <= index[p].start;
    if index[0].start <= m {
      var q := LastUpTo(index, p, m);
      if q <= r {
        StopIsNearest(index, time, r, q);
      }
      StartsApart(index[r].start, index[r + 1].start, m, time, index[q].start);
      if index[q + 1].start == index[p].start {
        StopsBelowStep(index, p, q, r, time);
        OnlyRoomBetween(index[q].start, m, index[p].start, time);
      }
    }
  }

  lemma StopsBelowStep(index: seq<FrameMeta>, p: nat, q: nat, r: nat, time: int)
    requires GoesBackAfter(index, p) && q < p && r < p && index[q + 1].start == index[p].start
    requires index[q].start < index[p + 1].start && index[r].start < index[r + 1].start
    requires Labs(index[p + 1].start - time) < Labs(index[r].start - time) < Labs(index[r + 1].start - time)
    ensures r == q
  {
    assert forall i :: q < i <= p ==> index[i].start >= index[q + 1].start;
  }

  /** An instance: three records that touch, with the clock set back before the third. */
  lemma UnorderedIndexMisleads()
    ensures var index := [FrameMeta(10, 90), FrameMeta(90, 30), FrameMeta(30, 40)];
            Contiguous(index) && FindFrame(index, 21) == 0 && Gap(index, 2, 21) < Gap(index, 0, 21)
  {
    var index := [FrameMeta(10, 90), FrameMeta(90, 30), FrameMeta(30, 40)];
    assert Distance(index, 0, 21) == 21;
    assert Distance(index, 1, 21) == 59;
  }

  // ---------------------------------------------------------------- absolute times

  predicate Covers(m: FrameMeta, time: nat)
  {
    ToUint64(m.start) <= time <= ToUint64(m.end)
  }

  predicate SomeCovers(index: seq<FrameMeta>, time: nat)
  {
    exists i :: 0 <= i < |index| && Covers(index[i], time)
  }

  /** `stream_find_frame_abs` hands back the time itself as a signed result. */
  function FindFrameAbs(index: seq<FrameMeta>, time: nat): int
  {
    if SomeCovers(index, time) then ToInt64(time) else -1
  }

  method StreamFindFrameAbs(index: array<FrameMeta>, time: nat) returns (r: int)
    ensures r == FindFrameAbs(index[..], time)
  {
    for i := 0 to index.Length
      invariant forall k :: 0 <= k < i ==> !Covers(index[k], time)
    {
      if ToUint64(index[i].start) <= time && ToUint64(index[i].end) >= time {
        assert Covers(index[..][i], time);
        return ToInt64(time);
      }
    }
    return -1;
  }

  /** Its caller's test against -1 is a containment test, except at the largest time. */
  lemma FindFrameAbsMeaning(index: seq<FrameMeta>, time: nat)
    requires time < TWO64
    ensures FindFrameAbs(index, time) != -1 <==> SomeCovers(index, time) && time != TWO64 - 1
  {
  }

  /** `r` is the position of a frame that contains `time`: what the documentation promises. */
  predicate IsPosition(index: seq<FrameMeta>, time: nat, r: int)
  {
    0 <= r < |index| && Covers(index[r], time)
  }

  /** What it returns is the time. That is a position as documented exactly when the time is below the
      number of frames and the frame at that very position contains it. */
  lemma WhenAbsIsPosition(index: seq<FrameMeta>, time: nat)
    requires time < TWO64 && |index| < TWO63
    ensures IsPosition(index, time, FindFrameAbs(index, time)) <==> time < |index| && Covers(index[time], time)
  {
    if time < |index| && Covers(index[time], time) {
      FitsInt64(time);
    }
  }

  /** So never, in a recording that began at least as many microseconds after 1970 as it has frames. */
  lemma FindFrameAbsIsNoPosition(index: seq<FrameMeta>, time: nat)
    requires Ordered(index) && |index| <= index[0].start && time < TWO64
    ensures !IsPosition(index, time, FindFrameAbs(index, time))
  {
    WhenAbsIsPosition(index, time);
    if time < |index| {
      FitsUint64(index[time].start);
    }
  }

  /** A frame that contains the time, and an answer that is not its position. */
  lemma PositionMissed()
    ensures var index := [FrameMeta(10, 20), FrameMeta(20, 30)];
            Covers(index[1], 25) && FindFrameAbs(index, 25) == 25 && !IsPosition(index, 25, 25)
  {
    var index := [FrameMeta(10, 20), FrameMeta(20, 30)];
    assert Covers(index[1], 25);
    assert SomeCovers(index, 25);
  }

  /** Each record starts where the one before ended. */
  predicate Contiguous(index: seq<FrameMeta>)
  {
    forall k :: 0 <= k < |index| - 1 ==> index[k].end == index[k + 1].start
  }

  /** In a gapless ordered index some record covers a moment exactly when the recording was going on. */
  lemma ContiguousCovers(index: seq<FrameMeta>, time: nat)
    requires Ordered(index) && Contiguous(index)
    ensures SomeCovers(index, time) <==> index[0].start <= time <= Last(index).end
  {
    if index[0].start <= time <= Last(index).end {
      SomeRecordCovers(index, time);
    }
    forall i | 0 <= i < |index| && Covers(index[i], time)
      ensures index[0].start <= time <= Last(index).end
    {
      FitsUint64(index[i].start);
      EndsAscend(index, i);
      FitsUint64(index[i].end);
    }
  }

  lemma EndsAscend(index: seq<FrameMeta>, i: nat)
    requires Ordered(index) && Contiguous(index) && i < |index|
    ensures 0 <= index[i].end <= Last(index).end
  {
    if i < |index| - 1 {
      assert index[i].end == index[i + 1].start <= Last(index).start;
    }
  }

  lemma {:induction false} SomeRecordCovers(index: seq<FrameMeta>, time: nat)
    requires Ordered(index) && Contiguous(index)
    requires index[0].start <= time <= Last(index).end
    ensures SomeCovers(index, time)
  {
    var n := |index|;
    if n == 1 || time >= Last(index).start {
      assert Covers(index[n - 1], time);
    } else {
      var shorter := index[..n - 1];
      assert Last(shorter) == index[n - 2] && index[n - 2].end == index[n - 1].start;
      SomeRecordCovers(shorter, time);
      var i :| 0 <= i < |shorter| && Covers(shorter[i], time);
      assert Covers(index[i], time);
    }
  }
}
