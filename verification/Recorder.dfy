/** A recording as a step system: frames arrive, some cannot be stored, and the recording stops. */
module Recorder {
  import opened Bytes
  import opened Lpxstd
  import opened Text
  import opened FrameIndex
  import opened FrameLookup
  import VS = VideoStream
  import ST = Storage

  /** `stored` is whether the frame file could be written, `present` whether the directory is there. */
  datatype Event = Frame(buf: seq<Byte>, stored: bool, now: int) | Stop(present: bool)

  datatype Session = Session(frameIndex: nat, reqTime: int, frames: seq<FrameMeta>, stopping: bool, files: VS.FileSystem)

  function Begin(now: int, files: VS.FileSystem): Session
  {
    Session(0, now, [], false, files)
  }

  function Step(td: ST.Path, s: Session, e: Event): Session
  {
    if s.stopping then s
    else
      match e
      case Frame(buf, stored, now) =>
        var s' := s.(frameIndex := (s.frameIndex + 1) % TWO32);
        if !stored then s'
        else s'.(
          files := s.files[ST.FramePath(td, s.frameIndex) := buf],
          frames := s.frames + [FrameMeta(s.reqTime, now)],
          reqTime := now)
      case Stop(present) =>
        s.(
          stopping := true,
          files := if s.frames != [] && present then s.files[ST.IndexPath(td) := PrintIndex(s.frames)] else s.files)
  }

  function Front(es: seq<Event>): seq<Event>
    requires es != []
  {
    es[..|es| - 1]
  }

  function LastEvent(es: seq<Event>): Event
    requires es != []
  {
    es[|es| - 1]
  }

  function Run(td: ST.Path, s: Session, es: seq<Event>): Session
  {
    if es == [] then s else Step(td, Run(td, s, Front(es)), LastEvent(es))
  }

  // ---------------------------------------------------------------- what happened in a run

  predicate Stopped(es: seq<Event>)
  {
    exists i :: 0 <= i < |es| && es[i].Stop?
  }

  /** Frames that arrived before the stop. */
  function Handled(es: seq<Event>): (n: nat)
    ensures n <= |es|
  {
    if es == [] then 0
    else Handled(Front(es)) + if LastEvent(es).Frame? && !Stopped(Front(es)) then 1 else 0
  }

  /** For each stored frame, how many had arrived before it: its file number. */
  function Numbers(es: seq<Event>): (ns: seq<nat>)
  {
    if es == [] then []
    else if LastEvent(es).Frame? && LastEvent(es).stored && !Stopped(Front(es)) then
      Numbers(Front(es)) + [Handled(Front(es))]
    else Numbers(Front(es))
  }

  /** The bytes of each stored frame. */
  function Images(es: seq<Event>): (bufs: seq<seq<Byte>>)
    ensures |bufs| == |Numbers(es)|
  {
    if es == [] then []
    else if LastEvent(es).Frame? && LastEvent(es).stored && !Stopped(Front(es)) then
      Images(Front(es)) + [LastEvent(es).buf]
    else Images(Front(es))
  }

  lemma StoppedStep(es: seq<Event>)
    requires es != []
    ensures Stopped(es) <==> Stopped(Front(es)) || LastEvent(es).Stop?
  {
  }

  // ---------------------------------------------------------------- invariants of every run

  /** Consecutive records touch, even across failed stores; the first starts with the recording. */
  predicate Gapless(start: int, s: Session)
  {
    && Contiguous(s.frames)
    && (if s.frames == [] then s.reqTime == start
        else s.frames[0].start == start && Last(s.frames).end == s.reqTime)
  }

  lemma {:induction false} RunCounts(td: ST.Path, start: int, files: VS.FileSystem, es: seq<Event>)
    ensures var s := Run(td, Begin(start, files), es);
            && s.stopping == Stopped(es)
            && s.frameIndex == Handled(es) % TWO32
            && |s.frames| == |Numbers(es)|
  {
    if es != [] {
      var s := Run(td, Begin(start, files), Front(es));
      RunCounts(td, start, files, Front(es));
      StoppedStep(es);
      NextCount(Handled(Front(es)));
      StepCounts(td, s, LastEvent(es));
    }
  }

  /** What one event does to the counts. */
  lemma StepCounts(td: ST.Path, s: Session, e: Event)
    ensures var s' := Step(td, s, e);
            && s'.stopping == (s.stopping || e.Stop?)
            && s'.frameIndex == (if e.Frame? && !s.stopping then (s.frameIndex + 1) % TWO32 else s.frameIndex)
            && |s'.frames| == |s.frames| + if e.Frame? && e.stored && !s.stopping then 1 else 0
  {
  }

  lemma NextCount(n: nat)
    ensures (n % TWO32 + 1) % TWO32 == (n + 1) % TWO32
  {
  }

  lemma {:induction false} RunGapless(td: ST.Path, start: int, files: VS.FileSystem, es: seq<Event>)
    ensures Gapless(start, Run(td, Begin(start, files), es))
  {
    if es != [] {
      RunGapless(td, start, files, Front(es));
      StepGapless(td, start, Run(td, Begin(start, files), Front(es)), LastEvent(es));
    }
  }

  lemma StepGapless(td: ST.Path, start: int, s: Session, e: Event)
    requires Gapless(start, s)
    ensures Gapless(start, Step(td, s, e))
  {
    if e.Frame? {
      var longer := s.frames + [FrameMeta(s.reqTime, e.now)];
      assert forall k :: 0 <= k < |s.frames| ==> longer[k] == s.frames[k];
    }
  }

  lemma RunInvariant(td: ST.Path, start: int, files: VS.FileSystem, es: seq<Event>)
    ensures var s := Run(td, Begin(start, files), es);
            && s.stopping == Stopped(es)
            && s.frameIndex == Handled(es) % TWO32
            && |s.frames| == |Numbers(es)|
            && Gapless(start, s)
  {
    RunCounts(td, start, files, es);
    RunGapless(td, start, files, es);
  }

  /** File numbers grow strictly, stay below the number of frames that arrived, and never lag behind
      the record they belong to. */
  lemma {:induction false} NumbersAscend(es: seq<Event>)
    ensures |Numbers(es)| <= Handled(es)
    ensures forall k :: 0 <= k < |Numbers(es)| ==> k <= Numbers(es)[k] < Handled(es)
    ensures forall i, k :: 0 <= i < k < |Numbers(es)| ==> Numbers(es)[i] < Numbers(es)[k]
  {
    if es != [] {
      NumbersAscend(Front(es));
    }
  }

  /** The events handled are those before the first stop. */
  lemma {:induction false} HandledPrefix(es: seq<Event>)
    ensures forall m :: 0 <= m < Handled(es) ==> es[m].Frame?
    ensures if Stopped(es) then Handled(es) < |es| && es[Handled(es)].Stop? else Handled(es) == |es|
  {
    if es != [] {
      HandledPrefix(Front(es));
      StoppedStep(es);
    }
  }

  /** The file numbers are the positions of the frames that could be stored. */
  lemma {:induction false} StoredNumbers(es: seq<Event>, m: nat)
    ensures m in Numbers(es) <==> m < Handled(es) && es[m].Frame? && es[m].stored
  {
    HandledPrefix(es);
    if es != [] {
      StoredNumbers(Front(es), m);
      HandledPrefix(Front(es));
      if !Stopped(Front(es)) && LastEvent(es).Frame? && LastEvent(es).stored {
        assert Numbers(es) == Numbers(Front(es)) + [Handled(Front(es))];
      }
    }
  }

  /** Each of the first `n` events is a frame that could be stored. */
  predicate AllStored(es: seq<Event>, n: nat)
  {
    n <= |es| && forall m :: 0 <= m < n ==> es[m].Frame? && es[m].stored
  }

  /** Record `k` belongs to file `k` exactly when every frame before it could be stored. */
  lemma NumberIsRecord(es: seq<Event>, k: nat)
    requires k < |Numbers(es)|
    ensures Numbers(es)[k] == k <==> AllStored(es, Numbers(es)[k])
  {
    var ns := Numbers(es);
    NumbersAscend(es);
    HandledPrefix(es);
    NumberIsIndex(es, k);
    forall m: nat
      ensures m in ns <==> m < Handled(es) && es[m].Frame? && es[m].stored
    {
      StoredNumbers(es, m);
    }
  }

  /** That is, when no smaller number is left out. */
  lemma {:induction false} NumberIsIndex(es: seq<Event>, k: nat)
    requires k < |Numbers(es)|
    ensures Numbers(es)[k] == k <==> forall m :: 0 <= m < Numbers(es)[k] ==> m in Numbers(es)
  {
    var ns := Numbers(es);
    NumbersAscend(es);
    if ns[k] == k {
      forall m | 0 <= m < k
        ensures m in ns
      {
        Squeezed(ns, k, m);
      }
    } else if forall m :: 0 <= m < ns[k] ==> m in ns {
      NumberAt(ns, k, k);
    }
  }

  /** No frame could be stored after one that could not. */
  predicate InStep(es: seq<Event>)
  {
    forall i, j :: 0 <= i < j < |es| && es[i].Frame? && es[j].Frame? && es[j].stored ==> es[i].stored
  }

  /** Then, and only then, each record has its own position as file number. */
  lemma InStepMeaning(es: seq<Event>)
    requires !Stopped(es)
    ensures InStep(es) <==> forall k :: 0 <= k < |Numbers(es)| ==> Numbers(es)[k] == k
  {
    HandledPrefix(es);
    NumbersAscend(es);
    if InStep(es) {
      forall k | 0 <= k < |Numbers(es)|
        ensures Numbers(es)[k] == k
      {
        NumberIsRecord(es, k);
        StoredNumbers(es, Numbers(es)[k]);
      }
    } else {
      var i, j :| 0 <= i < j < |es| && es[i].Frame? && es[j].Frame? && es[j].stored && !es[i].stored;
      StoredNumbers(es, j);
      var k :| 0 <= k < |Numbers(es)| && Numbers(es)[k] == j;
      NumberIsRecord(es, k);
      assert !AllStored(es, j);
    }
  }

  /** Each record ends when its frame had been stored, and begins when the one before had been, the
      first with the recording. */
  lemma RecordTimes(td: ST.Path, start: int, files: VS.FileSystem, es: seq<Event>, k: nat)
    requires k < |Numbers(es)|
    ensures var ms, ns := Run(td, Begin(start, files), es).frames, Numbers(es);
            && |ms| == |ns| && StoredAt(es, ns[k])
            && ms[k].end == es[ns[k]].now
            && (k > 0 ==> StoredAt(es, ns[k - 1]))
            && ms[k].start == if k == 0 then start else es[ns[k - 1]].now
  {
    RunInvariant(td, start, files, es);
    RecordEnds(td, start, files, es, k);
    if k > 0 {
      RecordEnds(td, start, files, es, k - 1);
    }
  }

  predicate StoredAt(es: seq<Event>, n: nat)
  {
    n < |es| && es[n].Frame? && es[n].stored
  }

  lemma {:induction false} RecordEnds(td: ST.Path, start: int, files: VS.FileSystem, es: seq<Event>, k: nat)
    requires k < |Numbers(es)|
    ensures var ms, ns := Run(td, Begin(start, files), es).frames, Numbers(es);
            |ms| == |ns| && StoredAt(es, ns[k]) && ms[k].end == es[ns[k]].now
  {
    RunCounts(td, start, files, es);
    RunCounts(td, start, files, Front(es));
    HandledPrefix(Front(es));
    if k < |Numbers(Front(es))| {
      RecordEnds(td, start, files, Front(es), k);
    }
  }

  lemma {:induction false} Squeezed(ns: seq<nat>, k: nat, m: nat)
    requires m <= k < |ns| && ns[k] == k
    requires forall i :: 0 <= i < |ns| ==> i <= ns[i]
    requires forall i, j :: 0 <= i < j < |ns| ==> ns[i] < ns[j]
    ensures ns[m] == m
    decreases k - m
  {
    if m < k {
      Squeezed(ns, k, m + 1);
    }
  }

  /** If every number below `ns[k]` occurs, the records up to `k` carry their own numbers. */
  lemma {:induction false} NumberAt(ns: seq<nat>, k: nat, n: nat)
    requires n <= k < |ns|
    requires forall i :: 0 <= i < |ns| ==> i <= ns[i]
    requires forall i, j :: 0 <= i < j < |ns| ==> ns[i] < ns[j]
    requires forall m :: 0 <= m < ns[k] ==> m in ns
    ensures ns[n] == n
  {
    assert ns[n] <= ns[k];
    if ns[n] > n {
      assert n in ns;
      var j :| 0 <= j < |ns| && ns[j] == n;
      if j < n {
        NumberAt(ns, k, j);
      }
    }
  }

  /** A later event leaves a stored frame's file alone. */
  lemma StepKeepsFile(td: ST.Path, s: Session, e: Event, n: nat)
    requires n < s.frameIndex < TWO32 || e.Stop?
    requires ST.FramePath(td, n) in s.files
    ensures var s' := Step(td, s, e);
            ST.FramePath(td, n) in s'.files && s'.files[ST.FramePath(td, n)] == s.files[ST.FramePath(td, n)]
  {
    if e.Frame? {
      Pow10Values();
      ST.FramePathsDiffer(td, n, s.frameIndex);
    } else {
      ST.FramePathIsNotIndex(td, n);
    }
  }

  /** File `n` holds `buf`. */
  predicate Holds(td: ST.Path, files: VS.FileSystem, n: nat, buf: seq<Byte>)
  {
    ST.FramePath(td, n) in files && files[ST.FramePath(td, n)] == buf
  }

  /** Every stored frame is still in its file, as long as the 32-bit counter has not come round. */
  lemma {:induction false} FrameOnDisk(td: ST.Path, start: int, files: VS.FileSystem, es: seq<Event>, k: nat)
    requires Handled(es) <= TWO32 && k < |Numbers(es)|
    ensures Holds(td, Run(td, Begin(start, files), es).files, Numbers(es)[k], Images(es)[k])
  {
    var before, e := Front(es), LastEvent(es);
    var s := Run(td, Begin(start, files), before);
    RunCounts(td, start, files, before);
    if k < |Numbers(before)| {
      NumbersAscend(before);
      FrameOnDisk(td, start, files, before, k);
      if !s.stopping {
        if e.Frame? {
          SmallCount(Handled(before));
        }
        StepKeepsFile(td, s, e, Numbers(before)[k]);
      }
    } else {
      SmallCount(Handled(before));
    }
  }

  /** In a fresh directory exactly the stored frames have files. */
  lemma {:induction false} FilesAreNumbers(td: ST.Path, start: int, files: VS.FileSystem, es: seq<Event>, i: nat)
    requires ST.NoFrames(td, files) && Handled(es) <= TWO32 && i < TWO32
    ensures ST.FramePath(td, i) in Run(td, Begin(start, files), es).files <==> i in Numbers(es)
  {
    if es != [] {
      var s, e := Run(td, Begin(start, files), Front(es)), LastEvent(es);
      FilesAreNumbers(td, start, files, Front(es), i);
      RunCounts(td, start, files, Front(es));
      ST.FramePathIsNotIndex(td, i);
      if e.Frame? && e.stored && !Stopped(Front(es)) {
        SmallCount(Handled(Front(es)));
        SamePath(td, i, s.frameIndex);
      }
    }
  }

  lemma SamePath(td: ST.Path, i: nat, j: nat)
    requires i < TWO32 && j < TWO32
    ensures ST.FramePath(td, i) == ST.FramePath(td, j) <==> i == j
  {
    Pow10Values();
    if i < j {
      ST.FramePathsDiffer(td, i, j);
    } else if j < i {
      ST.FramePathsDiffer(td, j, i);
    }
  }

  lemma SmallCount(n: nat)
    requires n < TWO32
    ensures n % TWO32 == n
  {
  }

  // ---------------------------------------------------------------- with a clock that does not go back

  /** Times of the frames, from `start` on. */
  predicate ClockRuns(start: int, es: seq<Event>)
  {
    && 0 <= start < TWO63
    && (forall i :: 0 <= i < |es| && es[i].Frame? ==> start <= es[i].now < TWO63)
    && (forall i, j :: 0 <= i < j < |es| && es[i].Frame? && es[j].Frame? ==> es[i].now <= es[j].now)
  }

  predicate Timed(start: int, s: Session, now: int)
  {
    && start <= s.reqTime <= now
    && (forall k :: 0 <= k < |s.frames| ==> start <= s.frames[k].start <= s.frames[k].end <= s.reqTime)
  }

  /** The latest time a frame carried. */
  function Latest(start: int, es: seq<Event>): int
  {
    if es == [] then start
    else if LastEvent(es).Frame? then LastEvent(es).now
    else Latest(start, Front(es))
  }

  lemma {:induction false} LatestIsLatest(start: int, es: seq<Event>, now: int)
    requires ClockRuns(start, es)
    requires start <= now && forall i :: 0 <= i < |es| && es[i].Frame? ==> es[i].now <= now
    ensures start <= Latest(start, es) <= now && Latest(start, es) < TWO63
  {
    if es != [] && LastEvent(es).Stop? {
      LatestIsLatest(start, Front(es), now);
    }
  }

  lemma {:induction false} RunTimed(td: ST.Path, start: int, files: VS.FileSystem, es: seq<Event>)
    requires ClockRuns(start, es)
    ensures Timed(start, Run(td, Begin(start, files), es), Latest(start, es))
  {
    if es != [] {
      RunTimed(td, start, files, Front(es));
      if LastEvent(es).Frame? {
        LatestIsLatest(start, Front(es), LastEvent(es).now);
      }
    }
  }

  lemma {:induction false} ContiguousStarts(ms: seq<FrameMeta>, i: nat, j: nat)
    requires i <= j < |ms| && Contiguous(ms)
    requires forall k :: 0 <= k < |ms| ==> ms[k].start <= ms[k].end
    ensures ms[i].start <= ms[j].start
    decreases j - i
  {
    if i < j {
      ContiguousStarts(ms, i, j - 1);
    }
  }

  /** The recorder leaves exactly the order that the lookups rely on. */
  lemma RecordedIsOrdered(td: ST.Path, start: int, files: VS.FileSystem, es: seq<Event>)
    requires ClockRuns(start, es)
    ensures var frames := Run(td, Begin(start, files), es).frames;
            Contiguous(frames) && AllFit(frames) && (frames != [] ==> Ordered(frames))
  {
    RunInvariant(td, start, files, es);
    RunTimed(td, start, files, es);
    var s := Run(td, Begin(start, files), es);
    if |es| > 0 {
      BoundedLatest(start, es);
    }
    forall i, j | 0 <= i <= j < |s.frames|
      ensures 0 <= s.frames[i].start <= s.frames[j].start
    {
      ContiguousStarts(s.frames, i, j);
    }
  }

  lemma {:induction false} BoundedLatest(start: int, es: seq<Event>)
    requires ClockRuns(start, es)
    ensures start <= Latest(start, es) < TWO63
  {
    if es != [] && LastEvent(es).Stop? {
      BoundedLatest(start, Front(es));
    }
  }
}
