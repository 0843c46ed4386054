/** From the camera to the client: what was recorded is what a lookup by time serves. */
module EndToEnd {
  import opened Bytes
  import opened Lpxstd
  import opened Text
  import opened FrameIndex
  import opened FrameLookup
  import opened FrameRequests
  import opened Archive
  import opened StreamMachine
  import opened StreamRuns
  import opened HeaderFit
  import opened Downloads
  import opened Bmp
  import R = Recorder
  import VS = VideoStream
  import ST = Storage
  import SV = Server

  /** A recording that was stopped with its directory in place. */
  function Finished(td: ST.Path, start: int, files: VS.FileSystem, es: seq<R.Event>): R.Session
  {
    R.Run(td, R.Begin(start, files), es + [R.Stop(true)])
  }

  /** The recording holds at least one frame, its file numbers did not come round, and its records can
      be counted in 32 bits. */
  predicate Recording(start: int, es: seq<R.Event>)
  {
    && R.ClockRuns(start, es)
    && !R.Stopped(es)
    && R.Handled(es) <= TWO32
    && 0 < |R.Numbers(es)| < TWO32
  }

  lemma FinishedFromRun(td: ST.Path, start: int, files: VS.FileSystem, es: seq<R.Event>)
    requires !R.Stopped(es) && R.Numbers(es) != []
    ensures var s, f := R.Run(td, R.Begin(start, files), es), Finished(td, start, files, es);
            && f.frames == s.frames != []
            && f.files == s.files[ST.IndexPath(td) := PrintIndex(s.frames)]
  {
    assert R.Front(es + [R.Stop(true)]) == es;
    R.RunCounts(td, start, files, es);
  }

  /** The index on disk reads back as the records of the run, and these have the order the lookups
      rely on. */
  lemma IndexOfRecording(td: ST.Path, dirs: set<ST.Path>, start: int, files: VS.FileSystem, es: seq<R.Event>)
    requires Recording(start, es) && td in dirs
    ensures var f := Finished(td, start, files, es);
            && ST.ReadIndex(dirs, f.files, td) == (Success, f.frames)
            && |f.frames| == |R.Numbers(es)|
            && Ordered(f.frames) && Contiguous(f.frames)
            && f.frames[0].start == start
  {
    FinishedFromRun(td, start, files, es);
    R.RunInvariant(td, start, files, es);
    R.RecordedIsOrdered(td, start, files, es);
    IndexRoundTrip(Finished(td, start, files, es).frames);
  }

  /** Each record's frame is on disk under the record's file number. */
  lemma FramesOfRecording(td: ST.Path, start: int, files: VS.FileSystem, es: seq<R.Event>, k: nat)
    requires !R.Stopped(es) && R.Handled(es) <= TWO32 && k < |R.Numbers(es)|
    ensures R.Holds(td, Finished(td, start, files, es).files, R.Numbers(es)[k], R.Images(es)[k])
  {
    FinishedFromRun(td, start, files, es);
    R.FrameOnDisk(td, start, files, es, k);
    ST.FramePathIsNotIndex(td, R.Numbers(es)[k]);
  }

  // ---------------------------------------------------------------- what failed stores do to a download

  /** Every image is as long as the conversion reads. */
  predicate WholeImages(es: seq<R.Event>)
  {
    forall i :: 0 <= i < |es| && es[i].Frame? ==> |es[i].buf| >= VS.RAW_SIZE
  }

  lemma {:induction false} ImagesAreWhole(es: seq<R.Event>, k: nat)
    requires WholeImages(es) && k < |R.Numbers(es)|
    ensures |R.Images(es)[k]| >= VS.RAW_SIZE
  {
    if k < |R.Numbers(R.Front(es))| {
      ImagesAreWhole(R.Front(es), k);
    }
  }

  /** The archive entry of a camera image under a number. */
  function CameraEntry(buf: seq<Byte>, i: nat): Entry
    requires |buf| >= VS.RAW_SIZE
  {
    Entry(FrameName(i), Raw12File(buf, VS.WIDTH, VS.HEIGHT))
  }

  /** A stopped recording of whole images in a directory that held no frames, as one just made does. */
  ghost predicate FreshRecording(td: ST.Path, files: VS.FileSystem, es: seq<R.Event>)
  {
    && ST.NoFrames(td, files) && WholeImages(es)
    && !R.Stopped(es) && R.Handled(es) <= TWO32 && 0 < |R.Numbers(es)| < TWO32
  }

  lemma FileIsStored(td: ST.Path, start: int, files: VS.FileSystem, es: seq<R.Event>, i: nat)
    requires FreshRecording(td, files, es) && i < TWO32
    ensures ST.FramePath(td, i) in Finished(td, start, files, es).files <==> i in R.Numbers(es)
  {
    FinishedFromRun(td, start, files, es);
    R.FilesAreNumbers(td, start, files, es, i);
    ST.FramePathIsNotIndex(td, i);
  }

  lemma StoredImage(td: ST.Path, start: int, files: VS.FileSystem, es: seq<R.Event>, k: nat)
    requires !R.Stopped(es) && R.Handled(es) <= TWO32 && WholeImages(es) && k < |R.Numbers(es)|
    ensures |R.Images(es)[k]| >= VS.RAW_SIZE
    ensures VS.FileEntry(Finished(td, start, files, es).files, ST.FramePath(td, R.Numbers(es)[k])) ==
            Some(CameraEntry(R.Images(es)[k], R.Numbers(es)[k]))
  {
    FramesOfRecording(td, start, files, es, k);
    ImagesAreWhole(es, k);
    HeldEntry(Finished(td, start, files, es).files, td, R.Numbers(es)[k], R.Images(es)[k]);
  }

  lemma HeldEntry(fs: VS.FileSystem, td: ST.Path, i: nat, buf: seq<Byte>)
    requires R.Holds(td, fs, i, buf) && |buf| >= VS.RAW_SIZE
    ensures VS.FileEntry(fs, ST.FramePath(td, i)) == Some(CameraEntry(buf, i))
    ensures FrameEntry(fs, td, i) == CameraEntry(buf, i)
  {
    StoredEntry(fs, td, i);
  }

  /** What is served at position `i` of a whole recording: the image of an earlier record, or of record
      `i` itself, if some record has file number `i`, and otherwise nothing. It is the image of record
      `i` exactly when every frame before that record's was stored. */
  lemma ServedFileIsOwn(td: ST.Path, start: int, files: VS.FileSystem, es: seq<R.Event>, i: nat) returns (k: nat)
    requires FreshRecording(td, files, es) && i < |R.Numbers(es)|
    ensures var ns, file := R.Numbers(es), VS.FileEntry(Finished(td, start, files, es).files, ST.FramePath(td, i));
            if i in ns then
              && k <= i && ns[k] == i && |R.Images(es)[k]| >= VS.RAW_SIZE
              && file == Some(CameraEntry(R.Images(es)[k], i))
            else file == None
    ensures i in R.Numbers(es) && k == i <==> R.AllStored(es, R.Numbers(es)[i])
  {
    FileIsStored(td, start, files, es, i);
    R.NumbersAscend(es);
    R.NumberIsRecord(es, i);
    k := 0;
    if i in R.Numbers(es) {
      k :| 0 <= k < |R.Numbers(es)| && R.Numbers(es)[k] == i;
      StoredImage(td, start, files, es, k);
    }
  }

  /** The first record out of step leaves its position without a file. */
  lemma FirstGap(es: seq<R.Event>, k: nat) returns (j: nat)
    requires k < |R.Numbers(es)| && R.Numbers(es)[k] != k
    ensures j <= k && j !in R.Numbers(es)
  {
    R.NumbersAscend(es);
    if i :| 0 <= i < k && R.Numbers(es)[i] != i {
      j := FirstGap(es, i);
    } else {
      j := k;
    }
  }

  /** A whole recording breaks off in the middle exactly when a frame was stored after one that was not. */
  lemma BreaksWhenOutOfStep(td: ST.Path, start: int, files: VS.FileSystem, es: seq<R.Event>)
    requires FreshRecording(td, files, es)
    ensures Breaks(VS.FileEntries(Finished(td, start, files, es).files, ST.PathsFrom(td, 0, |R.Numbers(es)|)), 0) <==> !R.InStep(es)
  {
    var fs, n := Finished(td, start, files, es).files, |R.Numbers(es)|;
    var served := VS.FileEntries(fs, ST.PathsFrom(td, 0, n));
    R.InStepMeaning(es);
    if R.InStep(es) {
      forall i | 0 <= i < n
        ensures served[i].Some?
      {
        var k := ServedFileIsOwn(td, start, files, es, i);
        assert i == R.Numbers(es)[i];
      }
    } else {
      var k :| 0 <= k < n && R.Numbers(es)[k] != k;
      var j := FirstGap(es, k);
      FileIsStored(td, start, files, es, j);
      assert served[j] == VS.FileEntry(fs, ST.FramePath(td, j)) == None;
    }
  }

  /** Then a whole download, in whatever pieces, ends with the report of a failure. */
  lemma OutOfStepFails(td: ST.Path, start: int, files: VS.FileSystem, es: seq<R.Event>, maxes: seq<nat>)
    requires FreshRecording(td, files, es) && !R.InStep(es)
    requires forall j :: 0 <= j < |maxes| ==> maxes[j] > 0
    requires Calls(VS.FileEntries(Finished(td, start, files, es).files, ST.PathsFrom(td, 0, |R.Numbers(es)|)), START, maxes).Done?
    ensures var served := VS.FileEntries(Finished(td, start, files, es).files, ST.PathsFrom(td, 0, |R.Numbers(es)|));
            && NoEndBeforeFailure(Calls(served, START, maxes).results)
            && (Total(maxes) > |Remaining(served, START)| ==> STRM_IO in Calls(served, START, maxes).results)
  {
    BreaksWhenOutOfStep(td, start, files, es);
    BrokenDownload(VS.FileEntries(Finished(td, start, files, es).files, ST.PathsFrom(td, 0, |R.Numbers(es)|)), START, maxes);
  }

  /** The shortest such run: the first store fails, the second does not. */
  lemma FailedFirstStore(td: ST.Path, start: int, files: VS.FileSystem, buf: seq<Byte>, t1: int, t2: int)
    requires ST.NoFrames(td, files) && |buf| >= VS.RAW_SIZE
    ensures var es := [R.Frame(buf, false, t1), R.Frame(buf, true, t2)];
            && R.Numbers(es) == [1]
            && VS.FileEntry(Finished(td, start, files, es).files, ST.FramePath(td, 0)) == None
            && Breaks(VS.FileEntries(Finished(td, start, files, es).files, ST.PathsFrom(td, 0, 1)), 0)
  {
    var es := [R.Frame(buf, false, t1), R.Frame(buf, true, t2)];
    assert R.Front(es) == [R.Frame(buf, false, t1)];
    assert R.Front(R.Front(es)) == [];
    assert R.Handled(R.Front(es)) == 1 && R.Numbers(R.Front(es)) == [];
    assert R.Numbers(es) == [1];
    FileIsStored(td, start, files, es, 0);
    assert !es[0].stored && es[1].stored;
    BreaksWhenOutOfStep(td, start, files, es);
  }

  // ---------------------------------------------------------------- recordings in step

  /** The stored images as a client is to receive them. */
  function CameraEntries(es: seq<R.Event>): (entries: seq<Entry>)
    requires forall k :: 0 <= k < |R.Images(es)| ==> |R.Images(es)[k]| >= VS.RAW_SIZE
    ensures |entries| == |R.Numbers(es)|
  {
    seq(|R.Images(es)|, k requires 0 <= k < |R.Images(es)| => CameraEntry(R.Images(es)[k], k))
  }

  /** The files 0, 1, ... hold the stored images. */
  predicate InPlace(fs: VS.FileSystem, td: ST.Path, es: seq<R.Event>)
  {
    forall k :: 0 <= k < |R.Images(es)| ==> |R.Images(es)[k]| >= VS.RAW_SIZE && R.Holds(td, fs, k, R.Images(es)[k])
  }

  lemma FramesInStep(td: ST.Path, start: int, files: VS.FileSystem, es: seq<R.Event>)
    requires !R.Stopped(es) && R.Handled(es) <= TWO32 && WholeImages(es) && R.InStep(es)
    ensures InPlace(Finished(td, start, files, es).files, td, es)
  {
    R.InStepMeaning(es);
    forall k | 0 <= k < |R.Images(es)|
      ensures |R.Images(es)[k]| >= VS.RAW_SIZE && R.Holds(td, Finished(td, start, files, es).files, k, R.Images(es)[k])
    {
      FramesOfRecording(td, start, files, es, k);
      ImagesAreWhole(es, k);
    }
  }

  lemma SameEntries(fs: VS.FileSystem, td: ST.Path, es: seq<R.Event>)
    requires InPlace(fs, td, es)
    ensures HasFrames(fs, td, |R.Numbers(es)|)
    ensures FrameEntries(fs, td, |R.Numbers(es)|) == CameraEntries(es)
  {
    forall k | 0 <= k < |R.Numbers(es)|
      ensures ST.FramePath(td, k) in fs && |fs[ST.FramePath(td, k)]| >= VS.RAW_SIZE
    {
      assert R.Holds(td, fs, k, R.Images(es)[k]);
    }
    forall k | 0 <= k < |R.Numbers(es)|
      ensures FrameEntries(fs, td, |R.Numbers(es)|)[k] == CameraEntries(es)[k]
    {
      HeldEntry(fs, td, k, R.Images(es)[k]);
    }
  }

  /** From the camera to the client: a recording of up to 498 frames, none of them stored
      after one that was not, is recorded, indexed, read
      back and sent in the server's blocks; what the client has received at the end parses to the camera's
      images in order. */
  lemma RecordingDownloads(td: ST.Path, dirs: set<ST.Path>, start: int, files: VS.FileSystem, es: seq<R.Event>, r: nat)
    requires Recording(start, es) && WholeImages(es) && R.InStep(es) && |R.Numbers(es)| <= 498 && td in dirs
    ensures forall k :: 0 <= k < |R.Images(es)| ==> |R.Images(es)[k]| >= VS.RAW_SIZE
    ensures var f := Finished(td, start, files, es);
            var run := Calls(VS.FileEntries(f.files, ST.PathsFrom(td, 0, |f.frames|)), START, Repeat(SERVER_BLOCK, r));
            && ST.ReadIndex(dirs, f.files, td) == (Success, f.frames)
            && run.Done?
            && (EOF in run.results ==> Parse(Flatten(run.chunks)) == Some(CameraEntries(es)))
            && (r * SERVER_BLOCK >= |Encode(CameraEntries(es))| + SERVER_BLOCK ==> EOF in run.results)
  {
    IndexOfRecording(td, dirs, start, files, es);
    FramesInStep(td, start, files, es);
    SameEntries(Finished(td, start, files, es).files, td, es);
    ServerDownload(Finished(td, start, files, es).files, td, |R.Numbers(es)|, r);
  }

  predicate NoFailedStores(es: seq<R.Event>)
  {
    forall i :: 0 <= i < |es| ==> es[i].Frame? && es[i].stored
  }

  lemma {:induction false} NumbersWithoutFailures(es: seq<R.Event>)
    requires NoFailedStores(es)
    ensures R.Handled(es) == |es| == |R.Numbers(es)| && !R.Stopped(es)
    ensures forall k :: 0 <= k < |es| ==> R.Numbers(es)[k] == k && R.Images(es)[k] == es[k].buf
  {
    if es != [] {
      NumbersWithoutFailures(R.Front(es));
    }
  }

  /** Without failed stores, these are all frames that arrived. */
  lemma AllFramesDownload(td: ST.Path, dirs: set<ST.Path>, start: int, files: VS.FileSystem, es: seq<R.Event>, r: nat)
    requires R.ClockRuns(start, es) && NoFailedStores(es) && WholeImages(es) && 0 < |es| <= 498 && td in dirs
    ensures var f := Finished(td, start, files, es);
            var run := Calls(VS.FileEntries(f.files, ST.PathsFrom(td, 0, |f.frames|)), START, Repeat(SERVER_BLOCK, r));
            && run.Done?
            && (EOF in run.results ==>
                  Parse(Flatten(run.chunks)) == Some(seq(|es|, k requires 0 <= k < |es| => CameraEntry(es[k].buf, k))))
  {
    NumbersWithoutFailures(es);
    RecordingDownloads(td, dirs, start, files, es, r);
    assert CameraEntries(es) == seq(|es|, k requires 0 <= k < |es| => CameraEntry(es[k].buf, k));
  }

  /** What the client sees in frame `k`: under its number, the picture the camera had packed. */
  lemma ClientSeesPicture(td: ST.Path, dirs: set<ST.Path>, start: int, files: VS.FileSystem, es: seq<R.Event>, r: nat,
                          k: nat, pixels: seq<nat>, tail: seq<Byte>)
    requires R.ClockRuns(start, es) && NoFailedStores(es) && WholeImages(es) && 0 < |es| <= 498 && td in dirs
    requires k < |es| && |pixels| == 1280 * 800 && (forall i :: 0 <= i < |pixels| ==> pixels[i] < 0x1000)
    requires es[k].buf == Pack(pixels) + tail
    ensures var f := Finished(td, start, files, es);
            var run := Calls(VS.FileEntries(f.files, ST.PathsFrom(td, 0, |f.frames|)), START, Repeat(SERVER_BLOCK, r));
            run.Done? &&
            (EOF in run.results ==>
               && Parse(Flatten(run.chunks)).Some?
               && |Parse(Flatten(run.chunks)).value| == |es|
               && Parse(Flatten(run.chunks)).value[k].name == FrameName(k)
               && ShowsPicture(Parse(Flatten(run.chunks)).value[k].bmp, 1280, 800, pixels))
  {
    AllFramesDownload(td, dirs, start, files, es, r);
    EntryShowsPicture(es[k].buf, k, pixels, tail);
  }

  lemma EntryShowsPicture(buf: seq<Byte>, k: nat, pixels: seq<nat>, tail: seq<Byte>)
    requires |pixels| == 1280 * 800 && (forall i :: 0 <= i < |pixels| ==> pixels[i] < 0x1000)
    requires buf == Pack(pixels) + tail && |buf| >= VS.RAW_SIZE
    ensures CameraEntry(buf, k).name == FrameName(k)
    ensures ShowsPicture(CameraEntry(buf, k).bmp, 1280, 800, pixels)
  {
    RawBecomesPicture(pixels, tail, 1280, 800);
  }

  predicate During(index: seq<FrameMeta>, time: int)
  {
    index != [] && index[0].start <= time < Last(index).end
  }

  /** The lookup a client asks for with the offset of `time` from the start. */
  function Lookup(index: seq<FrameMeta>, time: int): int
    requires During(index, time)
  {
    FindFrame(index, time - index[0].start)
  }

  /** Frame `r` is on disk as it was received, and no frame began nearer to `time`. */
  predicate ServedAt(td: ST.Path, f: R.Session, es: seq<R.Event>, time: int, r: int)
    requires During(f.frames, time)
  {
    && 0 <= r < |es| && es[r].Frame?
    && R.Holds(td, f.files, r, es[r].buf)
    && LastNearest(f.frames, time - f.frames[0].start, r)
  }

  /** The index of a recording without failed stores covers the time from its start to the last frame. */
  lemma RecordingSpans(td: ST.Path, start: int, files: VS.FileSystem, es: seq<R.Event>)
    requires R.ClockRuns(start, es) && NoFailedStores(es) && 0 < |es| < TWO32
    ensures var ms := Finished(td, start, files, es).frames;
            |ms| == |es| && ms[0].start == start && Last(ms).end == es[|es| - 1].now
  {
    NumbersWithoutFailures(es);
    FinishedFromRun(td, start, files, es);
    R.RecordTimes(td, start, files, es, 0);
    R.RecordTimes(td, start, files, es, |es| - 1);
  }

  /** Record, store the index, read it back, look a moment up: at any time from the start to the last
      frame the stream is recognised, and the lookup gives a stored frame that began nearest to it. */
  lemma RecordedMomentIsServed(td: ST.Path, dirs: set<ST.Path>, start: int, files: VS.FileSystem, es: seq<R.Event>, time: int)
    requires R.ClockRuns(start, es) && NoFailedStores(es) && 0 < |es| < TWO32 && td in dirs
    requires start <= time < es[|es| - 1].now
    ensures var f := Finished(td, start, files, es);
            && ST.ReadIndex(dirs, f.files, td) == (Success, f.frames)
            && |f.frames| == |es|
            && 0 <= time && ST.RecordedAt(dirs, f.files, td, time)
            && During(f.frames, time) && f.frames[0].start == start
            && ServedAt(td, f, es, time, Lookup(f.frames, time))
  {
    var f := Finished(td, start, files, es);
    NumbersWithoutFailures(es);
    RecordingSpans(td, start, files, es);
    IndexOfRecording(td, dirs, start, files, es);
    LookupInRecording(td, start, files, es, time);
    FramesOfRecording(td, start, files, es, Lookup(f.frames, time));
    IndexRecords(dirs, f.files, td, f.frames, time);
  }

  /** An index that was read and covers the time. */
  lemma IndexRecords(dirs: set<ST.Path>, files: VS.FileSystem, td: ST.Path, index: seq<FrameMeta>, time: nat)
    requires ST.ReadIndex(dirs, files, td) == (Success, index) && Ordered(index) && SomeCovers(index, time)
    requires time < TWO63
    ensures ST.RecordedAt(dirs, files, td, time)
  {
    var k :| 0 <= k < |index| && Covers(index[k], time);
  }

  /** If no other listed stream contains the moment, the search by time gives the recorded one. */
  lemma RecordedMomentIsFound(baseDir: ST.Path, trainId: ST.Path, dirs: set<ST.Path>, start: int, files: VS.FileSystem,
                              es: seq<R.Event>, time: nat, streams: seq<ST.Path>, found: Option<ST.Path>)
    requires R.ClockRuns(start, es) && NoFailedStores(es) && 0 < |es| < TWO32 && AppendPath(baseDir, trainId) in dirs
    requires start <= time < es[|es| - 1].now && trainId in streams
    requires var fs := Finished(AppendPath(baseDir, trainId), start, files, es).files;
             && ST.IsFound(dirs, fs, baseDir, streams, time, found)
             && forall s :: s in streams && s != trainId ==> !ST.RecordedAt(dirs, fs, AppendPath(baseDir, s), time)
    ensures found == Some(trainId)
  {
    var td := AppendPath(baseDir, trainId);
    RecordedMomentIsServed(td, dirs, start, files, es, time);
    ST.OnlyOneFound(dirs, Finished(td, start, files, es).files, baseDir, streams, time, trainId, found);
  }

  lemma LookupInRecording(td: ST.Path, start: int, files: VS.FileSystem, es: seq<R.Event>, time: int)
    requires var index := Finished(td, start, files, es).frames;
             During(index, time) && Ordered(index) && Contiguous(index)
    ensures var index := Finished(td, start, files, es).frames;
            && 0 <= time < TWO63 && SomeCovers(index, time)
            && LastNearest(index, time - index[0].start, Lookup(index, time))
  {
    var index := Finished(td, start, files, es).frames;
    ContiguousCovers(index, time);
    FindFrameAfterStart(index, time - index[0].start);
  }

  /** The request for a moment: its distance from the start of the recording, in decimal. */
  function Request(start: int, time: int): seq<seq<Byte>>
  {
    SV.Printed([time - start])
  }

  /** A request for the moment alone selects that frame alone. */
  lemma MomentSelects(index: seq<FrameMeta>, time: int)
    requires During(index, time) && Ordered(index)
    ensures Lookup(index, time) >= 0 && SV.Chosen(index, Request(index[0].start, time)) == [Lookup(index, time)]
  {
    var t := time - index[0].start;
    SV.PrintedTimesRead([t]);
    FindFrameAfterStart(index, t);
    FitsUint64(t);
    assert Unsigned([t]) == [t];
    assert [t][1..] == [];
    assert SortTimes([t]) == [t];
  }

  lemma SingleFrame(fs: VS.FileSystem, td: ST.Path, r: nat)
    requires ST.FramePath(td, r) in fs && |fs[ST.FramePath(td, r)]| >= VS.RAW_SIZE
    ensures VS.FileEntries(fs, ST.PathsOf(td, [r])) == Opened([FrameEntry(fs, td, r)])
  {
    StoredEntry(fs, td, r);
    var left := VS.FileEntries(fs, ST.PathsOf(td, [r]));
    assert |left| == 1 && left[0] == Some(FrameEntry(fs, td, r));
  }

  lemma ServedFiles(td: ST.Path, f: R.Session, es: seq<R.Event>, time: int, r: nat)
    requires During(f.frames, time) && Ordered(f.frames) && r == Lookup(f.frames, time)
    requires WholeImages(es) && ServedAt(td, f, es, time, r)
    ensures VS.FileEntries(f.files, ST.PathsOf(td, SV.Chosen(f.frames, Request(f.frames[0].start, time)))) ==
            Opened([CameraEntry(es[r].buf, r)])
  {
    MomentSelects(f.frames, time);
    SingleFrame(f.files, td, r);
  }

  /** What a client receives, in the server's blocks, of one image. */
  predicate ImageReceived(files: Files, buf: seq<Byte>, r: nat, calls: nat)
    requires |buf| >= VS.RAW_SIZE
  {
    var run, image := Calls(files, START, Repeat(SERVER_BLOCK, calls)), [CameraEntry(buf, r)];
    && run.Done?
    && (EOF in run.results ==> Parse(Flatten(run.chunks)) == Some(image))
    && (calls * SERVER_BLOCK >= |Encode(image)| + SERVER_BLOCK ==> EOF in run.results)
  }

  lemma ImageDownload(files: Files, buf: seq<Byte>, r: nat, calls: nat)
    requires |buf| >= VS.RAW_SIZE && files == Opened([CameraEntry(buf, r)])
    ensures Encodable([CameraEntry(buf, r)])
    ensures ImageReceived(files, buf, r, calls)
  {
    FrameNameIsName(r);
    FrameDownload(CameraEntry(buf, r), calls);
  }

  /** And a request for that moment, as the client writes it, opens a stream that serves that frame alone,
      as it came from the camera: what the client has received at the end parses to it. */
  lemma MomentOpensFrame(td: ST.Path, start: int, files: VS.FileSystem, es: seq<R.Event>, f: R.Session, time: int, calls: nat)
    returns (r: nat)
    requires R.ClockRuns(start, es) && NoFailedStores(es) && 0 < |es| < TWO32 && WholeImages(es)
    requires f == Finished(td, start, files, es) && start <= time < es[|es| - 1].now
    ensures During(f.frames, time) && r < |es| && ServedAt(td, f, es, time, r)
    ensures var served := VS.FileEntries(f.files, ST.PathsOf(td, SV.Chosen(f.frames, Request(start, time))));
            && served == Opened([CameraEntry(es[r].buf, r)]) && Encodable([CameraEntry(es[r].buf, r)])
            && ImageReceived(served, es[r].buf, r, calls)
  {
    RecordedMomentIsServed(td, {td}, start, files, es, time);
    NumbersWithoutFailures(es);
    IndexOfRecording(td, {td}, start, files, es);
    r := Lookup(f.frames, time);
    ServedFiles(td, f, es, time, r);
    ImageDownload(VS.FileEntries(f.files, ST.PathsOf(td, SV.Chosen(f.frames, Request(f.frames[0].start, time)))), es[r].buf, r, calls);
  }
}
