/** Recordings on disk: a directory for each train, numbered frame files and an index in it. */
module Storage {
  import opened Bytes
  import opened Lpxstd
  import opened Text
  import opened LinkedList
  import opened FrameIndex
  import opened FrameLookup
  import opened Archive
  import opened Bmp
  import VS = VideoStream

  type Path = VS.Path

  /** "index.csv" */
  const INDEX_NAME: seq<Byte> := [105, 110, 100, 101, 120, 46, 99, 115, 118]

  function FramePath(td: Path, idx: nat): Path
  {
    AppendPath(td, FrameName(idx))
  }

  function IndexPath(td: Path): Path
  {
    AppendPath(td, INDEX_NAME)
  }

  /** Frame files of one directory are told apart by their numbers, and from the index. */
  lemma FramePathsDiffer(td: Path, i: nat, j: nat)
    requires i < j < Pow10(15)
    ensures FramePath(td, i) != FramePath(td, j)
    ensures FramePath(td, i) != IndexPath(td)
  {
    if FramePath(td, i) == FramePath(td, j) {
      SameChild(td, FrameName(i), FrameName(j));
      FrameNameInjective(i, j);
    }
    FramePathIsNotIndex(td, i);
  }

  lemma FramePathIsNotIndex(td: Path, i: nat)
    ensures FramePath(td, i) != IndexPath(td)
  {
    assert FrameName(i)[0] == PrintInt(ToInt64(i))[0] != INDEX_NAME[0];
    if FramePath(td, i) == IndexPath(td) {
      SameChild(td, FrameName(i), INDEX_NAME);
    }
  }

  /** No frame file of the directory is there. */
  ghost predicate NoFrames(td: Path, files: VS.FileSystem)
  {
    forall i: nat :: FramePath(td, i) !in files
  }

  /** Every file is in a directory that exists. */
  ghost predicate InDirs(dirs: set<Path>, files: VS.FileSystem)
  {
    forall p :: p in files ==> ParentOf(p) in dirs
  }

  lemma ParentOfFrame(td: Path, i: nat)
    ensures ParentOf(FramePath(td, i)) == td
    ensures ParentOf(IndexPath(td)) == td
  {
    FrameNameIsName(i);
    ParentOfChild(td, FrameName(i));
    ParentOfChild(td, INDEX_NAME);
  }

  lemma MissingDirHasNoFrames(dirs: set<Path>, files: VS.FileSystem, td: Path)
    requires InDirs(dirs, files) && td !in dirs
    ensures NoFrames(td, files)
  {
    forall i: nat
      ensures FramePath(td, i) !in files
    {
      ParentOfFrame(td, i);
    }
  }

  lemma SameChild(td: Path, a: seq<Byte>, b: seq<Byte>)
    requires AppendPath(td, a) == AppendPath(td, b)
    ensures a == b
  {
    var n := |td| + 1;
    assert AppendPath(td, a)[n..] == a;
    assert AppendPath(td, b)[n..] == b;
  }

  /** What reading the index of a train directory gives. */
  function ReadIndex(dirs: set<Path>, files: VS.FileSystem, td: Path): (r: (Status, seq<FrameMeta>))
    ensures r.0 != Success ==> r.1 == []
    ensures AllFit(r.1)
  {
    if td !in dirs || IndexPath(td) !in files then (NotFound, [])
    else
      match ParseIndex(files[IndexPath(td)])
      case None => (BadIndex, [])
      case Some(ms) => (Success, ms)
  }

  /** The stream in directory `td` is taken to contain `time`: its index can be read, and the time lies in
      some record. The largest time is never found. */
  predicate RecordedAt(dirs: set<Path>, files: VS.FileSystem, td: Path, time: nat)
  {
    && td in dirs && IndexPath(td) in files
    && match ParseIndex(files[IndexPath(td)])
       case None => false
       case Some(ms) =>
         time < TWO64 - 1 && exists k :: 0 <= k < |ms| && ToUint64(ms[k].start) <= time <= ToUint64(ms[k].end)
  }

  /** Stream number `i` of the listing contains the time, and none after it does. */
  predicate LastRecordedAt(dirs: set<Path>, files: VS.FileSystem, baseDir: Path, streams: seq<Path>, time: nat, i: nat)
  {
    && i < |streams| && RecordedAt(dirs, files, AppendPath(baseDir, streams[i]), time)
    && forall j :: i < j < |streams| ==> !RecordedAt(dirs, files, AppendPath(baseDir, streams[j]), time)
  }

  /** The last listed stream that contains the time, or none. */
  ghost predicate IsFound(dirs: set<Path>, files: VS.FileSystem, baseDir: Path, streams: seq<Path>, time: nat, found: Option<Path>)
  {
    match found
    case None => forall i :: 0 <= i < |streams| ==> !RecordedAt(dirs, files, AppendPath(baseDir, streams[i]), time)
    case Some(id) => exists i: nat :: LastRecordedAt(dirs, files, baseDir, streams, time, i) && streams[i] == id
  }

  /** For each listed stream, whether it contains the time. */
  ghost function Recorded(dirs: set<Path>, files: VS.FileSystem, baseDir: Path, streams: seq<Path>, time: nat): (yes: seq<bool>)
    ensures |yes| == |streams|
  {
    if streams == [] then []
    else
      var n := |streams| - 1;
      Recorded(dirs, files, baseDir, streams[..n], time) + [RecordedAt(dirs, files, AppendPath(baseDir, streams[n]), time)]
  }

  lemma {:induction false} RecordedIs(dirs: set<Path>, files: VS.FileSystem, baseDir: Path, streams: seq<Path>, time: nat, i: nat)
    requires i < |streams|
    ensures Recorded(dirs, files, baseDir, streams, time)[i] == RecordedAt(dirs, files, AppendPath(baseDir, streams[i]), time)
  {
    if i < |streams| - 1 {
      RecordedIs(dirs, files, baseDir, streams[..|streams| - 1], time, i);
    }
  }

  lemma LastIsFound(dirs: set<Path>, files: VS.FileSystem, baseDir: Path, streams: seq<Path>, time: nat, last: int)
    requires var yes := Recorded(dirs, files, baseDir, streams, time);
             && -1 <= last < |streams| && (last != -1 ==> yes[last])
             && forall k :: last < k < |streams| ==> !yes[k]
    ensures IsFound(dirs, files, baseDir, streams, time, if last == -1 then None else Some(streams[last]))
  {
    var yes := Recorded(dirs, files, baseDir, streams, time);
    forall k | 0 <= k < |streams|
      ensures yes[k] == RecordedAt(dirs, files, AppendPath(baseDir, streams[k]), time)
    {
      RecordedIs(dirs, files, baseDir, streams, time, k);
    }
    if last != -1 {
      assert LastRecordedAt(dirs, files, baseDir, streams, time, last);
    }
  }

  /** If only one listed stream contains the time, it is found. */
  lemma OnlyOneFound(dirs: set<Path>, files: VS.FileSystem, baseDir: Path, streams: seq<Path>, time: nat, id: Path,
                     found: Option<Path>)
    requires IsFound(dirs, files, baseDir, streams, time, found) && id in streams
    requires forall s :: s in streams ==> (RecordedAt(dirs, files, AppendPath(baseDir, s), time) <==> s == id)
    ensures found == Some(id)
  {
    var i :| 0 <= i < |streams| && streams[i] == id;
  }

  /** The paths of frames `offset`, `offset + 1`, ... below `n`. */
  function PathsFrom(td: Path, offset: nat, n: nat): (paths: seq<Path>)
  {
    seq(if offset < n then n - offset else 0, i requires 0 <= i => FramePath(td, i + offset))
  }

  function PathsOf(td: Path, idxs: seq<nat>): (paths: seq<Path>)
    ensures |paths| == |idxs|
  {
    seq(|idxs|, i requires 0 <= i < |idxs| => FramePath(td, idxs[i]))
  }

  /** The print loop. */
  method PrintRecords(index: array<FrameMeta>) returns (text: seq<Byte>)
    ensures text == PrintIndex(index[..])
  {
    text := [];
    for i := 0 to index.Length
      invariant text == PrintIndex(index[..i])
    {
      PrintIndexAppend(index[..i], index[i]);
      assert index[..i + 1] == index[..i] + [index[i]];
      text := text + PrintLine(index[i]);
    }
    assert index[..index.Length] == index[..];
  }

  /** One round of the scan loop; `before` are the records so far. */
  method ScanNext(text: seq<Byte>, pos: nat, ghost before: seq<FrameMeta>, ghost whole: Option<seq<FrameMeta>>)
    returns (frame: Option<FrameMeta>, next: nat)
    requires pos < |text| && whole == Prepend(before, ParseIndex(text[pos..]))
    ensures frame.None? ==> whole == None
    ensures frame.Some? ==> pos < next <= |text| && whole == Prepend(before + [frame.value], ParseIndex(text[next..]))
  {
    var line := LineLength(text[pos..], LINE_BUFFER - 1);
    next := pos + line;
    frame := ScanLine(text[pos..][..line]);
    assert text[pos..][line..] == text[next..];
    if frame.Some? {
      PrependTwice(before, [frame.value], ParseIndex(text[next..]));
    }
  }

  /** The scan loop: it stops at the first line that does not scan. */
  method ScanRecords(text: seq<Byte>) returns (ok: bool, frames: List<FrameMeta>)
    ensures frames.Valid() && fresh(frames.Repr)
    ensures ParseIndex(text) == if ok then Some(frames.Contents) else None
  {
    frames := new List<FrameMeta>();
    var pos := 0;
    ghost var whole := ParseIndex(text);
    PrependNothing(whole);
    assert text[0..] == text;
    while pos < |text|
      invariant pos <= |text|
      invariant frames.Valid() && fresh(frames.Repr)
      invariant whole == Prepend(frames.Contents, ParseIndex(text[pos..]))
    {
      var frame, next := ScanNext(text, pos, frames.Contents, whole);
      if frame.None? {
        return false, frames;
      }
      frames.Append(frame.value);
      pos := next;
    }
    assert text[pos..] == [];
    assert frames.Contents + [] == frames.Contents;
    return true, frames;
  }

  /** The list that was read, as an array of its 32-bit size. */
  method ReadRecords(text: seq<Byte>) returns (ok: bool, index: array<FrameMeta>)
    requires ParseIndex(text).Some? ==> |ParseIndex(text).value| < TWO32
    ensures fresh(index)
    ensures ok == ParseIndex(text).Some?
    ensures index[..] == if ok then ParseIndex(text).value else []
  {
    var frames;
    ok, frames := ScanRecords(text);
    if !ok {
      index := new FrameMeta[0];
      return;
    }
    var n := frames.Size();
    index := new FrameMeta[n];
    frames.ToArray(index);
  }

  method FillPaths(td: Path, offsetIdx: nat, indexSize: nat) returns (paths: array<Path>)
    ensures paths[..] == PathsFrom(td, offsetIdx, indexSize)
  {
    ghost var all := PathsFrom(td, offsetIdx, indexSize);
    var filesSize := if offsetIdx < indexSize then indexSize - offsetIdx else 0;
    paths := new Path[filesSize](_ => []);
    for i := 0 to filesSize
      invariant paths[..i] == all[..i]
    {
      paths[i] := FramePath(td, i + offsetIdx);
      assert paths[..i + 1] == paths[..i] + [all[i]];
    }
    assert paths[..] == paths[..filesSize];
  }

  /** The traversal of the list of frame numbers. */
  method CollectPaths(td: Path, frameIndexes: List<nat>) returns (paths: seq<Path>)
    requires frameIndexes.Valid()
    ensures paths == PathsOf(td, frameIndexes.Contents)
  {
    ghost var idxs := frameIndexes.Contents;
    paths := [];
    var iter := new ListIter<nat>(frameIndexes);
    var more := iter.Advance();
    while more
      invariant iter.Valid() && fresh(iter) && iter.list == frameIndexes
      invariant iter.pos == |paths| + 1 && |paths| <= |idxs| && (more <==> |paths| < |idxs|)
      invariant paths == PathsOf(td, idxs[..|paths|])
      decreases |idxs| - |paths|
    {
      var data := iter.Peek();
      PathsOfNext(td, idxs, |paths|);
      paths := paths + [FramePath(td, data.value)];
      more := iter.Advance();
    }
    assert idxs[..|paths|] == idxs;
  }

  lemma PathsOfNext(td: Path, idxs: seq<nat>, n: nat)
    requires n < |idxs|
    ensures PathsOf(td, idxs[..n + 1]) == PathsOf(td, idxs[..n]) + [FramePath(td, idxs[n])]
  {
  }

  class Storage {
    const baseDir: Path
    var dirs: set<Path>
    var files: VS.FileSystem

    constructor (baseDir: Path)
      ensures this.baseDir == baseDir && dirs == {} && files == map[] && Rooted()
    {
      this.baseDir := baseDir;
      dirs, files := {}, map[];
    }

    function TrainDir(trainId: Path): Path
    {
      AppendPath(baseDir, trainId)
    }

    ghost predicate Rooted()
      reads this
    {
      InDirs(dirs, files)
    }

    method Prepare(trainId: Path) returns (res: Status)
      modifies this`dirs
      ensures res == if TrainDir(trainId) in old(dirs) then Exists else Success
      ensures dirs == old(dirs) + {TrainDir(trainId)}
      ensures old(Rooted()) ==> Rooted() && (res == Success ==> NoFrames(TrainDir(trainId), files))
    {
      var td := TrainDir(trainId);
      if Rooted() && td !in dirs {
        MissingDirHasNoFrames(dirs, files, td);
      }
      if td in dirs {
        return Exists;
      }
      dirs := dirs + {td};
      return Success;
    }

    /** `canOpen` is whether the frame file could be created; a short write is not noticed. */
    method StoreFrame(trainId: Path, frameIdx: nat, buf: seq<Byte>, canOpen: bool) returns (res: Status)
      modifies this`files
      ensures res == if TrainDir(trainId) !in dirs then NotFound else if canOpen then Success else IoError
      ensures files == if res == Success then old(files)[FramePath(TrainDir(trainId), frameIdx) := buf] else old(files)
      ensures old(Rooted()) ==> Rooted()
    {
      ParentOfFrame(TrainDir(trainId), frameIdx);
      var td := TrainDir(trainId);
      if td !in dirs {
        return NotFound;
      }
      var fp := FramePath(td, frameIdx);
      if !canOpen {
        return IoError;
      }
      files := files[fp := buf];
      return Success;
    }

    method StoreStreamIdx(trainId: Path, index: array<FrameMeta>) returns (res: Status)
      modifies this`files
      ensures res == if TrainDir(trainId) in dirs then Success else NotFound
      ensures files == if res == Success then old(files)[IndexPath(TrainDir(trainId)) := PrintIndex(index[..])] else old(files)
      ensures old(Rooted()) ==> Rooted()
    {
      ParentOfFrame(TrainDir(trainId), 0);
      var td := TrainDir(trainId);
      if td !in dirs {
        return NotFound;
      }
      ghost var ms := index[..];
      var text := PrintRecords(index);
      files := files[IndexPath(td) := text];
      assert index[..] == ms;
      return Success;
    }

    /** An empty array stands for the NULL of an empty index. */
    method ReadStreamIdx(trainId: Path) returns (res: Status, index: array<FrameMeta>)
      requires ShortIndex(TrainDir(trainId))
      ensures fresh(index)
      ensures res == ReadIndex(dirs, files, TrainDir(trainId)).0
      ensures index[..] == ReadIndex(dirs, files, TrainDir(trainId)).1
      ensures TrainDir(trainId) !in dirs || IndexPath(TrainDir(trainId)) !in files ==> res == NotFound
      ensures TrainDir(trainId) in dirs && IndexPath(TrainDir(trainId)) in files ==>
                match ParseIndex(files[IndexPath(TrainDir(trainId))])
                case None => res == BadIndex
                case Some(ms) => res == Success && index[..] == ms
    {
      var td := TrainDir(trainId);
      if td !in dirs || IndexPath(td) !in files {
        index := new FrameMeta[0];
        return NotFound, index;
      }
      var ok;
      ok, index := ReadRecords(files[IndexPath(td)]);
      res := if ok then Success else BadIndex;
    }

    /** The search loop: the position of the last stream that contains the time, or -1. */
    method FindLast(time: nat, streams: seq<Path>) returns (last: int)
      requires time < TWO64
      requires forall i :: 0 <= i < |streams| ==> ShortIndex(TrainDir(streams[i]))
      ensures var yes := Recorded(dirs, files, baseDir, streams, time);
              && -1 <= last < |streams| && (last != -1 ==> yes[last])
              && forall k :: last < k < |streams| ==> !yes[k]
    {
      last := -1;
      ghost var yes := Recorded(dirs, files, baseDir, streams, time);
      for i := 0 to |streams|
        invariant -1 <= last < i && (last != -1 ==> yes[last])
        invariant forall k :: last < k < i ==> !yes[k]
      {
        var answers := AnswersOne(streams[i], time, streams, i);
        if answers {
          last := i;
        }
      }
    }

    /** `streams` is the directory listing. */
    method FindStream(time: nat, streams: seq<Path>) returns (trainId: Option<Path>)
      requires time < TWO64
      requires forall i :: 0 <= i < |streams| ==> ShortIndex(TrainDir(streams[i]))
      ensures IsFound(dirs, files, baseDir, streams, time, trainId)
    {
      var last := FindLast(time, streams);
      LastIsFound(dirs, files, baseDir, streams, time, last);
      trainId := if last == -1 then None else Some(streams[last]);
    }

    /** One round of the search: unreadable streams are passed over. */
    method AnswersOne(trainId: Path, time: nat, ghost streams: seq<Path>, ghost i: nat) returns (b: bool)
      requires time < TWO64 && ShortIndex(TrainDir(trainId))
      requires i < |streams| && streams[i] == trainId
      ensures b == Recorded(dirs, files, baseDir, streams, time)[i]
    {
      RecordedIs(dirs, files, baseDir, streams, time, i);
      var res, index := ReadStreamIdx(trainId);
      if res != Success {
        return false;
      }
      var idx := StreamFindFrameAbs(index, time);
      FindFrameAbsMeaning(index[..], time);
      return idx != -1;
    }

    /** The record count is kept in 32 bits. */
    predicate ShortIndex(td: Path)
      reads this
    {
      |ReadIndex(dirs, files, td).1| < TWO32
    }

    /** Directory and index are there, and the index can be parsed. */
    predicate Readable(td: Path)
      reads this
    {
      td in dirs && IndexPath(td) in files && ParseIndex(files[IndexPath(td)]).Some?
    }

    /** The archive of all frames from number `offsetIdx` on. */
    method OpenStream(trainId: Path, offsetIdx: nat, pixels: PixelMap) returns (res: Status, stream: VS.VideoStream?)
      requires pixels.Valid() && ShortIndex(TrainDir(trainId))
      requires VS.WholeFrames(files, PathsFrom(TrainDir(trainId), offsetIdx, |ReadIndex(dirs, files, TrainDir(trainId)).1|))
      ensures res == if Readable(TrainDir(trainId)) then Success else IoError
      ensures res != Success ==> stream == null
      ensures res == Success ==>
                && fresh(stream) && stream.Valid() && stream.fs == files && stream.pixels == pixels
                && stream.filePaths == PathsFrom(TrainDir(trainId), offsetIdx, |ReadIndex(dirs, files, TrainDir(trainId)).1|)
                && stream.State() == VS.SM.START
    {
      var td := TrainDir(trainId);
      var r, index := ReadStreamIdx(trainId);
      if r != Success {
        return IoError, null;
      }
      var paths := FillPaths(td, offsetIdx, index.Length);
      stream := new VS.VideoStream(paths[..], files, pixels);
      return Success, stream;
    }

    /** The archive of the frames with the listed numbers. */
    method OpenStreamFrames(trainId: Path, frameIndexes: List<nat>, pixels: PixelMap)
      returns (res: Status, stream: VS.VideoStream?)
      requires pixels.Valid() && ShortIndex(TrainDir(trainId))
      requires frameIndexes.Valid() && |frameIndexes.Contents| < TWO32
      requires VS.WholeFrames(files, PathsOf(TrainDir(trainId), frameIndexes.Contents))
      ensures res == if Readable(TrainDir(trainId)) then Success else IoError
      ensures res != Success ==> stream == null
      ensures res == Success ==>
                && fresh(stream) && stream.Valid() && stream.fs == files && stream.pixels == pixels
                && stream.filePaths == PathsOf(TrainDir(trainId), frameIndexes.Contents)
                && stream.State() == VS.SM.START
    {
      var td := TrainDir(trainId);
      var r, index := ReadStreamIdx(trainId);
      if r != Success {
        return IoError, null;
      }
      var paths := CollectPaths(td, frameIndexes);
      stream := new VS.VideoStream(paths, files, pixels);
      return Success, stream;
    }
  }

  lemma PrependNothing<T>(r: Option<seq<T>>)
    ensures Prepend([], r) == r
  {
    if r.Some? {
      assert [] + r.value == r.value;
    }
  }

  lemma PrependTwice<T>(xs: seq<T>, ys: seq<T>, r: Option<seq<T>>)
    ensures Prepend(xs, Prepend(ys, r)) == Prepend(xs + ys, r)
  {
    if r.Some? {
      assert xs + (ys + r.value) == xs + ys + r.value;
    }
  }

  /** In directory "d": frame 7 is "d/7", and the index is "d/index.csv". */
  lemma PathBytes()
    ensures FramePath([100], 7) == [100, 47, 55]
    ensures IndexPath([100]) == [100, 47, 105, 110, 100, 101, 120, 46, 99, 115, 118]
  {
    FitsInt64(7);
  }
}
