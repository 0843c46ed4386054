/** The server's answer to a request for frames by time. */
module Server {
  import opened Bytes
  import opened Lpxstd
  import opened Text
  import opened LinkedList
  import opened FrameIndex
  import opened FrameLookup
  import opened FrameRequests
  import opened Bmp
  import VS = VideoStream
  import ST = Storage

  datatype Reply = Opened | BadRequest | InternalError

  /** One `frame_time` parameter: `strtoll`, where nothing may be left over and the two extremes count
      as errors. Text without digits leaves everything over; the empty text is zero. */
  function ParseTime(param: seq<Byte>): (r: Option<int>)
    ensures r.Some? ==> -TWO63 < r.value < TWO63 - 1
  {
    match ScanInt(param)
    case NoMatch => if param == [] then Some(0) else None
    case Match(v, rest) => if rest != [] || v == -TWO63 || v == TWO63 - 1 then None else Some(v)
  }

  /** The decimal form of a number is accepted, and read as that number, exactly between the 64-bit
      extremes; with anything behind it, it is refused. */
  lemma ParseTimeReads(x: int, rest: seq<Byte>)
    requires rest == [] || !IsDigit(rest[0])
    ensures ParseTime(PrintInt(x) + rest) == if rest == [] && -TWO63 < x < TWO63 - 1 then Some(x) else None
  {
    ScanIntReads(x, rest);
  }

  /** An empty parameter is zero; one that begins like no number is refused. */
  lemma ParseTimeOther(b: Byte, rest: seq<Byte>)
    requires !IsDigit(b) && !IsSpace(b) && b != 43 && b != 45
    ensures ParseTime([]) == Some(0) && ParseTime([b] + rest) == None
  {
  }

  /** None when some parameter is invalid. */
  function ParseTimes(params: seq<seq<Byte>>): (r: Option<seq<int>>)
    ensures r.Some? ==> |r.value| == |params|
  {
    if params == [] then Some([])
    else
      match (ParseTimes(params[..|params| - 1]), ParseTime(params[|params| - 1]))
      case (Some(xs), Some(x)) => Some(xs + [x])
      case _ => None
  }

  lemma {:induction false} ParseTimesPrefix(params: seq<seq<Byte>>, k: nat)
    requires k <= |params| && ParseTimes(params[..k]).None?
    ensures ParseTimes(params).None?
    decreases |params|
  {
    if k == |params| {
      assert params[..k] == params;
    } else {
      assert params[..|params| - 1][..k] == params[..k];
      ParseTimesPrefix(params[..|params| - 1], k);
    }
  }

  method QSort(times: array<nat>)
    modifies times
    ensures times[..] == SortTimes(old(times[..]))
  {
    var sorted := SortTimes(times[..]);
    forall i | 0 <= i < times.Length {
      times[i] := sorted[i];
    }
  }

  /** The parameters as unsigned numbers, in the order of the request. */
  method ReadTimes(params: List<seq<Byte>>) returns (ok: bool, times: seq<nat>)
    requires params.Valid()
    ensures ok <==> ParseTimes(params.Contents).Some?
    ensures ok ==> times == Unsigned(ParseTimes(params.Contents).value)
  {
    var iter := new ListIter<seq<Byte>>(params);
    var more := iter.Advance();
    ghost var all := params.Contents;
    times := [];
    while more
      invariant iter.Valid() && fresh(iter) && iter.list == params
      invariant iter.pos == |times| + 1 && |times| <= |all| && (more <==> |times| < |all|)
      invariant ParseTimes(all[..|times|]).Some? && times == Unsigned(ParseTimes(all[..|times|]).value)
      decreases |all| - |times|
    {
      var param := iter.Peek();
      var time := ParseTime(param.value);
      ghost var n := |times|;
      NextTime(all, n, times);
      if time.None? {
        ParseTimesPrefix(all, n + 1);
        return false, [];
      }
      times := times + [ToUint64(time.value)];
      more := iter.Advance();
    }
    assert all[..|times|] == all;
    return true, times;
  }

  lemma NextTime(all: seq<seq<Byte>>, n: nat, times: seq<nat>)
    requires n < |all| && ParseTimes(all[..n]).Some? && times == Unsigned(ParseTimes(all[..n]).value)
    ensures ParseTime(all[n]).None? ==> ParseTimes(all[..n + 1]).None?
    ensures ParseTime(all[n]).Some? ==>
              && ParseTimes(all[..n + 1]).Some?
              && times + [ToUint64(ParseTime(all[n]).value)] == Unsigned(ParseTimes(all[..n + 1]).value)
  {
    assert all[..n + 1][..n] == all[..n];
    if ParseTime(all[n]).Some? {
      var xs := ParseTimes(all[..n]).value;
      assert ParseTimes(all[..n + 1]) == Some(xs + [ParseTime(all[n]).value]);
    }
  }

  lemma TakeStep(index: seq<FrameMeta>, times: seq<nat>, i: nat, before: seq<nat>)
    requires index != [] && i < |times|
    requires TakeFound(index, times) == before + TakeFound(index, times[i..])
    ensures var r := FindFrame(index, times[i]);
            if r < 0 then TakeFound(index, times) == before
            else TakeFound(index, times) == before + [r] + TakeFound(index, times[i + 1..])
  {
    assert times[i..][1..] == times[i + 1..];
  }

  /** Looks the sorted times up, and stops at the first that lies after the recording. */
  method LookUp(index: array<FrameMeta>, times: array<nat>) returns (frameIndexes: List<nat>)
    requires index.Length > 0 || times.Length == 0
    ensures frameIndexes.Valid() && fresh(frameIndexes) && fresh(frameIndexes.Repr)
    ensures frameIndexes.Contents == if index.Length == 0 then [] else TakeFound(index[..], times[..])
  {
    frameIndexes := new List<nat>();
    ghost var ms, ts := index[..], times[..];
    for i := 0 to times.Length
      invariant frameIndexes.Valid() && fresh(frameIndexes) && fresh(frameIndexes.Repr)
      invariant index[..] == ms && times[..] == ts
      invariant index.Length == 0 ==> frameIndexes.Contents == []
      invariant index.Length > 0 ==> TakeFound(ms, ts) == frameIndexes.Contents + TakeFound(ms, ts[i..])
    {
      var sidx := StreamFindFrame(index, times[i]);
      TakeStep(ms, ts, i, frameIndexes.Contents);
      if sidx < 0 {
        return;
      }
      frameIndexes.Append(sidx);
    }
    assert ts[times.Length..] == [];
  }

  /** The requested times in an array, sorted, and looked up. */
  method SelectFrames(index: array<FrameMeta>, requested: seq<nat>) returns (frameIndexes: List<nat>)
    requires index.Length > 0 || requested == []
    ensures frameIndexes.Valid() && fresh(frameIndexes) && fresh(frameIndexes.Repr)
    ensures frameIndexes.Contents == if index.Length == 0 then [] else TakeFound(index[..], SortTimes(requested))
  {
    var frameTimes := new nat[|requested|](i requires 0 <= i < |requested| => requested[i]);
    assert frameTimes[..] == requested;
    ghost var ms := index[..];
    QSort(frameTimes);
    assert index[..] == ms;
    frameIndexes := LookUp(index, frameTimes);
  }

  // ---------------------------------------------------------------- what a request selects

  /** The frames a request selects, none if it is invalid. */
  function Chosen(index: seq<FrameMeta>, params: seq<seq<Byte>>): seq<nat>
  {
    if index == [] || ParseTimes(params).None? then [] else Selected(index, ParseTimes(params).value)
  }

  lemma {:induction false} ParseTimesMeaning(params: seq<seq<Byte>>)
    ensures ParseTimes(params).Some? <==> forall i :: 0 <= i < |params| ==> ParseTime(params[i]).Some?
    ensures ParseTimes(params).Some? ==>
              forall i :: 0 <= i < |params| ==> ParseTimes(params).value[i] == ParseTime(params[i]).value
  {
    if params != [] {
      var front, n := params[..|params| - 1], |params| - 1;
      ParseTimesMeaning(front);
      assert forall i :: 0 <= i < n ==> front[i] == params[i];
    }
  }

  /** A parameter as it is compared; invalid ones do not matter. */
  function TimeOf(param: seq<Byte>): nat
  {
    if ParseTime(param).Some? then ToUint64(ParseTime(param).value) else 0
  }

  /** The order of the parameters does not matter, whatever they are. */
  lemma RequestOrderIrrelevant(index: seq<FrameMeta>, params: seq<seq<Byte>>, params': seq<seq<Byte>>)
    requires multiset(params) == multiset(params')
    ensures Chosen(index, params) == Chosen(index, params')
  {
    ParseTimesMeaning(params);
    ParseTimesMeaning(params');
    SameElements(params, params');
    SameElements(params', params);
    if ParseTimes(params).Some? {
      MapPermutes(TimeOf, params, params');
      assert Unsigned(ParseTimes(params).value) == Mapped(TimeOf, params);
      assert Unsigned(ParseTimes(params').value) == Mapped(TimeOf, params');
      OrderOfRequestIrrelevant(Mapped(TimeOf, params), Mapped(TimeOf, params'));
    }
  }

  lemma SameElements<T>(s: seq<T>, t: seq<T>)
    requires multiset(s) == multiset(t)
    ensures forall i :: 0 <= i < |s| ==> s[i] in t
  {
    forall i | 0 <= i < |s|
      ensures s[i] in t
    {
      assert s[i] in multiset(t);
    }
  }

  /** For valid times from the start on: the selected frames ascend, and they are the results of exactly
      those lookups that find a frame, each as often as it was asked for. */
  lemma RequestSelects(index: seq<FrameMeta>, params: seq<seq<Byte>>)
    requires Ordered(index) && ParseTimes(params).Some?
    requires forall i :: 0 <= i < |params| ==> ParseTimes(params).value[i] >= 0
    ensures Sorted(Chosen(index, params))
    ensures multiset(Chosen(index, params)) == multiset(Hits(index, Unsigned(ParseTimes(params).value)))
  {
    ParseTimesMeaning(params);
    EarlyBreakLosesNothing(index, ParseTimes(params).value);
  }

  /** Any valid times: nothing is lost exactly unless one misses and a negative one does not. */
  lemma RequestLoses(index: seq<FrameMeta>, params: seq<seq<Byte>>)
    requires Ordered(index) && ParseTimes(params).Some? && AllAccepted(index, ParseTimes(params).value)
    ensures multiset(Chosen(index, params)) == multiset(Hits(index, Unsigned(ParseTimes(params).value))) <==>
            !MissAndNegativeHit(index, ParseTimes(params).value)
  {
    WhenBreakLosesNothing(index, ParseTimes(params).value);
  }

  /** A request as the client writes it. */
  function Printed(xs: seq<int>): (params: seq<seq<Byte>>)
    ensures |params| == |xs|
  {
    seq(|xs|, i requires 0 <= i < |xs| => PrintInt(xs[i]))
  }

  lemma PrintedTimesRead(xs: seq<int>)
    requires forall i :: 0 <= i < |xs| ==> -TWO63 < xs[i] < TWO63 - 1
    ensures ParseTimes(Printed(xs)) == Some(xs)
  {
    var params := Printed(xs);
    forall i | 0 <= i < |xs|
      ensures ParseTime(params[i]) == Some(xs[i])
    {
      ParseTimeReads(xs[i], []);
      assert PrintInt(xs[i]) + [] == params[i];
    }
    ParseTimesMeaning(params);
    assert ParseTimes(params).value == xs;
  }

  class LpxServer {
    const storage: ST.Storage
    const pixels: PixelMap

    constructor (storage: ST.Storage, pixels: PixelMap)
      ensures this.storage == storage && this.pixels == pixels
    {
      this.storage := storage;
      this.pixels := pixels;
    }

    /** The records of a stream, none if its index cannot be read. */
    ghost function Records(streamId: ST.Path): seq<FrameMeta>
      reads storage
    {
      ST.ReadIndex(storage.dirs, storage.files, storage.TrainDir(streamId)).1
    }

    /** The lookup reads the first record, so times may be asked for only where there is one. The files of
        the selected frames are whole. */
    method OpenStreamFrames(streamId: ST.Path, params: List<seq<Byte>>) returns (reply: Reply, stream: VS.VideoStream?)
      requires pixels.Valid() && params.Valid() && |params.Contents| < TWO32
      requires storage.ShortIndex(storage.TrainDir(streamId))
      requires ParseTimes(params.Contents).Some? && storage.Readable(storage.TrainDir(streamId)) ==>
                 Records(streamId) != [] || params.Contents == []
      requires VS.WholeFrames(storage.files, ST.PathsOf(storage.TrainDir(streamId), Chosen(Records(streamId), params.Contents)))
      ensures reply == (
                if ParseTimes(params.Contents).None? then BadRequest
                else if !storage.Readable(storage.TrainDir(streamId)) then InternalError
                else Opened)
      ensures reply == Opened ==>
                && stream != null && fresh(stream) && stream.Valid() && stream.State() == VS.SM.START
                && stream.fs == storage.files
                && stream.filePaths == ST.PathsOf(storage.TrainDir(streamId), Chosen(Records(streamId), params.Contents))
    {
      stream := null;
      var ok, requested := ReadTimes(params);
      if !ok {
        return BadRequest, stream;
      }
      var r, index := storage.ReadStreamIdx(streamId);
      if r != Success {
        return InternalError, stream;
      }
      var frameIndexes := SelectFrames(index, requested);
      assert frameIndexes.Contents == Chosen(Records(streamId), params.Contents);
      var res;
      res, stream := storage.OpenStreamFrames(streamId, frameIndexes, pixels);
      reply := if res == Success then Opened else InternalError;
    }
  }
}
