/** The capture session: the frame callback, and the index written when the stream stops. */
module Camera {
  import opened Bytes
  import opened Lpxstd
  import opened LinkedList
  import opened FrameIndex
  import opened Recorder
  import VS = VideoStream
  import ST = Storage

  class CaptureSession {
    const storage: ST.Storage
    const trainId: ST.Path
    var frameIndex: nat
    var frameReqTime: int
    const frames: List<FrameMeta>
    var stopping: bool

    ghost predicate Valid()
      reads this, frames, frames.Repr
    {
      && frames.Valid()
      && frameIndex < TWO32
      && (this as object) !in frames.Repr && (storage as object) !in frames.Repr
    }

    function Dir(): ST.Path
    {
      storage.TrainDir(trainId)
    }

    /** The session as the step system sees it. */
    ghost function State(): Session
      reads this, frames, storage
    {
      Session(frameIndex, frameReqTime, frames.Contents, stopping, storage.files)
    }

    /** The part of `camera_start_stream` after the directory was made. */
    constructor (storage: ST.Storage, trainId: ST.Path, now: int)
      ensures Valid() && this.storage == storage && this.trainId == trainId
      ensures fresh(frames) && fresh(frames.Repr)
      ensures State() == Begin(now, storage.files)
    {
      this.storage := storage;
      this.trainId := trainId;
      frameIndex := 0;
      frameReqTime := now;
      frames := new List<FrameMeta>();
      stopping := false;
    }

    /** `now` is the clock after the store; `error` is what the error callback is given. */
    method HandleFrame(buffer: seq<Byte>, canOpen: bool, now: int) returns (error: Option<Status>)
      requires Valid()
      modifies this`frameIndex, this`frameReqTime, frames.Repr, storage`files
      ensures Valid() && fresh(frames.Repr - old(frames.Repr))
      ensures State() == Step(Dir(), old(State()), Frame(buffer, canOpen && Dir() in storage.dirs, now))
      ensures error == (
                if stopping || (canOpen && Dir() in storage.dirs) then None
                else if Dir() in storage.dirs then Some(IoError) else Some(NotFound))
      ensures old(storage.Rooted()) ==> storage.Rooted()
    {
      if stopping {
        return None;
      }
      var idx := frameIndex;
      frameIndex := (frameIndex + 1) % TWO32;
      var r := storage.StoreFrame(trainId, idx, buffer, canOpen);
      if r != Success {
        return Some(r);
      }
      frames.Append(FrameMeta(frameReqTime, now));
      frameReqTime := now;
      return None;
    }

    /** Writes nothing for an empty recording. `reports` is what the error callback is given; a missing
        directory leaves `errno` set, so it is also the result. */
    method WriteFrameIndex() returns (res: Status, reports: seq<Status>)
      requires Valid() && |frames.Contents| < TWO32
      modifies storage`files
      ensures Valid()
      ensures storage.files ==
              if frames.Contents != [] && Dir() in storage.dirs
              then old(storage.files)[ST.IndexPath(Dir()) := PrintIndex(frames.Contents)]
              else old(storage.files)
      ensures old(storage.Rooted()) ==> storage.Rooted()
      ensures (res, reports) ==
              if frames.Contents != [] && Dir() !in storage.dirs then (CameraStorage, [NotFound]) else (Success, [])
    {
      var framesCnt := frames.Size();
      if framesCnt == 0 {
        return Success, [];
      }
      var frameArray := new FrameMeta[framesCnt];
      frames.ToArray(frameArray);
      assert frameArray[..] == frames.Contents;
      var r := storage.StoreStreamIdx(trainId, frameArray);
      if r != Success {
        return CameraStorage, [r];
      }
      return Success, [];
    }

    /** A second stop is ignored. A failure to write the index is reported with its own code and again
        with the camera's. */
    method StopStream() returns (reports: seq<Status>)
      requires Valid() && |frames.Contents| < TWO32
      modifies this`stopping, storage`files
      ensures Valid()
      ensures State() == Step(Dir(), old(State()), Stop(Dir() in storage.dirs))
      ensures old(storage.Rooted()) ==> storage.Rooted()
      ensures reports ==
              if !old(stopping) && frames.Contents != [] && Dir() !in storage.dirs then [NotFound, CameraStorage] else []
    {
      if stopping {
        return [];
      }
      stopping := true;
      var res;
      res, reports := WriteFrameIndex();
      if res != Success {
        reports := reports + [res];
      }
    }
  }

  /** Refuses a train whose directory exists; a directory just made holds no frames. */
  method StartStream(storage: ST.Storage, trainId: ST.Path, now: int) returns (session: CaptureSession?)
    modifies storage`dirs
    ensures session == null <==> storage.TrainDir(trainId) in old(storage.dirs)
    ensures storage.dirs == old(storage.dirs) + {storage.TrainDir(trainId)}
    ensures old(storage.Rooted()) ==> storage.Rooted() && (session != null ==> ST.NoFrames(storage.TrainDir(trainId), storage.files))
    ensures session != null ==>
              && fresh(session) && session.Valid() && session.storage == storage && session.trainId == trainId
              && session.State() == Begin(now, storage.files)
  {
    var r := storage.Prepare(trainId);
    if r != Success {
      return null;
    }
    session := new CaptureSession(storage, trainId, now);
  }
}
