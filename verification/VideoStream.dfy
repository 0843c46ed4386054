/** The archive writer itself: paths, an open frame file converted to BMP, and the caller's buffer. */
module VideoStream {
  import opened Bytes
  import opened Lpxstd
  import opened Text
  import opened Bmp
  import opened Archive
  import SM = StreamMachine

  type Path = seq<Byte>
  type FileSystem = map<Path, seq<Byte>>

  const WIDTH: nat := 1280
  const HEIGHT: nat := 800
  const RAW_SIZE: nat := 1536000

  /** What the archive holds for a path: its last component, and the frame as a BMP file. */
  function FileEntry(fs: FileSystem, path: Path): (e: Option<Entry>)
    ensures e.Some? ==> |e.value.bmp| == 1025078
  {
    if path in fs && |fs[path]| >= RAW_SIZE then
      Some(Entry(Basename(path), Raw12File(fs[path], WIDTH, HEIGHT)))
    else None
  }

  function FileEntries(fs: FileSystem, paths: seq<Path>): (files: SM.Files)
    ensures |files| == |paths|
  {
    seq(|paths|, i requires 0 <= i < |paths| => FileEntry(fs, paths[i]))
  }

  /** Frame files are whole frames; the unpacking reads that much of them without asking. */
  predicate WholeFrames(fs: FileSystem, paths: seq<Path>)
  {
    forall i :: 0 <= i < |paths| && paths[i] in fs ==> |fs[paths[i]]| >= RAW_SIZE
  }

  /** The name with its terminator, then the size. */
  method WriteHeader(buf: array<Byte>, pos: nat, name: seq<Byte>, size: nat) returns (read: nat)
    requires pos + |name| + 9 <= buf.Length
    modifies buf
    ensures read == |name| + 9
    ensures buf[..] == Overwrite(old(buf[..]), pos, name + [NUL] + LittleEndian(size, 8))
  {
    var terminated := name + [NUL];
    Memcpy(buf, pos, terminated);
    read := |terminated|;
    Memcpy(buf, pos + read, LittleEndian(size, 8));
    OverwriteTwice(old(buf[..]), pos, terminated, LittleEndian(size, 8));
    read := read + 8;
  }

  /** The number of files is sent in 32 bits. */
  type Paths = paths: seq<Path> | |paths| < TWO32

  class VideoStream {
    var headerRead: bool
    const filePaths: Paths
    var nextFile: nat
    var fileOpen: bool
    var bmpStart: array<Byte>
    var bmp: nat

    /** The file system while the stream is read, and the truncation table of the process. */
    const fs: FileSystem
    const pixels: PixelMap

    /** The archive entries of the paths. */
    ghost const files: SM.Files := FileEntries(fs, filePaths)

    /** What the constant fields keep. */
    ghost predicate Served()
    {
      WholeFrames(fs, filePaths)
    }

    /** What every step keeps. */
    ghost predicate Ready()
      reads this, pixels, pixels.map_
    {
      && pixels.Valid()
      && bmpStart != pixels.map_
      && nextFile <= |files|
      && bmp <= bmpStart.Length
      && (!headerRead ==> !fileOpen)
    }

    ghost predicate Valid()
      reads this, pixels, pixels.map_
    {
      Ready() && Served()
    }

    ghost function State(): (st: SM.State)
      reads this, bmpStart
      requires bmp <= bmpStart.Length
    {
      SM.State(headerRead, nextFile, if fileOpen then Some(bmpStart[bmp..]) else None)
    }

    constructor (paths: Paths, fs: FileSystem, pixels: PixelMap)
      requires pixels.Valid() && WholeFrames(fs, paths)
      ensures Valid() && State() == SM.START && fresh(bmpStart)
      ensures filePaths == paths && this.fs == fs && this.pixels == pixels
    {
      headerRead := false;
      filePaths := paths;
      nextFile := 0;
      fileOpen := false;
      bmpStart := new Byte[0];
      bmp := 0;
      this.fs := fs;
      this.pixels := pixels;
    }

    method CloseCurrentFile()
      requires Ready() && Served()
      modifies this`fileOpen
      ensures Ready() && State() == old(State()).(cur := None)
    {
      fileOpen := false;
    }

    /** The next path, or why there is none. */
    method OpenNextFile() returns (code: SM.Code, path: Path)
      requires Ready() && Served() && headerRead && !fileOpen
      modifies this`nextFile, this`fileOpen
      ensures code == SM.Eof ==> old(nextFile) == |filePaths| && nextFile == old(nextFile) && !fileOpen
      ensures code != SM.Eof ==>
                && old(nextFile) < |filePaths|
                && nextFile == old(nextFile) + 1
                && (code == SM.Ok <==> filePaths[old(nextFile)] in fs)
                && fileOpen == (code == SM.Ok)
      ensures code == SM.Ok ==> path == filePaths[old(nextFile)]
    {
      path := [];
      if nextFile == |filePaths| {
        return SM.Eof, path;
      }
      var filename := filePaths[nextFile];
      nextFile := nextFile + 1;
      if filename !in fs {
        return SM.Io, path;
      }
      fileOpen := true;
      return SM.Ok, filename;
    }

    /** `fread` of the whole file, then the conversion. */
    method LoadBmp(path: Path)
      requires pixels.Valid() && path in fs && |fs[path]| >= RAW_SIZE
      modifies this`bmpStart, this`bmp, pixels, pixels.map_
      ensures pixels.Valid() && fresh(bmpStart) && bmp == 0
      ensures bmpStart[..] == Raw12File(fs[path], WIDTH, HEIGHT)
    {
      var content := fs[path];
      var rawBuf := new Byte[|content|];
      Memcpy(rawBuf, 0, content);
      assert rawBuf[..] == content;
      bmpStart := Raw12ToBmp(rawBuf, WIDTH, HEIGHT, pixels);
      bmp := 0;
    }

    /** The end of one part: as much of the open file as fits. */
    method CopyBmp(buf: array<Byte>, pos: nat, size: nat) returns (read: nat)
      requires Ready() && Served() && headerRead && fileOpen && pos + size <= buf.Length && buf != bmpStart && buf != pixels.map_
      modifies this`bmp, this`fileOpen, buf
      ensures Ready()
      ensures var o := SM.CopyCurrent(old(State()), size);
              State() == o.st && read == |o.out| && buf[..] == Overwrite(old(buf[..]), pos, o.out)
    {
      read := if size < bmpStart.Length - bmp then size else bmpStart.Length - bmp;
      Memcpy(buf, pos, bmpStart[bmp..bmp + read]);
      assert bmpStart[bmp..][..read] == bmpStart[bmp..bmp + read];
      assert bmpStart[bmp..][read..] == bmpStart[bmp + read..];
      bmp := bmp + read;
      if read < size {
        CloseCurrentFile();
      }
    }

    /** Opens the next file and has its BMP form ready. */
    method LoadNextFile() returns (code: SM.Code, path: Path)
      requires Ready() && Served() && headerRead && !fileOpen
      modifies this, pixels, pixels.map_
      ensures Ready() && (bmpStart == old(bmpStart) || fresh(bmpStart))
      ensures code != SM.Ok ==> Stopped(old(State()), code, State())
      ensures code == SM.Ok ==>
                && old(nextFile) < |filePaths| && files[old(nextFile)].Some?
                && fileOpen && bmp == 0 && headerRead && Basename(path) == files[old(nextFile)].value.name
                && bmpStart.Length == |files[old(nextFile)].value.bmp|
                && State() == SM.Loaded(old(State()), files[old(nextFile)].value)
    {
      code, path := OpenNextFile();
      if code == SM.Ok {
        assert files[nextFile - 1] == FileEntry(fs, path);
        LoadBmp(path);
        assert bmpStart[0..] == bmpStart[..];
      }
    }

    /** What an end or an open failure leaves. */
    ghost predicate Stopped(st: SM.State, code: SM.Code, st': SM.State)
    {
      if st.next >= |files| then code == SM.Eof && st' == st
      else code == SM.Io && files[st.next].None? && st' == st.(next := st.next + 1)
    }

    /** The part after the count. */
    method ReadBody(buf: array<Byte>, pos: nat, size: nat) returns (code: SM.Code, read: nat)
      requires Ready() && Served() && headerRead && pos + size <= buf.Length && buf != bmpStart && buf != pixels.map_
      requires SM.ReadBody(files, State(), size).Wrote?
      modifies this, pixels, pixels.map_, buf
      ensures Ready() && (bmpStart == old(bmpStart) || fresh(bmpStart))
      ensures Did(buf, old(buf[..]), pos, code, read, SM.ReadBody(files, old(State()), size))
    {
      if fileOpen {
        read := CopyBmp(buf, pos, size);
        return SM.Ok, read;
      }
      ghost var st := State();
      var path: Path;
      code, path := LoadNextFile();
      if code != SM.Ok {
        SM.UnloadedBody(files, st, size);
        OverwriteNothing(buf[..], pos);
        return code, 0;
      }
      SM.LoadedBody(files, st, size);
      read := WriteLoaded(buf, pos, size, Basename(path));
    }

    /** The header of the file just opened, and what fits of its bytes. */
    method WriteLoaded(buf: array<Byte>, pos: nat, size: nat, name: seq<Byte>) returns (read: nat)
      requires Ready() && Served() && headerRead && fileOpen && pos + size <= buf.Length && buf != bmpStart && buf != pixels.map_
      requires |name| + 9 <= size
      modifies this`bmp, this`fileOpen, buf
      ensures Ready()
      ensures var header := name + [NUL] + LittleEndian(bmpStart.Length, 8);
              var o := SM.After(header, SM.CopyCurrent(old(State()), size - |header|));
              Did(buf, old(buf[..]), pos, SM.Ok, read, o)
    {
      read := WriteHeader(buf, pos, name, bmpStart.Length);
      ghost var header, rest := name + [NUL] + LittleEndian(bmpStart.Length, 8), SM.CopyCurrent(State(), size - read);
      var copied := CopyBmp(buf, pos + read, size - read);
      OverwriteTwice(old(buf[..]), pos, header, rest.out);
      read := read + copied;
    }

    /** A piece of reading did what the state machine says, and the buffer holds its output. */
    ghost predicate Did(buf: array<Byte>, was: seq<Byte>, pos: nat, code: SM.Code, read: nat, o: SM.Outcome)
      reads this, bmpStart, buf
      requires bmp <= bmpStart.Length
    {
      && o.Wrote?
      && State() == o.st && code == o.code && read == |o.out|
      && pos + |o.out| <= |was|
      && buf[..] == Overwrite(was, pos, o.out)
    }

    method ReadPart(buf: array<Byte>, pos: nat, size: nat) returns (code: SM.Code, read: nat)
      requires Ready() && Served() && pos + size <= buf.Length && buf != bmpStart && buf != pixels.map_
      requires SM.ReadPart(files, State(), size).Wrote?
      modifies this, pixels, pixels.map_, buf
      ensures Ready() && (bmpStart == old(bmpStart) || fresh(bmpStart))
      ensures Did(buf, old(buf[..]), pos, code, read, SM.ReadPart(files, old(State()), size))
    {
      if headerRead {
        SM.CountedBody(files, State(), size);
        code, read := ReadBody(buf, pos, size);
      } else {
        SM.UncountedBody(files, State(), size);
        ghost var count := LittleEndian(|filePaths|, 4);
        Memcpy(buf, pos, LittleEndian(|filePaths|, 4));
        headerRead := true;
        ghost var body := SM.ReadBody(files, State(), size - 4);
        code, read := ReadBody(buf, pos + 4, size - 4);
        OverwriteTwice(old(buf[..]), pos, count, body.out);
        read := read + 4;
      }
    }

    /** Between two rounds of the loop: `sent` is in the buffer and the rest of the call is to come. */
    ghost predicate Underway(buf: array<Byte>, was: seq<Byte>, sent: seq<Byte>, available: nat, whole: SM.Outcome)
      reads this, bmpStart, buf
      requires bmp <= bmpStart.Length && nextFile <= |files|
    {
      && |sent| + available <= |was|
      && buf[..] == Overwrite(was, 0, sent)
      && SM.Continues(files, State(), available, sent, whole)
    }

    /** The call is over: `n` bytes were written, with `code` at the end. */
    ghost predicate Ended(buf: array<Byte>, was: seq<Byte>, whole: SM.Outcome, code: SM.Code, n: nat)
      reads this, bmpStart, buf
      requires bmp <= bmpStart.Length
    {
      && whole.Wrote? && whole.code == code && |whole.out| == n && State() == whole.st
      && n <= |was| && buf[..] == Overwrite(was, 0, whole.out)
    }

    /** Where the call is after a part that came back with `code`. */
    ghost predicate Progress(buf: array<Byte>, was: seq<Byte>, sent: seq<Byte>, available: nat, whole: SM.Outcome, code: SM.Code)
      reads this, bmpStart, buf
      requires bmp <= bmpStart.Length && nextFile <= |files|
    {
      if code == SM.Ok then Underway(buf, was, sent, available, whole) else Ended(buf, was, whole, code, |sent|)
    }

    /** One round of the loop. */
    method ReadRound(buf: array<Byte>, pos: nat, available: nat,
                     ghost was: seq<Byte>, ghost sent: seq<Byte>, ghost whole: SM.Outcome)
      returns (code: SM.Code, read: nat, ghost sent': seq<Byte>)
      requires Ready() && Served() && available > 0 && buf != bmpStart && buf != pixels.map_
      requires pos == |sent| && |was| == buf.Length && Underway(buf, was, sent, available, whole)
      modifies this, pixels, pixels.map_, buf
      ensures Ready() && (bmpStart == old(bmpStart) || fresh(bmpStart))
      ensures read <= available && |sent'| == pos + read
      ensures Progress(buf, was, sent', available - read, whole, code)
      ensures code == SM.Ok ==> read > 0 || (old(fileOpen) && !fileOpen)
    {
      ghost var st, before := State(), buf[..];
      ghost var part := SM.ReadPart(files, st, available);
      SM.RoundStep(files, st, available, sent, whole);
      code, read := ReadPart(buf, pos, available);
      sent' := sent + part.out;
      RoundDone(buf, was, before, available, sent, whole, code, read, part);
    }

    /** After a part the call goes on or is over. */
    lemma RoundDone(buf: array<Byte>, was: seq<Byte>, before: seq<Byte>, available: nat, sent: seq<Byte>,
                    whole: SM.Outcome, code: SM.Code, read: nat, part: SM.Outcome)
      requires bmp <= bmpStart.Length && nextFile <= |files|
      requires |sent| + available <= |was| && before == Overwrite(was, 0, sent)
      requires Did(buf, before, |sent|, code, read, part) && |part.out| <= available && part.st.next <= |files|
      requires part.code == SM.Ok ==> SM.Continues(files, part.st, available - |part.out|, sent + part.out, whole)
      requires part.code != SM.Ok ==> whole == SM.Wrote(sent + part.out, part.code, part.st)
      ensures read <= available && Progress(buf, was, sent + part.out, available - read, whole, code)
    {
      OverwriteTwice(was, 0, sent, part.out);
    }

    /** The loop of one call. */
    method FillBuffer(buf: array<Byte>, max: nat, ghost whole: SM.Outcome) returns (code: SM.Code, available: nat)
      requires Ready() && Served() && max <= buf.Length && buf != bmpStart && buf != pixels.map_
      requires Progress(buf, buf[..], [], max, whole, SM.Ok)
      modifies this, pixels, pixels.map_, buf
      ensures Ready() && (bmpStart == old(bmpStart) || fresh(bmpStart))
      ensures available <= max && Ended(buf, old(buf[..]), whole, code, max - available)
    {
      code, available := SM.Ok, max;
      var pos := 0;
      ghost var was, sent := buf[..], [];
      while available > 0 && code == SM.Ok
        invariant Ready() && (bmpStart == old(bmpStart) || fresh(bmpStart))
        invariant pos + available == max && pos == |sent|
        invariant Progress(buf, was, sent, available, whole, code)
        decreases code == SM.Ok, available, if fileOpen then 1 else 0
      {
        var read;
        code, read, sent := ReadRound(buf, pos, available, was, sent, whole);
        available, pos := available - read, pos + read;
      }
      Finish(buf, was, sent, available, whole, code);
    }

    /** Fills `buf` with up to `max` bytes of the archive. */
    method StreamRead(buf: array<Byte>, max: nat) returns (r: int)
      requires Valid() && max <= buf.Length && buf != bmpStart && buf != pixels.map_
      requires SM.ReadLoop(files, State(), max).Wrote?
      modifies this, pixels, pixels.map_, buf
      ensures Valid() && (bmpStart == old(bmpStart) || fresh(bmpStart))
      ensures var o := SM.ReadLoop(files, old(State()), max);
              State() == o.st && r == SM.Result(o) && buf[..] == Overwrite(old(buf[..]), 0, o.out)
    {
      Begin(buf, max);
      var code, available := FillBuffer(buf, max, SM.ReadLoop(files, State(), max));
      if code == SM.Eof && max == available {
        return SM.EOF;
      } else if code == SM.Io {
        return SM.STRM_IO;
      }
      return max - available;
    }

    lemma Begin(buf: array<Byte>, max: nat)
      requires Ready() && max <= buf.Length && SM.ReadLoop(files, State(), max).Wrote?
      ensures Progress(buf, buf[..], [], max, SM.ReadLoop(files, State(), max), SM.Ok)
    {
      OverwriteNothing(buf[..], 0);
      SM.AfterNothing(SM.ReadLoop(files, State(), max));
      SM.LoopContinues(files, State(), max, [], SM.ReadLoop(files, State(), max));
    }

    lemma Finish(buf: array<Byte>, was: seq<Byte>, sent: seq<Byte>, available: nat, whole: SM.Outcome, code: SM.Code)
      requires bmp <= bmpStart.Length && nextFile <= |files|
      requires Progress(buf, was, sent, available, whole, code) && (code == SM.Ok ==> available == 0)
      ensures Ended(buf, was, whole, code, |sent|)
    {
    }
  }
}
