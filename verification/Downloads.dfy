/** What a client downloads from a stored recording. */
module Downloads {
  import opened Bytes
  import opened Lpxstd
  import opened Text
  import opened Archive
  import opened StreamMachine
  import opened StreamRuns
  import opened HeaderFit
  import opened Bmp
  import VS = VideoStream
  import ST = Storage

  /** Frames 0 to n - 1 are on disk, whole. */
  predicate HasFrames(fs: VS.FileSystem, td: ST.Path, n: nat)
  {
    forall i :: 0 <= i < n ==> ST.FramePath(td, i) in fs && |fs[ST.FramePath(td, i)]| >= VS.RAW_SIZE
  }

  /** The archive entry of frame `i`: its number, and its BMP form. */
  function FrameEntry(fs: VS.FileSystem, td: ST.Path, i: nat): (e: Entry)
    requires ST.FramePath(td, i) in fs && |fs[ST.FramePath(td, i)]| >= VS.RAW_SIZE
    ensures |e.bmp| == IMAGE_SIZE
  {
    Entry(FrameName(i), Raw12File(fs[ST.FramePath(td, i)], VS.WIDTH, VS.HEIGHT))
  }

  function FrameEntries(fs: VS.FileSystem, td: ST.Path, n: nat): (es: seq<Entry>)
    requires HasFrames(fs, td, n)
    ensures |es| == n
  {
    seq(n, i requires 0 <= i < n => FrameEntry(fs, td, i))
  }

  lemma StoredEntry(fs: VS.FileSystem, td: ST.Path, i: nat)
    requires ST.FramePath(td, i) in fs && |fs[ST.FramePath(td, i)]| >= VS.RAW_SIZE
    ensures VS.FileEntry(fs, ST.FramePath(td, i)) == Some(FrameEntry(fs, td, i))
  {
    FrameNameIsName(i);
    BasenameOfChild(td, FrameName(i));
  }

  /** The whole recording is served frame by frame, under the frames' numbers. */
  lemma StoredEntries(fs: VS.FileSystem, td: ST.Path, n: nat)
    requires HasFrames(fs, td, n)
    ensures VS.FileEntries(fs, ST.PathsFrom(td, 0, n)) == Opened(FrameEntries(fs, td, n))
  {
    forall i | 0 <= i < n
      ensures VS.FileEntry(fs, ST.FramePath(td, i)) == Some(FrameEntry(fs, td, i))
    {
      StoredEntry(fs, td, i);
    }
  }

  lemma PathsSuffix(td: ST.Path, k: nat, n: nat)
    ensures ST.PathsFrom(td, k, n) == ST.PathsFrom(td, 0, n)[Min(k, n)..]
  {
  }

  lemma FilesSuffix(fs: VS.FileSystem, paths: seq<ST.Path>, m: nat)
    requires m <= |paths|
    ensures VS.FileEntries(fs, paths[m..]) == VS.FileEntries(fs, paths)[m..]
  {
  }

  lemma OpenedSuffix(es: seq<Entry>, m: nat)
    requires m <= |es|
    ensures Opened(es[m..]) == Opened(es)[m..]
  {
  }

  /** The stream opened at frame `k` serves frames `k` to `n - 1`. */
  lemma OffsetEntries(fs: VS.FileSystem, td: ST.Path, k: nat, n: nat)
    requires HasFrames(fs, td, n)
    ensures VS.FileEntries(fs, ST.PathsFrom(td, k, n)) == Opened(FrameEntries(fs, td, n)[Min(k, n)..])
  {
    StoredEntries(fs, td, n);
    PathsSuffix(td, k, n);
    FilesSuffix(fs, ST.PathsFrom(td, 0, n), Min(k, n));
    OpenedSuffix(FrameEntries(fs, td, n), Min(k, n));
  }

  lemma {:induction false} BodySplits(es: seq<Entry>, k: nat)
    requires k <= |es|
    ensures Body(es) == Body(es[..k]) + Body(es[k..])
    ensures |Body(es[..k])| == BodyLength(es, k)
  {
    if k == 0 {
      assert es[0..] == es;
    } else {
      BodySplits(es, k - 1);
      var e := es[k - 1];
      BodyAppend(es[..k - 1], e);
      assert es[..k] == es[..k - 1] + [e];
      assert es[k - 1..][1..] == es[k..];
      ConcatAssociates(Body(es[..k - 1]), EncodeEntry(e), Body(es[k..]));
    }
  }

  lemma {:induction false} BodyAppend(es: seq<Entry>, e: Entry)
    ensures Body(es + [e]) == Body(es) + EncodeEntry(e)
  {
    if es == [] {
      assert ([e])[1..] == [];
    } else {
      BodyAppend(es[1..], e);
      assert (es + [e])[1..] == es[1..] + [e];
      ConcatAssociates(EncodeEntry(es[0]), Body(es[1..]), EncodeEntry(e));
    }
  }

  /** An archive of the last files is a count and the end of the archive of all. */
  lemma EncodeSuffix(es: seq<Entry>, m: nat)
    requires m <= |es|
    ensures 4 + BodyLength(es, m) <= |Encode(es)|
    ensures Encode(es[m..]) == LittleEndian(|es| - m, 4) + Encode(es)[4 + BodyLength(es, m)..]
  {
    BodySplits(es, m);
    assert Encode(es) == LittleEndian(|es|, 4) + Body(es[..m]) + Body(es[m..]);
    assert Encode(es)[4 + BodyLength(es, m)..] == Body(es[m..]);
  }

  /** What is left to send when the last files are opened. */
  lemma SuffixServed(files: Files, es: seq<Entry>, m: nat)
    requires m <= |es| && files == Opened(es[m..])
    ensures Remaining(files, START) == Encode(es[m..])
  {
    StartRemains(es[m..]);
  }

  /** The archive at an offset: the count of the frames left, then a suffix of the full archive, cut
      where frame `k` starts. */
  lemma OffsetArchiveIsSuffix(fs: VS.FileSystem, td: ST.Path, k: nat, n: nat)
    requires HasFrames(fs, td, n)
    ensures var es, files := FrameEntries(fs, td, n), VS.FileEntries(fs, ST.PathsFrom(td, k, n));
            && Remaining(files, START) == Encode(es[Min(k, n)..])
            && 4 + BodyLength(es, Min(k, n)) <= |Encode(es)|
            && Encode(es[Min(k, n)..]) == LittleEndian(n - Min(k, n), 4) + Encode(es)[4 + BodyLength(es, Min(k, n))..]
  {
    var es, m := FrameEntries(fs, td, n), Min(k, n);
    OffsetEntries(fs, td, k, n);
    SuffixServed(VS.FileEntries(fs, ST.PathsFrom(td, k, n)), es, m);
    EncodeSuffix(es, m);
  }

  /** The numbers k, k + 1, ..., n - 1. */
  function NumbersFrom(k: nat, n: nat): (s: seq<nat>)
    requires k <= n
  {
    seq(n - k, i requires 0 <= i => i + k)
  }

  /** Asking for the frames from `k` on one by one opens the same stream. */
  lemma OffsetIsFrames(td: ST.Path, k: nat, n: nat)
    requires k <= n
    ensures ST.PathsOf(td, NumbersFrom(k, n)) == ST.PathsFrom(td, k, n)
  {
  }

  /** A recording is stored under the names the server's block size was checked against. */
  lemma StoredIsWholeRecording(fs: VS.FileSystem, td: ST.Path, n: nat)
    requires HasFrames(fs, td, n) && n < TWO32
    ensures WholeRecording(FrameEntries(fs, td, n))
  {
  }

  lemma WholeRecordingEncodable(es: seq<Entry>)
    requires WholeRecording(es)
    ensures Encodable(es)
  {
    forall k | 0 <= k < |es|
      ensures EncodableEntry(es[k])
    {
      FrameNameIsName(k);
    }
  }

  lemma EnoughCalls(es: seq<Entry>, c: nat, r: nat)
    requires c > 0 && r * c >= |Encode(es)| + c && Calls(Opened(es), START, Repeat(c, r)).Done?
    ensures EOF in Calls(Opened(es), START, Repeat(c, r)).results
  {
    var maxes, n := Repeat(c, r), |Encode(es)|;
    assert r > 0 by {
      assert r == 0 ==> r * c == 0;
    }
    LateCall(c, r, n);
    ChunkIndependence(es, maxes);
    assert Calls(Opened(es), START, maxes).results[r - 1] == EOF;
  }

  /** By the last of enough calls everything has been sent. */
  lemma LateCall(c: nat, r: nat, n: nat)
    requires c > 0 && r > 0 && r * c >= n + c
    ensures Expected(n, Repeat(c, r), r - 1) == EOF
  {
    assert Repeat(c, r)[..r - 1] == Repeat(c, r - 1);
    TotalOfRepeat(c, r - 1);
    assert (r - 1) * c == r * c - c;
  }

  /** Read in blocks of one size, an archive that keeps within them parses to its files. */
  lemma DownloadInBlocks(es: seq<Entry>, c: nat, r: nat)
    requires Encodable(es) && c > 0 && Calls(Opened(es), START, Repeat(c, r)).Done?
    ensures var run := Calls(Opened(es), START, Repeat(c, r));
            && (EOF in run.results ==> Parse(Flatten(run.chunks)) == Some(es))
            && (r * c >= |Encode(es)| + c ==> EOF in run.results)
  {
    if EOF in Calls(Opened(es), START, Repeat(c, r)).results {
      DownloadRoundTrip(es, Repeat(c, r));
    }
    if r * c >= |Encode(es)| + c {
      EnoughCalls(es, c, r);
    }
  }

  lemma BlocksDownload(es: seq<Entry>, r: nat)
    requires WholeRecording(es) && |es| <= 498
    ensures var run := Calls(Opened(es), START, Repeat(SERVER_BLOCK, r));
            && run.Done?
            && (EOF in run.results ==> Parse(Flatten(run.chunks)) == Some(es))
            && (r * SERVER_BLOCK >= |Encode(es)| + SERVER_BLOCK ==> EOF in run.results)
  {
    ServerBlocksFit(es);
    assert Calls(Opened(es), START, Repeat(SERVER_BLOCK, r)).Done?;
    WholeRecordingEncodable(es);
    DownloadInBlocks(es, SERVER_BLOCK, r);
  }

  /** One frame alone always keeps within the server's blocks. */
  lemma FrameDownload(e: Entry, r: nat)
    requires EncodableEntry(e) && |e.name| <= 15
    ensures var run := Calls(Opened([e]), START, Repeat(SERVER_BLOCK, r));
            && run.Done?
            && (EOF in run.results ==> Parse(Flatten(run.chunks)) == Some([e]))
            && (r * SERVER_BLOCK >= |Encode([e])| + SERVER_BLOCK ==> EOF in run.results)
  {
    ConstantScheduleFits([e], SERVER_BLOCK);
    assert Calls(Opened([e]), START, Repeat(SERVER_BLOCK, r)).Done?;
    DownloadInBlocks([e], SERVER_BLOCK, r);
  }

  /** The whole way: a recording of up to 498 frames, read in the server's blocks until the end is
      reported, parses to its frames in order. */
  lemma ServerDownload(fs: VS.FileSystem, td: ST.Path, n: nat, r: nat)
    requires HasFrames(fs, td, n) && n <= 498
    ensures var run, es := Calls(VS.FileEntries(fs, ST.PathsFrom(td, 0, n)), START, Repeat(SERVER_BLOCK, r)), FrameEntries(fs, td, n);
            && run.Done?
            && (EOF in run.results ==> Parse(Flatten(run.chunks)) == Some(es))
            && (r * SERVER_BLOCK >= |Encode(es)| + SERVER_BLOCK ==> EOF in run.results)
  {
    var es := FrameEntries(fs, td, n);
    OffsetEntries(fs, td, 0, n);
    assert es[0..] == es;
    StoredIsWholeRecording(fs, td, n);
    BlocksDownload(es, r);
  }

  /** Thirty frames make 30752664 bytes, the size the storage test expects. */
  lemma ThirtyFrames(es: seq<Entry>)
    requires WholeRecording(es) && |es| == 30
    ensures |Encode(es)| == 30752664
  {
    StartOffsets(es, 30);
    BodySplits(es, 30);
    assert es[..30] == es && es[30..] == [];
  }
}
