/** Unpacking of MIPI CSI-2 RAW12 frames (section 11.4.5 of version 1.01) to eight-bit pixels, and
    the BMP file written around them (the info header is the BitmapInfoHeader of [MS-WMF],
    section 2.2.2.3). */
module Bmp {
  import opened Bytes
  import opened Lpxstd

  const HEADER_SIZE: nat := 54
  const COLORS_COUNT: nat := 256
  const UINT16_MAX: nat := 0xFFFF

  // ---------------------------------------------------------------- RAW12

  /** Two 12-bit pixels in three bytes: both high parts first, then both low nibbles. */
  function Pack(pixels: seq<nat>): (raw: seq<Byte>)
    requires |pixels| % 2 == 0
    requires forall i :: 0 <= i < |pixels| ==> pixels[i] < 0x1000
    ensures |raw| == |pixels| / 2 * 3
  {
    if pixels == [] then []
    else
      [pixels[0] / 16, pixels[1] / 16, pixels[1] % 16 * 16 + pixels[0] % 16] + Pack(pixels[2..])
  }

  /** `b << 4 | low nibble of c` and `b << 4 | high nibble of c`: the joined bits are disjoint. */
  function FirstPixel(raw: seq<Byte>, i: nat): (p: nat)
    requires i + 2 < |raw|
    ensures p < 0x1000
  {
    raw[i] as int * 16 + raw[i + 2] % 16
  }

  function SecondPixel(raw: seq<Byte>, i: nat): (p: nat)
    requires i + 2 < |raw|
    ensures p < 0x1000
  {
    raw[i + 1] as int * 16 + raw[i + 2] / 16
  }

  /** The 12-bit pixel number `j`. */
  function RawPixel(raw: seq<Byte>, j: nat): (p: nat)
    requires j / 2 * 3 + 2 < |raw|
    ensures p < 0x1000
  {
    if j % 2 == 0 then FirstPixel(raw, j / 2 * 3) else SecondPixel(raw, j / 2 * 3)
  }

  /** The eight-bit image of the first `n` pixels of a raw frame. */
  function Unpack(raw: seq<Byte>, n: nat): (bitmap: seq<Byte>)
    requires n % 2 == 0 && |raw| >= n / 2 * 3
    ensures |bitmap| == n
  {
    seq(n, j requires 0 <= j < n => RawPixel(raw, j) % 256)
  }

  function Truncated(pixels: seq<nat>): (bytes: seq<Byte>)
    ensures |bytes| == |pixels|
  {
    seq(|pixels|, i requires 0 <= i < |pixels| => pixels[i] % 256)
  }

  lemma {:induction false} PackFrom(pixels: seq<nat>, k: nat)
    requires |pixels| % 2 == 0 && 2 * k < |pixels|
    requires forall i :: 0 <= i < |pixels| ==> pixels[i] < 0x1000
    ensures FirstPixel(Pack(pixels), 3 * k) == pixels[2 * k]
    ensures SecondPixel(Pack(pixels), 3 * k) == pixels[2 * k + 1]
  {
    if k > 0 {
      PackFrom(pixels[2..], k - 1);
      var rest := Pack(pixels[2..]);
      assert Pack(pixels)[3..] == rest;
      assert forall j :: 0 <= j < |rest| ==> Pack(pixels)[3 + j] == rest[j];
    }
  }

  /** No byte past the first `3n/2` is looked at. */
  lemma UnpackReadsPrefix(raw: seq<Byte>, raw': seq<Byte>, n: nat)
    requires n % 2 == 0 && |raw| >= n / 2 * 3 && |raw'| >= n / 2 * 3
    requires raw[..n / 2 * 3] == raw'[..n / 2 * 3]
    ensures Unpack(raw, n) == Unpack(raw', n)
  {
    assert forall i :: 0 <= i < n / 2 * 3 ==> raw[i] == raw[..n / 2 * 3][i] == raw'[i];
    forall j | 0 <= j < n
      ensures RawPixel(raw, j) == RawPixel(raw', j)
    {
      assert j / 2 * 3 + 2 < n / 2 * 3;
    }
  }

  lemma PackedPixel(pixels: seq<nat>, j: nat)
    requires |pixels| % 2 == 0 && j < |pixels|
    requires forall i :: 0 <= i < |pixels| ==> pixels[i] < 0x1000
    ensures RawPixel(Pack(pixels), j) == pixels[j]
  {
    PackFrom(pixels, j / 2);
    assert j / 2 * 3 == 3 * (j / 2);
    assert j % 2 == 0 ==> j == 2 * (j / 2);
    assert j % 2 == 1 ==> j == 2 * (j / 2) + 1;
  }

  lemma UnpackPacked(pixels: seq<nat>)
    requires |pixels| % 2 == 0
    requires forall i :: 0 <= i < |pixels| ==> pixels[i] < 0x1000
    ensures Unpack(Pack(pixels), |pixels|) == Truncated(pixels)
  {
    forall j | 0 <= j < |pixels|
      ensures Unpack(Pack(pixels), |pixels|)[j] == Truncated(pixels)[j]
    {
      PackedPixel(pixels, j);
    }
  }

  /** Unpacking inverts packing up to the low eight bits of each pixel. */
  lemma UnpackInvertsPack(pixels: seq<nat>, tail: seq<Byte>)
    requires |pixels| % 2 == 0
    requires forall i :: 0 <= i < |pixels| ==> pixels[i] < 0x1000
    ensures Unpack(Pack(pixels) + tail, |pixels|) == Truncated(pixels)
  {
    UnpackReadsPrefix(Pack(pixels) + tail, Pack(pixels), |pixels|);
    UnpackPacked(pixels);
  }

  /** The truncation table, filled on first use; it has one entry fewer than a 16-bit index needs. */
  class PixelMap {
    const map_: array<Byte>
    var filled: bool

    ghost predicate Valid()
      reads this, map_
    {
      && map_.Length == UINT16_MAX
      && (filled ==> forall i :: 0 <= i < UINT16_MAX ==> map_[i] == i % 256)
    }

    constructor ()
      ensures Valid() && fresh(map_) && !filled
    {
      map_ := new Byte[UINT16_MAX];
      filled := false;
    }

    method MapPixel(pixel: nat) returns (b: Byte)
      requires Valid() && pixel < UINT16_MAX
      modifies this, map_
      ensures Valid() && filled
      ensures b == pixel % 256
    {
      if !filled {
        for i := 0 to UINT16_MAX
          invariant forall k :: 0 <= k < i ==> map_[k] == k % 256
        {
          map_[i] := i % 256;
        }
        filled := true;
      }
      b := map_[pixel];
    }
  }

  /** One round of the unpacking loop. */
  method UnpackPair(input: array<Byte>, i: nat, buffer: array<Byte>, j: nat, pm: PixelMap)
    requires pm.Valid() && pm.map_ != input && pm.map_ != buffer && input != buffer
    requires i + 2 < input.Length && j + 1 < buffer.Length
    modifies pm, pm.map_, buffer
    ensures pm.Valid()
    ensures buffer[..j + 2] ==
            old(buffer[..j]) + [FirstPixel(input[..], i) % 256, SecondPixel(input[..], i) % 256]
  {
    var p1 := input[i] as int * 16 + input[i + 2] % 16;
    var p2 := input[i + 1] as int * 16 + input[i + 2] / 16;
    var b1 := pm.MapPixel(p1);
    buffer[j] := b1;
    var b2 := pm.MapPixel(p2);
    buffer[j + 1] := b2;
  }

  lemma PairStep(j: nat, n: nat)
    requires j % 2 == 0 && n % 2 == 0 && j < n
    ensures j + 2 <= n && (j + 2) % 2 == 0
    ensures (j + 2) / 2 * 3 == j / 2 * 3 + 3 <= n / 2 * 3
  {
  }

  /** `width * height` has to be even: each round stores two pixels. */
  method Raw12ToBitmap(input: array<Byte>, width: nat, height: nat, pm: PixelMap) returns (buffer: array<Byte>)
    requires pm.Valid() && input != pm.map_
    requires width * height % 2 == 0 && input.Length >= width * height / 2 * 3
    modifies pm, pm.map_
    ensures pm.Valid() && fresh(buffer)
    ensures buffer[..] == Unpack(input[..], width * height)
  {
    var n := width * height;
    ghost var raw := input[..];
    buffer := new Byte[n];
    var i, j := 0, 0;
    while j < n
      invariant pm.Valid() && input[..] == raw
      invariant j % 2 == 0 && i == j / 2 * 3 && j <= n
      invariant buffer[..j] == Unpack(raw, j)
      decreases n - j
    {
      PairStep(j, n);
      UnpackPair(input, i, buffer, j, pm);
      i, j := i + 3, j + 2;
    }
    assert buffer[..] == buffer[..n];
  }

  // ---------------------------------------------------------------- BMP file

  const DATA_START: nat := HEADER_SIZE + COLORS_COUNT * 4

  function Zeros(n: nat): (s: seq<Byte>)
    ensures |s| == n
  {
    seq(n, _ => 0)
  }

  /** The header fields in file order; `FIELD_STARTS` says where each begins. */
  function HeaderFields(width: nat, height: nat): (fs: seq<seq<Byte>>)
    ensures FitsStarts(fs)
  {
    [
      [0x42, 0x4D],
      LittleEndian(width * height + DATA_START - 4, 4),
      Zeros(4),
      LittleEndian(DATA_START - 4, 4),
      LittleEndian(40, 4),
      LittleEndian(width, 4),
      LittleEndian(height, 4),
      LittleEndian(1, 2),
      LittleEndian(8, 2),
      Zeros(4),
      LittleEndian(width * height, 4),
      Zeros(4),
      Zeros(4),
      LittleEndian(255, 4),
      Zeros(4)
    ]
  }

  const FIELD_STARTS: seq<nat> := [0, 2, 6, 10, 14, 18, 22, 26, 28, 30, 34, 38, 42, 46, 50, 54]

  predicate FitsStarts(fs: seq<seq<Byte>>)
  {
    && |fs| + 1 == |FIELD_STARTS|
    && forall k :: 0 <= k < |fs| ==> |fs[k]| == FIELD_STARTS[k + 1] - FIELD_STARTS[k]
  }

  /** The first `k` fields, one after the other. */
  function Joined(fs: seq<seq<Byte>>, k: nat): (s: seq<Byte>)
    requires FitsStarts(fs) && k <= |fs|
    ensures |s| == FIELD_STARTS[k]
  {
    if k == 0 then [] else Joined(fs, k - 1) + fs[k - 1]
  }

  function Header(width: nat, height: nat): (s: seq<Byte>)
    ensures |s| == HEADER_SIZE
  {
    var fs := HeaderFields(width, height);
    Joined(fs, |fs|)
  }

  /** The first `n` palette entries: each level three times and a zero. */
  function GreyRamp(n: nat): (s: seq<Byte>)
    requires n <= COLORS_COUNT
    ensures |s| == 4 * n
  {
    seq(4 * n, i requires 0 <= i < 4 * n => if i % 4 == 3 then 0 else i / 4)
  }

  lemma GreyRampNext(n: nat)
    requires n < COLORS_COUNT
    ensures GreyRamp(n + 1) == GreyRamp(n) + [n, n, n, 0]
  {
  }

  function BmpFile(width: nat, height: nat, pixels: seq<Byte>): (s: seq<Byte>)
    ensures |s| == DATA_START + |pixels|
  {
    Header(width, height) + GreyRamp(COLORS_COUNT) + pixels
  }

  /** What a BMP reader gets from the four bytes at `off`. */
  function Field32(bmp: seq<Byte>, off: nat): nat
    requires off + 4 <= |bmp|
  {
    FromLittleEndian(bmp[off..off + 4])
  }

  function Field16(bmp: seq<Byte>, off: nat): nat
    requires off + 2 <= |bmp|
  {
    FromLittleEndian(bmp[off..off + 2])
  }

  /** What a reader that trusts the header takes for the pixels. */
  function DeclaredPixels(bmp: seq<Byte>): seq<Byte>
    requires |bmp| >= HEADER_SIZE
    requires Field32(bmp, 10) + Field32(bmp, 34) <= |bmp|
  {
    bmp[Field32(bmp, 10)..Field32(bmp, 10) + Field32(bmp, 34)]
  }

  method FillBmpHeader(width: nat, height: nat, imageSize: nat, fileSize: nat, bitmap: array<Byte>)
    requires imageSize == width * height && fileSize == DATA_START + imageSize
    requires bitmap.Length == fileSize
    modifies bitmap
    ensures bitmap[..DATA_START] == Header(width, height) + GreyRamp(COLORS_COUNT)
    ensures bitmap[DATA_START..] == old(bitmap[DATA_START..])
  {
    FillFileHeader(width, height, fileSize, bitmap);
    FillInfoHeader(width, height, imageSize, bitmap);
    FillPalette(bitmap, Header(width, height));
  }

  method FillPalette(bitmap: array<Byte>, ghost header: seq<Byte>)
    requires bitmap.Length >= DATA_START && bitmap[..HEADER_SIZE] == header
    modifies bitmap
    ensures bitmap[..DATA_START] == header + GreyRamp(COLORS_COUNT)
    ensures bitmap[DATA_START..] == old(bitmap[DATA_START..])
  {
    for i := 0 to COLORS_COUNT
      invariant bitmap[..HEADER_SIZE + 4 * i] == header + GreyRamp(i)
      invariant bitmap[DATA_START..] == old(bitmap[DATA_START..])
    {
      StorePaletteEntry(bitmap, i);
      GreyRampNext(i);
    }
  }

  /** One round of the palette loop. */
  method StorePaletteEntry(bitmap: array<Byte>, i: nat)
    requires i < COLORS_COUNT && bitmap.Length >= DATA_START
    modifies bitmap
    ensures bitmap[..HEADER_SIZE + 4 * (i + 1)] == old(bitmap[..HEADER_SIZE + 4 * i]) + [i, i, i, 0]
    ensures bitmap[DATA_START..] == old(bitmap[DATA_START..])
  {
    bitmap[HEADER_SIZE + i * 4 + 0] := i;
    bitmap[HEADER_SIZE + i * 4 + 1] := i;
    bitmap[HEADER_SIZE + i * 4 + 2] := i;
    bitmap[HEADER_SIZE + i * 4 + 3] := 0;
  }

  /** A store of field `k` when the fields before it are in place. */
  method StoreField(bitmap: array<Byte>, off: nat, s: seq<Byte>, ghost fs: seq<seq<Byte>>, ghost k: nat)
    requires FitsStarts(fs) && k < |fs| && s == fs[k] && off == FIELD_STARTS[k]
    requires off + |s| <= HEADER_SIZE <= DATA_START <= bitmap.Length && bitmap[..off] == Joined(fs, k)
    modifies bitmap
    ensures bitmap[..FIELD_STARTS[k + 1]] == Joined(fs, k + 1)
    ensures bitmap[DATA_START..] == old(bitmap[DATA_START..])
  {
    ghost var rest := bitmap[off + |s|..];
    Memcpy(bitmap, off, s);
    assert bitmap[DATA_START..] == rest[DATA_START - off - |s|..];
  }

  /** Field `k` written as its low byte and a memset of the bytes above it. */
  method StoreByteField(bitmap: array<Byte>, off: nat, b: Byte, zeros: nat, ghost fs: seq<seq<Byte>>, ghost k: nat)
    requires FitsStarts(fs) && k < |fs| && LittleEndian(b, zeros + 1) == fs[k] && off == FIELD_STARTS[k]
    requires off + zeros + 1 <= HEADER_SIZE <= DATA_START <= bitmap.Length && bitmap[..off] == Joined(fs, k)
    modifies bitmap
    ensures bitmap[..FIELD_STARTS[k + 1]] == Joined(fs, k + 1)
    ensures bitmap[DATA_START..] == old(bitmap[DATA_START..])
  {
    ghost var rest := bitmap[off + 1 + zeros..];
    bitmap[off] := b;
    assert bitmap[..off + 1] == Joined(fs, k) + [b];
    Memcpy(bitmap, off + 1, Zeros(zeros));
    ByteAndZeros(b, zeros);
    assert bitmap[..off + 1 + zeros] == Joined(fs, k) + ([b] + Zeros(zeros));
    assert bitmap[DATA_START..] == rest[DATA_START - off - 1 - zeros..];
  }

  lemma {:induction false} ZeroBytes(n: nat)
    ensures LittleEndian(0, n) == Zeros(n)
  {
    if n > 0 {
      ZeroBytes(n - 1);
    }
  }

  lemma ByteAndZeros(b: Byte, n: nat)
    ensures LittleEndian(b, n + 1) == [b] + Zeros(n)
  {
    ZeroBytes(n);
    assert b / 256 == 0 && b % 256 == b;
  }

  /** The file size is stored as eight bytes; the reserved field then overwrites the upper four. */
  method FillFileHeader(width: nat, height: nat, fileSize: nat, bitmap: array<Byte>)
    requires fileSize == DATA_START + width * height && bitmap.Length == fileSize
    modifies bitmap
    ensures bitmap[..14] == Joined(HeaderFields(width, height), 4)
    ensures bitmap[DATA_START..] == old(bitmap[DATA_START..])
  {
    ghost var fs := HeaderFields(width, height);
    bitmap[0] := 0x42;
    bitmap[1] := 0x4D;
    assert bitmap[..2] == Joined(fs, 1);
    ghost var rest := bitmap[DATA_START..];
    Memcpy(bitmap, 2, LittleEndian(fileSize - 4, 8));
    assert bitmap[DATA_START..] == bitmap[10..][DATA_START - 10..] == rest;
    LittleEndianPrefix(fileSize - 4, 8, 4);
    assert bitmap[..6] == Joined(fs, 1) + LittleEndian(fileSize - 4, 8)[..4];
    assert Joined(fs, 2) == Joined(fs, 1) + fs[1];
    StoreField(bitmap, 6, Zeros(4), fs, 2);
    StoreField(bitmap, 10, LittleEndian(HEADER_SIZE + COLORS_COUNT * 4 - 4, 4), fs, 3);
  }

  method FillInfoHeader(width: nat, height: nat, imageSize: nat, bitmap: array<Byte>)
    requires imageSize == width * height && bitmap.Length >= DATA_START
    requires bitmap[..14] == Joined(HeaderFields(width, height), 4)
    modifies bitmap
    ensures bitmap[..HEADER_SIZE] == Header(width, height)
    ensures bitmap[DATA_START..] == old(bitmap[DATA_START..])
  {
    ghost var fs := HeaderFields(width, height);
    StoreByteField(bitmap, 14, 0x28, 3, fs, 4);
    StoreField(bitmap, 18, LittleEndian(width, 4), fs, 5);
    StoreField(bitmap, 22, LittleEndian(height, 4), fs, 6);
    StoreByteField(bitmap, 26, 1, 1, fs, 7);
    StoreByteField(bitmap, 28, 8, 1, fs, 8);
    StoreField(bitmap, 30, Zeros(4), fs, 9);
    StoreField(bitmap, 34, LittleEndian(imageSize, 4), fs, 10);
    StoreField(bitmap, 38, Zeros(4), fs, 11);
    StoreField(bitmap, 42, Zeros(4), fs, 12);
    StoreByteField(bitmap, 46, 0xFF, 3, fs, 13);
    StoreField(bitmap, 50, Zeros(4), fs, 14);
  }

  method GenerateBmp(width: nat, height: nat, bitmap: array<Byte>) returns (content: array<Byte>)
    requires bitmap.Length >= width * height
    ensures fresh(content)
    ensures content[..] == BmpFile(width, height, bitmap[..width * height])
  {
    var imageSize := width * height;
    var fileSize := HEADER_SIZE + COLORS_COUNT * 4 + imageSize;
    content := new Byte[fileSize];
    FillBmpHeader(width, height, imageSize, fileSize, content);
    for i := HEADER_SIZE + COLORS_COUNT * 4 to fileSize
      invariant content[..DATA_START] == Header(width, height) + GreyRamp(COLORS_COUNT)
      invariant content[DATA_START..i] == bitmap[..i - DATA_START]
    {
      content[i] := bitmap[i - (HEADER_SIZE + COLORS_COUNT * 4)];
    }
    assert content[..] == content[..DATA_START] + content[DATA_START..fileSize];
  }

  /** The bytes `raw12_to_bmp` produces for a raw frame. */
  function Raw12File(raw: seq<Byte>, width: nat, height: nat): (s: seq<Byte>)
    requires width * height % 2 == 0 && |raw| >= width * height / 2 * 3
    ensures |s| == DATA_START + width * height
  {
    BmpFile(width, height, Unpack(raw, width * height))
  }

  method Raw12ToBmp(raw: array<Byte>, width: nat, height: nat, pm: PixelMap) returns (bmp: array<Byte>)
    requires pm.Valid() && raw != pm.map_
    requires width * height % 2 == 0 && raw.Length >= width * height / 2 * 3
    modifies pm, pm.map_
    ensures pm.Valid() && fresh(bmp)
    ensures bmp[..] == Raw12File(raw[..], width, height)
  {
    var bitmap := Raw12ToBitmap(raw, width, height, pm);
    bmp := GenerateBmp(width, height, bitmap);
    assert bitmap[..width * height] == bitmap[..];
  }

  // ---------------------------------------------------------------- what the file says to a reader

  lemma {:induction false} JoinedField(fs: seq<seq<Byte>>, n: nat, k: nat)
    requires FitsStarts(fs) && k < n <= |fs|
    ensures FIELD_STARTS[k + 1] <= FIELD_STARTS[n]
    ensures Joined(fs, n)[FIELD_STARTS[k]..FIELD_STARTS[k + 1]] == fs[k]
  {
    if k < n - 1 {
      JoinedField(fs, n - 1, k);
    }
  }

  /** Field `k` of the file. */
  lemma HeaderField(width: nat, height: nat, pixels: seq<Byte>, k: nat)
    requires k < 15
    ensures FIELD_STARTS[k + 1] <= HEADER_SIZE
    ensures BmpFile(width, height, pixels)[FIELD_STARTS[k]..FIELD_STARTS[k + 1]] == HeaderFields(width, height)[k]
  {
    JoinedField(HeaderFields(width, height), 15, k);
    assert BmpFile(width, height, pixels)[FIELD_STARTS[k]..FIELD_STARTS[k + 1]] ==
           Header(width, height)[FIELD_STARTS[k]..FIELD_STARTS[k + 1]];
  }

  /** A field that holds a number reads back as that number. */
  lemma HeaderNumber(width: nat, height: nat, pixels: seq<Byte>, k: nat, n: nat, w: nat)
    requires k < 15 && HeaderFields(width, height)[k] == LittleEndian(n, w) && n < Pow256(w)
    ensures FIELD_STARTS[k] + w == FIELD_STARTS[k + 1] <= HEADER_SIZE
    ensures FromLittleEndian(BmpFile(width, height, pixels)[FIELD_STARTS[k]..FIELD_STARTS[k] + w]) == n
  {
    HeaderField(width, height, pixels, k);
    LittleEndianReads(n, w);
    DivModUnique(n, Pow256(w), 0, n);
  }

  lemma ZeroField(width: nat, height: nat, pixels: seq<Byte>, k: nat)
    requires k < 15 && HeaderFields(width, height)[k] == Zeros(4)
    ensures FIELD_STARTS[k] + 4 == FIELD_STARTS[k + 1] <= HEADER_SIZE
    ensures Field32(BmpFile(width, height, pixels), FIELD_STARTS[k]) == 0
  {
    HeaderField(width, height, pixels, k);
    assert Zeros(4) == [0, 0, 0, 0];
    assert [0, 0, 0, 0][1..] == [0, 0, 0] && [0, 0, 0][1..] == [0, 0] && [0, 0][1..] == [0];
  }

  /** The two headers, field by field. */
  lemma FileHeaderReads(width: nat, height: nat, pixels: seq<Byte>)
    requires width * height + DATA_START < TWO32
    ensures var bmp := BmpFile(width, height, pixels);
            && bmp[0..2] == [0x42, 0x4D]
            && Field32(bmp, 2) == width * height + DATA_START - 4
            && Field32(bmp, 6) == 0
            && Field32(bmp, 10) == DATA_START - 4
  {
    Pow256Values();
    HeaderField(width, height, pixels, 0);
    ZeroField(width, height, pixels, 2);
    HeaderNumber(width, height, pixels, 1, width * height + DATA_START - 4, 4);
    HeaderNumber(width, height, pixels, 3, DATA_START - 4, 4);
  }

  lemma InfoHeaderSizes(width: nat, height: nat, pixels: seq<Byte>)
    requires width < TWO32 && height < TWO32
    ensures var bmp := BmpFile(width, height, pixels);
            && Field32(bmp, 14) == 40
            && Field32(bmp, 18) == width
            && Field32(bmp, 22) == height
  {
    Pow256Values();
    HeaderNumber(width, height, pixels, 4, 40, 4);
    HeaderNumber(width, height, pixels, 5, width, 4);
    HeaderNumber(width, height, pixels, 6, height, 4);
  }

  lemma InfoHeaderColors(width: nat, height: nat, pixels: seq<Byte>)
    requires width * height < TWO32
    ensures var bmp := BmpFile(width, height, pixels);
            && Field16(bmp, 26) == 1
            && Field16(bmp, 28) == 8
            && Field32(bmp, 34) == width * height
            && Field32(bmp, 46) == 255
  {
    Pow256Values();
    assert Pow256(2) == 0x1_0000;
    HeaderNumber(width, height, pixels, 7, 1, 2);
    HeaderNumber(width, height, pixels, 8, 8, 2);
    HeaderNumber(width, height, pixels, 10, width * height, 4);
    HeaderNumber(width, height, pixels, 13, 255, 4);
  }

  lemma InfoHeaderZeros(width: nat, height: nat, pixels: seq<Byte>)
    ensures var bmp := BmpFile(width, height, pixels);
            Field32(bmp, 30) == Field32(bmp, 38) == Field32(bmp, 42) == Field32(bmp, 50) == 0
  {
    ZeroField(width, height, pixels, 9);
    ZeroField(width, height, pixels, 11);
    ZeroField(width, height, pixels, 12);
    ZeroField(width, height, pixels, 14);
  }

  /** Every header field decodes to the image it heads; the declared size is the declared offset plus
      the image size and four less than the real length. */
  lemma BmpLayout(width: nat, height: nat, pixels: seq<Byte>)
    requires |pixels| == width * height && width * height + DATA_START < TWO32
    requires width < TWO32 && height < TWO32
    ensures var bmp := BmpFile(width, height, pixels);
            && bmp[0..2] == [0x42, 0x4D]
            && Field32(bmp, 2) == |bmp| - 4 == Field32(bmp, 10) + Field32(bmp, 34)
            && Field32(bmp, 10) == HEADER_SIZE + 4 * Field32(bmp, 46)
            && Field32(bmp, 6) == 0
            && Field32(bmp, 14) == 40
            && Field32(bmp, 18) == width
            && Field32(bmp, 22) == height
            && Field16(bmp, 26) == 1
            && Field16(bmp, 28) == 8
            && Field32(bmp, 30) == 0
            && Field32(bmp, 34) == |pixels|
            && Field32(bmp, 38) == 0
            && Field32(bmp, 42) == 0
            && Field32(bmp, 46) == 255
            && Field32(bmp, 50) == 0
            && bmp[DATA_START..] == pixels
  {
    InfoHeaderZeros(width, height, pixels);
    FileHeaderReads(width, height, pixels);
    InfoHeaderSizes(width, height, pixels);
    InfoHeaderColors(width, height, pixels);
  }

  /** Palette entry `c` is the grey of level `c`. */
  lemma PaletteIsGreyRamp(width: nat, height: nat, pixels: seq<Byte>, c: nat)
    requires c < COLORS_COUNT
    ensures BmpFile(width, height, pixels)[HEADER_SIZE + 4 * c..HEADER_SIZE + 4 * c + 4] == [c, c, c, 0]
  {
    assert BmpFile(width, height, pixels)[HEADER_SIZE + 4 * c..HEADER_SIZE + 4 * c + 4] ==
           GreyRamp(COLORS_COUNT)[4 * c..4 * c + 4];
  }

  /** The declared offset points at the last palette entry, so a reader that trusts it sees the
      image moved on by four pixels. */
  lemma DeclaredPixelsAreShifted(width: nat, height: nat, pixels: seq<Byte>)
    requires |pixels| == width * height >= 4 && width * height + DATA_START < TWO32
    requires width < TWO32 && height < TWO32
    ensures var bmp := BmpFile(width, height, pixels);
            && Field32(bmp, 10) + Field32(bmp, 34) <= |bmp|
            && DeclaredPixels(bmp) == [255, 255, 255, 0] + pixels[..|pixels| - 4]
  {
    var bmp := BmpFile(width, height, pixels);
    BmpLayout(width, height, pixels);
    PaletteIsGreyRamp(width, height, pixels, 255);
    assert bmp[DATA_START - 4..DATA_START] == [255, 255, 255, 0];
    assert bmp[DATA_START..|bmp| - 4] == pixels[..|pixels| - 4];
    assert bmp[DATA_START - 4..|bmp| - 4] == bmp[DATA_START - 4..DATA_START] + bmp[DATA_START..|bmp| - 4];
  }

  /** To a reader the file has this width and height, and holds these pixels' low eight bits. */
  predicate ShowsPicture(bmp: seq<Byte>, width: nat, height: nat, pixels: seq<nat>)
  {
    && |bmp| == DATA_START + |pixels| && |pixels| == width * height
    && Field32(bmp, 18) == width
    && Field32(bmp, 22) == height
    && bmp[DATA_START..] == Truncated(pixels)
  }

  /** The whole conversion: from a packed picture, whatever follows it, to that picture. */
  lemma RawBecomesPicture(pixels: seq<nat>, tail: seq<Byte>, width: nat, height: nat)
    requires |pixels| == width * height && |pixels| % 2 == 0 && |pixels| + DATA_START < TWO32
    requires width < TWO32 && height < TWO32
    requires forall i :: 0 <= i < |pixels| ==> pixels[i] < 0x1000
    ensures ShowsPicture(Raw12File(Pack(pixels) + tail, width, height), width, height, pixels)
  {
    UnpackInvertsPack(pixels, tail);
    BmpLayout(width, height, Truncated(pixels));
  }
}
