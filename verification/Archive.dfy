/** The archive format: a 32-bit count, then for each frame a NUL-terminated name, a 64-bit size and
    that many bytes, both numbers little endian. */
module Archive {
  import opened Bytes
  import opened Lpxstd
  import opened Text

  datatype Entry = Entry(name: seq<Byte>, bmp: seq<Byte>)

  function EntryHeader(e: Entry): (s: seq<Byte>)
    ensures |s| == |e.name| + 9
  {
    e.name + [NUL] + LittleEndian(|e.bmp|, 8)
  }

  function EncodeEntry(e: Entry): (s: seq<Byte>)
    ensures |s| == |e.name| + 9 + |e.bmp|
  {
    EntryHeader(e) + e.bmp
  }

  function Body(es: seq<Entry>): seq<Byte>
  {
    if es == [] then [] else EncodeEntry(es[0]) + Body(es[1..])
  }

  function Encode(es: seq<Entry>): seq<Byte>
  {
    LittleEndian(|es|, 4) + Body(es)
  }

  // ---------------------------------------------------------------- reading an archive

  function NameLength(s: seq<Byte>): (k: nat)
    ensures k <= |s|
    ensures forall i :: 0 <= i < k ==> s[i] != NUL
    ensures k < |s| ==> s[k] == NUL
  {
    if s == [] || s[0] == NUL then 0 else 1 + NameLength(s[1..])
  }

  function ParseEntry(s: seq<Byte>): (r: Option<(Entry, seq<Byte>)>)
    ensures r.Some? ==> |r.value.1| < |s|
  {
    var k := NameLength(s);
    if k + 9 > |s| then None
    else
      var size := FromLittleEndian(s[k + 1..k + 9]);
      if k + 9 + size > |s| then None
      else Some((Entry(s[..k], s[k + 9..k + 9 + size]), s[k + 9 + size..]))
  }

  /** Exactly `n` entries and nothing behind them. */
  function ParseEntries(s: seq<Byte>, n: nat): Option<seq<Entry>>
  {
    if n == 0 then
      if s == [] then Some([]) else None
    else
      match ParseEntry(s)
      case None => None
      case Some((e, rest)) =>
        match ParseEntries(rest, n - 1)
        case None => None
        case Some(es) => Some([e] + es)
  }

  function Parse(s: seq<Byte>): Option<seq<Entry>>
  {
    if |s| < 4 then None else ParseEntries(s[4..], FromLittleEndian(s[..4]))
  }

  predicate EncodableEntry(e: Entry)
  {
    && (forall i :: 0 <= i < |e.name| ==> e.name[i] != NUL)
    && |e.bmp| < TWO64
  }

  predicate Encodable(es: seq<Entry>)
  {
    && |es| < TWO32
    && forall i :: 0 <= i < |es| ==> EncodableEntry(es[i])
  }

  lemma {:induction false} NameLengthOf(name: seq<Byte>, t: seq<Byte>)
    requires forall i :: 0 <= i < |name| ==> name[i] != NUL
    ensures NameLength(name + [NUL] + t) == |name|
  {
    if name != [] {
      NameLengthOf(name[1..], t);
      assert (name + [NUL] + t)[1..] == name[1..] + [NUL] + t;
    }
  }

  lemma EntrySlices(e: Entry, t: seq<Byte>)
    ensures var s, k := EncodeEntry(e) + t, |e.name|;
            && s[..k] == e.name
            && s[k + 1..k + 9] == LittleEndian(|e.bmp|, 8)
            && s[k + 9..k + 9 + |e.bmp|] == e.bmp
            && s[k + 9 + |e.bmp|..] == t
            && s == e.name + [NUL] + (LittleEndian(|e.bmp|, 8) + e.bmp + t)
  {
  }

  lemma SizeReads(n: nat, w: nat)
    requires n < Pow256(w)
    ensures FromLittleEndian(LittleEndian(n, w)) == n
  {
    LittleEndianReads(n, w);
    DivModUnique(n, Pow256(w), 0, n);
  }

  lemma ParseEntryReads(e: Entry, t: seq<Byte>)
    requires EncodableEntry(e)
    ensures ParseEntry(EncodeEntry(e) + t) == Some((e, t))
  {
    EntrySlices(e, t);
    NameLengthOf(e.name, LittleEndian(|e.bmp|, 8) + e.bmp + t);
    Pow256Values();
    SizeReads(|e.bmp|, 8);
  }

  lemma {:induction false} ParseEntriesReads(es: seq<Entry>)
    requires forall i :: 0 <= i < |es| ==> EncodableEntry(es[i])
    ensures ParseEntries(Body(es), |es|) == Some(es)
  {
    if es != [] {
      ParseEntryReads(es[0], Body(es[1..]));
      ParseEntriesReads(es[1..]);
      assert [es[0]] + es[1..] == es;
    }
  }

  /** A reader of the documented format recovers the files and consumes every byte. */
  lemma ArchiveRoundTrip(es: seq<Entry>)
    requires Encodable(es)
    ensures Parse(Encode(es)) == Some(es)
  {
    var s := Encode(es);
    assert s[..4] == LittleEndian(|es|, 4);
    assert s[4..] == Body(es);
    Pow256Values();
    SizeReads(|es|, 4);
    ParseEntriesReads(es);
  }

  lemma ParseEntryWrites(s: seq<Byte>)
    ensures match ParseEntry(s)
            case None => true
            case Some((e, rest)) => EncodableEntry(e) && EncodeEntry(e) + rest == s
  {
    match ParseEntry(s)
    case None =>
    case Some((e, rest)) =>
      var k := NameLength(s);
      LittleEndianWrites(s[k + 1..k + 9]);
      Pow256Values();
      EntryPieces(s, k, |e.bmp|);
  }

  lemma EntryPieces(s: seq<Byte>, k: nat, n: nat)
    requires k + 9 + n <= |s| && s[k] == NUL
    ensures s[..k] + [NUL] + s[k + 1..k + 9] + s[k + 9..k + 9 + n] + s[k + 9 + n..] == s
  {
  }

  lemma {:induction false} ParseEntriesWrites(s: seq<Byte>, n: nat)
    ensures match ParseEntries(s, n)
            case None => true
            case Some(es) => |es| == n && Body(es) == s && forall i :: 0 <= i < n ==> EncodableEntry(es[i])
  {
    if n > 0 {
      ParseEntryWrites(s);
      match ParseEntry(s)
      case None =>
      case Some((e, rest)) =>
        ParseEntriesWrites(rest, n - 1);
        match ParseEntries(rest, n - 1)
        case None =>
        case Some(es) =>
          assert ([e] + es)[1..] == es;
    }
  }

  /** The only archive of a list of files is its encoding. */
  lemma ArchiveCanonical(s: seq<Byte>, es: seq<Entry>)
    requires Parse(s) == Some(es)
    ensures Encodable(es) && Encode(es) == s
  {
    LittleEndianWrites(s[..4]);
    Pow256Values();
    ParseEntriesWrites(s[4..], FromLittleEndian(s[..4]));
    assert s[..4] + s[4..] == s;
  }

  /** The bytes of an archive with one file "7" of two bytes. */
  lemma ArchiveBytes()
    ensures Encode([Entry([55], [1, 2])]) == [1, 0, 0, 0, 55, 0, 2, 0, 0, 0, 0, 0, 0, 0, 1, 2]
  {
    var e := Entry([55], [1, 2]);
    EntryBytes(e);
    SmallNumber(1, 4);
    assert [e][1..] == [] && Body([]) == [];
    assert Body([e]) == EncodeEntry(e) + [] == EncodeEntry(e);
    assert seq(3, _ => 0) == [0, 0, 0];
  }

  lemma EntryBytes(e: Entry)
    requires e == Entry([55], [1, 2])
    ensures EncodeEntry(e) == [55, 0, 2, 0, 0, 0, 0, 0, 0, 0, 1, 2]
  {
    SmallNumber(2, 8);
    assert seq(7, _ => 0) == [0, 0, 0, 0, 0, 0, 0];
  }

  lemma SmallNumber(n: nat, w: nat)
    requires n < 256 && w > 0
    ensures LittleEndian(n, w) == [n] + seq(w - 1, _ => 0)
  {
    ZeroNumber(w - 1);
  }

  lemma {:induction false} ZeroNumber(w: nat)
    ensures LittleEndian(0, w) == seq(w, _ => 0)
  {
    if w > 0 {
      ZeroNumber(w - 1);
    }
  }
}
