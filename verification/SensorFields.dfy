/** Exposure, frame length and gain as numbers: from the request, through the table and the bus, to
    the registers of the device. */
module SensorFields {
  import opened Bytes
  import opened Bits
  import opened SensorRegs
  import opened RegisterReplay

  // ---------------------------------------------------------------- reassembly

  /** The big-endian number in a field's registers. Registers after the first hold eight bits each. */
  function FieldValue(words: seq<Word>, width: nat): nat
    requires width > 0
  {
    if words == [] then 0
    else
      var n := |words| - 1;
      FieldValue(words[..n], width) * 256 + Number(words[n][..if n == 0 then PartBits(width) else 8])
  }

  /** The widths for which the split loop writes all bits of every register. */
  predicate EvenWidth(width: nat)
  {
    0 < width && (width % 8 == 0 || width <= 8)
  }

  lemma DivDiv(n: nat, a: nat, b: nat)
    requires a > 0 && b > 0
    ensures a * b > 0 && n / (a * b) == n / a / b
  {
    var q, r := n / a / b, (n / a) % b;
    assert n / a == b * q + r;
    var low := a * r + n % a;
    assert n == a * (b * q + r) + n % a;
    assert a * (b * q) == (a * b) * q;
    assert r * a <= (b - 1) * a by { MulMonotone(r, b - 1, a); }
    assert a * (b - 1) == a * b - a;
    DivModUnique(n, a * b, q, low);
  }

  lemma {:induction false} Pow2Plus8(k: nat)
    ensures Pow2(k + 8) == Pow2(k) * 256
  {
    assert Pow2(k + 2) == 4 * Pow2(k);
    assert Pow2(k + 4) == 4 * Pow2(k + 2);
    assert Pow2(k + 6) == 4 * Pow2(k + 4);
    assert Pow2(k + 8) == 4 * Pow2(k + 6);
  }

  lemma {:induction false} Pow2Monotone(a: nat, b: nat)
    requires a <= b
    ensures Pow2(a) <= Pow2(b)
  {
    if a < b {
      Pow2Monotone(a, b - 1);
    }
  }

  /** The words hold the parts of a value, most significant first. */
  predicate HoldParts(words: seq<Word>, width: nat, parts: seq<nat>)
    requires width > 0 && |words| <= |parts|
  {
    forall i, k :: 0 <= i < |words| && 0 <= k < PartBits(width) ==> words[i][k] == TestBit(parts[i], k)
  }

  /** A part read back from its bits. */
  lemma PartReads(word: Word, part: nat, bits: nat)
    requires bits <= 8 && part < Pow2(bits)
    requires forall k :: 0 <= k < bits ==> word[k] == TestBit(part, k)
    ensures Number(word[..bits]) == part
  {
    NumberOfBits(part, bits, word[..bits]);
    DivModUnique(part, Pow2(bits), 0, part);
  }

  /** One more register: the value without `left` bytes gains a byte. */
  lemma NextPart(value: nat, width: nat, n: nat)
    requires n < RegCount(width)
    ensures var left := 8 * (RegCount(width) - n - 1);
            && value / Pow2(left + 8) == value / Pow2(left) / 256
            && PartOf(value, width, n) == (value / Pow2(left)) % 256
  {
    var left := 8 * (RegCount(width) - n - 1);
    Pow2Plus8(left);
    DivDiv(value, Pow2(left), 256);
  }

  lemma WholePart(value: nat, width: nat)
    requires 0 < width <= 8 && value < Pow2(width)
    ensures RegCount(width) == 1 && PartBits(width) == width && PartOf(value, width, 0) == value
  {
    Pow2Monotone(width, 8);
    assert Pow2(8) == 256;
    assert Pow2(0) == 1;
    DivModUnique(value, 256, 0, value);
  }

  lemma WholeBytes(width: nat)
    requires width > 0 && width % 8 == 0
    ensures PartBits(width) == 8 && RegCount(width) * 8 == width
  {
  }

  /** The part in the last register read. */
  lemma LastPartReads(words: seq<Word>, width: nat, parts: seq<nat>)
    requires width > 0 && width % 8 == 0 && 0 < |words| <= |parts| && HoldParts(words, width, parts)
    requires parts[|words| - 1] < 256
    ensures Number(words[|words| - 1][..8]) == parts[|words| - 1]
    ensures HoldParts(words[..|words| - 1], width, parts)
    ensures FieldValue(words, width) == FieldValue(words[..|words| - 1], width) * 256 + parts[|words| - 1]
  {
    WholeBytes(width);
    assert Pow2(8) == 256;
    PartReads(words[|words| - 1], parts[|words| - 1], 8);
  }

  /** After reading some registers: the value without the bytes still to come. */
  lemma {:induction false} FieldValueReads(words: seq<Word>, width: nat, value: nat)
    requires width > 0 && width % 8 == 0 && value < Pow2(width)
    requires |words| <= RegCount(width) && HoldParts(words, width, PartsOf(value, width))
    ensures FieldValue(words, width) == value / Pow2(8 * (RegCount(width) - |words|))
    decreases |words|
  {
    if words == [] {
      WholeBytes(width);
      DivModUnique(value, Pow2(width), 0, value);
    } else {
      var n := |words| - 1;
      LastPartReads(words, width, PartsOf(value, width));
      FieldValueReads(words[..n], width, value);
      NextPart(value, width, n);
      Rejoin(value / Pow2(8 * (RegCount(width) - n - 1)));
    }
  }

  lemma Rejoin(q: nat)
    ensures q / 256 * 256 + q % 256 == q
  {
  }

  /** Registers that hold the parts of a value hold the value. */
  lemma FieldReads(words: seq<Word>, width: nat, value: nat)
    requires EvenWidth(width) && value < Pow2(width)
    requires |words| == RegCount(width) && HoldParts(words, width, PartsOf(value, width))
    ensures FieldValue(words, width) == value
  {
    if width % 8 == 0 {
      FieldValueReads(words, width, value);
      assert Pow2(0) == 1;
    } else {
      WholePart(value, width);
      PartReads(words[0], value, width);
      assert words[..0] == [];
    }
  }

  // ---------------------------------------------------------------- in the table and in the device

  function ZeroWord(): Word { seq(16, _ => false) }

  function TableWord(t: Table, r: nat): Word
  {
    if InTable(t, r) then t[FirstMatch(t, r)].data else ZeroWord()
  }

  function TableWords(t: Table, reg: nat, n: nat): (ws: seq<Word>)
    ensures |ws| == n
    ensures forall i :: 0 <= i < n ==> ws[i] == TableWord(t, reg + i)
  {
    if n == 0 then [] else TableWords(t, reg, n - 1) + [TableWord(t, reg + n - 1)]
  }

  /** The number in a field of a table. */
  function TableField(t: Table, reg: nat, width: nat): nat
    requires width > 0
  {
    FieldValue(TableWords(t, reg, RegCount(width)), width)
  }

  /** What the device holds, after the replay, where the table's entry for `r` was sent. */
  function DeviceWord(s: Sensor, d: Device, t: Table, r: nat): Word
  {
    var p := FirstMatch(t, r);
    if p < |t| && Key(s, d, t, p) in Replay(s, d, t).regs then Replay(s, d, t).regs[Key(s, d, t, p)] else ZeroWord()
  }

  function DeviceWords(s: Sensor, d: Device, t: Table, reg: nat, n: nat): (ws: seq<Word>)
    ensures |ws| == n
    ensures forall i :: 0 <= i < n ==> ws[i] == DeviceWord(s, d, t, reg + i)
  {
    if n == 0 then [] else DeviceWords(s, d, t, reg, n - 1) + [DeviceWord(s, d, t, reg + n - 1)]
  }

  /** The number in a field of the device. */
  function DeviceField(s: Sensor, d: Device, t: Table, reg: nat, width: nat): nat
    requires width > 0
  {
    FieldValue(DeviceWords(s, d, t, reg, RegCount(width)), width)
  }

  /** A field that was written reads, in the table, as what was written. */
  lemma TableFieldReads(t: Table, reg: nat, width: nat, value: nat)
    requires EvenWidth(width) && value < Pow2(width) && FieldHolds(t, reg, width, value)
    ensures TableField(t, reg, width) == value
  {
    var words := TableWords(t, reg, RegCount(width));
    var parts := PartsOf(value, width);
    forall i | 0 <= i < |words|
      ensures forall k :: 0 <= k < PartBits(width) ==> words[i][k] == TestBit(parts[i], k)
    {
      assert InField(reg, width, reg + i);
      assert HoldsPart(t, reg + i, parts[reg + i - reg], PartBits(width));
      assert words[i] == t[FirstMatch(t, reg + i)].data;
    }
    FieldReads(words, width, value);
  }

  /** No register of the field is written twice, as the wire sees it. */
  ghost predicate FieldAlone(s: Sensor, t: Table, reg: nat, width: nat)
  {
    forall r: nat :: InField(reg, width, r) ==> InTable(t, r) && Alone(s, t, FirstMatch(t, r))
  }

  /** An entry that is alone decides what the device holds. */
  lemma AloneReachesDevice(s: Sensor, d: Device, t: Table, r: nat)
    requires InTable(t, r) && Alone(s, t, FirstMatch(t, r))
    ensures DeviceWord(s, d, t, r) == WireData(s, TableWord(t, r))
  {
    ReplayAlone(s, d, t, FirstMatch(t, r));
  }

  /** In a table for one slave that is the register of that number, as far as it is sent. */
  lemma WordOfRegister(s: Sensor, d: Device, t: Table, r: nat)
    requires OneSlave(t) && InTable(t, r) && Alone(s, t, FirstMatch(t, r))
    ensures var k := (d.slave, r % if s.addressing == 1 then 0x100 else 0x1_0000);
            k in Replay(s, d, t).regs && DeviceWord(s, d, t, r) == Replay(s, d, t).regs[k]
  {
    KeyMeaning(s, d, t, FirstMatch(t, r));
    OneSlaveStays(d, t, FirstMatch(t, r));
    ReplayAlone(s, d, t, FirstMatch(t, r));
  }

  /** Such a field reads the same in the device. */
  lemma DeviceFieldReads(s: Sensor, d: Device, t: Table, reg: nat, width: nat, value: nat)
    requires EvenWidth(width) && value < Pow2(width) && FieldHolds(t, reg, width, value) && FieldAlone(s, t, reg, width)
    ensures DeviceField(s, d, t, reg, width) == value
  {
    var words := DeviceWords(s, d, t, reg, RegCount(width));
    var parts := PartsOf(value, width);
    forall i | 0 <= i < |words|
      ensures forall k :: 0 <= k < PartBits(width) ==> words[i][k] == TestBit(parts[i], k)
    {
      assert InField(reg, width, reg + i);
      assert HoldsPart(t, reg + i, parts[reg + i - reg], PartBits(width));
      AloneReachesDevice(s, d, t, reg + i);
      assert words[i] == WireData(s, t[FirstMatch(t, reg + i)].data);
    }
    FieldReads(words, width, value);
  }
}
