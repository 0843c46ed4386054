/** Replaying a mode table on the bus, and what an updated table leaves in the device. */
module RegisterReplay {
  import opened Bytes
  import opened Bits
  import opened SensorRegs

  const SET_ADDRESS: nat := 0xFFFF
  const SLEEP: nat := 0xFFFE

  /** Registers are kept apart by the slave address that is current when they are written. */
  datatype Device = Device(slave: Word, regs: map<(Word, nat), Word>)

  predicate Plain(reg: nat)
  {
    reg != SET_ADDRESS && reg != SLEEP
  }

  /** With one-byte addressing only the low byte of the register number goes out. */
  function Wire(s: Sensor, reg: nat): nat
  {
    if s.addressing == 1 then reg % 256 else reg % 0x1_0000
  }

  /** And with one-byte data only the low byte of the data. */
  function WireData(s: Sensor, data: Word): Word
  {
    if s.dataSize == 2 then data else seq(16, i requires 0 <= i < 16 => i < 8 && data[i])
  }

  function SendOne(s: Sensor, d: Device, e: SensorReg): Device
  {
    if e.reg == SET_ADDRESS then d.(slave := e.data)
    else if e.reg == SLEEP then d
    else d.(regs := d.regs[(d.slave, Wire(s, e.reg)) := WireData(s, e.data)])
  }

  function Replay(s: Sensor, d: Device, t: Table): Device
  {
    if t == [] then d else SendOne(s, Replay(s, d, t[..|t| - 1]), t[|t| - 1])
  }

  // ---------------------------------------------------------------- the bytes on the bus

  /** Eight bits, least significant first. */
  type Octet = b: Bits | |b| == 8 witness seq(8, _ => false)

  /** One write: the register number and the data, most significant byte first. */
  datatype Message = Message(address: seq<Byte>, data: seq<Octet>)

  /** What a device takes from it, when both parts have one or two bytes. */
  function Receive(d: Device, m: Message): Device
    requires 1 <= |m.address| <= 2 && 1 <= |m.data| <= 2
  {
    var reg := if |m.address| == 1 then m.address[0] else m.address[0] as int * 256 + m.address[1];
    var low := m.data[|m.data| - 1];
    var high := if |m.data| == 1 then seq(8, _ => false) else m.data[0];
    d.(regs := d.regs[(d.slave, reg) := low + high])
  }

  lemma Sent(s: Sensor, d: Device, e: SensorReg, m: Message)
    requires Plain(e.reg)
    requires m.address == if s.addressing == 1 then [e.reg % 256] else [e.reg / 256 % 256, e.reg % 256]
    requires m.data == if s.dataSize == 2 then [e.data[8..], e.data[..8]] else [e.data[..8]]
    ensures Receive(d, m) == SendOne(s, d, e)
  {
    SixteenBits(e.reg);
    var high: Bits := if s.dataSize == 2 then e.data[8..] else seq(8, _ => false);
    assert e.data[..8] + high == WireData(s, e.data);
  }

  lemma SixteenBits(n: nat)
    ensures n / 256 % 256 * 256 + n % 256 == n % 0x1_0000
  {
    ModSplit(n, 256);
  }

  class Bus {
    var device: Device

    constructor (device: Device)
      ensures this.device == device
    {
      this.device := device;
    }

    method SendRegs(s: Sensor, regs: array<SensorReg>)
      modifies this
      ensures device == Replay(s, old(device), regs[..])
    {
      ghost var start := device;
      for i := 0 to regs.Length
        invariant device == Replay(s, start, regs[..i])
      {
        assert regs[..i + 1][..i] == regs[..i];
        if regs[i].reg == SET_ADDRESS {
          device := device.(slave := regs[i].data);
        } else if regs[i].reg == SLEEP {
        } else {
          var reg, data := regs[i].reg, regs[i].data;
          var address: seq<Byte> := if s.addressing == 1 then [reg % 256] else [reg / 256 % 256, reg % 256];
          var octets: seq<Octet> := if s.dataSize == 2 then [data[8..], data[..8]] else [data[..8]];
          Sent(s, device, regs[i], Message(address, octets));
          device := Receive(device, Message(address, octets));
        }
      }
      assert regs[..regs.Length] == regs[..];
    }
  }

  // ---------------------------------------------------------------- edits seen through the replay

  /** Two tables that write the same registers in the same order, with different data only in plain
      registers from `wires`. */
  predicate DiffersOnlyIn(s: Sensor, t: Table, t': Table, wires: set<nat>)
  {
    && |t| == |t'|
    && forall p :: 0 <= p < |t| ==>
         t[p].reg == t'[p].reg && (t[p] == t'[p] || (Plain(t[p].reg) && Wire(s, t[p].reg) in wires))
  }

  /** They leave devices that differ only in those registers. */
  lemma {:induction false} ReplayDiffersOnlyIn(s: Sensor, d: Device, t: Table, t': Table, wires: set<nat>)
    requires DiffersOnlyIn(s, t, t', wires)
    ensures var r, r' := Replay(s, d, t), Replay(s, d, t');
            && r.slave == r'.slave && r.regs.Keys == r'.regs.Keys
            && forall k :: k in r.regs && k.1 !in wires ==> r.regs[k] == r'.regs[k]
  {
    if t != [] {
      var n := |t| - 1;
      ReplayDiffersOnlyIn(s, d, t[..n], t'[..n], wires);
    }
  }

  /** No other plain entry reaches the wire register of entry `p`. */
  predicate Alone(s: Sensor, t: Table, p: nat)
    requires p < |t|
  {
    && Plain(t[p].reg)
    && forall q :: 0 <= q < |t| && q != p && Plain(t[q].reg) ==> Wire(s, t[q].reg) != Wire(s, t[p].reg)
  }

  /** Where in the device entry `p` is written. */
  function Key(s: Sensor, d: Device, t: Table, p: nat): (Word, nat)
    requires p < |t|
  {
    (Replay(s, d, t[..p]).slave, Wire(s, t[p].reg))
  }

  /** The slave that the last address entry before position `n` has chosen. */
  function SlaveAt(d: Device, t: Table, n: nat): Word
    requires n <= |t|
  {
    if n == 0 then d.slave else if t[n - 1].reg == 0xFFFF then t[n - 1].data else SlaveAt(d, t, n - 1)
  }

  lemma {:induction false} SlaveOfReplay(s: Sensor, d: Device, t: Table, n: nat)
    requires n <= |t|
    ensures Replay(s, d, t[..n]).slave == SlaveAt(d, t, n)
  {
    if n > 0 {
      SlaveOfReplay(s, d, t, n - 1);
      assert t[..n][..n - 1] == t[..n - 1];
    }
  }

  /** An entry goes to the slave chosen before it, under its register number, of which one-byte addressing
      sends eight bits and other addressing sixteen. */
  lemma KeyMeaning(s: Sensor, d: Device, t: Table, p: nat)
    requires p < |t|
    ensures Key(s, d, t, p) == (SlaveAt(d, t, p), t[p].reg % if s.addressing == 1 then 0x100 else 0x1_0000)
  {
    SlaveOfReplay(s, d, t, p);
  }

  /** The table leaves the slave as it is. */
  predicate OneSlave(t: Table)
  {
    forall p :: 0 <= p < |t| ==> t[p].reg != 0xFFFF
  }

  lemma {:induction false} OneSlaveStays(d: Device, t: Table, n: nat)
    requires OneSlave(t) && n <= |t|
    ensures SlaveAt(d, t, n) == d.slave
  {
    if n > 0 {
      OneSlaveStays(d, t, n - 1);
    }
  }

  /** A later entry goes to the same register of the same slave. */
  ghost predicate WrittenAgain(s: Sensor, d: Device, t: Table, p: nat)
    requires p < |t|
  {
    exists q :: p < q < |t| && Plain(t[q].reg) && Key(s, d, t, q) == Key(s, d, t, p)
  }

  lemma KeyOfPrefix(s: Sensor, d: Device, t: Table, n: nat, q: nat)
    requires q < n <= |t|
    ensures Key(s, d, t[..n], q) == Key(s, d, t, q)
  {
    assert t[..n][..q] == t[..q];
  }

  lemma WrittenAgainStep(s: Sensor, d: Device, t: Table, p: nat)
    requires p < |t| - 1
    ensures var n := |t| - 1;
            WrittenAgain(s, d, t, p) <==>
            WrittenAgain(s, d, t[..n], p) || (Plain(t[n].reg) && Key(s, d, t, n) == Key(s, d, t, p))
  {
    var n := |t| - 1;
    forall q | 0 <= q < n
      ensures Key(s, d, t[..n], q) == Key(s, d, t, q)
    {
      KeyOfPrefix(s, d, t, n, q);
    }
    if WrittenAgain(s, d, t[..n], p) {
      var q :| p < q < n && Plain(t[..n][q].reg) && Key(s, d, t[..n], q) == Key(s, d, t[..n], p);
      assert Plain(t[q].reg) && Key(s, d, t, q) == Key(s, d, t, p);
    }
    if WrittenAgain(s, d, t, p) {
      var q :| p < q < |t| && Plain(t[q].reg) && Key(s, d, t, q) == Key(s, d, t, p);
      assert q < n ==> Plain(t[..n][q].reg) && Key(s, d, t[..n], q) == Key(s, d, t[..n], p);
    }
  }

  /** The device with `x` in register `k`, unless something hides it. */
  function Put(d: Device, k: (Word, nat), x: Word, hidden: bool): Device
  {
    if hidden then d else d.(regs := d.regs[k := x])
  }

  /** A write hides an earlier one to the same place and lets every other one stand. */
  lemma SendAfter(s: Sensor, d: Device, e: SensorReg, k: (Word, nat), x: Word, hidden: bool)
    ensures SendOne(s, Put(d, k, x, hidden), e) ==
            Put(SendOne(s, d, e), k, x, hidden || (Plain(e.reg) && (d.slave, Wire(s, e.reg)) == k))
  {
    if Plain(e.reg) && !hidden {
      var k', x' := (d.slave, Wire(s, e.reg)), WireData(s, e.data);
      assert k' == k ==> d.regs[k := x][k' := x'] == d.regs[k' := x'];
      assert k' != k ==> d.regs[k := x][k' := x'] == d.regs[k' := x'][k := x];
    }
  }

  lemma ReplayLast(s: Sensor, d: Device, t: Table)
    requires t != []
    ensures Replay(s, d, t) == SendOne(s, Replay(s, d, t[..|t| - 1]), t[|t| - 1])
  {
  }

  /** What new data in entry `p` does to the device: nothing when the register is written again, and
      otherwise exactly that register gets it. */
  lemma {:induction false} EditThroughReplay(s: Sensor, d: Device, t: Table, p: nat, data: Word)
    requires p < |t| && Plain(t[p].reg)
    ensures Replay(s, d, SetData(t, p, data)) ==
            Put(Replay(s, d, t), Key(s, d, t, p), WireData(s, data), WrittenAgain(s, d, t, p))
    decreases |t|
  {
    var n, t' := |t| - 1, SetData(t, p, data);
    ReplayLast(s, d, t);
    ReplayLast(s, d, t');
    if p == n {
      assert t'[..n] == t[..n];
    } else {
      assert t'[..n] == SetData(t[..n], p, data);
      EditThroughReplay(s, d, t[..n], p, data);
      KeyOfPrefix(s, d, t, n, p);
      WrittenAgainStep(s, d, t, p);
      SendAfter(s, Replay(s, d, t[..n]), t[n], Key(s, d, t, p), WireData(s, data), WrittenAgain(s, d, t[..n], p));
    }
  }

  /** An edit of a register goes to its first entry, so it reaches the device exactly when no later
      entry writes there. */
  lemma EditReachesDevice(s: Sensor, d: Device, t: Table, reg: nat, value: int, a: nat, b: nat)
    requires Plain(reg) && InTable(t, reg) && a <= b <= 32
    ensures var p := FirstMatch(t, reg);
            Replay(s, d, EditBits(t, reg, a, b, value, Equal)) ==
            Put(Replay(s, d, t), Key(s, d, t, p), WireData(s, Blend(t[p].data, value, a, b)), WrittenAgain(s, d, t, p))
  {
    var p := FirstMatch(t, reg);
    EditBitsEqual(t, reg, a, b, value);
    EditThroughReplay(s, d, t, p, Blend(t[p].data, value, a, b));
  }

  /** The same for the flip of a bit. */
  lemma FlipReachesDevice(s: Sensor, d: Device, t: Table, reg: nat, bit: nat, flip: int)
    requires Plain(reg) && reg != 0 && InTable(t, reg) && bit < 32
    ensures var p := FirstMatch(t, reg);
            Replay(s, d, FlipEdit(t, reg, bit, flip)) ==
            Put(Replay(s, d, t), Key(s, d, t, p), WireData(s, BitOp(t[p].data, bit, flip, Toggle)), WrittenAgain(s, d, t, p))
  {
    EditThroughReplay(s, d, t, FirstMatch(t, reg), BitOp(t[FirstMatch(t, reg)].data, bit, flip, Toggle));
  }

  /** The last write wins, and for an entry that is alone it is its own. */
  lemma ReplayAlone(s: Sensor, d: Device, t: Table, p: nat)
    requires p < |t| && Alone(s, t, p)
    ensures var r := Replay(s, d, t);
            Key(s, d, t, p) in r.regs && r.regs[Key(s, d, t, p)] == WireData(s, t[p].data)
  {
    EditThroughReplay(s, d, t, p, t[p].data);
    assert SetData(t, p, t[p].data) == t;
  }

  predicate InTable(t: Table, r: nat)
  {
    FirstMatch(t, r) < |t|
  }

  // ---------------------------------------------------------------- fields in a table

  /** The registers of a field. */
  predicate InField(reg: nat, width: nat, r: nat)
  {
    reg <= r < reg + RegCount(width)
  }

  /** Each register of the field is in the table. */
  ghost predicate FieldPresent(t: Table, reg: nat, width: nat)
  {
    forall r: nat :: InField(reg, width, r) ==> InTable(t, r)
  }

  predicate SameRegs(t: Table, t': Table)
  {
    |t| == |t'| && forall p :: 0 <= p < |t| ==> t[p].reg == t'[p].reg
  }

  lemma SameRegsSameMatch(t: Table, t': Table, reg: nat)
    requires SameRegs(t, t')
    ensures FirstMatch(t', reg) == FirstMatch(t, reg)
  {
    FirstMatchIs(t', reg, FirstMatch(t, reg));
  }

  /** One round of the split loop, at one entry. */
  lemma RoundEntry(t: Table, r: nat, bits: nat, part: nat, p: nat)
    requires bits <= 8 && p < |t|
    ensures var t' := BlendReg(t, r, part, 0, bits);
            && SameRegs(t, t')
            && t'[p] == if p == FirstMatch(t, r) then t[p].(data := Blend(t[p].data, part, 0, bits)) else t[p]
  {
  }

  lemma {:induction false} WritePartsRegs(t: Table, reg: nat, bits: nat, parts: seq<nat>, n: nat)
    requires n <= |parts| && bits <= 8
    ensures SameRegs(t, WriteParts(t, reg, bits, parts, n))
  {
    if n > 0 {
      WritePartsRegs(t, reg, bits, parts, n - 1);
      var before := WriteParts(t, reg, bits, parts, n - 1);
      forall p | 0 <= p < |t|
        ensures WriteParts(t, reg, bits, parts, n)[p].reg == t[p].reg
      {
        RoundEntry(before, reg + n - 1, bits, parts[n - 1], p);
      }
    }
  }

  /** Entry `p` after the split loop has done `n` rounds. */
  function WrittenEntry(t: Table, reg: nat, bits: nat, parts: seq<nat>, n: nat, p: nat): SensorReg
    requires p < |t| && n <= |parts|
  {
    if reg <= t[p].reg < reg + n && p == FirstMatch(t, t[p].reg) then
      t[p].(data := Blend(t[p].data, parts[t[p].reg - reg], 0, bits))
    else t[p]
  }

  lemma WrittenEntryStep(t: Table, before: Table, reg: nat, bits: nat, parts: seq<nat>, n: nat, p: nat)
    requires 0 < n <= |parts| && bits <= 8 && p < |t|
    requires SameRegs(t, before) && before[p] == WrittenEntry(t, reg, bits, parts, n - 1, p)
    ensures BlendReg(before, reg + n - 1, parts[n - 1], 0, bits)[p] == WrittenEntry(t, reg, bits, parts, n, p)
  {
    var r := reg + n - 1;
    SameRegsSameMatch(t, before, r);
    RoundEntry(before, r, bits, parts[n - 1], p);
    if t[p].reg == r {
      assert before[p] == t[p];
    }
  }

  /** The split loop changes the first entry of each register of the field, and nothing else. */
  lemma {:induction false} WritePartsEntries(t: Table, reg: nat, bits: nat, parts: seq<nat>, n: nat, p: nat)
    requires n <= |parts| && bits <= 8 && p < |t|
    ensures WriteParts(t, reg, bits, parts, n)[p] == WrittenEntry(t, reg, bits, parts, n, p)
  {
    if n > 0 {
      WritePartsRegs(t, reg, bits, parts, n - 1);
      WritePartsEntries(t, reg, bits, parts, n - 1, p);
      WrittenEntryStep(t, WriteParts(t, reg, bits, parts, n - 1), reg, bits, parts, n, p);
      WritePartsStep(t, reg, bits, parts, n - 1);
    }
  }

  /** The first entry for `r` holds `part` in its low bits. */
  predicate HoldsPart(t: Table, r: nat, part: nat, bits: nat)
    requires bits <= 8
  {
    && InTable(t, r)
    && forall k :: 0 <= k < bits ==> t[FirstMatch(t, r)].data[k] == TestBit(part, k)
  }

  /** Each register of the field holds its part of the value. */
  ghost predicate FieldHolds(t: Table, reg: nat, width: nat, value: nat)
    requires width > 0
  {
    forall r: nat :: InField(reg, width, r) ==> HoldsPart(t, r, PartsOf(value, width)[r - reg], PartBits(width))
  }

  /** `t'` has the entries of `t`, except in the registers of a field. */
  predicate KeptOutside(t: Table, t': Table, reg: nat, width: nat)
  {
    && SameRegs(t, t')
    && forall p :: 0 <= p < |t| && !InField(reg, width, t[p].reg) ==> t[p] == t'[p]
  }

  lemma SetFieldKeepsOutside(t: Table, reg: nat, width: nat, value: int)
    ensures KeptOutside(t, SetField(t, reg, width, value), reg, width)
  {
    if width > 0 && 0 <= value < Pow2(width) {
      var parts := PartsOf(value, width);
      WritePartsRegs(t, reg, PartBits(width), parts, RegCount(width));
      forall p | 0 <= p < |t| && !InField(reg, width, t[p].reg)
        ensures SetField(t, reg, width, value)[p] == t[p]
      {
        WritePartsEntries(t, reg, PartBits(width), parts, RegCount(width), p);
      }
    }
  }

  lemma SetFieldHolds(t: Table, reg: nat, width: nat, value: nat)
    requires width > 0 && value < Pow2(width) && FieldPresent(t, reg, width)
    ensures FieldHolds(SetField(t, reg, width, value), reg, width, value)
  {
    var t', parts := SetField(t, reg, width, value), PartsOf(value, width);
    WritePartsRegs(t, reg, PartBits(width), parts, RegCount(width));
    forall r: nat | InField(reg, width, r)
      ensures HoldsPart(t', r, parts[r - reg], PartBits(width))
    {
      var p := FirstMatch(t, r);
      assert InTable(t, r);
      WritePartsEntries(t, reg, PartBits(width), parts, RegCount(width), p);
      SameRegsSameMatch(t, t', r);
      assert t'[p].data == Blend(t[p].data, parts[r - reg], 0, PartBits(width));
    }
  }

  predicate Disjoint(reg: nat, width: nat, reg': nat, width': nat)
  {
    reg + RegCount(width) <= reg' || reg' + RegCount(width') <= reg
  }

  /** A field written later leaves one written earlier alone. */
  lemma FieldSurvives(t: Table, t': Table, reg: nat, width: nat, value: nat, reg': nat, width': nat)
    requires width > 0 && FieldHolds(t, reg, width, value)
    requires KeptOutside(t, t', reg', width') && Disjoint(reg, width, reg', width')
    ensures FieldHolds(t', reg, width, value)
  {
    forall r: nat | InField(reg, width, r)
      ensures HoldsPart(t', r, PartsOf(value, width)[r - reg], PartBits(width))
    {
      SameRegsSameMatch(t, t', r);
      assert HoldsPart(t, r, PartsOf(value, width)[r - reg], PartBits(width));
      assert !InField(reg', width', r);
    }
  }

  lemma PresenceKept(t: Table, t': Table, reg: nat, width: nat)
    requires SameRegs(t, t') && FieldPresent(t, reg, width)
    ensures FieldPresent(t', reg, width)
  {
    forall r: nat | InField(reg, width, r)
      ensures InTable(t', r)
    {
      SameRegsSameMatch(t, t', r);
      assert InTable(t, r);
    }
  }
}
