/** Sensor mode tables: lists of register writes, and the editing of bit fields in them. */
module SensorRegs {
  import opened Bits

  datatype SensorReg = SensorReg(reg: nat, data: Word)

  type Table = seq<SensorReg>

  /** EQUAL, SET, CLEAR and XOR. */
  datatype Operation = Equal | Set | Clear | Toggle

  // ---------------------------------------------------------------- the edits

  /** The new contents of a register, computed in `int` and cut to 16 bits. */
  function BitOp(val: Word, bit: nat, value: int, op: Operation): Word
    requires bit < 32
  {
    var v, one, shifted := Widen(val), Shl(One(), bit), Shl(ToBits(value), bit);
    match op
    case Equal => Cut(And(Or(v, one), Not(Xor(one, shifted))))
    case Set => Cut(Or(v, one))
    case Clear => Cut(And(v, Not(one)))
    case Toggle => Cut(Xor(v, shifted))
  }

  /** The first entry for a register, or the length of the table. */
  function FirstMatch(t: Table, reg: nat): (i: nat)
    ensures i <= |t|
    ensures i < |t| ==> t[i].reg == reg
    ensures forall k :: 0 <= k < i ==> t[k].reg != reg
  {
    if t == [] || t[0].reg == reg then 0 else 1 + FirstMatch(t[1..], reg)
  }

  lemma FirstMatchIs(t: Table, reg: nat, i: nat)
    requires i <= |t| && (i < |t| ==> t[i].reg == reg)
    requires forall k :: 0 <= k < i ==> t[k].reg != reg
    ensures FirstMatch(t, reg) == i
  {
    assert !(i < FirstMatch(t, reg));
  }

  function SetData(t: Table, i: nat, data: Word): (r: Table)
    ensures |r| == |t|
  {
    if i < |t| then t[i := t[i].(data := data)] else t
  }

  function EditBit(t: Table, reg: nat, bit: nat, value: int, op: Operation): (r: Table)
    requires bit < 32
    ensures |r| == |t|
  {
    var i := FirstMatch(t, reg);
    if i == |t| then t else SetData(t, i, BitOp(t[i].data, bit, value, op))
  }

  function BitOf(value: int, k: nat): int
  {
    if TestBit(value, k) then 1 else 0
  }

  /** Bits `a` to `b` - 1, each taken from the same bit of `value`. */
  function EditBits(t: Table, reg: nat, a: nat, b: nat, value: int, op: Operation): (r: Table)
    requires a <= b <= 32
    ensures |r| == |t|
    decreases b
  {
    if b == a then t else EditBit(EditBits(t, reg, a, b - 1, value, op), reg, b - 1, BitOf(value, b - 1), op)
  }

  // ---------------------------------------------------------------- what an edit does

  /** Bits `a` to `b` - 1 from `value`, the others kept. */
  function Blend(old_: Word, value: int, a: nat, b: nat): Word
  {
    seq(16, i requires 0 <= i < 16 => if a <= i < b then TestBit(value, i) else old_[i])
  }

  function BlendReg(t: Table, reg: nat, value: int, a: nat, b: nat): (r: Table)
    ensures |r| == |t|
  {
    var i := FirstMatch(t, reg);
    if i < |t| then SetData(t, i, Blend(t[i].data, value, a, b)) else t
  }

  /** Equal with a bit value changes that bit alone, and to that value. */
  lemma EqualBit(val: Word, bit: nat, x: int)
    requires bit < 32 && 0 <= x <= 1
    ensures forall k :: 0 <= k < 16 ==> BitOp(val, bit, x, Equal)[k] == if k == bit then x == 1 else val[k]
  {
    BoolBits(x);
  }

  /** What each operation does to the bits of a register, for a bit value. */
  lemma BitOpMeaning(val: Word, bit: nat, x: int, op: Operation)
    requires bit < 32 && 0 <= x <= 1
    ensures forall k :: 0 <= k < 16 ==>
              BitOp(val, bit, x, op)[k] ==
              if k != bit then val[k]
              else match op
                   case Equal => x == 1
                   case Set => true
                   case Clear => false
                   case Toggle => val[k] != (x == 1)
  {
    BoolBits(x);
  }

  lemma SetDataMatch(t: Table, reg: nat, data: Word)
    ensures FirstMatch(SetData(t, FirstMatch(t, reg), data), reg) == FirstMatch(t, reg)
  {
    var i := FirstMatch(t, reg);
    FirstMatchIs(SetData(t, i, data), reg, i);
  }

  /** Writing a range of bits: one entry changes, the first for the register, and in it exactly the
      range; nothing happens when the register is absent. */
  lemma {:induction false} EditBitsEqual(t: Table, reg: nat, a: nat, b: nat, value: int)
    requires a <= b <= 32
    ensures EditBits(t, reg, a, b, value, Equal) == BlendReg(t, reg, value, a, b)
    decreases b
  {
    var i := FirstMatch(t, reg);
    if b == a {
      if i < |t| {
        assert Blend(t[i].data, value, a, b) == t[i].data;
      }
    } else {
      EditBitsEqual(t, reg, a, b - 1, value);
      if i < |t| {
        var before := Blend(t[i].data, value, a, b - 1);
        SetDataMatch(t, reg, before);
        EqualBit(before, b - 1, BitOf(value, b - 1));
        assert BitOp(before, b - 1, BitOf(value, b - 1), Equal) == Blend(t[i].data, value, a, b);
      }
    }
  }

  /** The same, bit by bit: every other bit, entry and register number is kept. */
  lemma EditBitsFrame(t: Table, reg: nat, a: nat, b: nat, value: int, p: nat)
    requires a <= b <= 16 && p < |t|
    ensures var r := EditBits(t, reg, a, b, value, Equal);
            && r[p].reg == t[p].reg
            && forall k :: 0 <= k < 16 ==>
                 r[p].data[k] == if p == FirstMatch(t, reg) && a <= k < b then TestBit(value, k) else t[p].data[k]
    ensures FirstMatch(t, reg) == |t| ==> EditBits(t, reg, a, b, value, Equal) == t
  {
    EditBitsEqual(t, reg, a, b, value);
  }

  // ---------------------------------------------------------------- fields over several registers

  /** The parts of a sensor description that the update reads. A register number of 0 means none. */
  datatype Sensor = Sensor(
    vflipReg: nat, vflipBit: nat, hflipReg: nat, hflipBit: nat, flipsKeepOrder: bool,
    exposureReg: nat, exposureBits: nat, vtsReg: nat, vtsBits: nat, gainReg: nat, gainBits: nat,
    addressing: int, dataSize: int)

  /** Bit numbers below 32, and widths for which 1 << width is an `int`. */
  predicate Wellformed(s: Sensor)
  {
    && s.vflipBit < 32 && s.hflipBit < 32
    && s.exposureBits <= 30 && s.vtsBits <= 30 && s.gainBits <= 30
    && FieldFits(s.exposureReg, s.exposureBits) && FieldFits(s.vtsReg, s.vtsBits) && FieldFits(s.gainReg, s.gainBits)
  }

  /** The registers of a field are ordinary 16-bit register numbers. */
  predicate FieldFits(reg: nat, width: nat)
  {
    reg + RegCount(width) <= 0xFFFE
  }

  function RegCount(width: nat): nat
  {
    (width + 7) / 8
  }

  /** How many bits of each register the split loop writes: it never looks at more than the bits of
      the most significant part. */
  function PartBits(width: nat): (k: nat)
    requires width > 0
    ensures 0 < k <= 8
  {
    (width - 1) % 8 + 1
  }

  /** Byte `i` of the value, most significant first. */
  function PartOf(value: nat, width: nat, i: nat): (b: nat)
    requires i < RegCount(width)
    ensures b < 256
  {
    value / Pow2(8 * (RegCount(width) - 1 - i)) % 256
  }

  lemma PartIndex(width: nat, i: nat)
    requires i < RegCount(width)
    ensures var j := width - 1 - 8 * i;
            j >= 0 && j / 8 == RegCount(width) - 1 - i && j % 8 == (width - 1) % 8
  {
  }

  lemma PartAt(value: nat, width: nat, i: nat)
    requires i < RegCount(width)
    ensures var j := width - 1 - 8 * i;
            j >= 0 && value / Pow2(8 * (j / 8)) % 256 == PartsOf(value, width)[i] && j % 8 + 1 == PartBits(width)
  {
    PartIndex(width, i);
  }

  /** The bytes of the value, most significant first. */
  function PartsOf(value: nat, width: nat): (parts: seq<nat>)
    ensures |parts| == RegCount(width)
  {
    seq(RegCount(width), i requires 0 <= i < RegCount(width) => PartOf(value, width, i))
  }

  /** The split loop after `i` rounds: `bits` bits in each of the registers from `reg` on. */
  function WriteParts(t: Table, reg: nat, bits: nat, parts: seq<nat>, i: nat): (r: Table)
    requires i <= |parts| && bits <= 8
    ensures |r| == |t|
  {
    if i == 0 then t
    else BlendReg(WriteParts(t, reg, bits, parts, i - 1), reg + i - 1, parts[i - 1], 0, bits)
  }

  lemma WritePartsStep(t: Table, reg: nat, bits: nat, parts: seq<nat>, i: nat)
    requires i < |parts| && bits <= 8
    ensures WriteParts(t, reg, bits, parts, i + 1) ==
            BlendReg(WriteParts(t, reg, bits, parts, i), reg + i, parts[i], 0, bits)
  {
  }

  /** A round of the split loop as it computes its part and its bit range. */
  lemma RoundWrites(t: Table, reg: nat, width: nat, value: nat, i: nat)
    requires width > 0 && i < RegCount(width)
    ensures var j := width - 1 - 8 * i;
            && j >= 0
            && WriteParts(t, reg, PartBits(width), PartsOf(value, width), i + 1) ==
               BlendReg(WriteParts(t, reg, PartBits(width), PartsOf(value, width), i), reg + i,
                        value / Pow2(8 * (j / 8)) % 256, 0, j % 8 + 1)
  {
    PartAt(value, width, i);
    WritePartsStep(t, reg, PartBits(width), PartsOf(value, width), i);
  }

  /** A value out of range is only reported. */
  function SetField(t: Table, reg: nat, width: nat, value: int): (r: Table)
    ensures |r| == |t|
  {
    if width > 0 && 0 <= value < Pow2(width) then WriteParts(t, reg, PartBits(width), PartsOf(value, width), RegCount(width))
    else t
  }

  function FlipEdit(t: Table, reg: nat, bit: nat, flip: int): (r: Table)
    requires bit < 32
    ensures |r| == |t|
  {
    if reg != 0 then EditBit(t, reg, bit, flip, Toggle) else t
  }

  function Flipped(s: Sensor, t: Table, hflip: int, vflip: int): (r: Table)
    requires Wellformed(s)
    ensures |r| == |t|
  {
    FlipEdit(FlipEdit(t, s.vflipReg, s.vflipBit, vflip), s.hflipReg, s.hflipBit, hflip)
  }

  /** The three fields, each under its guards. */
  function FieldsSet(s: Sensor, t1: Table, minVts: int, exposure: int, gain: int): (r: Table)
    ensures |r| == |t1|
  {
    var t2 := if s.exposureReg != 0 && exposure != -1 then SetField(t1, s.exposureReg, s.exposureBits, exposure) else t1;
    var t3 := if s.vtsReg != 0 && exposure != -1 && exposure >= minVts then SetField(t2, s.vtsReg, s.vtsBits, exposure) else t2;
    if s.gainReg != 0 && gain != -1 then SetField(t3, s.gainReg, s.gainBits, gain) else t3
  }

  function Updated(s: Sensor, t: Table, minVts: int, hflip: int, vflip: int, exposure: int, gain: int): (r: Table)
    requires Wellformed(s)
    ensures |r| == |t|
  {
    FieldsSet(s, Flipped(s, t, hflip, vflip), minVts, exposure, gain)
  }

  function UpdatedOrder(s: Sensor, order: bv2, hflip: int, vflip: int): bv2
  {
    var o := if s.vflipReg != 0 && vflip != 0 && !s.flipsKeepOrder then order ^ 2 else order;
    if s.hflipReg != 0 && hflip != 0 && !s.flipsKeepOrder then o ^ 1 else o
  }

  // ---------------------------------------------------------------- the mode object

  class Mode {
    const regs: array<SensorReg>
    /** Position in the list BGGR, GBRG, GRBG, RGGB. */
    var order: bv2
    const minVts: int

    constructor (regs: array<SensorReg>, order: bv2, minVts: int)
      ensures this.regs == regs && this.order == order && this.minVts == minVts
    {
      this.regs := regs;
      this.order := order;
      this.minVts := minVts;
    }

    method ModRegBit(reg: nat, bit: nat, value: int, op: Operation)
      requires bit < 32
      modifies regs
      ensures regs[..] == EditBit(old(regs[..]), reg, bit, value, op)
    {
      var i := 0;
      while i < regs.Length && regs[i].reg != reg
        invariant i <= regs.Length
        invariant forall k :: 0 <= k < i ==> regs[k].reg != reg
      {
        i := i + 1;
      }
      FirstMatchIs(regs[..], reg, i);
      if i == regs.Length {
        return;
      }
      var val := regs[i].data;
      match op {
        case Equal =>
          val := Cut(And(Or(Widen(val), Shl(One(), bit)), Not(Xor(Shl(One(), bit), Shl(ToBits(value), bit)))));
        case Set =>
          val := Cut(Or(Widen(val), Shl(One(), bit)));
        case Clear =>
          val := Cut(And(Widen(val), Not(Shl(One(), bit))));
        case Toggle =>
          val := Cut(Xor(Widen(val), Shl(ToBits(value), bit)));
      }
      regs[i] := regs[i].(data := val);
    }

    /** `startBit` to `endBit`, both included. */
    method ModReg(reg: nat, startBit: nat, endBit: nat, value: int, op: Operation)
      requires startBit <= endBit + 1 <= 32
      modifies regs
      ensures regs[..] == EditBits(old(regs[..]), reg, startBit, endBit + 1, value, op)
    {
      for i := startBit to endBit + 1
        invariant regs[..] == EditBits(old(regs[..]), reg, startBit, i, value, op)
      {
        ModRegBit(reg, i, if TestBit(value, i) then 1 else 0, op);
      }
    }

    /** One round: the byte that holds bit `j`, and as many bits of it as `j` says. */
    method SplitRound(reg: nat, width: nat, value: nat, i: nat, j: nat, ghost start: Table)
      requires width > 0 && i < RegCount(width) && j == width - 1 - 8 * i
      requires regs[..] == WriteParts(start, reg, PartBits(width), PartsOf(value, width), i)
      modifies regs
      ensures regs[..] == WriteParts(start, reg, PartBits(width), PartsOf(value, width), i + 1)
    {
      RoundWrites(start, reg, width, value, i);
      var val := value / Pow2(8 * (j / 8)) % 256;
      SetBits(reg + i, 0, j % 8, val);
    }

    /** `ModReg` with Equal, by what it does to the bits. */
    method SetBits(reg: nat, startBit: nat, endBit: nat, value: int)
      requires startBit <= endBit + 1 <= 32
      modifies regs
      ensures regs[..] == BlendReg(old(regs[..]), reg, value, startBit, endBit + 1)
    {
      EditBitsEqual(regs[..], reg, startBit, endBit + 1, value);
      ModReg(reg, startBit, endBit, value, Equal);
    }

    /** One of the three split loops. */
    method SplitField(reg: nat, width: nat, value: nat)
      requires width > 0 && FieldFits(reg, width)
      modifies regs
      ensures regs[..] == WriteParts(old(regs[..]), reg, PartBits(width), PartsOf(value, width), RegCount(width))
    {
      ghost var start := regs[..];
      var j: int := width - 1;
      var numRegs := (width + 7) / 8;
      for i := 0 to numRegs
        invariant j == width - 1 - 8 * i
        invariant regs[..] == WriteParts(start, reg, PartBits(width), PartsOf(value, width), i)
      {
        SplitRound(reg, width, value, i, j, start);
        j := j - 8;
      }
    }

    /** A width of zero leaves the loop without a round. */
    method SetRange(reg: nat, width: nat, value: int)
      requires FieldFits(reg, width)
      modifies regs
      ensures regs[..] == SetField(old(regs[..]), reg, width, value)
    {
      if !(value < 0 || value >= Pow2(width)) && width > 0 {
        SplitField(reg, width, value);
      }
    }

    method UpdateFlips(s: Sensor, hflip: int, vflip: int)
      requires Wellformed(s)
      modifies this`order, regs
      ensures regs[..] == Flipped(s, old(regs[..]), hflip, vflip)
      ensures order == UpdatedOrder(s, old(order), hflip, vflip)
    {
      if s.vflipReg != 0 {
        ModRegBit(s.vflipReg, s.vflipBit, vflip, Toggle);
        if vflip != 0 && !s.flipsKeepOrder {
          order := order ^ 2;
        }
      }
      if s.hflipReg != 0 {
        ModRegBit(s.hflipReg, s.hflipBit, hflip, Toggle);
        if hflip != 0 && !s.flipsKeepOrder {
          order := order ^ 1;
        }
      }
    }

    method UpdateFields(s: Sensor, exposure: int, gain: int)
      requires Wellformed(s)
      modifies regs
      ensures regs[..] == FieldsSet(s, old(regs[..]), minVts, exposure, gain)
    {
      if s.exposureReg != 0 && exposure != -1 {
        SetRange(s.exposureReg, s.exposureBits, exposure);
      }
      if s.vtsReg != 0 && exposure != -1 && exposure >= minVts {
        SetRange(s.vtsReg, s.vtsBits, exposure);
      }
      if s.gainReg != 0 && gain != -1 {
        SetRange(s.gainReg, s.gainBits, gain);
      }
    }

    /** The flips, then the fields. */
    method UpdateRegs(s: Sensor, hflip: int, vflip: int, exposure: int, gain: int)
      requires Wellformed(s)
      modifies this`order, regs
      ensures regs[..] == Updated(s, old(regs[..]), minVts, hflip, vflip, exposure, gain)
      ensures order == UpdatedOrder(s, old(order), hflip, vflip)
    {
      UpdateFlips(s, hflip, vflip);
      UpdateFields(s, exposure, gain);
    }
  }
}
