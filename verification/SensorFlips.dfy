/** What mirroring the sensor does to its colour pattern, and that doing it twice undoes it. */
module SensorFlips {
  import opened Bits
  import opened SensorRegs

  datatype Colour = Red | Green | Blue

  /** The four orders by their first two pixels of the first two rows: BGGR, GBRG, GRBG, RGGB. */
  function Corner(order: bv2, x: nat, y: nat): Colour
    requires x < 2 && y < 2
  {
    match (order, x, y)
    case (0, 0, 0) => Blue
    case (0, 1, 1) => Red
    case (1, 1, 0) => Blue
    case (1, 0, 1) => Red
    case (2, 0, 1) => Blue
    case (2, 1, 0) => Red
    case (3, 1, 1) => Blue
    case (3, 0, 0) => Red
    case _ => Green
  }

  function ColourAt(order: bv2, x: nat, y: nat): Colour
  {
    Corner(order, x % 2, y % 2)
  }

  lemma MirroredParity(x: nat, w: nat)
    requires x < w && w % 2 == 0
    ensures (w - 1 - x) % 2 == 1 - x % 2
  {
  }

  /** Order ^ 1 is the pattern mirrored left to right, order ^ 2 the one mirrored top to bottom. */
  lemma FlipMirrors(order: bv2, x: nat, y: nat, w: nat, h: nat)
    requires x < w && y < h && w % 2 == 0 && h % 2 == 0
    ensures ColourAt(order ^ 1, x, y) == ColourAt(order, w - 1 - x, y)
    ensures ColourAt(order ^ 2, x, y) == ColourAt(order, x, h - 1 - y)
  {
    MirroredParity(x, w);
    MirroredParity(y, h);
    CornerMirrors(order, x % 2, y % 2);
  }

  /** After an update the order is the colour pattern mirrored by each flip that was asked for, if the
      sensor has it and its flips change the order. */
  lemma UpdateMirrors(s: Sensor, order: bv2, hflip: int, vflip: int, x: nat, y: nat, w: nat, h: nat)
    requires x < w && y < h && w % 2 == 0 && h % 2 == 0
    ensures ColourAt(UpdatedOrder(s, order, hflip, vflip), x, y) ==
            ColourAt(order,
                     if s.hflipReg != 0 && hflip != 0 && !s.flipsKeepOrder then w - 1 - x else x,
                     if s.vflipReg != 0 && vflip != 0 && !s.flipsKeepOrder then h - 1 - y else y)
  {
    var o := UpdatedOrder(s, order, 0, vflip);
    FlipMirrors(o, x, y, w, h);
    FlipMirrors(order, x, y, w, h);
    FlipMirrors(order, w - 1 - x, y, w, h);
  }

  lemma CornerMirrors(order: bv2, x: nat, y: nat)
    requires x < 2 && y < 2
    ensures Corner(order ^ 1, x, y) == Corner(order, 1 - x, y)
    ensures Corner(order ^ 2, x, y) == Corner(order, x, 1 - y)
  {
    assert order == 0 || order == 1 || order == 2 || order == 3;
  }

  /** With an odd width the mirrored pattern is the pattern itself. */
  lemma OddWidthDoesNotMirror(order: bv2, x: nat, y: nat, w: nat)
    requires x < w && w % 2 == 1
    ensures ColourAt(order, w - 1 - x, y) == ColourAt(order, x, y) != ColourAt(order ^ 1, x, y)
  {
    assert (w - 1 - x) % 2 == x % 2;
    assert order == 0 || order == 1 || order == 2 || order == 3;
    assert x % 2 == 0 || x % 2 == 1;
    assert y % 2 == 0 || y % 2 == 1;
  }

  // ---------------------------------------------------------------- twice is not at all

  lemma XorBits(val: Word, bit: nat, flip: int)
    requires bit < 32
    ensures forall k :: 0 <= k < 16 ==> BitOp(val, bit, flip, Toggle)[k] == (val[k] != Shl(ToBits(flip), bit)[k])
  {
  }

  lemma XorTwice(val: Word, bit: nat, flip: int, bit': nat, flip': int)
    requires bit < 32 && bit' < 32
    ensures BitOp(BitOp(val, bit, flip, Toggle), bit, flip, Toggle) == val
    ensures BitOp(BitOp(val, bit, flip, Toggle), bit', flip', Toggle) == BitOp(BitOp(val, bit', flip', Toggle), bit, flip, Toggle)
  {
    XorBits(val, bit, flip);
    XorBits(BitOp(val, bit, flip, Toggle), bit, flip);
    XorBits(BitOp(val, bit, flip, Toggle), bit', flip');
    XorBits(val, bit', flip');
    XorBits(BitOp(val, bit', flip', Toggle), bit, flip);
  }

  lemma MatchAfterEdit(t: Table, reg: nat, i: nat, data: Word)
    ensures FirstMatch(SetData(t, i, data), reg) == FirstMatch(t, reg)
  {
    var r, j := SetData(t, i, data), FirstMatch(t, reg);
    assert forall k :: 0 <= k < |t| ==> r[k].reg == t[k].reg;
    FirstMatchIs(r, reg, j);
  }

  lemma FlipEditTwice(t: Table, reg: nat, bit: nat, flip: int)
    requires bit < 32
    ensures FlipEdit(FlipEdit(t, reg, bit, flip), reg, bit, flip) == t
  {
    var i := FirstMatch(t, reg);
    if reg != 0 && i < |t| {
      MatchAfterEdit(t, reg, i, BitOp(t[i].data, bit, flip, Toggle));
      XorTwice(t[i].data, bit, flip, bit, flip);
    }
  }

  lemma FlipEditsCommute(t: Table, reg: nat, bit: nat, flip: int, reg': nat, bit': nat, flip': int)
    requires bit < 32 && bit' < 32
    ensures FlipEdit(FlipEdit(t, reg, bit, flip), reg', bit', flip') == FlipEdit(FlipEdit(t, reg', bit', flip'), reg, bit, flip)
  {
    var i, j := FirstMatch(t, reg), FirstMatch(t, reg');
    if i < |t| {
      MatchAfterEdit(t, reg', i, BitOp(t[i].data, bit, flip, Toggle));
    }
    if j < |t| {
      MatchAfterEdit(t, reg, j, BitOp(t[j].data, bit', flip', Toggle));
    }
    if i == j < |t| {
      XorTwice(t[i].data, bit, flip, bit', flip');
    }
  }

  /** Without exposure and gain, updating twice restores the table and the colour order, even when both
      flips share a register or a bit. */
  lemma FlipsTwice(s: Sensor, t: Table, order: bv2, minVts: int, hflip: int, vflip: int)
    requires Wellformed(s)
    ensures var once := Updated(s, t, minVts, hflip, vflip, -1, -1);
            Updated(s, once, minVts, hflip, vflip, -1, -1) == t
    ensures UpdatedOrder(s, UpdatedOrder(s, order, hflip, vflip), hflip, vflip) == order
  {
    var v := FlipEdit(t, s.vflipReg, s.vflipBit, vflip);
    var hv := FlipEdit(v, s.hflipReg, s.hflipBit, hflip);
    FlipEditsCommute(v, s.hflipReg, s.hflipBit, hflip, s.vflipReg, s.vflipBit, vflip);
    FlipEditTwice(t, s.vflipReg, s.vflipBit, vflip);
    FlipEditTwice(t, s.hflipReg, s.hflipBit, hflip);
    assert order == 0 || order == 1 || order == 2 || order == 3;
  }
}
