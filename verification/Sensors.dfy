/** The sensors of the repository, and what the update means for them. */
module Sensors {
  import opened Bits
  import opened SensorRegs
  import opened RegisterReplay
  import opened SensorFields
  import opened SensorFlips
  import opened SensorUpdate

  const IMX219: Sensor := Sensor(0x172, 0, 0x172, 1, false, 0x15A, 16, 0x160, 16, 0x157, 8, 2, 0)

  /** No flip, exposure, frame length or gain register is known for this one. */
  const AR0144: Sensor := Sensor(0, 0, 0, 0, false, 0, 20, 0, 16, 0, 10, 2, 2)

  /** The registers that an update of the imx219 writes. */
  predicate Control(r: nat)
  {
    r == 0x157 || r == 0x15A || r == 0x15B || r == 0x160 || r == 0x161 || r == 0x172
  }

  predicate NoControls(regs: seq<nat>)
  {
    forall q :: 0 <= q < |regs| ==> !Control(regs[q]) && regs[q] < 0xFFFE
  }

  /** The register numbers of the one imx219 mode in use, in table order: bus and lanes, window, clocks,
      tuning, and at the end the registers an update writes, among others. */
  function Mode6Start(): (regs: seq<nat>)
    ensures |regs| == 11 && NoControls(regs)
  {
    [0x0100, 0x30EB, 0x30EB, 0x300A, 0x300B, 0x30EB, 0x30EB, 0x0114, 0x0128, 0x012A, 0x012B]
  }

  function Mode6Window(): (regs: seq<nat>)
    ensures |regs| == 16 && NoControls(regs)
  {
    [0x0164, 0x0165, 0x0166, 0x0167, 0x0168, 0x0169, 0x016A, 0x016B, 0x016C, 0x016D, 0x016E, 0x016F,
     0x0170, 0x0171, 0x0174, 0x0175]
  }

  function Mode6Clocks(): (regs: seq<nat>)
    ensures |regs| == 12 && NoControls(regs)
  {
    [0x018C, 0x018D, 0x0301, 0x0303, 0x0304, 0x0305, 0x0306, 0x0307, 0x0309, 0x030B, 0x030C, 0x030D]
  }

  function Mode6Tuning(): (regs: seq<nat>)
    ensures |regs| == 12 && NoControls(regs)
  {
    [0x455E, 0x471E, 0x4767, 0x4750, 0x4540, 0x47B4, 0x4713, 0x478B, 0x478F, 0x4793, 0x4797, 0x479B]
  }

  function Mode6Controls(): (regs: seq<nat>)
    ensures |regs| == 9
  {
    [0x0172, 0x0157, 0x0160, 0x0161, 0x0162, 0x0163, 0x015A, 0x015B, 0x0100]
  }

  function Mode6Regs(): (regs: seq<nat>)
  {
    Mode6Start() + Mode6Window() + Mode6Clocks() + Mode6Tuning() + Mode6Controls()
  }

  predicate HasRegs(t: Table, regs: seq<nat>)
  {
    |t| == |regs| && forall p :: 0 <= p < |t| ==> t[p].reg == regs[p]
  }

  /** The table has exactly one entry for the register. */
  predicate Once(t: Table, r: nat)
  {
    InTable(t, r) && forall q :: FirstMatch(t, r) < q < |t| ==> t[q].reg != r
  }

  /** Each register that an update of the imx219 writes occurs once. */
  predicate Imx219Table(t: Table)
  {
    && Once(t, 0x157)
    && Once(t, 0x15A) && Once(t, 0x15B)
    && Once(t, 0x160) && Once(t, 0x161)
    && Once(t, 0x172)
    && forall p :: 0 <= p < |t| ==> t[p].reg < 0x1_0000
  }

  lemma OnceAt(t: Table, setup: seq<nat>, controls: seq<nat>, r: nat, p: nat)
    requires HasRegs(t, setup + controls) && NoControls(setup) && Control(r) && p < |controls| && controls[p] == r
    requires forall q :: 0 <= q < |controls| && q != p ==> controls[q] != r
    ensures Once(t, r)
  {
    forall q | 0 <= q < |t| && q != |setup| + p
      ensures t[q].reg != r
    {
      assert t[q].reg == if q < |setup| then setup[q] else controls[q - |setup|];
    }
    assert t[|setup| + p].reg == r;
    FirstMatchIs(t, r, |setup| + p);
  }

  /** The table of that mode has each of the registers an update writes once, and is for one slave. */
  lemma Mode6Table(t: Table)
    requires HasRegs(t, Mode6Regs())
    ensures Imx219Table(t) && OneSlave(t)
  {
    var setup := Mode6Start() + Mode6Window() + Mode6Clocks() + Mode6Tuning();
    assert NoControls(setup);
    ControlsOnce(t, setup, Mode6Controls());
  }

  lemma ControlsOnce(t: Table, setup: seq<nat>, controls: seq<nat>)
    requires HasRegs(t, setup + controls) && NoControls(setup) && controls == Mode6Controls()
    ensures Imx219Table(t) && OneSlave(t)
  {
    forall p | 0 <= p < |t|
      ensures t[p].reg < 0xFFFE
    {
      assert t[p].reg == if p < |setup| then setup[p] else controls[p - |setup|];
    }
    OnceAt(t, setup, controls, 0x172, 0);
    OnceAt(t, setup, controls, 0x157, 1);
    OnceAt(t, setup, controls, 0x160, 2);
    OnceAt(t, setup, controls, 0x161, 3);
    OnceAt(t, setup, controls, 0x15A, 6);
    OnceAt(t, setup, controls, 0x15B, 7);
  }

  lemma SmallNumber(reg: nat)
    requires reg < 0x1_0000
    ensures Wire(IMX219, reg) == reg
  {
  }

  lemma OnceIsAlone(t: Table, r: nat)
    requires Once(t, r) && Plain(r) && forall p :: 0 <= p < |t| ==> t[p].reg < 0x1_0000
    ensures Alone(IMX219, t, FirstMatch(t, r))
  {
    SmallNumber(r);
    forall q | 0 <= q < |t| && q != FirstMatch(t, r)
      ensures Wire(IMX219, t[q].reg) != r
    {
      SmallNumber(t[q].reg);
    }
  }

  /** The imx219 and each such table meet the conditions of the theorems on updates. */
  lemma Imx219Layout(t: Table)
    requires Imx219Table(t)
    ensures Wellformed(IMX219) && GoodLayout(IMX219) && GoodTable(IMX219, t)
    ensures Plain(IMX219.vflipReg) && Plain(IMX219.hflipReg) && FlipsApart(IMX219)
  {
    OnceIsAlone(t, 0x157);
    OnceIsAlone(t, 0x15A);
    OnceIsAlone(t, 0x15B);
    OnceIsAlone(t, 0x160);
    OnceIsAlone(t, 0x161);
  }

  lemma FieldRanges()
    ensures Pow2(8) == 0x100 && Pow2(16) == 0x1_0000
  {
    assert Pow2(4) == 16;
    assert Pow2(8) == 16 * Pow2(4);
    assert Pow2(12) == 16 * Pow2(8);
    assert Pow2(16) == 16 * Pow2(12);
  }

  /** After an update of the imx219 was sent, the exposure, frame length and gain registers hold the
      request, or what they would have held when the request is out of range. */
  lemma Imx219Update(d: Device, t: Table, minVts: int, hflip: int, vflip: int, exposure: int, gain: int)
    requires Imx219Table(t)
    ensures Wellformed(IMX219)
    ensures var t' := Updated(IMX219, t, minVts, hflip, vflip, exposure, gain);
            && SameKeys(IMX219, d, t, t')
            && DeviceField(IMX219, d, t', 0x15A, 16) ==
               (if 0 <= exposure < 0x1_0000 then exposure else DeviceField(IMX219, d, t, 0x15A, 16))
            && DeviceField(IMX219, d, t', 0x160, 16) ==
               (if 0 <= exposure < 0x1_0000 && exposure >= minVts then exposure else DeviceField(IMX219, d, t, 0x160, 16))
            && DeviceField(IMX219, d, t', 0x157, 8) ==
               (if 0 <= gain < 0x100 then gain else DeviceField(IMX219, d, t, 0x157, 8))
  {
    Imx219Layout(t);
    FieldRanges();
    UpdateReachesDevice(IMX219, d, t, minVts, hflip, vflip, exposure, gain);
    RejectedValuesLeaveFields(IMX219, d, t, minVts, hflip, vflip, exposure, gain);
  }

  /** And bits 0 and 1 of its orientation register are turned over by the vertical and the horizontal flip. */
  lemma Imx219Flips(d: Device, t: Table, minVts: int, hflip: int, vflip: int, exposure: int, gain: int, k: nat)
    requires Imx219Table(t) && 0 <= hflip <= 1 && 0 <= vflip <= 1 && k < 8
    ensures Wellformed(IMX219)
    ensures var t' := Updated(IMX219, t, minVts, hflip, vflip, exposure, gain);
            && SameKeys(IMX219, d, t, t')
            && DeviceWord(IMX219, d, t', 0x172)[k] ==
               ((DeviceWord(IMX219, d, t, 0x172)[k] != (k == 0 && vflip == 1)) != (k == 1 && hflip == 1))
  {
    Imx219Layout(t);
    OnceIsAlone(t, 0x172);
    FlipsReachDevice(IMX219, d, t, minVts, hflip, vflip, exposure, gain, 0x172, k);
  }

  /** The low byte of a register of a slave. */
  function LowByte(regs: map<(Word, nat), Word>, slave: Word, r: nat): nat
    requires (slave, r) in regs
  {
    Number(regs[(slave, r)][..8])
  }

  predicate HasControls(regs: map<(Word, nat), Word>, slave: Word)
  {
    && (slave, 0x157) in regs && (slave, 0x15A) in regs && (slave, 0x15B) in regs
    && (slave, 0x160) in regs && (slave, 0x161) in regs && (slave, 0x172) in regs
  }

  lemma ControlsOnDevice(d: Device, t: Table)
    requires Imx219Table(t) && OneSlave(t)
    ensures var regs := Replay(IMX219, d, t).regs;
            && HasControls(regs, d.slave)
            && DeviceWord(IMX219, d, t, 0x172) == regs[(d.slave, 0x172)]
            && DeviceField(IMX219, d, t, 0x157, 8) == LowByte(regs, d.slave, 0x157)
            && DeviceField(IMX219, d, t, 0x15A, 16) == LowByte(regs, d.slave, 0x15A) * 256 + LowByte(regs, d.slave, 0x15B)
            && DeviceField(IMX219, d, t, 0x160, 16) == LowByte(regs, d.slave, 0x160) * 256 + LowByte(regs, d.slave, 0x161)
  {
    ControlWord(d, t, 0x157);
    ControlWord(d, t, 0x15A);
    ControlWord(d, t, 0x15B);
    ControlWord(d, t, 0x160);
    ControlWord(d, t, 0x161);
    ControlWord(d, t, 0x172);
    OneByteField(d, t, 0x157);
    TwoByteField(d, t, 0x15A);
    TwoByteField(d, t, 0x160);
  }

  lemma ControlWord(d: Device, t: Table, r: nat)
    requires Imx219Table(t) && OneSlave(t) && Control(r)
    ensures (d.slave, r) in Replay(IMX219, d, t).regs
    ensures DeviceWord(IMX219, d, t, r) == Replay(IMX219, d, t).regs[(d.slave, r)]
  {
    OnceIsAlone(t, r);
    WordOfRegister(IMX219, d, t, r);
  }

  lemma OneByteField(d: Device, t: Table, r: nat)
    ensures DeviceField(IMX219, d, t, r, 8) == Number(DeviceWord(IMX219, d, t, r)[..8])
  {
    var words := DeviceWords(IMX219, d, t, r, 1);
    assert words[..0] == [] && PartBits(8) == 8;
    assert FieldValue(words, 8) == FieldValue(words[..0], 8) * 256 + Number(words[0][..8]);
  }

  lemma TwoByteField(d: Device, t: Table, r: nat)
    ensures DeviceField(IMX219, d, t, r, 16) ==
            Number(DeviceWord(IMX219, d, t, r)[..8]) * 256 + Number(DeviceWord(IMX219, d, t, r + 1)[..8])
  {
    var words := DeviceWords(IMX219, d, t, r, 2);
    assert words[..1][..0] == [];
    assert FieldValue(words, 16) == FieldValue(words[..1], 16) * 256 + Number(words[1][..8]);
  }

  lemma SameRegsSameTable(t: Table, t': Table)
    requires SameRegs(t, t') && Imx219Table(t) && OneSlave(t)
    ensures Imx219Table(t') && OneSlave(t')
  {
    StillOnce(t, t', 0x157);
    StillOnce(t, t', 0x15A);
    StillOnce(t, t', 0x15B);
    StillOnce(t, t', 0x160);
    StillOnce(t, t', 0x161);
    StillOnce(t, t', 0x172);
  }

  lemma StillOnce(t: Table, t': Table, r: nat)
    requires SameRegs(t, t') && Once(t, r)
    ensures Once(t', r)
  {
    SameRegsSameMatch(t, t', r);
  }

  /** On the registers of the device by their numbers, for a table that stays with the slave it finds: the
      high and low bytes of exposure and frame length, the gain, and the orientation. */
  lemma Imx219Registers(d: Device, t: Table, minVts: int, hflip: int, vflip: int, exposure: int, gain: int)
    requires Imx219Table(t) && OneSlave(t) && 0 <= hflip <= 1 && 0 <= vflip <= 1
    ensures Wellformed(IMX219)
    ensures var was, now := Replay(IMX219, d, t).regs,
                            Replay(IMX219, d, Updated(IMX219, t, minVts, hflip, vflip, exposure, gain)).regs;
            && HasControls(was, d.slave) && HasControls(now, d.slave)
            && LowByte(now, d.slave, 0x15A) * 256 + LowByte(now, d.slave, 0x15B) ==
               (if 0 <= exposure < 0x1_0000 then exposure
                else LowByte(was, d.slave, 0x15A) * 256 + LowByte(was, d.slave, 0x15B))
            && LowByte(now, d.slave, 0x160) * 256 + LowByte(now, d.slave, 0x161) ==
               (if 0 <= exposure < 0x1_0000 && exposure >= minVts then exposure
                else LowByte(was, d.slave, 0x160) * 256 + LowByte(was, d.slave, 0x161))
            && LowByte(now, d.slave, 0x157) == (if 0 <= gain < 0x100 then gain else LowByte(was, d.slave, 0x157))
            && forall k :: 0 <= k < 8 ==>
                 now[(d.slave, 0x172)][k] == ((was[(d.slave, 0x172)][k] != (k == 0 && vflip == 1)) != (k == 1 && hflip == 1))
  {
    var t' := Updated(IMX219, t, minVts, hflip, vflip, exposure, gain);
    Imx219Update(d, t, minVts, hflip, vflip, exposure, gain);
    SameRegsSameTable(t, t');
    ControlsOnDevice(d, t);
    ControlsOnDevice(d, t');
    forall k | 0 <= k < 8
      ensures DeviceWord(IMX219, d, t', 0x172)[k] ==
              ((DeviceWord(IMX219, d, t, 0x172)[k] != (k == 0 && vflip == 1)) != (k == 1 && hflip == 1))
    {
      Imx219Flips(d, t, minVts, hflip, vflip, exposure, gain, k);
    }
  }

  /** The ar0144 table is never changed. */
  lemma Ar0144Unchanged(t: Table, order: bv2, minVts: int, hflip: int, vflip: int, exposure: int, gain: int)
    ensures Wellformed(AR0144) && GoodLayout(AR0144)
    ensures Updated(AR0144, t, minVts, hflip, vflip, exposure, gain) == t
    ensures UpdatedOrder(AR0144, order, hflip, vflip) == order
  {
  }
}
