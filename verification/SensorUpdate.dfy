/** The whole update of a mode table, seen from the device after the replay. */
module SensorUpdate {
  import opened Bytes
  import opened Lpxstd
  import opened Bits
  import opened SensorRegs
  import opened RegisterReplay
  import opened SensorFields
  import opened SensorFlips

  // ---------------------------------------------------------------- what is written

  predicate WritesExposure(s: Sensor, exposure: int)
  {
    s.exposureReg != 0 && exposure != -1 && 0 <= exposure < Pow2(s.exposureBits)
  }

  predicate WritesVts(s: Sensor, minVts: int, exposure: int)
  {
    s.vtsReg != 0 && exposure != -1 && exposure >= minVts && 0 <= exposure < Pow2(s.vtsBits)
  }

  predicate WritesGain(s: Sensor, gain: int)
  {
    s.gainReg != 0 && gain != -1 && 0 <= gain < Pow2(s.gainBits)
  }

  /** The fields a sensor has are of whole bytes, or of one register, and have registers of their own. */
  predicate GoodLayout(s: Sensor)
  {
    && (s.exposureReg != 0 ==> EvenWidth(s.exposureBits))
    && (s.vtsReg != 0 ==> EvenWidth(s.vtsBits))
    && (s.gainReg != 0 ==> EvenWidth(s.gainBits))
    && Apart(s.exposureReg, s.exposureBits, s.vtsReg, s.vtsBits)
    && Apart(s.exposureReg, s.exposureBits, s.gainReg, s.gainBits)
    && Apart(s.vtsReg, s.vtsBits, s.gainReg, s.gainBits)
  }

  predicate Apart(reg: nat, width: nat, reg': nat, width': nat)
  {
    reg != 0 && reg' != 0 ==> Disjoint(reg, width, reg', width')
  }

  /** The fields a sensor has are in its table, each register once. */
  ghost predicate GoodTable(s: Sensor, t: Table)
  {
    && (s.exposureReg != 0 ==> FieldAlone(s, t, s.exposureReg, s.exposureBits))
    && (s.vtsReg != 0 ==> FieldAlone(s, t, s.vtsReg, s.vtsBits))
    && (s.gainReg != 0 ==> FieldAlone(s, t, s.gainReg, s.gainBits))
  }

  lemma FlipKeepsRegs(t: Table, reg: nat, bit: nat, flip: int)
    requires bit < 32
    ensures SameRegs(t, FlipEdit(t, reg, bit, flip))
    ensures forall p :: 0 <= p < |t| && t[p].reg != reg ==> FlipEdit(t, reg, bit, flip)[p] == t[p]
  {
  }

  lemma AloneKept(s: Sensor, t: Table, t': Table, reg: nat, width: nat)
    requires SameRegs(t, t') && FieldAlone(s, t, reg, width)
    ensures FieldAlone(s, t', reg, width)
  {
    forall r: nat | InField(reg, width, r)
      ensures InTable(t', r) && Alone(s, t', FirstMatch(t', r))
    {
      SameRegsSameMatch(t, t', r);
      assert InTable(t, r) && Alone(s, t, FirstMatch(t, r));
    }
  }

  lemma AloneIsPresent(s: Sensor, t: Table, reg: nat, width: nat)
    requires FieldAlone(s, t, reg, width)
    ensures FieldPresent(t, reg, width)
  {
    forall r: nat | InField(reg, width, r)
      ensures InTable(t, r)
    {
      assert InTable(t, r) && Alone(s, t, FirstMatch(t, r));
    }
  }

  // ---------------------------------------------------------------- the steps of the update

  function AfterExposure(s: Sensor, t: Table, hflip: int, vflip: int, exposure: int): (r: Table)
    requires Wellformed(s)
    ensures |r| == |t|
  {
    var t1 := Flipped(s, t, hflip, vflip);
    if s.exposureReg != 0 && exposure != -1 then SetField(t1, s.exposureReg, s.exposureBits, exposure) else t1
  }

  function AfterVts(s: Sensor, t: Table, minVts: int, hflip: int, vflip: int, exposure: int): (r: Table)
    requires Wellformed(s)
    ensures |r| == |t|
  {
    var t2 := AfterExposure(s, t, hflip, vflip, exposure);
    if s.vtsReg != 0 && exposure != -1 && exposure >= minVts then SetField(t2, s.vtsReg, s.vtsBits, exposure) else t2
  }

  lemma FlippedRegs(s: Sensor, t: Table, hflip: int, vflip: int)
    requires Wellformed(s)
    ensures SameRegs(t, Flipped(s, t, hflip, vflip))
  {
    FlipKeepsRegs(t, s.vflipReg, s.vflipBit, vflip);
    FlipKeepsRegs(FlipEdit(t, s.vflipReg, s.vflipBit, vflip), s.hflipReg, s.hflipBit, hflip);
  }

  lemma StepsKeep(s: Sensor, t: Table, minVts: int, hflip: int, vflip: int, exposure: int, gain: int)
    requires Wellformed(s)
    ensures SameRegs(t, AfterExposure(s, t, hflip, vflip, exposure))
    ensures KeptOutside(AfterExposure(s, t, hflip, vflip, exposure), AfterVts(s, t, minVts, hflip, vflip, exposure), s.vtsReg, s.vtsBits)
    ensures KeptOutside(AfterVts(s, t, minVts, hflip, vflip, exposure), Updated(s, t, minVts, hflip, vflip, exposure, gain), s.gainReg, s.gainBits)
    ensures SameRegs(t, AfterVts(s, t, minVts, hflip, vflip, exposure))
    ensures SameRegs(t, Updated(s, t, minVts, hflip, vflip, exposure, gain))
  {
    FlippedRegs(s, t, hflip, vflip);
    SetFieldKeepsOutside(Flipped(s, t, hflip, vflip), s.exposureReg, s.exposureBits, exposure);
    SetFieldKeepsOutside(AfterExposure(s, t, hflip, vflip, exposure), s.vtsReg, s.vtsBits, exposure);
    SetFieldKeepsOutside(AfterVts(s, t, minVts, hflip, vflip, exposure), s.gainReg, s.gainBits, gain);
  }

  lemma ExposureHolds(s: Sensor, t: Table, minVts: int, hflip: int, vflip: int, exposure: int, gain: int)
    requires Wellformed(s) && GoodLayout(s) && GoodTable(s, t) && WritesExposure(s, exposure)
    ensures FieldHolds(Updated(s, t, minVts, hflip, vflip, exposure, gain), s.exposureReg, s.exposureBits, exposure)
  {
    var t1 := Flipped(s, t, hflip, vflip);
    FlippedRegs(s, t, hflip, vflip);
    AloneIsPresent(s, t, s.exposureReg, s.exposureBits);
    PresenceKept(t, t1, s.exposureReg, s.exposureBits);
    SetFieldHolds(t1, s.exposureReg, s.exposureBits, exposure);
    StepsKeep(s, t, minVts, hflip, vflip, exposure, gain);
    var t2, t3 := AfterExposure(s, t, hflip, vflip, exposure), AfterVts(s, t, minVts, hflip, vflip, exposure);
    var t4 := Updated(s, t, minVts, hflip, vflip, exposure, gain);
    if s.vtsReg != 0 {
      FieldSurvives(t2, t3, s.exposureReg, s.exposureBits, exposure, s.vtsReg, s.vtsBits);
    }
    if s.gainReg != 0 {
      FieldSurvives(t3, t4, s.exposureReg, s.exposureBits, exposure, s.gainReg, s.gainBits);
    }
  }

  lemma VtsHolds(s: Sensor, t: Table, minVts: int, hflip: int, vflip: int, exposure: int, gain: int)
    requires Wellformed(s) && GoodLayout(s) && GoodTable(s, t) && WritesVts(s, minVts, exposure)
    ensures FieldHolds(Updated(s, t, minVts, hflip, vflip, exposure, gain), s.vtsReg, s.vtsBits, exposure)
  {
    StepsKeep(s, t, minVts, hflip, vflip, exposure, gain);
    var t2, t3 := AfterExposure(s, t, hflip, vflip, exposure), AfterVts(s, t, minVts, hflip, vflip, exposure);
    var t4 := Updated(s, t, minVts, hflip, vflip, exposure, gain);
    AloneIsPresent(s, t, s.vtsReg, s.vtsBits);
    PresenceKept(t, t2, s.vtsReg, s.vtsBits);
    SetFieldHolds(t2, s.vtsReg, s.vtsBits, exposure);
    if s.gainReg != 0 {
      FieldSurvives(t3, t4, s.vtsReg, s.vtsBits, exposure, s.gainReg, s.gainBits);
    }
  }

  lemma GainHolds(s: Sensor, t: Table, minVts: int, hflip: int, vflip: int, exposure: int, gain: int)
    requires Wellformed(s) && GoodLayout(s) && GoodTable(s, t) && WritesGain(s, gain)
    ensures FieldHolds(Updated(s, t, minVts, hflip, vflip, exposure, gain), s.gainReg, s.gainBits, gain)
  {
    StepsKeep(s, t, minVts, hflip, vflip, exposure, gain);
    var t3 := AfterVts(s, t, minVts, hflip, vflip, exposure);
    AloneIsPresent(s, t, s.gainReg, s.gainBits);
    PresenceKept(t, t3, s.gainReg, s.gainBits);
    SetFieldHolds(t3, s.gainReg, s.gainBits, gain);
  }

  /** After the updated table was sent, the device holds the exposure, the frame length and the gain. */
  lemma UpdateReachesDevice(s: Sensor, d: Device, t: Table, minVts: int, hflip: int, vflip: int, exposure: int, gain: int)
    requires Wellformed(s) && GoodLayout(s) && GoodTable(s, t)
    ensures var t' := Updated(s, t, minVts, hflip, vflip, exposure, gain);
            && (WritesExposure(s, exposure) ==> DeviceField(s, d, t', s.exposureReg, s.exposureBits) == exposure)
            && (WritesVts(s, minVts, exposure) ==> DeviceField(s, d, t', s.vtsReg, s.vtsBits) == exposure)
            && (WritesGain(s, gain) ==> DeviceField(s, d, t', s.gainReg, s.gainBits) == gain)
  {
    var t' := Updated(s, t, minVts, hflip, vflip, exposure, gain);
    StepsKeep(s, t, minVts, hflip, vflip, exposure, gain);
    if WritesExposure(s, exposure) {
      ExposureHolds(s, t, minVts, hflip, vflip, exposure, gain);
      AloneKept(s, t, t', s.exposureReg, s.exposureBits);
      DeviceFieldReads(s, d, t', s.exposureReg, s.exposureBits, exposure);
    }
    if WritesVts(s, minVts, exposure) {
      VtsHolds(s, t, minVts, hflip, vflip, exposure, gain);
      AloneKept(s, t, t', s.vtsReg, s.vtsBits);
      DeviceFieldReads(s, d, t', s.vtsReg, s.vtsBits, exposure);
    }
    if WritesGain(s, gain) {
      GainHolds(s, t, minVts, hflip, vflip, exposure, gain);
      AloneKept(s, t, t', s.gainReg, s.gainBits);
      DeviceFieldReads(s, d, t', s.gainReg, s.gainBits, gain);
    }
  }

  // ---------------------------------------------------------------- and nothing else

  /** The register is written by a flip that is asked for, or by a field whose value its guards let
      through. */
  predicate Targets(s: Sensor, minVts: int, hflip: int, vflip: int, exposure: int, gain: int, r: nat)
  {
    || (s.vflipReg != 0 && vflip != 0 && r == s.vflipReg)
    || (s.hflipReg != 0 && hflip != 0 && r == s.hflipReg)
    || (WritesExposure(s, exposure) && InField(s.exposureReg, s.exposureBits, r))
    || (WritesVts(s, minVts, exposure) && InField(s.vtsReg, s.vtsBits, r))
    || (WritesGain(s, gain) && InField(s.gainReg, s.gainBits, r))
  }

  /** A flip by zero changes nothing. */
  lemma NoFlip(t: Table, reg: nat, bit: nat)
    requires bit < 32
    ensures FlipEdit(t, reg, bit, 0) == t
  {
    var i := FirstMatch(t, reg);
    BoolBits(0);
    if reg != 0 && i < |t| {
      XorBits(t[i].data, bit, 0);
      assert BitOp(t[i].data, bit, 0, Toggle) == t[i].data;
    }
  }

  lemma FlippedKeepsOthers(s: Sensor, t: Table, hflip: int, vflip: int, p: nat)
    requires Wellformed(s) && p < |t|
    requires !(s.vflipReg != 0 && vflip != 0 && t[p].reg == s.vflipReg)
    requires !(s.hflipReg != 0 && hflip != 0 && t[p].reg == s.hflipReg)
    ensures Flipped(s, t, hflip, vflip)[p] == t[p]
  {
    var v := FlipEdit(t, s.vflipReg, s.vflipBit, vflip);
    NoFlip(t, s.vflipReg, s.vflipBit);
    NoFlip(v, s.hflipReg, s.hflipBit);
    FlipKeepsRegs(t, s.vflipReg, s.vflipBit, vflip);
    FlipKeepsRegs(v, s.hflipReg, s.hflipBit, hflip);
  }

  /** The entries of registers that no field writes are as the flips left them. */
  lemma FieldsKeepOthers(s: Sensor, t: Table, minVts: int, hflip: int, vflip: int, exposure: int, gain: int, p: nat)
    requires Wellformed(s) && p < |t|
    requires !(WritesExposure(s, exposure) && InField(s.exposureReg, s.exposureBits, t[p].reg))
    requires !(WritesVts(s, minVts, exposure) && InField(s.vtsReg, s.vtsBits, t[p].reg))
    requires !(WritesGain(s, gain) && InField(s.gainReg, s.gainBits, t[p].reg))
    ensures Updated(s, t, minVts, hflip, vflip, exposure, gain)[p] == Flipped(s, t, hflip, vflip)[p]
  {
    var t1, t2 := Flipped(s, t, hflip, vflip), AfterExposure(s, t, hflip, vflip, exposure);
    var t3 := AfterVts(s, t, minVts, hflip, vflip, exposure);
    FlippedRegs(s, t, hflip, vflip);
    StepsKeep(s, t, minVts, hflip, vflip, exposure, gain);
    SetFieldKeepsOutside(t1, s.exposureReg, s.exposureBits, exposure);
    assert t2[p] == t1[p];
    assert t3[p] == t2[p];
  }

  lemma UpdateKeepsOthers(s: Sensor, t: Table, minVts: int, hflip: int, vflip: int, exposure: int, gain: int)
    requires Wellformed(s)
    ensures var t' := Updated(s, t, minVts, hflip, vflip, exposure, gain);
            SameRegs(t, t') && forall p :: 0 <= p < |t| && !Targets(s, minVts, hflip, vflip, exposure, gain, t[p].reg) ==> t'[p] == t[p]
  {
    StepsKeep(s, t, minVts, hflip, vflip, exposure, gain);
    forall p | 0 <= p < |t| && !Targets(s, minVts, hflip, vflip, exposure, gain, t[p].reg)
      ensures Updated(s, t, minVts, hflip, vflip, exposure, gain)[p] == t[p]
    {
      FieldsKeepOthers(s, t, minVts, hflip, vflip, exposure, gain, p);
      FlippedKeepsOthers(s, t, hflip, vflip, p);
    }
  }

  /** The registers the update changes, as far as their numbers are sent. */
  function TargetWires(s: Sensor, t: Table, minVts: int, hflip: int, vflip: int, exposure: int, gain: int): (wires: set<nat>)
  {
    set p | 0 <= p < |t| && Targets(s, minVts, hflip, vflip, exposure, gain, t[p].reg) :: Wire(s, t[p].reg)
  }

  lemma UpdateDiffersInTargets(s: Sensor, t: Table, minVts: int, hflip: int, vflip: int, exposure: int, gain: int)
    requires Wellformed(s) && Plain(s.vflipReg) && Plain(s.hflipReg)
    ensures DiffersOnlyIn(s, t, Updated(s, t, minVts, hflip, vflip, exposure, gain),
                          TargetWires(s, t, minVts, hflip, vflip, exposure, gain))
  {
    var t', wires := Updated(s, t, minVts, hflip, vflip, exposure, gain), TargetWires(s, t, minVts, hflip, vflip, exposure, gain);
    UpdateKeepsOthers(s, t, minVts, hflip, vflip, exposure, gain);
    forall p | 0 <= p < |t|
      ensures t[p].reg == t'[p].reg && (t[p] == t'[p] || (Plain(t[p].reg) && Wire(s, t[p].reg) in wires))
    {
      if Targets(s, minVts, hflip, vflip, exposure, gain, t[p].reg) {
        assert Wire(s, t[p].reg) in wires;
      }
    }
  }

  /** Everything else in the device is as the table would have left it without the update. */
  lemma UpdateTouchesOnlyTargets(s: Sensor, d: Device, t: Table, minVts: int, hflip: int, vflip: int, exposure: int, gain: int)
    requires Wellformed(s) && Plain(s.vflipReg) && Plain(s.hflipReg)
    ensures var r, r' := Replay(s, d, t), Replay(s, d, Updated(s, t, minVts, hflip, vflip, exposure, gain));
            && r.slave == r'.slave && r.regs.Keys == r'.regs.Keys
            && forall k :: k in r.regs && k.1 !in TargetWires(s, t, minVts, hflip, vflip, exposure, gain) ==> r.regs[k] == r'.regs[k]
  {
    UpdateDiffersInTargets(s, t, minVts, hflip, vflip, exposure, gain);
    ReplayDiffersOnlyIn(s, d, t, Updated(s, t, minVts, hflip, vflip, exposure, gain),
                        TargetWires(s, t, minVts, hflip, vflip, exposure, gain));
  }

  /** The update moves no entry to another register or another slave. */
  ghost predicate SameKeys(s: Sensor, d: Device, t: Table, t': Table)
  {
    SameRegs(t, t') && forall p :: 0 <= p < |t| ==> Key(s, d, t', p) == Key(s, d, t, p)
  }

  lemma KeyKept(s: Sensor, d: Device, t: Table, t': Table, wires: set<nat>, p: nat)
    requires DiffersOnlyIn(s, t, t', wires) && p < |t|
    ensures Key(s, d, t', p) == Key(s, d, t, p)
  {
    ReplayDiffersOnlyIn(s, d, t[..p], t'[..p], wires);
  }

  lemma UpdateKeepsKeys(s: Sensor, d: Device, t: Table, minVts: int, hflip: int, vflip: int, exposure: int, gain: int)
    requires Wellformed(s) && Plain(s.vflipReg) && Plain(s.hflipReg)
    ensures SameKeys(s, d, t, Updated(s, t, minVts, hflip, vflip, exposure, gain))
  {
    UpdateDiffersInTargets(s, t, minVts, hflip, vflip, exposure, gain);
    forall p | 0 <= p < |t|
      ensures Key(s, d, Updated(s, t, minVts, hflip, vflip, exposure, gain), p) == Key(s, d, t, p)
    {
      KeyKept(s, d, t, Updated(s, t, minVts, hflip, vflip, exposure, gain),
              TargetWires(s, t, minVts, hflip, vflip, exposure, gain), p);
    }
  }

  /** `t'` has the registers of `t`, and its entries in a field. */
  predicate KeptIn(t: Table, t': Table, reg: nat, width: nat)
  {
    && SameRegs(t, t')
    && forall p :: 0 <= p < |t| && InField(reg, width, t[p].reg) ==> t[p] == t'[p]
  }

  /** Such a field, if its registers are alone, reads in the device as before. */
  lemma FieldUntouched(s: Sensor, d: Device, t: Table, t': Table, reg: nat, width: nat)
    requires width > 0 && FieldAlone(s, t, reg, width) && KeptIn(t, t', reg, width)
    ensures DeviceField(s, d, t', reg, width) == DeviceField(s, d, t, reg, width)
  {
    var n := RegCount(width);
    var words, words' := DeviceWords(s, d, t, reg, n), DeviceWords(s, d, t', reg, n);
    forall i | 0 <= i < n
      ensures words'[i] == words[i]
    {
      assert InField(reg, width, reg + i);
      WordUntouched(s, d, t, t', reg + i);
    }
    assert words' == words;
  }

  lemma WordUntouched(s: Sensor, d: Device, t: Table, t': Table, r: nat)
    requires SameRegs(t, t') && InTable(t, r) && Alone(s, t, FirstMatch(t, r))
    requires t[FirstMatch(t, r)] == t'[FirstMatch(t, r)]
    ensures DeviceWord(s, d, t', r) == DeviceWord(s, d, t, r)
  {
    SameRegsSameMatch(t, t', r);
    assert Alone(s, t', FirstMatch(t', r));
    AloneReachesDevice(s, d, t, r);
    AloneReachesDevice(s, d, t', r);
  }

  /** The flips have no register in a field. */
  predicate FlipsApart(s: Sensor)
  {
    && OutsideFields(s, s.vflipReg) && OutsideFields(s, s.hflipReg)
  }

  predicate OutsideFields(s: Sensor, r: nat)
  {
    && !(s.exposureReg != 0 && InField(s.exposureReg, s.exposureBits, r))
    && !(s.vtsReg != 0 && InField(s.vtsReg, s.vtsBits, r))
    && !(s.gainReg != 0 && InField(s.gainReg, s.gainBits, r))
  }

  /** A field whose guards reject the value reads in the device as without the update. */
  lemma RejectedValuesLeaveFields(s: Sensor, d: Device, t: Table, minVts: int, hflip: int, vflip: int, exposure: int, gain: int)
    requires Wellformed(s) && GoodLayout(s) && GoodTable(s, t)
    requires Plain(s.vflipReg) && Plain(s.hflipReg) && FlipsApart(s)
    ensures var t' := Updated(s, t, minVts, hflip, vflip, exposure, gain);
            && SameKeys(s, d, t, t')
            && (s.exposureReg != 0 && !WritesExposure(s, exposure) ==>
                  DeviceField(s, d, t', s.exposureReg, s.exposureBits) == DeviceField(s, d, t, s.exposureReg, s.exposureBits))
            && (s.vtsReg != 0 && !WritesVts(s, minVts, exposure) ==>
                  DeviceField(s, d, t', s.vtsReg, s.vtsBits) == DeviceField(s, d, t, s.vtsReg, s.vtsBits))
            && (s.gainReg != 0 && !WritesGain(s, gain) ==>
                  DeviceField(s, d, t', s.gainReg, s.gainBits) == DeviceField(s, d, t, s.gainReg, s.gainBits))
  {
    UpdateKeepsKeys(s, d, t, minVts, hflip, vflip, exposure, gain);
    var t' := Updated(s, t, minVts, hflip, vflip, exposure, gain);
    RejectedKept(s, t, minVts, hflip, vflip, exposure, gain);
    if s.exposureReg != 0 && !WritesExposure(s, exposure) {
      FieldUntouched(s, d, t, t', s.exposureReg, s.exposureBits);
    }
    if s.vtsReg != 0 && !WritesVts(s, minVts, exposure) {
      FieldUntouched(s, d, t, t', s.vtsReg, s.vtsBits);
    }
    if s.gainReg != 0 && !WritesGain(s, gain) {
      FieldUntouched(s, d, t, t', s.gainReg, s.gainBits);
    }
  }

  lemma RejectedKept(s: Sensor, t: Table, minVts: int, hflip: int, vflip: int, exposure: int, gain: int)
    requires Wellformed(s) && GoodLayout(s) && FlipsApart(s)
    ensures var t' := Updated(s, t, minVts, hflip, vflip, exposure, gain);
            && (s.exposureReg != 0 && !WritesExposure(s, exposure) ==> KeptIn(t, t', s.exposureReg, s.exposureBits))
            && (s.vtsReg != 0 && !WritesVts(s, minVts, exposure) ==> KeptIn(t, t', s.vtsReg, s.vtsBits))
            && (s.gainReg != 0 && !WritesGain(s, gain) ==> KeptIn(t, t', s.gainReg, s.gainBits))
  {
    UpdateKeepsOthers(s, t, minVts, hflip, vflip, exposure, gain);
  }

  // ---------------------------------------------------------------- what the flips leave in the device

  /** Whether a flip turns bit `k` of register `r` over. */
  predicate Turns(reg: nat, bit: nat, flip: int, r: nat, k: nat)
  {
    reg != 0 && reg == r && bit == k && flip == 1
  }

  lemma FlipEditBits(t: Table, reg: nat, bit: nat, flip: int, r: nat, k: nat)
    requires bit < 32 && 0 <= flip <= 1 && InTable(t, r) && k < 16
    ensures InTable(FlipEdit(t, reg, bit, flip), r)
    ensures TableWord(FlipEdit(t, reg, bit, flip), r)[k] == (TableWord(t, r)[k] != Turns(reg, bit, flip, r, k))
  {
    var p, q := FirstMatch(t, r), FirstMatch(t, reg);
    FlipKeepsRegs(t, reg, bit, flip);
    SameRegsSameMatch(t, FlipEdit(t, reg, bit, flip), r);
    if reg == r && reg != 0 {
      XorBits(t[q].data, bit, flip);
      BoolBits(flip);
    }
  }

  /** A flip register of its own shows each flip that was asked for, and nothing else, in the device. */
  lemma FlipsReachDevice(s: Sensor, d: Device, t: Table, minVts: int, hflip: int, vflip: int, exposure: int, gain: int,
                         r: nat, k: nat)
    requires Wellformed(s) && Plain(s.vflipReg) && Plain(s.hflipReg) && 0 <= hflip <= 1 && 0 <= vflip <= 1 && k < 16
    requires InTable(t, r) && Alone(s, t, FirstMatch(t, r)) && OutsideFields(s, r)
    ensures var t' := Updated(s, t, minVts, hflip, vflip, exposure, gain);
            && SameKeys(s, d, t, t')
            && DeviceWord(s, d, t', r)[k] ==
               if s.dataSize == 2 || k < 8 then
                 (DeviceWord(s, d, t, r)[k] != Turns(s.vflipReg, s.vflipBit, vflip, r, k)) != Turns(s.hflipReg, s.hflipBit, hflip, r, k)
               else false
  {
    var t', t1 := Updated(s, t, minVts, hflip, vflip, exposure, gain), Flipped(s, t, hflip, vflip);
    UpdateKeepsKeys(s, d, t, minVts, hflip, vflip, exposure, gain);
    StepsKeep(s, t, minVts, hflip, vflip, exposure, gain);
    FlippedRegs(s, t, hflip, vflip);
    SameRegsSameMatch(t, t', r);
    SameRegsSameMatch(t, t1, r);
    assert Alone(s, t', FirstMatch(t', r));
    FieldsKeepOthers(s, t, minVts, hflip, vflip, exposure, gain, FirstMatch(t, r));
    FlipEditBits(t, s.vflipReg, s.vflipBit, vflip, r, k);
    FlipEditBits(FlipEdit(t, s.vflipReg, s.vflipBit, vflip), s.hflipReg, s.hflipBit, hflip, r, k);
    AloneReachesDevice(s, d, t, r);
    AloneReachesDevice(s, d, t', r);
  }

  // ---------------------------------------------------------------- widths that are not whole bytes

  function AllOnes(): Word { seq(16, _ => true) }

  function OnesTable(reg: nat, n: nat): (t: Table)
    ensures |t| == n
    ensures forall p :: 0 <= p < n ==> t[p].reg == reg + p && t[p].data == AllOnes()
  {
    if n == 0 then [] else OnesTable(reg, n - 1) + [SensorReg(reg + n - 1, AllOnes())]
  }

  lemma {:induction false} NumberPositive(b: seq<bool>, k: nat)
    requires k < |b| && b[k]
    ensures Number(b) > 0
  {
    if k > 0 {
      NumberPositive(b[1..], k - 1);
    }
  }

  /** For a wider field with a ragged first byte the later registers keep old bits: writing zero over
      registers full of ones does not leave zero. */
  lemma RaggedWidthFails(reg: nat, width: nat)
    requires 8 < width <= 30 && width % 8 != 0
    ensures TableField(SetField(OnesTable(reg, RegCount(width)), reg, width, 0), reg, width) != 0
  {
    var n := RegCount(width);
    LastWordKeepsOnes(reg, width);
    var words := TableWords(SetField(OnesTable(reg, n), reg, width, 0), reg, n);
    NumberPositive(words[n - 1][..8], 7);
  }

  /** The last register of the field after the write: its high bits are what they were. */
  lemma LastWordKeepsOnes(reg: nat, width: nat)
    requires 8 < width <= 30 && width % 8 != 0
    ensures TableWord(SetField(OnesTable(reg, RegCount(width)), reg, width, 0), reg + RegCount(width) - 1)[7]
  {
    var n := RegCount(width);
    var t, r := OnesTable(reg, n), reg + n - 1;
    var part := PartsOf(0, width)[n - 1];
    FirstMatchIs(t, r, n - 1);
    LastWordWritten(reg, width);
    SameRegsSameMatch(t, SetField(t, reg, width, 0), r);
    BlendKeepsTop(AllOnes(), part, PartBits(width));
  }

  lemma LastWordWritten(reg: nat, width: nat)
    requires 8 < width <= 30
    ensures var n := RegCount(width);
            var t, t' := OnesTable(reg, n), SetField(OnesTable(reg, n), reg, width, 0);
            SameRegs(t, t') && t'[n - 1].data == Blend(AllOnes(), PartsOf(0, width)[n - 1], 0, PartBits(width))
  {
    var n := RegCount(width);
    var t, parts := OnesTable(reg, n), PartsOf(0, width);
    PositivePow(width);
    FirstMatchIs(t, reg + n - 1, n - 1);
    WritePartsRegs(t, reg, PartBits(width), parts, n);
    WritePartsEntries(t, reg, PartBits(width), parts, n, n - 1);
  }

  lemma BlendKeepsTop(old_: Word, value: int, bits: nat)
    requires bits < 8
    ensures Blend(old_, value, 0, bits)[7] == old_[7]
  {
  }

  lemma PositivePow(width: nat)
    ensures 0 < Pow2(width)
  {
  }

  /** Whole bytes, or a single register, are exactly the widths that work whatever was there before. */
  ghost predicate AlwaysReads(width: nat)
    requires width > 0
  {
    forall t: Table, reg: nat, value: nat :: value < Pow2(width) && FieldPresent(t, reg, width) ==>
      TableField(SetField(t, reg, width, value), reg, width) == value
  }

  /** So any write of a wider field needs whole bytes; no sensor of the repository has another one in use. */
  lemma WhichWidthsWork(width: nat)
    requires 0 < width <= 30
    ensures AlwaysReads(width) <==> EvenWidth(width)
  {
    if EvenWidth(width) {
      forall t: Table, reg: nat, value: nat | value < Pow2(width) && FieldPresent(t, reg, width)
        ensures TableField(SetField(t, reg, width, value), reg, width) == value
      {
        SetFieldHolds(t, reg, width, value);
        TableFieldReads(SetField(t, reg, width, value), reg, width, value);
      }
    } else {
      RaggedWidthFails(1, width);
      var t := OnesTable(1, RegCount(width));
      forall r: nat | InField(1, width, r)
        ensures InTable(t, r)
      {
        FirstMatchIs(t, r, r - 1);
      }
      PositivePow(width);
      assert FieldPresent(t, 1, width);
    }
  }

  // ---------------------------------------------------------------- exposure from a time

  /** `q` is `x / d` in C: the quotient, cut toward zero. */
  predicate Quotient(x: int, d: nat, q: int)
  {
    if x >= 0 then q >= 0 && q * d <= x < (q + 1) * d
    else q <= 0 && (q - 1) * d < x <= q * d
  }

  function DivideC(x: int, d: nat): (q: int)
    requires d > 0
    ensures Quotient(x, d, q)
  {
    DivideNat(if x >= 0 then x else -x, d);
    if x >= 0 then x / d else -(-x / d)
  }

  lemma DivideNat(x: nat, d: nat)
    requires d > 0
    ensures x / d >= 0 && x / d * d <= x < (x / d + 1) * d
  {
    assert x == d * (x / d) + x % d;
    assert (x / d + 1) * d == d * (x / d) + d;
  }

  lemma QuotientUnique(x: int, d: nat, p: int, q: int)
    requires d > 0 && Quotient(x, d, p) && Quotient(x, d, q)
    ensures p == q
  {
    if p < q {
      MulGap(p, q, d);
    } else if q < p {
      MulGap(q, p, d);
    }
  }

  lemma MulGap(p: int, q: int, d: nat)
    requires p < q
    ensures (p + 1) * d <= q * d && p * d <= (q - 1) * d
  {
    assert q * d - (p + 1) * d == (q - 1 - p) * d >= 0;
    assert (q - 1) * d - p * d == (q - 1 - p) * d;
  }

  /** A time of -1 leaves the exposure as it was asked for in lines. Otherwise the quotient is computed in
      64 bits and stored in an `int`. */
  function ExposureFromMicros(exposure: int, micros: int, lineTimeNs: nat): int
    requires lineTimeNs > 0
  {
    if micros == -1 then exposure else ToInt32(DivideC(micros * 1000, lineTimeNs))
  }

  /** For every other time the exposure is the time in whole lines, cut toward zero, exactly when that
      number is one of an `int`. */
  lemma LinesFit(exposure: int, micros: int, lineTimeNs: nat)
    requires lineTimeNs > 0 && IsInt32(micros)
    ensures var e := ExposureFromMicros(exposure, micros, lineTimeNs);
            if micros == -1 then e == exposure
            else
              && (Quotient(micros * 1000, lineTimeNs, e) <==> -(TWO31 + 1) * lineTimeNs < micros * 1000 < TWO31 * lineTimeNs)
              && (lineTimeNs >= 1000 ==> Quotient(micros * 1000, lineTimeNs, e))
  {
    if micros != -1 {
      var x, q, e := micros * 1000, DivideC(micros * 1000, lineTimeNs), ExposureFromMicros(exposure, micros, lineTimeNs);
      FitsInt32(q);
      if Quotient(x, lineTimeNs, e) {
        QuotientUnique(x, lineTimeNs, q, e);
      }
      IntQuotient(x, lineTimeNs, q);
    }
  }

  /** Which numbers have a quotient that fits. */
  lemma IntQuotient(x: int, d: nat, q: int)
    requires d > 0 && Quotient(x, d, q)
    ensures IsInt32(q) <==> -(TWO31 + 1) * d < x < TWO31 * d
  {
    if q >= TWO31 {
      MulGap(TWO31 - 1, q, d);
    } else {
      MulGap(q, TWO31, d);
    }
    if q < -TWO31 {
      MulGap(q, -TWO31, d);
    } else {
      MulGap(-TWO31 - 1, q, d);
    }
  }
}
