/** The MCU encoding routines of jcarith.c, driving the arithmetic coder decision by decision. */
module McuEncoder {
  import opened Coefficients
  import opened Powers
  import opened IntervalCoding
  import opened ArithEncoder
  import opened ArithCoefficients
  import opened ArithBlocks
  import opened PointTransform
  import opened ArithScans
  import opened ArithImages
  import opened ArithRestarts
  import opened RestartIntervals
  import opened RestartMarkers
  import opened ByteStrings
  import opened CodePoints

  lemma CategoryStep(st: Bin, v: nat, log: seq<Decision>)
    requires v / 2 != 0
    ensures log + CategoryDecisions(st, v) == log + [Decision(st, true)] + CategoryDecisions(Plus(st, 1), v / 2)
    ensures TopBit(v) == 1 + TopBit(v / 2) && Pow2(TopBit(v)) == 2 * Pow2(TopBit(v / 2))
    ensures Plus(Plus(st, 1), TopBit(v / 2)) == Plus(st, TopBit(v))
  {
    hide Pow2;
    TopBitDoubles(v);
    var first, rest := [Decision(st, true)], CategoryDecisions(Plus(st, 1), v / 2);
    assert CategoryDecisions(st, v) == first + rest;
    assert log + (first + rest) == log + first + rest;
  }

  lemma CategoryEnd(st: Bin, v: nat)
    requires 0 < v && v / 2 == 0
    ensures CategoryDecisions(st, v) == [Decision(st, false)]
    ensures TopBit(v) == 0 && Pow2(0) == 1 && Plus(st, 0) == st
  {
  }

  lemma PatternStep(st: Bin, e: nat, v: nat, log: seq<Decision>)
    requires 0 < e
    ensures Pow2(e) == 2 * Pow2(e - 1)
    ensures log + PatternDecisions(st, e, v)
         == log + [Decision(st, v / Pow2(e - 1) % 2 == 1)] + PatternDecisions(st, e - 1, v)
  {
    PatternUnfolds(st, e, v);
  }

  lemma PatternUnfolds(st: Bin, e: nat, v: nat)
    requires 0 < e
    ensures PatternDecisions(st, e, v) == [Decision(st, v / Pow2(e - 1) % 2 == 1)] + PatternDecisions(st, e - 1, v)
  {
    hide Pow2;
  }

  lemma PatternEnd(st: Bin, v: nat)
    ensures PatternDecisions(st, 0, v) == [] && Pow2(0) == 1
  {
  }

  lemma BandStep(b: Band, z: Block, k: nat, ke: nat, log: seq<Decision>)
    requires 1 <= k <= ke <= b.se < BLOCK_SIZE && Level(z[ke], b.al) != 0
    ensures log + BandDecisions(b, z, k, ke)
         == log + [Decision(AcBin(b.tbl, k, 0), false)] + RunDecisions(b, z, k, ke)
  {
    hide Level, RunDecisions;
  }

  lemma RunStep(b: Band, z: Block, k: nat, ke: nat, v: nat, log: seq<Decision>)
    requires 1 <= k <= ke <= b.se < BLOCK_SIZE && Level(z[ke], b.al) != 0
    requires v == Level(z[k], b.al)
    ensures log + RunDecisions(b, z, k, ke)
         == if v == 0 then log + [Decision(AcBin(b.tbl, k, 1), false)] + RunDecisions(b, z, k + 1, ke)
            else log + [Decision(AcBin(b.tbl, k, 1), true)] + [Decision(Fixed, z[k] < 0)]
                 + AcMagnitudeDecisions(b.cond, b.tbl, k, AcBin(b.tbl, k, 2), v - 1)
                 + BandDecisions(b, z, k + 1, ke)
  {
    hide Level, BandDecisions, AcMagnitudeDecisions, AcBin;
  }

  lemma RefineStep(b: Band, z: Block, k: nat, ke: nat, kex: nat, log: seq<Decision>)
    requires 1 <= k <= ke <= b.se < BLOCK_SIZE && Level(z[ke], b.al) != 0
    ensures log + RefineDecisions(b, z, k, ke, kex)
         == (if k > kex then log + [Decision(AcBin(b.tbl, k, 0), false)] else log)
            + RefineRunDecisions(b, z, k, ke, kex)
  {
    hide Level, RefineRunDecisions;
  }

  /** The decisions for a coefficient of level v != 0: a correction bit, or its sign when it is new. */
  function RefineLevel(b: Band, k: nat, v: nat, negative: bool): seq<Decision>
    requires 1 <= k
  {
    if v / 2 != 0 then [Decision(AcBin(b.tbl, k, 2), v % 2 == 1)]
    else [Decision(AcBin(b.tbl, k, 1), true), Decision(Fixed, negative)]
  }

  lemma RefineRunStep(b: Band, z: Block, k: nat, ke: nat, kex: nat, v: nat, log: seq<Decision>)
    requires 1 <= k <= ke <= b.se < BLOCK_SIZE && Level(z[ke], b.al) != 0
    requires v == Level(z[k], b.al)
    ensures log + RefineRunDecisions(b, z, k, ke, kex)
         == if v == 0 then log + [Decision(AcBin(b.tbl, k, 1), false)] + RefineRunDecisions(b, z, k + 1, ke, kex)
            else log + RefineLevel(b, k, v, z[k] < 0) + RefineDecisions(b, z, k + 1, ke, kex)
  {
    hide Level, RefineDecisions, AcBin;
  }

  class EntropyEncoder {
    const f: Frame
    const routine: Routine
    const scan: Scan
    const restartInterval: nat
    const coder: Encoder
    var lastDcVal: seq<int>     // last DC value of each component
    var dcContext: seq<nat>     // context index for DC conditioning of each component
    var restartsToGo: nat       // MCUs left in this restart interval
    var nextRestartNum: nat     // next restart number to write (0-7)
    ghost const image: Image               // where the MCUs come from
    ghost var mcus: seq<VisitedMcu>        // those encoded
    ghost var done: seq<seq<VisitedMcu>>   // their finished segments, and the bytes of these
    ghost var raws: seq<seq<Byte>>
    ghost var visits: seq<Visit>           // the blocks since the last restart

    ghost predicate Valid()
      reads `lastDcVal, `dcContext, coder
    {
      |lastDcVal| == |dcContext| == |f.comps| && coder.Valid()
    }

    ghost function ThisPass(): Pass {
      Pass(f, routine, scan, image)
    }

    /**
     The decisions coded are those of the blocks since the last restart; in front are the finished
     segments, stuffed and each with its marker.
     */
    ghost predicate Coding()
      reads `lastDcVal, `dcContext, `done, `raws, `visits, coder
    {
      && Valid() && InPass(ThisPass(), visits)
      && coder.log == SegmentDecisions(ThisPass(), visits) && States() == SegmentStates(ThisPass(), visits)
      && AllBytes(ThisPass(), done, raws) && |raws| == |done| && coder.closed == Sections(raws)
    }

    /** The MCUs are cut as the restart interval says. */
    ghost predicate Paced()
      reads this
    {
      && Cut(restartInterval, mcus) == done + [Current()] && visits == Flat(Current())
      && (restartInterval > 0 ==>
            restartsToGo == restartInterval - |Current()| && nextRestartNum == |done| % 8)
    }

    /** The MCUs since the last restart. */
    ghost function Current(): seq<VisitedMcu>
      reads this
    {
      var segs := Cut(restartInterval, mcus);
      segs[|segs| - 1]
    }

    /** The DC state of each component. */
    ghost function States(): seq<DcState>
      requires |lastDcVal| == |dcContext| == |f.comps|
      reads `lastDcVal, `dcContext
    {
      DcStates(lastDcVal, dcContext)
    }

    constructor (frame: Frame, routine: Routine, scan: Scan, restartInterval: nat, ghost image: Image)
      ensures f == frame && this.routine == routine && this.scan == scan && this.restartInterval == restartInterval
      ensures this.image == image && fresh(coder) && AtStart()
    {
      f, this.routine, this.scan, this.restartInterval, this.image := frame, routine, scan, restartInterval, image;
      coder := new Encoder();
      lastDcVal, dcContext := Zeros(|frame.comps|), Zeros(|frame.comps|);
      restartsToGo, nextRestartNum := restartInterval, 0;
      mcus, done, raws, visits := [], [], [], [];
      new;
      hide Encoder.Valid, Zeros;
    }

    /** start_pass: nothing has been coded. */
    ghost predicate AtStart()
      reads this, coder
    {
      && coder.Valid() && coder.log == [] && coder.closed == []
      && lastDcVal == dcContext == Zeros(|f.comps|) && restartsToGo == restartInterval && nextRestartNum == 0
      && mcus == [] && done == [] && raws == [] && visits == []
    }

    lemma StartsCoding()
      requires AtStart() && Sound(routine, scan) && |image| == |f.comps|
      ensures Coding() && Paced() && mcus == []
    {
      hide Encoder.Valid, SegmentDecisions, SegmentStates, Cut, Flat, AllBytes, Sections, InPass, Sound, DcStates;
      ZeroStates(|f.comps|);
      NothingDone(ThisPass(), restartInterval);
    }

    /** emit_restart: the segment is finished and its marker written, and the next one starts from scratch. */
    method EmitRestart(restartNum: nat, ghost seg: seq<VisitedMcu>)
      requires Coding() && visits == Flat(seg) && restartNum == |done| % 8
      modifies `lastDcVal, `dcContext, `visits, `done, `raws, coder
      ensures Coding() && visits == [] && done == old(done) + [seg]
    {
      hide Encoder.Valid, Inside, Run, Stuff, SegmentDecisions, SegmentStates, Flat, Sections, AllBytes;
      coder.FinishPass();
      ghost var u := coder.emitted;
      AllBytesSnoc(ThisPass(), done, raws, seg, u);
      SectionsSnoc(raws, u);
      coder.Restart(restartNum);
      if CodesDc(routine) {
        lastDcVal, dcContext := Zeros(|f.comps|), Zeros(|f.comps|);
        ZeroStates(|f.comps|);
      } else {
        SameStates(ThisPass(), visits);
      }
      NothingCoded(ThisPass());
      done, raws, visits := done + [seg], raws + [u], [];
    }

    /** One MCU, behind a restart if one is due. */
    method EncodeMcu(z: Image, mcu: VisitedMcu)
      requires Coding() && Paced() && z == image && InPass(ThisPass(), mcu)
      modifies this, coder
      ensures Coding() && Paced() && mcus == old(mcus) + [mcu]
    {
      hide Flat, Cut, Coding, InPass;
      ghost var current := Current();
      CutSnoc(restartInterval, mcus, mcu, done, current);
      FlatPush(current, mcu);
      if restartInterval > 0 {
        if restartsToGo == 0 {
          EmitRestart(nextRestartNum, current);
          restartsToGo := restartInterval;
          nextRestartNum := (nextRestartNum + 1) % 8;
        }
        restartsToGo := restartsToGo - 1;
      }
      EncodeVisits(z, mcu);
      mcus := mcus + [mcu];
    }

    /** The blocks of an MCU, in a segment that has been begun. */
    method EncodeVisits(z: Image, mcu: VisitedMcu)
      requires Coding() && z == image && InPass(ThisPass(), mcu)
      modifies `lastDcVal, `dcContext, `visits, coder
      ensures Coding() && visits == old(visits) + mcu
    {
      hide Encoder.Valid, ScanDecisions, StatesAfter, SegmentDecisions, SegmentStates, Sections, AllBytes, InPass, Sound,
           AllInImage, DcStates;
      ImageOfPass(ThisPass(), mcu);
      MoreCoded(ThisPass(), visits, mcu);
      EncodeBlocks(z, mcu);
      visits := visits + mcu;
    }

    /** finish_pass: the destination holds the stuffed bytes of all segments, with the markers between them. */
    method FinishPass() returns (ghost all: seq<seq<Byte>>)
      requires Coding() && Paced()
      modifies coder
      ensures AllBytes(ThisPass(), Cut(restartInterval, mcus), all) && coder.out == Output(all)
    {
      hide Encoder.Valid, Inside, Run, Stuff, SegmentDecisions, SegmentStates, Flat, Sections, AllBytes, Cut, Output;
      coder.FinishPass();
      AllBytesSnoc(ThisPass(), done, raws, Current(), coder.emitted);
      OutputSnoc(raws, coder.emitted);
      all := raws + [coder.emitted];
    }

    /** Figure F.8 from the first doubling on: returns the category m of v and the bin it ended at. */
    method EncodeCategory(st0: Bin, v: nat, m0: nat) returns (m: nat, st: Bin)
      requires 0 < v && 0 < m0 && coder.Valid()
      modifies coder
      ensures coder.closed == old(coder.closed) && coder.Valid() && coder.log == old(coder.log) + CategoryDecisions(st0, v)
      ensures m == m0 * Pow2(TopBit(v)) && st == Plus(st0, TopBit(v))
    {
      hide Encoder.Valid, CategoryDecisions, TopBit, Pow2, Plus;
      var v2 := v;
      m, st := m0, st0;
      while v2 / 2 != 0
        invariant 0 < v2 && coder.closed == old(coder.closed) && coder.Valid()
        invariant coder.log + CategoryDecisions(st, v2) == old(coder.log) + CategoryDecisions(st0, v)
        invariant m * Pow2(TopBit(v2)) == m0 * Pow2(TopBit(v))
        invariant Plus(st, TopBit(v2)) == Plus(st0, TopBit(v))
        decreases v2
      {
        CategoryStep(st, v2, coder.log);
        v2 := v2 / 2;
        coder.Encode(st, true);
        m := 2 * m;
        st := Plus(st, 1);
      }
      CategoryEnd(st, v2);
      coder.Encode(st, false);
    }

    /** Figure F.9; m is 0 or 2^e. */
    method EncodePattern(st: Bin, m0: nat, v: nat, ghost e: nat)
      requires (m0 == Pow2(e) || (m0 == 0 && e == 0)) && coder.Valid()
      modifies coder
      ensures coder.closed == old(coder.closed) && coder.Valid() && coder.log == old(coder.log) + PatternDecisions(st, e, v)
    {
      hide Encoder.Valid, PatternDecisions, Pow2;
      var m := m0;
      ghost var left := e;
      PatternEnd(st, v);
      while m / 2 != 0
        invariant coder.closed == old(coder.closed) && coder.Valid()
        invariant m == Pow2(left) || (m == 0 && left == 0)
        invariant coder.log + PatternDecisions(st, left, v) == old(coder.log) + PatternDecisions(st, e, v)
        decreases m
      {
        PatternStep(st, left, v, coder.log);
        left := left - 1;
        m := m / 2;
        coder.Encode(st, v / m % 2 == 1);
      }
      if left > 0 {
        PatternStep(st, left, v, []);
      }
    }

    /** Figures F.4 and F.6 to F.9: codes the difference of x from the last DC value of component c. */
    method EncodeDc(c: nat, x: int)
      requires Valid() && c < |f.comps|
      modifies `lastDcVal, `dcContext, coder
      ensures coder.closed == old(coder.closed) && Valid()
      ensures coder.log == old(coder.log) + DcDecisions(f.comps[c].dcTbl, old(States())[c], x)
      ensures States() == old(States())[c := DcAfter(f.cond, f.comps[c].dcTbl, old(States())[c], x)]
    {
      hide Encoder.Valid, DcMagnitudeDecisions, DcContext, CategoryOf;
      var tbl := f.comps[c].dcTbl;
      var st := Dc(tbl, dcContext[c]);
      var v := x - lastDcVal[c];
      if v == 0 {
        coder.Encode(st, false);
        dcContext := dcContext[c := 0];
      } else {
        lastDcVal := lastDcVal[c := x];
        var context := EncodeDifference(tbl, st, v);
        dcContext := dcContext[c := context];
      }
    }

    /** A nonzero difference; returns the conditioning category for the next one. */
    method EncodeDifference(tbl: Table, st0: Bin, diff: int) returns (context: nat)
      requires diff != 0 && coder.Valid()
      modifies coder
      ensures coder.closed == old(coder.closed) && coder.Valid()
      ensures coder.log == old(coder.log) + [Decision(st0, true), Decision(Plus(st0, 1), diff < 0)]
                           + DcMagnitudeDecisions(tbl, Plus(st0, if diff < 0 then 3 else 2), Abs(diff) - 1)
      ensures context == DcContext(f.cond, tbl, CategoryOf(Abs(diff) - 1), diff < 0)
    {
      hide Encoder.Valid, DcMagnitudeDecisions, CategoryOf, Plus, Pow2;
      var st, v := st0, diff;
      coder.Encode(st, true);
      if v > 0 {
        coder.Encode(Plus(st, 1), false);
        st := Plus(st, 2);
        context := 4;
      } else {
        v := -v;
        coder.Encode(Plus(st, 1), true);
        st := Plus(st, 3);
        context := 8;
      }
      v := v - 1;
      var m := EncodeDcMagnitude(tbl, st, v);
      if m < Pow2(f.cond.dcL[tbl]) / 2 {
        context := 0;
      } else if m > Pow2(f.cond.dcU[tbl]) / 2 {
        context := context + 8;
      }
    }

    method EncodeDcMagnitude(tbl: Table, st0: Bin, v: nat) returns (category: nat)
      requires coder.Valid()
      modifies coder
      ensures coder.closed == old(coder.closed) && coder.Valid() && coder.log == old(coder.log) + DcMagnitudeDecisions(tbl, st0, v)
      ensures category == CategoryOf(v)
    {
      hide Encoder.Valid, CategoryDecisions, PatternDecisions, Pow2, TopBit;
      var m, st := 0, st0;
      ghost var e := 0;
      if v != 0 {
        coder.Encode(st, true);
        m, st := EncodeCategory(DcX1(tbl), v, 1);
        e := TopBit(v);
      } else {
        coder.Encode(st, false);
      }
      category := m;
      PatternEnd(Plus(st, 14), v);
      EncodePattern(Plus(st, 14), m, v, e);
    }

    method EncodeAcMagnitude(cond: Conditioning, tbl: Table, k: nat, st0: Bin, v: nat)
      requires coder.Valid()
      modifies coder
      ensures coder.closed == old(coder.closed) && coder.Valid() && coder.log == old(coder.log) + AcMagnitudeDecisions(cond, tbl, k, st0, v)
    {
      hide Encoder.Valid, CategoryDecisions, PatternDecisions, Pow2, AcX2, TopBit;
      var m, st := 0, st0;
      ghost var e := 0;
      if v != 0 {
        coder.Encode(st, true);
        m := 1;
        if v / 2 != 0 {
          coder.Encode(st, true);
          m, st := EncodeCategory(AcX2(cond, tbl, k), v / 2, 2);
          e := TopBit(v);
          TopBitDoubles(v);
        } else {
          PatternEnd(st, v);
          coder.Encode(st, false);
        }
      } else {
        coder.Encode(st, false);
      }
      PatternEnd(Plus(st, 14), v);
      EncodePattern(Plus(st, 14), m, v, e);
    }

    /** The end-of-block index: the last coefficient up to `from` that survives the point transform. */
    method FindSignificant(z: Block, al: nat, from: nat) returns (ke: nat)
      requires from < BLOCK_SIZE
      ensures ke == LastSignificant(z, al, from)
    {
      ke := from;
      while ke > 0 && Level(z[ke], al) == 0
        invariant ke <= from && LastSignificant(z, al, ke) == LastSignificant(z, al, from)
      {
        ke := ke - 1;
      }
    }

    /** Figure F.5 over the band from ss on (encode_mcu_AC_first and the AC part of encode_mcu). */
    method EncodeBand(b: Band, z: Block, ss: nat)
      requires 1 <= ss && b.se < BLOCK_SIZE && coder.Valid()
      modifies coder
      ensures coder.closed == old(coder.closed) && coder.Valid() && coder.log == old(coder.log) + FirstBand(b, z, ss)
    {
      hide Encoder.Valid, RunDecisions, AcMagnitudeDecisions, Level, LastSignificant, AcBin;
      var ke := FindSignificant(z, b.al, b.se);
      var k := ss;
      while k <= ke
        invariant 1 <= k && coder.closed == old(coder.closed) && coder.Valid()
        invariant coder.log + BandDecisions(b, z, k, ke) == old(coder.log) + BandDecisions(b, z, ss, ke)
      {
        BandStep(b, z, k, ke, coder.log);
        coder.Encode(AcBin(b.tbl, k, 0), false);
        while Level(z[k], b.al) == 0
          invariant 1 <= k <= ke && coder.closed == old(coder.closed) && coder.Valid()
          invariant coder.log + RunDecisions(b, z, k, ke) == old(coder.log) + BandDecisions(b, z, ss, ke)
          decreases ke - k
        {
          RunStep(b, z, k, ke, Level(z[k], b.al), coder.log);
          coder.Encode(AcBin(b.tbl, k, 1), false);
          k := k + 1;
        }
        RunStep(b, z, k, ke, Level(z[k], b.al), coder.log);
        EncodeSignificant(b, k, z[k]);
        k := k + 1;
      }
      if k <= b.se {
        coder.Encode(AcBin(b.tbl, k, 0), true);
      }
    }

    method EncodeSignificant(b: Band, k: nat, x: int)
      requires 1 <= k && Level(x, b.al) != 0 && coder.Valid()
      modifies coder
      ensures coder.closed == old(coder.closed) && coder.Valid()
      ensures coder.log == old(coder.log) + [Decision(AcBin(b.tbl, k, 1), true)] + [Decision(Fixed, x < 0)]
                           + AcMagnitudeDecisions(b.cond, b.tbl, k, AcBin(b.tbl, k, 2), Level(x, b.al) - 1)
    {
      hide Encoder.Valid, AcMagnitudeDecisions, Level, AcBin;
      coder.Encode(AcBin(b.tbl, k, 1), true);
      coder.Encode(Fixed, x < 0);
      EncodeAcMagnitude(b.cond, b.tbl, k, AcBin(b.tbl, k, 2), Level(x, b.al) - 1);
    }

    method EncodeRefinedLevel(b: Band, k: nat, v: nat, negative: bool)
      requires 1 <= k && coder.Valid()
      modifies coder
      ensures coder.closed == old(coder.closed) && coder.Valid() && coder.log == old(coder.log) + RefineLevel(b, k, v, negative)
    {
      hide Encoder.Valid;
      if v / 2 != 0 {
        coder.Encode(AcBin(b.tbl, k, 2), v % 2 == 1);
      } else {
        coder.Encode(AcBin(b.tbl, k, 1), true);
        coder.Encode(Fixed, negative);
      }
    }

    /** Figure G.10 over the band from ss on (encode_mcu_AC_refine). */
    method EncodeRefinedBand(b: Band, z: Block, ss: nat)
      requires 1 <= ss && b.se < BLOCK_SIZE && coder.Valid()
      modifies coder
      ensures coder.closed == old(coder.closed) && coder.Valid() && coder.log == old(coder.log) + RefinedBand(b, z, ss)
    {
      hide Encoder.Valid, RefineRunDecisions, Level, LastSignificant, AcBin, RefineLevel;
      var ke := FindSignificant(z, b.al, b.se);
      var kex := FindSignificant(z, b.al + 1, ke);
      var k := ss;
      while k <= ke
        invariant 1 <= k && coder.closed == old(coder.closed) && coder.Valid()
        invariant coder.log + RefineDecisions(b, z, k, ke, kex) == old(coder.log) + RefineDecisions(b, z, ss, ke, kex)
      {
        RefineStep(b, z, k, ke, kex, coder.log);
        if k > kex {
          coder.Encode(AcBin(b.tbl, k, 0), false);
        }
        while Level(z[k], b.al) == 0
          invariant 1 <= k <= ke && coder.closed == old(coder.closed) && coder.Valid()
          invariant coder.log + RefineRunDecisions(b, z, k, ke, kex)
                 == old(coder.log) + RefineDecisions(b, z, ss, ke, kex)
          decreases ke - k
        {
          RefineRunStep(b, z, k, ke, kex, Level(z[k], b.al), coder.log);
          coder.Encode(AcBin(b.tbl, k, 1), false);
          k := k + 1;
        }
        RefineRunStep(b, z, k, ke, kex, Level(z[k], b.al), coder.log);
        EncodeRefinedLevel(b, k, Level(z[k], b.al), z[k] < 0);
        k := k + 1;
      }
      if k <= b.se {
        coder.Encode(AcBin(b.tbl, k, 0), true);
      }
    }

    /** One block of an MCU, by the routine that start_pass selected. */
    method EncodeBlock(routine: Routine, scan: Scan, c: nat, z: Block)
      requires Valid() && c < |f.comps| && Sound(routine, scan)
      modifies `lastDcVal, `dcContext, coder
      ensures coder.closed == old(coder.closed) && Valid()
      ensures coder.log == old(coder.log) + BlockDecisions(f, routine, scan, c, old(States())[c], z)
      ensures States() == old(States())[c := DcStateAfter(f, routine, scan, c, old(States())[c], z)]
    {
      hide Encoder.Valid, DcDecisions, FirstBand, RefinedBand, DcAfter;
      if CodesDc(routine) {
        EncodeDc(c, DcValue(scan, z));
      }
      match routine
      case Sequential => EncodeBand(AcBand(f, c, scan), z, 1);
      case DcFirst =>
      case AcFirst => EncodeBand(AcBand(f, c, scan), z, scan.ss);
      case DcRefine => coder.Encode(Fixed, DcValue(scan, z) % 2 == 1);
      case AcRefine => EncodeRefinedBand(AcBand(f, c, scan), z, scan.ss);
    }

    /** The blocks of an MCU, in the order they are visited. */
    method EncodeBlocks(image: Image, visits: seq<Visit>)
      requires Valid() && Sound(routine, scan) && AllInImage(f, image, visits)
      modifies `lastDcVal, `dcContext, coder
      ensures coder.closed == old(coder.closed) && Valid()
      ensures coder.log == old(coder.log) + ScanDecisions(f, routine, scan, old(States()), image, visits)
      ensures States() == StatesAfter(f, routine, scan, old(States()), image, visits)
    {
      hide Encoder.Valid, BlockDecisions, DcStateAfter, Sound;
      ghost var all := coder.log + ScanDecisions(f, routine, scan, States(), image, visits);
      assert visits[0..] == visits;
      for n := 0 to |visits|
        invariant coder.closed == old(coder.closed) && Valid() && AllInImage(f, image, visits[n..])
        invariant all == coder.log + ScanDecisions(f, routine, scan, States(), image, visits[n..])
        invariant StatesAfter(f, routine, scan, States(), image, visits[n..])
               == StatesAfter(f, routine, scan, old(States()), image, visits)
      {
        var v := visits[n];
        assert visits[n..][0] == v && visits[n..][1..] == visits[n + 1..];
        assert InImage(f, image, visits[n..][0]);
        LaterInImage(f, image, image, visits[n..]);
        EncodeBlock(routine, scan, v.comp, image[v.comp][v.index]);
      }
    }
  }
}
