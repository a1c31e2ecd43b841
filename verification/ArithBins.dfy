/** Every decision stays inside the statistics areas of sections F.1.4.4.1.3 and F.1.4.4.2. */
module ArithBins {
  import opened Coefficients
  import opened Powers
  import opened IntervalCoding
  import opened ArithCoefficients
  import opened ArithBlocks
  import opened PointTransform
  import opened ArithScans
  import opened ArithImages

  const DC_BINS := 49
  const AC_BINS := 245

  predicate InArea(bin: Bin) {
    match bin
    case Dc(tbl, offset) => offset < DC_BINS
    case Ac(tbl, offset) => offset < AC_BINS
    case Fixed => true
  }

  ghost predicate AllInArea(ds: seq<Decision>) {
    forall i :: 0 <= i < |ds| ==> InArea(ds[i].bin)
  }

  lemma Joined(x: seq<Decision>, y: seq<Decision>)
    ensures AllInArea(x + y) <==> AllInArea(x) && AllInArea(y)
  {
    assert forall i :: 0 <= i < |x| ==> (x + y)[i] == x[i];
    assert forall i :: 0 <= i < |y| ==> (x + y)[|x| + i] == y[i];
  }

  lemma {:induction false} CategoryInArea(st: Bin, v: nat)
    requires 0 < v && InArea(Plus(st, TopBit(v)))
    ensures AllInArea(CategoryDecisions(st, v))
    decreases v
  {
    hide TopBit;
    if v == 1 {
    } else {
      TopBitStep(v);
      CategoryInArea(Plus(st, 1), v / 2);
      Joined([Decision(st, true)], CategoryDecisions(Plus(st, 1), v / 2));
    }
  }

  lemma {:induction false} PatternInArea(st: Bin, e: nat, v: nat)
    requires InArea(st)
    ensures AllInArea(PatternDecisions(st, e, v))
    decreases e
  {
    if e > 0 {
      PatternInArea(st, e - 1, v);
      Joined([Decision(st, v / Pow2(e - 1) % 2 == 1)], PatternDecisions(st, e - 1, v));
    }
  }

  lemma DcMagnitudeInArea(tbl: Table, st: Bin, v: nat)
    requires InArea(st) && v < 0x8000
    ensures AllInArea(DcMagnitudeDecisions(tbl, st, v))
  {
    if v > 0 {
      hide CategoryDecisions, PatternDecisions;
      CategoryLimit(v);
      CategoryInArea(DcX1(tbl), v);
      PatternInArea(Plus(DcX1(tbl), TopBit(v) + 14), TopBit(v), v);
      var category := CategoryDecisions(DcX1(tbl), v);
      var pattern := PatternDecisions(Plus(DcX1(tbl), TopBit(v) + 14), TopBit(v), v);
      Joined(category, pattern);
      Joined([Decision(st, true)], category + pattern);
    }
  }

  lemma AcMagnitudeInArea(cond: Conditioning, tbl: Table, k: nat, st: Bin, v: nat)
    requires InArea(st) && v < 0x8000
    ensures AllInArea(AcMagnitudeDecisions(cond, tbl, k, st, v))
  {
    if v > 1 {
      hide CategoryDecisions, PatternDecisions;
      var x2 := AcX2(cond, tbl, k);
      CategoryLimit(v);
      TopBitStep(v);
      CategoryInArea(x2, v / 2);
      PatternInArea(Plus(x2, TopBit(v / 2) + 14), TopBit(v), v);
      var category := CategoryDecisions(x2, v / 2);
      var pattern := PatternDecisions(Plus(x2, TopBit(v / 2) + 14), TopBit(v), v);
      Joined(category, pattern);
      Joined([Decision(st, true), Decision(st, true)], category + pattern);
    }
  }

  /** The conditioning contexts that exist. */
  predicate ContextOk(s: DcState) {
    s.context in {0, 4, 8, 12, 16}
  }

  lemma DcInArea(cond: Conditioning, tbl: Table, s: DcState, x: int)
    requires ContextOk(s) && Abs(x - s.last) <= 0x8000
    ensures AllInArea(DcDecisions(tbl, s, x)) && ContextOk(DcAfter(cond, tbl, s, x))
  {
    hide CategoryOf, DcMagnitudeDecisions, Pow2;
    var st, diff := Dc(tbl, s.context), x - s.last;
    if diff != 0 {
      var magnitude := DcMagnitudeDecisions(tbl, Plus(st, if diff < 0 then 3 else 2), Abs(diff) - 1);
      DcMagnitudeInArea(tbl, Plus(st, if diff < 0 then 3 else 2), Abs(diff) - 1);
      Joined([Decision(st, true), Decision(Plus(st, 1), diff < 0)], magnitude);
    }
  }

  lemma {:induction false} BandInArea(b: Band, z: Block, k: nat, ke: nat)
    requires 1 <= k && ke <= b.se < BLOCK_SIZE && Representable(z)
    requires k <= ke ==> Level(z[ke], b.al) != 0
    ensures AllInArea(BandDecisions(b, z, k, ke))
    decreases b.se + 1 - k, 1
  {
    hide Level, RunDecisions;
    if k <= ke {
      RunInArea(b, z, k, ke);
      Joined([Decision(AcBin(b.tbl, k, 0), false)], RunDecisions(b, z, k, ke));
    }
  }

  lemma {:induction false} RunInArea(b: Band, z: Block, k: nat, ke: nat)
    requires 1 <= k <= ke <= b.se < BLOCK_SIZE && Representable(z) && Level(z[ke], b.al) != 0
    ensures AllInArea(RunDecisions(b, z, k, ke))
    decreases b.se + 1 - k, 0
  {
    hide Level, BandDecisions, AcMagnitudeDecisions;
    var v := Level(z[k], b.al);
    if v == 0 {
      RunInArea(b, z, k + 1, ke);
      Joined([Decision(AcBin(b.tbl, k, 1), false)], RunDecisions(b, z, k + 1, ke));
    } else {
      var magnitude := AcMagnitudeDecisions(b.cond, b.tbl, k, AcBin(b.tbl, k, 2), v - 1);
      TruncatedRange(z[k], b.al);
      AcMagnitudeInArea(b.cond, b.tbl, k, AcBin(b.tbl, k, 2), v - 1);
      BandInArea(b, z, k + 1, ke);
      Joined(magnitude, BandDecisions(b, z, k + 1, ke));
      Joined([Decision(AcBin(b.tbl, k, 1), true), Decision(Fixed, z[k] < 0)],
             magnitude + BandDecisions(b, z, k + 1, ke));
    }
  }

  lemma {:induction false} RefineInArea(b: Band, z: Block, k: nat, ke: nat, kex: nat)
    requires 1 <= k && ke <= b.se < BLOCK_SIZE
    requires k <= ke ==> Level(z[ke], b.al) != 0
    ensures AllInArea(RefineDecisions(b, z, k, ke, kex))
    decreases b.se + 1 - k, 1
  {
    hide Level, RefineRunDecisions;
    if k <= ke {
      RefineRunInArea(b, z, k, ke, kex);
      Joined(if k > kex then [Decision(AcBin(b.tbl, k, 0), false)] else [], RefineRunDecisions(b, z, k, ke, kex));
    }
  }

  lemma {:induction false} RefineRunInArea(b: Band, z: Block, k: nat, ke: nat, kex: nat)
    requires 1 <= k <= ke <= b.se < BLOCK_SIZE && Level(z[ke], b.al) != 0
    ensures AllInArea(RefineRunDecisions(b, z, k, ke, kex))
    decreases b.se + 1 - k, 0
  {
    hide Level, RefineDecisions;
    var v := Level(z[k], b.al);
    if v == 0 {
      RefineRunInArea(b, z, k + 1, ke, kex);
      Joined([Decision(AcBin(b.tbl, k, 1), false)], RefineRunDecisions(b, z, k + 1, ke, kex));
    } else {
      RefineInArea(b, z, k + 1, ke, kex);
      Joined(if v / 2 != 0 then [Decision(AcBin(b.tbl, k, 2), v % 2 == 1)]
             else [Decision(AcBin(b.tbl, k, 1), true), Decision(Fixed, z[k] < 0)],
             RefineDecisions(b, z, k + 1, ke, kex));
    }
  }

  /** All decisions of a block, by any routine, name bins that exist. */
  lemma BlockInArea(f: Frame, routine: Routine, scan: Scan, c: nat, s: DcState, z: Block)
    requires c < |f.comps| && Sound(routine, scan) && Representable(z)
    requires ContextOk(s) && DcWithinLimit(routine, scan, s, z)
    ensures AllInArea(BlockDecisions(f, routine, scan, c, s, z))
    ensures ContextOk(DcStateAfter(f, routine, scan, c, s, z))
  {
    hide DcDecisions, BandDecisions, RefineDecisions, LastSignificant, Asr, DcAfter, Level, ContextOk, Representable;
    var b := AcBand(f, c, scan);
    if CodesDc(routine) {
      DcInArea(f.cond, f.comps[c].dcTbl, s, DcValue(scan, z));
    }
    match routine
    case Sequential =>
      BandInArea(b, z, 1, LastSignificant(z, b.al, b.se));
      Joined(DcDecisions(f.comps[c].dcTbl, s, DcValue(scan, z)), FirstBand(b, z, 1));
    case DcFirst =>
    case AcFirst => BandInArea(b, z, scan.ss, LastSignificant(z, b.al, b.se));
    case DcRefine =>
    case AcRefine =>
      var ke := LastSignificant(z, b.al, b.se);
      RefineInArea(b, z, scan.ss, ke, LastSignificant(z, b.al + 1, ke));
  }

  /** A scan within the limit never leaves the areas: DC bins stay below 49, AC bins below 245. */
  lemma {:induction false} ScanInArea(f: Frame, routine: Routine, scan: Scan, s: seq<DcState>, z: Image,
                                      visits: seq<Visit>)
    requires Sound(routine, scan) && |s| == |f.comps| && AllInImage(f, z, visits) && SixteenBit(z)
    requires InLimit(f, routine, scan, s, z, visits) && forall c :: 0 <= c < |s| ==> ContextOk(s[c])
    ensures AllInArea(ScanDecisions(f, routine, scan, s, z, visits))
    decreases |visits|
  {
    hide BlockDecisions, DcStateAfter, ContextOk, SixteenBit, DcWithinLimit;
    if visits != [] {
      var v, later := visits[0], visits[1..];
      assert InImage(f, z, v);
      var x := z[v.comp][v.index];
      BlocksAreSixteenBit(z, v);
      BlockInArea(f, routine, scan, v.comp, s[v.comp], x);
      LaterInImage(f, z, z, visits);
      var s' := s[v.comp := DcStateAfter(f, routine, scan, v.comp, s[v.comp], x)];
      ScanInArea(f, routine, scan, s', z, later);
      Joined(BlockDecisions(f, routine, scan, v.comp, s[v.comp], x), ScanDecisions(f, routine, scan, s', z, later));
    }
  }
}
