/**
 Binary interval coding over unbounded integers: the specification both halves of the
 arithmetic coder are proved against (sections D.1 and D.2 of ITU-T T.81).
 */
module IntervalCoding {
  import opened Powers
  import opened ByteStrings
  import opened ProbabilityTable

  /** A statistics byte, named by the area it lies in and its offset there. */
  datatype Bin = Dc(tbl: nat, offset: nat) | Ac(tbl: nat, offset: nat) | Fixed

  datatype Decision = Decision(bin: Bin, bit: bool)

  /** Statistics areas start zeroed, the fixed bin with its own state. */
  type Statistics = map<Bin, StatByte>

  function Stat(stats: Statistics, bin: Bin): StatByte {
    if bin in stats then stats[bin]
    else if bin == Fixed then FIXED_STATE
    else 0
  }

  /** The numbers low/2^(16+shifts) up to, not including, (low+size)/2^(16+shifts). */
  datatype Interval = Interval(low: nat, size: nat, shifts: nat)

  const UNIT := Interval(0, 0x1_0000, 0)

  function Doubled(v: Interval): Interval {
    Interval(2 * v.low, 2 * v.size, v.shifts + 1)
  }

  function Renormalized(v: Interval): (r: Interval)
    requires 0 < v.size
    ensures r.size >= 0x8000
    ensures v.size >= 0x8000 ==> r == v
    ensures v.size <= 0x1_0000 ==> r.size <= 0x1_0000
    decreases 0x8000 - v.size
  {
    if v.size >= 0x8000 then v else Renormalized(Doubled(v))
  }

  /** The upper part has size qe, the lower part the rest. */
  function Part(v: Interval, qe: nat, upper: bool): Interval
    requires qe <= v.size
  {
    if upper then Interval(v.low + (v.size - qe), qe, v.shifts)
    else Interval(v.low, v.size - qe, v.shifts)
  }

  /** The less probable symbol takes the smaller of the two parts (conditional exchange). */
  predicate TakesUpper(size: nat, sv: StatByte, bit: bool)
  {
    var qe := EstimateOf(sv).qe;
    (bit == Mps(sv)) == (size < 2 * qe)
  }

  /** The estimate moves only when the interval must be renormalized. */
  function NextStats(stats: Statistics, bin: Bin, size: nat, bit: bool): Statistics
  {
    var sv := Stat(stats, bin);
    if bit != Mps(sv) then stats[bin := AfterLps(sv)]
    else if size - EstimateOf(sv).qe >= 0x8000 then stats
    else stats[bin := AfterMps(sv)]
  }

  datatype Model = Model(interval: Interval, stats: Statistics)

  const START := Model(UNIT, map[])

  type Normal = m: Model | 0x8000 <= m.interval.size <= 0x1_0000 witness START

  function Step(m: Normal, d: Decision): Normal
  {
    var sv := Stat(m.stats, d.bin);
    Model(
      Renormalized(Part(m.interval, EstimateOf(sv).qe, TakesUpper(m.interval.size, sv, d.bit))),
      NextStats(m.stats, d.bin, m.interval.size, d.bit))
  }

  /** The model after a whole sequence of decisions, from the start of a pass. */
  ghost function Run(ds: seq<Decision>): Normal
  {
    if ds == [] then START else Step(Run(ds[..|ds| - 1]), ds[|ds| - 1])
  }

  lemma RunSnoc(ds: seq<Decision>, d: Decision)
    ensures Run(ds + [d]) == Step(Run(ds), d)
  {
    assert (ds + [d])[..|ds|] == ds;
  }

  /** The interval never leaves the unit interval: no carry can pass the first byte. */
  predicate WithinUnit(v: Interval) {
    v.low + v.size <= Pow2(16 + v.shifts)
  }

  lemma WithinUnitDoubled(v: Interval)
    requires WithinUnit(v)
    ensures WithinUnit(Doubled(v))
  {
  }

  lemma {:induction false} RenormalizedWithinUnit(v: Interval)
    requires 0 < v.size && WithinUnit(v)
    ensures WithinUnit(Renormalized(v))
    decreases 0x8000 - v.size
  {
    if v.size < 0x8000 {
      RenormalizedWithinUnit(Doubled(v));
    }
  }

  lemma {:induction false} RunWithinUnit(ds: seq<Decision>)
    ensures WithinUnit(Run(ds).interval)
  {
    if ds == [] {
      Pow2Values();
    } else {
      RunWithinUnit(ds[..|ds| - 1]);
      StepWithinUnit(Run(ds[..|ds| - 1]), ds[|ds| - 1]);
    }
  }

  lemma StepWithinUnit(m: Normal, d: Decision)
    requires WithinUnit(m.interval)
    ensures WithinUnit(Step(m, d).interval)
  {
    hide Renormalized, Pow2, TakesUpper, NextStats;
    var sv := Stat(m.stats, d.bin);
    RenormalizedWithinUnit(Part(m.interval, EstimateOf(sv).qe, TakesUpper(m.interval.size, sv, d.bit)));
  }
}

/** Which byte strings, read as binary fractions, fall into an interval. */
module CodePoints {
  import opened Powers
  import opened ByteStrings
  import opened ProbabilityTable
  import opened IntervalCoding

  /** Whole bytes needed to reach the precision of an interval after `shifts` doublings. */
  function BytesFor(shifts: nat): nat {
    (shifts + 23) / 8
  }

  /** Bits by which those bytes exceed the precision of the interval. */
  function Slack(shifts: nat): nat {
    8 * BytesFor(shifts) - shifts - 16
  }

  /** The fraction 0.u, zero bytes without end after it, lies in the interval. */
  ghost predicate Inside(u: seq<Byte>, v: Interval)
  {
    var code := CodeAt(u, BytesFor(v.shifts));
    var unit := Pow2(Slack(v.shifts));
    v.low * unit <= code < (v.low + v.size) * unit
  }

  /** Doubling changes the precision, not the set of fractions. */
  lemma InsideDoubled(u: seq<Byte>, v: Interval)
    ensures Inside(u, Doubled(v)) <==> Inside(u, v)
  {
    hide Pow2, CodeAt;
    var w := Doubled(v);
    if Slack(v.shifts) == 0 {
      assert BytesFor(w.shifts) == BytesFor(v.shifts) + 1 && Slack(w.shifts) == 7;
      NextByte(u, BytesFor(v.shifts));
      SmallPowers();
    } else {
      var unit := Pow2(Slack(w.shifts));
      assert BytesFor(w.shifts) == BytesFor(v.shifts) && Slack(v.shifts) == Slack(w.shifts) + 1;
      DoublePower(Slack(w.shifts));
      MulAssoc(v.low, 2, unit);
      MulAssoc(v.low + v.size, 2, unit);
    }
  }

  lemma NextByte(u: seq<Byte>, k: nat)
    ensures CodeAt(u, k + 1) == CodeAt(u, k) * 256 + ByteAt(u, k) as int
  {
  }

  lemma SmallPowers()
    ensures Pow2(0) == 1 && Pow2(7) == 128
  {
  }

  lemma {:induction false} InsideRenormalized(u: seq<Byte>, v: Interval)
    requires 0 < v.size
    ensures Inside(u, Renormalized(v)) <==> Inside(u, v)
    decreases 0x8000 - v.size
  {
    if v.size < 0x8000 {
      InsideRenormalized(u, Doubled(v));
      InsideDoubled(u, v);
    }
  }

  lemma InsidePart(u: seq<Byte>, v: Interval, qe: nat, upper: bool)
    requires qe <= v.size
    requires Inside(u, Part(v, qe, upper))
    ensures Inside(u, v)
  {
    var unit := Pow2(Slack(v.shifts));
    MulMonotone(v.low, v.low + (v.size - qe), unit);
    MulMonotone(v.low + (v.size - qe), v.low + v.size, unit);
  }

  /** Nesting: a code inside the interval after a decision was inside it before. */
  lemma InsideBefore(u: seq<Byte>, m: Normal, d: Decision)
    requires Inside(u, Step(m, d).interval)
    ensures Inside(u, m.interval)
  {
    var sv := Stat(m.stats, d.bin);
    var qe := EstimateOf(sv).qe;
    var upper := TakesUpper(m.interval.size, sv, d.bit);
    InsideRenormalized(u, Part(m.interval, qe, upper));
    InsidePart(u, m.interval, qe, upper);
  }
}
