/**
 The statistical model of jcarith.c and jdarith.c (sections F.1.4, F.2.4 and G.1.3 of
 ITU-T T.81): which decisions describe a coefficient, and what a decoder makes of them.
 */
module ArithCoefficients {
  import opened Coefficients
  import opened Powers
  import opened ByteStrings
  import opened IntervalCoding
  import opened ArithDecoder
  import opened ArithSession

  /** Pointer arithmetic on statistics bins. */
  function Plus(st: Bin, n: nat): Bin {
    match st
    case Dc(tbl, offset) => Dc(tbl, offset + n)
    case Ac(tbl, offset) => Ac(tbl, offset + n)
    case Fixed => Fixed
  }

  /** The position of the highest bit set. */
  function TopBit(v: nat): (e: nat)
    requires 0 < v
    ensures Pow2(e) <= v < 2 * Pow2(e)
  {
    if v == 1 then 0 else 1 + TopBit(v / 2)
  }

  lemma TopBitStep(v: nat)
    requires 1 < v
    ensures TopBit(v) == 1 + TopBit(v / 2)
  {
    hide Pow2;
  }

  lemma TopBitDoubles(v: nat)
    requires 1 < v
    ensures TopBit(v) == 1 + TopBit(v / 2) && Pow2(TopBit(v)) == 2 * Pow2(TopBit(v / 2))
  {
    hide TopBit, Pow2;
    TopBitStep(v);
    DoublePower(TopBit(v / 2));
  }

  /** Figure F.8: one more decision for each doubling of the magnitude category. */
  function CategoryDecisions(st: Bin, v: nat): seq<Decision>
    requires 0 < v
    decreases v
  {
    if v == 1 then [Decision(st, false)]
    else [Decision(st, true)] + CategoryDecisions(Plus(st, 1), v / 2)
  }

  /** Figure F.9: the `e` bits of v below its top bit, highest first. */
  function PatternDecisions(st: Bin, e: nat, v: nat): seq<Decision>
    decreases e
  {
    if e == 0 then []
    else [Decision(st, v / Pow2(e - 1) % 2 == 1)] + PatternDecisions(st, e - 1, v)
  }

  /** A magnitude category 2^e found at bin `st`, or the overflow that ends decoding. */
  datatype Category = Category(e: nat, st: Bin, r: Reader) | Overflow(r: Reader)

  const MAX_CATEGORY := 15

  /** Figure F.23: the category doubles until a zero decision; 0x8000 is an overflow. */
  function ReadCategory(src: seq<Byte>, r: Reader, st: Bin, e: nat): Category
    requires e < MAX_CATEGORY
    decreases MAX_CATEGORY - e
  {
    var (more, next) := Next(src, r, st);
    if !more then Category(e, st, next)
    else if e + 1 == MAX_CATEGORY then Overflow(next)
    else ReadCategory(src, next, Plus(st, 1), e + 1)
  }

  /** Figure F.24: sets the bits below the top bit of v. */
  function ReadPattern(src: seq<Byte>, r: Reader, st: Bin, e: nat, v: int): (int, Reader)
    decreases e
  {
    if e == 0 then (v, r)
    else
      var (bit, next) := Next(src, r, st);
      ReadPattern(src, next, st, e - 1, if bit then v + Pow2(e - 1) else v)
  }

  /** Categories are read back unless they reach the overflow limit. */
  lemma {:induction false} CategoryIsRead(tx: Transmission, r: Reader, st: Bin, e: nat, v: nat, rest: seq<Decision>)
    requires 0 < v && e < MAX_CATEGORY
    requires Coming(tx, r, CategoryDecisions(st, v) + rest)
    ensures var c := ReadCategory(tx.src, r, st, e);
            if e + TopBit(v) < MAX_CATEGORY then
              c.Category? && c.e == e + TopBit(v) && c.st == Plus(st, TopBit(v)) && Coming(tx, c.r, rest)
            else c.Overflow?
    decreases v
  {
    hide Coming, Next;
    if v == 1 {
      Reads(tx, r, Decision(st, false), rest);
    } else {
      var more := CategoryDecisions(Plus(st, 1), v / 2);
      assert CategoryDecisions(st, v) + rest == [Decision(st, true)] + (more + rest);
      Reads(tx, r, Decision(st, true), more + rest);
      if e + 1 < MAX_CATEGORY {
        CategoryIsRead(tx, Next(tx.src, r, st).1, Plus(st, 1), e + 1, v / 2, rest);
      }
    }
  }

  /** v without its lowest e bits. */
  function HighBits(v: nat, e: nat): int {
    v / Pow2(e) * Pow2(e)
  }

  lemma {:induction false} PatternIsRead(tx: Transmission, r: Reader, st: Bin, e: nat, v: nat, rest: seq<Decision>)
    requires Coming(tx, r, PatternDecisions(st, e, v) + rest)
    ensures var p := ReadPattern(tx.src, r, st, e, HighBits(v, e));
            p.0 == v && Coming(tx, p.1, rest)
    decreases e
  {
    hide Coming, Next, HighBits;
    if e == 0 {
      assert PatternDecisions(st, e, v) + rest == rest;
      NoBitsDropped(v);
    } else {
      var bit := v / Pow2(e - 1) % 2 == 1;
      var more := PatternDecisions(st, e - 1, v);
      assert PatternDecisions(st, e, v) + rest == [Decision(st, bit)] + (more + rest);
      Reads(tx, r, Decision(st, bit), more + rest);
      PatternIsRead(tx, Next(tx.src, r, st).1, st, e - 1, v, rest);
      NextBit(v, e - 1);
    }
  }

  lemma NoBitsDropped(v: nat)
    ensures HighBits(v, 0) == v
  {
  }

  lemma NextBit(v: nat, e: nat)
    ensures HighBits(v, e) == HighBits(v, e + 1) + if v / Pow2(e) % 2 == 1 then Pow2(e) else 0
  {
    var p := Pow2(e);
    var q := v / p;
    assert Pow2(e + 1) == 2 * p;
    HalvesTwice(v, p);
    assert q * p == 2 * (q / 2) * p + q % 2 * p;
  }

  lemma TopBitLeads(v: nat)
    requires 0 < v
    ensures HighBits(v, TopBit(v)) == Pow2(TopBit(v))
  {
    var p := Pow2(TopBit(v));
    FloorIs(v, p, 1);
  }

  type Table = t: nat | t < 16

  type PerTable = s: seq<nat> | |s| == 16 witness seq(16, _ => 0)

  /** arith_dc_L, arith_dc_U and arith_ac_K. */
  datatype Conditioning = Conditioning(dcL: PerTable, dcU: PerTable, acK: PerTable)

  /** The magnitude category m of v = |value| - 1. */
  function CategoryOf(v: nat): nat {
    if v == 0 then 0 else Pow2(TopBit(v))
  }

  /** Bin X1 of the DC magnitude categories. */
  function DcX1(tbl: Table): Bin {
    Dc(tbl, 20)
  }

  /** Bin X2 of the AC magnitude categories, for low and for high frequencies. */
  function AcX2(cond: Conditioning, tbl: Table, k: nat): Bin {
    Ac(tbl, if k <= cond.acK[tbl] then 189 else 217)
  }

  function DcMagnitudeDecisions(tbl: Table, st: Bin, v: nat): seq<Decision> {
    if v == 0 then [Decision(st, false)]
    else
      [Decision(st, true)]
      + (CategoryDecisions(DcX1(tbl), v)
         + PatternDecisions(Plus(DcX1(tbl), TopBit(v) + 14), TopBit(v), v))
  }

  function AcMagnitudeDecisions(cond: Conditioning, tbl: Table, k: nat, st: Bin, v: nat): seq<Decision> {
    if v == 0 then [Decision(st, false)]
    else if v == 1 then [Decision(st, true), Decision(st, false)]
    else
      [Decision(st, true), Decision(st, true)]
      + (CategoryDecisions(AcX2(cond, tbl, k), v / 2)
         + PatternDecisions(Plus(AcX2(cond, tbl, k), TopBit(v / 2) + 14), TopBit(v), v))
  }

  /** A magnitude category and v = |value| - 1, or the overflow that ends decoding. */
  datatype Magnitude = Magnitude(m: nat, v: int, r: Reader) | BadMagnitude(r: Reader)

  function WithPattern(src: seq<Byte>, c: Category): Magnitude {
    match c
    case Overflow(r) => BadMagnitude(r)
    case Category(e, st, r) =>
      var (v, next) := ReadPattern(src, r, Plus(st, 14), e, Pow2(e));
      Magnitude(Pow2(e), v, next)
  }

  function ReadDcMagnitude(src: seq<Byte>, r: Reader, tbl: Table, st: Bin): Magnitude {
    var (more, next) := Next(src, r, st);
    if !more then Magnitude(0, 0, next)
    else WithPattern(src, ReadCategory(src, next, DcX1(tbl), 0))
  }

  function ReadAcMagnitude(src: seq<Byte>, r: Reader, cond: Conditioning, tbl: Table, k: nat, st: Bin): Magnitude {
    var (more, r1) := Next(src, r, st);
    if !more then Magnitude(0, 0, r1)
    else
      var (more, r2) := Next(src, r1, st);
      if !more then Magnitude(1, 1, r2)
      else WithPattern(src, ReadCategory(src, r2, AcX2(cond, tbl, k), 1))
  }

  /** Categories up to 0x4000 are representable: values up to 32768 and no more. */
  lemma CategoryLimit(v: nat)
    requires 0 < v
    ensures TopBit(v) < MAX_CATEGORY <==> v < 0x8000
  {
    assert Pow2(15) == 0x8000 by { Pow2Values(); assert Pow2(16) == 2 * Pow2(15); }
    if TopBit(v) < MAX_CATEGORY {
      Pow2Monotone(TopBit(v) + 1, 15);
    } else {
      Pow2Monotone(15, TopBit(v));
    }
  }

  lemma WithPatternIs(tx: Transmission, c: Category, st: Bin, v: nat, rest: seq<Decision>)
    requires 0 < v && c.Category? && c.e == TopBit(v) && Plus(c.st, 14) == st
    requires Coming(tx, c.r, PatternDecisions(st, TopBit(v), v) + rest)
    ensures var g := WithPattern(tx.src, c);
            g.Magnitude? && g.m == CategoryOf(v) && g.v == v && Coming(tx, g.r, rest)
  {
    hide Coming, Next, HighBits;
    PatternIsRead(tx, c.r, st, TopBit(v), v, rest);
    TopBitLeads(v);
  }

  lemma OverflowIsBad(src: seq<Byte>, c: Category)
    requires c.Overflow?
    ensures WithPattern(src, c).BadMagnitude?
  {
  }

  lemma DcMagnitudeIsRead(tx: Transmission, r: Reader, tbl: Table, st: Bin, v: nat, rest: seq<Decision>)
    requires Coming(tx, r, DcMagnitudeDecisions(tbl, st, v) + rest)
    ensures var g := ReadDcMagnitude(tx.src, r, tbl, st);
            if v < 0x8000 then g.Magnitude? && g.m == CategoryOf(v) && g.v == v && Coming(tx, g.r, rest)
            else g.BadMagnitude?
  {
    hide Coming, Next, WithPattern, ReadCategory, CategoryDecisions, PatternDecisions;
    if v == 0 {
      Reads(tx, r, Decision(st, false), rest);
    } else {
      var category := CategoryDecisions(DcX1(tbl), v);
      var pattern := PatternDecisions(Plus(DcX1(tbl), TopBit(v) + 14), TopBit(v), v);
      assert [Decision(st, true)] + (category + pattern) + rest
          == [Decision(st, true)] + (category + (pattern + rest));
      Reads(tx, r, Decision(st, true), category + (pattern + rest));
      var next := Next(tx.src, r, st).1;
      CategoryIsRead(tx, next, DcX1(tbl), 0, v, pattern + rest);
      CategoryLimit(v);
      var c := ReadCategory(tx.src, next, DcX1(tbl), 0);
      if v < 0x8000 {
        WithPatternIs(tx, c, Plus(DcX1(tbl), TopBit(v) + 14), v, rest);
      } else {
        OverflowIsBad(tx.src, c);
      }
    }
  }

  lemma AcMagnitudeIsRead(tx: Transmission, r: Reader, cond: Conditioning, tbl: Table, k: nat, st: Bin, v: nat,
                          rest: seq<Decision>)
    requires Coming(tx, r, AcMagnitudeDecisions(cond, tbl, k, st, v) + rest)
    requires v < 0x8000
    ensures var g := ReadAcMagnitude(tx.src, r, cond, tbl, k, st);
            g.Magnitude? && g.v == v && Coming(tx, g.r, rest)
  {
    hide Coming, Next, WithPattern, ReadCategory, CategoryDecisions, PatternDecisions, AcX2;
    var yes, no := Decision(st, true), Decision(st, false);
    if v == 0 {
      Reads(tx, r, no, rest);
    } else if v == 1 {
      assert [yes, no] + rest == [yes] + ([no] + rest);
      Reads(tx, r, yes, [no] + rest);
      Reads(tx, Next(tx.src, r, st).1, no, rest);
    } else {
      var x2 := AcX2(cond, tbl, k);
      var category := CategoryDecisions(x2, v / 2);
      var pattern := PatternDecisions(Plus(x2, TopBit(v / 2) + 14), TopBit(v), v);
      var more := category + (pattern + rest);
      assert [yes, yes] + (category + pattern) + rest == [yes] + ([yes] + more);
      Reads(tx, r, yes, [yes] + more);
      var r1 := Next(tx.src, r, st).1;
      Reads(tx, r1, yes, more);
      var r2 := Next(tx.src, r1, st).1;
      CategoryIsRead(tx, r2, x2, 1, v / 2, pattern + rest);
      CategoryLimit(v);
      WithPatternIs(tx, ReadCategory(tx.src, r2, x2, 1), Plus(x2, TopBit(v / 2) + 14), v, rest);
    }
  }

  // ---------------------------------------------------------------- DC differences

  /** last_dc_val and dc_context of one component. */
  datatype DcState = DcState(last: int, context: nat)

  const DC_RESET := DcState(0, 0)

  ghost function DcStates(last: seq<int>, context: seq<nat>): (s: seq<DcState>)
    requires |last| == |context|
    ensures |s| == |last|
  {
    seq(|last|, c requires 0 <= c < |last| => DcState(last[c], context[c]))
  }

  /** Section F.1.4.4.1.2: the conditioning category of a nonzero difference. */
  function DcContext(cond: Conditioning, tbl: Table, m: nat, negative: bool): nat {
    var sign := if negative then 4 else 0;
    if m < Pow2(cond.dcL[tbl]) / 2 then 0
    else if m > Pow2(cond.dcU[tbl]) / 2 then 12 + sign
    else 4 + sign
  }

  /** The category is zero up to half of 2^L, large beyond 2^U, and small between the two. */
  lemma ContextTellsSize(cond: Conditioning, tbl: Table, s: DcState, x: int)
    requires x != s.last
    ensures var size, context := Abs(x - s.last), DcAfter(cond, tbl, s, x).context;
            if 2 * size <= Pow2(cond.dcL[tbl]) then context == 0
            else context == (if size > Pow2(cond.dcU[tbl]) then 12 else 4) + (if x < s.last then 4 else 0)
  {
    var v := Abs(x - s.last) - 1;
    if cond.dcL[tbl] > 0 {
      BelowPower(v, cond.dcL[tbl] - 1);
    }
    BelowPower(v, cond.dcU[tbl]);
    HalfPower(cond.dcL[tbl]);
    HalfPower(cond.dcU[tbl]);
    hide Pow2, CategoryOf;
  }

  lemma HalfPower(n: nat)
    ensures if n == 0 then Pow2(n) == 1 && Pow2(n) / 2 == 0 else Pow2(n) == 2 * Pow2(n - 1) && Pow2(n) / 2 == Pow2(n - 1)
  {
  }

  /** A category is below a power of two if and only if the magnitude is, and then at most half of it. */
  lemma BelowPower(v: nat, n: nat)
    ensures CategoryOf(v) < Pow2(n) <==> v < Pow2(n)
    ensures n > 0 ==> (CategoryOf(v) <= Pow2(n - 1) <==> v < Pow2(n))
  {
    hide Pow2;
    if n > 0 {
      DoublePower(n - 1);
    }
    if v > 0 {
      if TopBit(v) < n {
        Pow2Monotone(TopBit(v) + 1, n);
        Pow2Monotone(TopBit(v), n - 1);
        DoublePower(TopBit(v));
      } else {
        Pow2Monotone(n, TopBit(v));
      }
    }
  }

  function DcDecisions(tbl: Table, s: DcState, x: int): seq<Decision> {
    var st, diff := Dc(tbl, s.context), x - s.last;
    if diff == 0 then [Decision(st, false)]
    else
      [Decision(st, true), Decision(Plus(st, 1), diff < 0)]
      + DcMagnitudeDecisions(tbl, Plus(st, if diff < 0 then 3 else 2), Abs(diff) - 1)
  }

  function DcAfter(cond: Conditioning, tbl: Table, s: DcState, x: int): DcState {
    var diff := x - s.last;
    DcState(x, if diff == 0 then 0 else DcContext(cond, tbl, CategoryOf(Abs(diff) - 1), diff < 0))
  }

  /** A decoder's new DC state, or the magnitude overflow that ends decoding. */
  datatype DcResult = DcRead(s: DcState, r: Reader) | DcBad(r: Reader)

  function ReadDc(src: seq<Byte>, r: Reader, cond: Conditioning, tbl: Table, s: DcState): DcResult {
    var st := Dc(tbl, s.context);
    var (nonzero, r1) := Next(src, r, st);
    if !nonzero then DcRead(s.(context := 0), r1)
    else
      var (negative, r2) := Next(src, r1, Plus(st, 1));
      match ReadDcMagnitude(src, r2, tbl, Plus(st, if negative then 3 else 2))
      case BadMagnitude(r3) => DcBad(r3)
      case Magnitude(m, v, r3) =>
        var diff := if negative then -(v + 1) else v + 1;
        DcRead(DcState((s.last + diff) % 0x1_0000, DcContext(cond, tbl, m, negative)), r3)
  }

  /** The decoder keeps the predictor modulo 2^16, the context as the encoder does. */
  predicate SameDc(s: DcState, t: DcState) {
    0 <= t.last < 0x1_0000 && t.last == s.last % 0x1_0000 && t.context == s.context
  }

  /** A DC value is recovered if and only if its difference is at most 32768. */
  lemma DcIsRead(tx: Transmission, r: Reader, cond: Conditioning, tbl: Table, s: DcState, t: DcState, x: int,
                 rest: seq<Decision>)
    requires Coming(tx, r, DcDecisions(tbl, s, x) + rest) && SameDc(s, t)
    ensures var d := ReadDc(tx.src, r, cond, tbl, t);
            if Abs(x - s.last) <= 0x8000 then
              d.DcRead? && SameDc(DcAfter(cond, tbl, s, x), d.s) && Coming(tx, d.r, rest)
            else d.DcBad?
  {
    hide Coming, Next, ReadDcMagnitude, DcMagnitudeDecisions, DcContext, CategoryOf;
    var st, diff := Dc(tbl, s.context), x - s.last;
    if diff == 0 {
      Reads(tx, r, Decision(st, false), rest);
    } else {
      var yes, sign := Decision(st, true), Decision(Plus(st, 1), diff < 0);
      var sm := Plus(st, if diff < 0 then 3 else 2);
      var more := DcMagnitudeDecisions(tbl, sm, Abs(diff) - 1);
      assert [yes, sign] + more + rest == [yes] + ([sign] + (more + rest));
      Reads(tx, r, yes, [sign] + (more + rest));
      var r1 := Next(tx.src, r, st).1;
      Reads(tx, r1, sign, more + rest);
      DcMagnitudeIsRead(tx, Next(tx.src, r1, Plus(st, 1)).1, tbl, sm, Abs(diff) - 1, rest);
      assert (s.last % 0x1_0000 + diff) % 0x1_0000 == x % 0x1_0000;
    }
  }
}
