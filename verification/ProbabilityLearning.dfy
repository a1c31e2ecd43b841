/**
 How the statistics bins learn (section D.1.4 of ITU-T T.81): the estimate rises with every less
 probable symbol and falls with every renormalization behind a more probable one, and a symbol that
 keeps coming becomes the more probable one of its bin.
 */
module ProbabilityLearning {
  import opened ProbabilityTable
  import opened IntervalCoding

  const DOUBT_0: seq<nat> := [0, 1, 4, 8, 13, 17, 19, 21, 23, 25, 26, 26, 27, 28, 0, 1]
  const DOUBT_1: seq<nat> := [3, 5, 7, 11, 12, 13, 14, 16, 16, 18, 18, 19, 20, 21, 22, 22]
  const DOUBT_2: seq<nat> := [24, 24, 25, 25, 0, 1, 2, 4, 6, 8, 10, 11, 12, 12, 13, 14]
  const DOUBT_3: seq<nat> := [15, 15, 16, 17, 17, 18, 18, 19, 19, 20, 20, 21, 21, 22, 23, 23]
  const DOUBT_4: seq<nat> := [0, 1, 2, 3, 5, 7, 9, 10, 10, 11, 11, 12, 12, 13, 14, 14]
  const DOUBT_5: seq<nat> := [0, 1, 2, 4, 6, 8, 8, 9, 0, 1, 3, 5, 7, 7, 8, 0]
  const DOUBT_6: seq<nat> := [2, 4, 5, 6, 7, 1, 3, 4, 5, 0, 2, 3, 1, 2, 0, 1]
  const DOUBT_7: seq<nat> := [0]

  /** How many less probable symbols in a row lead to a row where the two symbols change places. */
  function Doubts(i: nat): nat
    requires i < FIXED_STATE
  {
    if i < 16 then DOUBT_0[i] else if i < 32 then DOUBT_1[i - 16] else if i < 48 then DOUBT_2[i - 32]
    else if i < 64 then DOUBT_3[i - 48] else if i < 80 then DOUBT_4[i - 64] else if i < 96 then DOUBT_5[i - 80]
    else if i < 112 then DOUBT_6[i - 96] else DOUBT_7[i - 112]
  }

  const TRUST_0: seq<nat> := [13, 12, 11, 10, 9, 8, 7, 6, 5, 4, 3, 2, 1, 0, 26, 25]
  const TRUST_1: seq<nat> := [24, 23, 22, 21, 20, 19, 18, 17, 16, 15, 14, 13, 12, 11, 10, 9]
  const TRUST_2: seq<nat> := [8, 7, 6, 5, 36, 35, 34, 33, 32, 31, 30, 29, 28, 27, 26, 25]
  const TRUST_3: seq<nat> := [24, 23, 22, 21, 20, 19, 18, 17, 16, 15, 14, 13, 12, 11, 10, 9]
  const TRUST_4: seq<nat> := [40, 39, 38, 37, 36, 35, 34, 33, 32, 31, 30, 29, 28, 27, 26, 25]
  const TRUST_5: seq<nat> := [41, 40, 39, 38, 37, 36, 35, 34, 42, 41, 40, 39, 38, 37, 36, 43]
  const TRUST_6: seq<nat> := [42, 41, 40, 39, 38, 43, 42, 41, 40, 44, 43, 42, 44, 43, 45, 44]
  const TRUST_7: seq<nat> := [45]

  /** How many more probable symbols in a row, each with a renormalization, lead to the smallest estimate. */
  function Trust(i: nat): nat
    requires i < FIXED_STATE
  {
    if i < 16 then TRUST_0[i] else if i < 32 then TRUST_1[i - 16] else if i < 48 then TRUST_2[i - 32]
    else if i < 64 then TRUST_3[i - 48] else if i < 80 then TRUST_4[i - 64] else if i < 96 then TRUST_5[i - 80]
    else if i < 112 then TRUST_6[i - 96] else TRUST_7[i - 112]
  }

  /** The rows of the table, read from the part they are written in. */
  function RowAt(i: nat): (e: Estimate)
    requires i <= FIXED_STATE
  {
    if i < 16 then ROWS_0[i] else if i < 32 then ROWS_1[i - 16] else if i < 48 then ROWS_2[i - 32]
    else if i < 64 then ROWS_3[i - 48] else if i < 80 then ROWS_4[i - 64] else if i < 96 then ROWS_5[i - 80]
    else if i < 112 then ROWS_6[i - 96] else ROWS_7[i - 112]
  }

  /** What the rows of the table have in common, apart from the fixed one. */
  predicate Learns(i: nat, e: Estimate)
    requires i < FIXED_STATE
  {
    && e.nextLps < FIXED_STATE && e.nextMps < FIXED_STATE
    && Doubts(i) <= 28 && Trust(i) <= 45
    && Doubts(i) == (if e.switchMps then 0 else 1 + Doubts(e.nextLps))
    && (if e.qe == 1 then e.nextMps == i else Trust(i) == 1 + Trust(e.nextMps))
    && (e.switchMps <==> RowAt(e.nextLps).qe <= e.qe)
    && (e.qe != 1 ==> RowAt(e.nextMps).qe < e.qe)
  }

  lemma Rows0()
    ensures Learns(0, RowAt(0)) && Learns(1, RowAt(1)) && Learns(2, RowAt(2))
  {
  }

  lemma Rows1()
    ensures Learns(3, RowAt(3)) && Learns(4, RowAt(4)) && Learns(5, RowAt(5))
  {
  }

  lemma Rows2()
    ensures Learns(6, RowAt(6)) && Learns(7, RowAt(7)) && Learns(8, RowAt(8))
  {
  }

  lemma Rows3()
    ensures Learns(9, RowAt(9)) && Learns(10, RowAt(10)) && Learns(11, RowAt(11))
  {
  }

  lemma Rows4()
    ensures Learns(12, RowAt(12)) && Learns(13, RowAt(13)) && Learns(14, RowAt(14))
  {
  }

  lemma Rows5()
    ensures Learns(15, RowAt(15)) && Learns(16, RowAt(16)) && Learns(17, RowAt(17))
  {
  }

  lemma Rows6()
    ensures Learns(18, RowAt(18)) && Learns(19, RowAt(19)) && Learns(20, RowAt(20))
  {
  }

  lemma Rows7()
    ensures Learns(21, RowAt(21)) && Learns(22, RowAt(22)) && Learns(23, RowAt(23))
  {
  }

  lemma Rows8()
    ensures Learns(24, RowAt(24)) && Learns(25, RowAt(25)) && Learns(26, RowAt(26))
  {
  }

  lemma Rows9()
    ensures Learns(27, RowAt(27)) && Learns(28, RowAt(28)) && Learns(29, RowAt(29))
  {
  }

  lemma Rows10()
    ensures Learns(30, RowAt(30)) && Learns(31, RowAt(31)) && Learns(32, RowAt(32))
  {
  }

  lemma Rows11()
    ensures Learns(33, RowAt(33)) && Learns(34, RowAt(34)) && Learns(35, RowAt(35))
  {
  }

  lemma Rows12()
    ensures Learns(36, RowAt(36)) && Learns(37, RowAt(37)) && Learns(38, RowAt(38))
  {
  }

  lemma Rows13()
    ensures Learns(39, RowAt(39)) && Learns(40, RowAt(40)) && Learns(41, RowAt(41))
  {
  }

  lemma Rows14()
    ensures Learns(42, RowAt(42)) && Learns(43, RowAt(43)) && Learns(44, RowAt(44))
  {
  }

  lemma Rows15()
    ensures Learns(45, RowAt(45)) && Learns(46, RowAt(46)) && Learns(47, RowAt(47))
  {
  }

  lemma Rows16()
    ensures Learns(48, RowAt(48)) && Learns(49, RowAt(49)) && Learns(50, RowAt(50))
  {
  }

  lemma Rows17()
    ensures Learns(51, RowAt(51)) && Learns(52, RowAt(52)) && Learns(53, RowAt(53))
  {
  }

  lemma Rows18()
    ensures Learns(54, RowAt(54)) && Learns(55, RowAt(55)) && Learns(56, RowAt(56))
  {
  }

  lemma Rows19()
    ensures Learns(57, RowAt(57)) && Learns(58, RowAt(58)) && Learns(59, RowAt(59))
  {
  }

  lemma Rows20()
    ensures Learns(60, RowAt(60)) && Learns(61, RowAt(61)) && Learns(62, RowAt(62))
  {
  }

  lemma Rows21()
    ensures Learns(63, RowAt(63)) && Learns(64, RowAt(64)) && Learns(65, RowAt(65))
  {
  }

  lemma Rows22()
    ensures Learns(66, RowAt(66)) && Learns(67, RowAt(67)) && Learns(68, RowAt(68))
  {
  }

  lemma Rows23()
    ensures Learns(69, RowAt(69)) && Learns(70, RowAt(70)) && Learns(71, RowAt(71))
  {
  }

  lemma Rows24()
    ensures Learns(72, RowAt(72)) && Learns(73, RowAt(73)) && Learns(74, RowAt(74))
  {
  }

  lemma Rows25()
    ensures Learns(75, RowAt(75)) && Learns(76, RowAt(76)) && Learns(77, RowAt(77))
  {
  }

  lemma Rows26()
    ensures Learns(78, RowAt(78)) && Learns(79, RowAt(79)) && Learns(80, RowAt(80))
  {
  }

  lemma Rows27()
    ensures Learns(81, RowAt(81)) && Learns(82, RowAt(82)) && Learns(83, RowAt(83))
  {
  }

  lemma Rows28()
    ensures Learns(84, RowAt(84)) && Learns(85, RowAt(85)) && Learns(86, RowAt(86))
  {
  }

  lemma Rows29()
    ensures Learns(87, RowAt(87)) && Learns(88, RowAt(88)) && Learns(89, RowAt(89))
  {
  }

  lemma Rows30()
    ensures Learns(90, RowAt(90)) && Learns(91, RowAt(91)) && Learns(92, RowAt(92))
  {
  }

  lemma Rows31()
    ensures Learns(93, RowAt(93)) && Learns(94, RowAt(94)) && Learns(95, RowAt(95))
  {
  }

  lemma Rows32()
    ensures Learns(96, RowAt(96)) && Learns(97, RowAt(97)) && Learns(98, RowAt(98))
  {
  }

  lemma Rows33()
    ensures Learns(99, RowAt(99)) && Learns(100, RowAt(100)) && Learns(101, RowAt(101))
  {
  }

  lemma Rows34()
    ensures Learns(102, RowAt(102)) && Learns(103, RowAt(103)) && Learns(104, RowAt(104))
  {
  }

  lemma Rows35()
    ensures Learns(105, RowAt(105)) && Learns(106, RowAt(106)) && Learns(107, RowAt(107))
  {
  }

  lemma Rows36()
    ensures Learns(108, RowAt(108)) && Learns(109, RowAt(109)) && Learns(110, RowAt(110))
  {
  }

  lemma Rows37()
    ensures Learns(111, RowAt(111)) && Learns(112, RowAt(112))
  {
  }

  lemma EveryRow(i: nat)
    requires i < FIXED_STATE
    ensures Learns(i, RowAt(i))
  {
    hide Learns, RowAt;
    if i < 3 { Rows0(); }
    else if i < 6 { Rows1(); }
    else if i < 9 { Rows2(); }
    else if i < 12 { Rows3(); }
    else if i < 15 { Rows4(); }
    else if i < 18 { Rows5(); }
    else if i < 21 { Rows6(); }
    else if i < 24 { Rows7(); }
    else if i < 27 { Rows8(); }
    else if i < 30 { Rows9(); }
    else if i < 33 { Rows10(); }
    else if i < 36 { Rows11(); }
    else if i < 39 { Rows12(); }
    else if i < 42 { Rows13(); }
    else if i < 45 { Rows14(); }
    else if i < 48 { Rows15(); }
    else if i < 51 { Rows16(); }
    else if i < 54 { Rows17(); }
    else if i < 57 { Rows18(); }
    else if i < 60 { Rows19(); }
    else if i < 63 { Rows20(); }
    else if i < 66 { Rows21(); }
    else if i < 69 { Rows22(); }
    else if i < 72 { Rows23(); }
    else if i < 75 { Rows24(); }
    else if i < 78 { Rows25(); }
    else if i < 81 { Rows26(); }
    else if i < 84 { Rows27(); }
    else if i < 87 { Rows28(); }
    else if i < 90 { Rows29(); }
    else if i < 93 { Rows30(); }
    else if i < 96 { Rows31(); }
    else if i < 99 { Rows32(); }
    else if i < 102 { Rows33(); }
    else if i < 105 { Rows34(); }
    else if i < 108 { Rows35(); }
    else if i < 111 { Rows36(); }
    else { Rows37(); }
  }

  lemma RowIsThere(i: nat)
    requires i <= FIXED_STATE
    ensures RowAt(i) == ARITAB[i]
  {
  }

  lemma EstimateIsRow(sv: StatByte)
    ensures EstimateOf(sv) == RowAt(sv % 128)
  {
    hide RowAt;
    RowIsThere(sv % 128);
  }

  /** A bin that adapts, as all do except the one with equal probabilities. */
  predicate Adapts(sv: StatByte) {
    sv % 128 != FIXED_STATE
  }

  lemma Unpacked(index: nat, mps: bool)
    requires index <= FIXED_STATE
    ensures Packed(index, mps) % 128 == index && Mps(Packed(index, mps)) == mps
  {
  }

  /** Behind a less probable symbol the estimate has risen, or the two symbols have changed places. */
  lemma AfterLpsRises(sv: StatByte)
    requires Adapts(sv)
    ensures Adapts(AfterLps(sv))
    ensures EstimateOf(AfterLps(sv)).qe > EstimateOf(sv).qe <==> Mps(AfterLps(sv)) == Mps(sv)
    ensures Mps(AfterLps(sv)) == Mps(sv) ==> Doubts(sv % 128) == 1 + Doubts(AfterLps(sv) % 128)
  {
    hide RowAt, Doubts, Trust, EstimateOf;
    var e := EstimateOf(sv);
    EveryRow(sv % 128);
    EstimateIsRow(sv);
    EstimateIsRow(AfterLps(sv));
    Unpacked(e.nextLps, Mps(sv) != e.switchMps);
  }

  /** Behind a more probable symbol that took a renormalization the estimate has fallen as far as it can. */
  lemma AfterMpsFalls(sv: StatByte)
    requires Adapts(sv)
    ensures Adapts(AfterMps(sv)) && Mps(AfterMps(sv)) == Mps(sv)
    ensures EstimateOf(sv).qe == 1 ==> AfterMps(sv) == sv
    ensures EstimateOf(sv).qe != 1 ==>
              && EstimateOf(AfterMps(sv)).qe < EstimateOf(sv).qe
              && Trust(sv % 128) == 1 + Trust(AfterMps(sv) % 128)
  {
    hide RowAt, Doubts, Trust, EstimateOf;
    var e := EstimateOf(sv);
    EveryRow(sv % 128);
    EstimateIsRow(sv);
    EstimateIsRow(AfterMps(sv));
    Unpacked(e.nextMps, Mps(sv));
  }

  /** The statistics byte of a bin after the decisions coded so far. */
  ghost function StatAfter(ds: seq<Decision>, bin: Bin): StatByte {
    Stat(Run(ds).stats, bin)
  }

  /**
   One decision moves the estimate of its own bin only: up, or over to the other symbol, if the symbol was
   the less probable one; down, if it was the more probable one and the interval had to be renormalized.
   */
  lemma EstimateFollows(ds: seq<Decision>, d: Decision)
    ensures forall bin :: bin != d.bin ==> StatAfter(ds + [d], bin) == StatAfter(ds, bin)
    ensures Adapts(StatAfter(ds, d.bin)) ==>
              var before := StatAfter(ds, d.bin);
              var after := StatAfter(ds + [d], d.bin);
              && Adapts(after)
              && (d.bit != Mps(before) ==>
                    (EstimateOf(after).qe > EstimateOf(before).qe <==> Mps(after) == Mps(before)))
              && (d.bit == Mps(before) ==> Mps(after) == Mps(before))
              && (d.bit == Mps(before) && Run(ds + [d]).interval.shifts == Run(ds).interval.shifts ==>
                    after == before)
              && (d.bit == Mps(before) && Run(ds + [d]).interval.shifts > Run(ds).interval.shifts ==>
                    EstimateOf(after).qe < EstimateOf(before).qe || EstimateOf(before).qe == 1)
  {
    hide AfterLps, AfterMps, EstimateOf;
    RunSnoc(ds, d);
    var sv := StatAfter(ds, d.bin);
    if Adapts(sv) {
      AfterLpsRises(sv);
      AfterMpsFalls(sv);
      if d.bit == Mps(sv) {
        ShiftsWhenSmall(Run(ds), d);
      }
    }
  }

  /** Conditional exchange gives the more probable symbol the part that is not the smaller one. */
  lemma MoreProbableTakesMore(m: Normal, bin: Bin)
    ensures var sv := Stat(m.stats, bin);
            var qe := EstimateOf(sv).qe;
            Part(m.interval, qe, TakesUpper(m.interval.size, sv, Mps(sv))).size
            >= Part(m.interval, qe, TakesUpper(m.interval.size, sv, !Mps(sv))).size
  {
    hide EstimateOf;
  }

  /** Where the more probable symbol is renormalized, and the interval that it leaves otherwise. */
  lemma ShiftsWhenSmall(m: Normal, d: Decision)
    requires d.bit == Mps(Stat(m.stats, d.bin))
    ensures var qe := EstimateOf(Stat(m.stats, d.bin)).qe;
            && (Step(m, d).interval.shifts > m.interval.shifts <==> m.interval.size - qe < 0x8000)
            && Step(m, d).interval.shifts >= m.interval.shifts
            && (m.interval.size - qe >= 0x8000 ==> Step(m, d).interval.size == m.interval.size - qe)
  {
    hide EstimateOf, NextStats;
    var sv := Stat(m.stats, d.bin);
    var qe := EstimateOf(sv).qe;
    ShiftsGrow(Part(m.interval, qe, TakesUpper(m.interval.size, sv, d.bit)));
  }

  lemma {:induction false} ShiftsGrow(v: Interval)
    requires 0 < v.size
    ensures Renormalized(v).shifts >= v.shifts
    ensures Renormalized(v).shifts == v.shifts <==> v.size >= 0x8000
    decreases 0x8000 - v.size
  {
    if v.size < 0x8000 {
      ShiftsGrow(Doubled(v));
    }
  }

  function Repeated(d: Decision, n: nat): (ds: seq<Decision>)
    ensures |ds| == n
  {
    seq(n, i => d)
  }

  lemma OneMore(ds: seq<Decision>, d: Decision, n: nat)
    requires n > 0
    ensures ds + Repeated(d, n) == ds + Repeated(d, n - 1) + [d]
  {
  }

  lemma {:induction false} Persuades(ds: seq<Decision>, d: Decision, n: nat)
    requires Adapts(StatAfter(ds, d.bin))
    ensures var after := StatAfter(ds + Repeated(d, n), d.bin);
            && Adapts(after)
            && (Mps(after) == d.bit || Doubts(after % 128) + n <= Doubts(StatAfter(ds, d.bin) % 128))
  {
    hide Doubts, AfterLps, AfterMps, EstimateOf, TakesUpper, Renormalized, Part;
    if n == 0 {
      assert ds + Repeated(d, 0) == ds;
    } else {
      Persuades(ds, d, n - 1);
      var most := ds + Repeated(d, n - 1);
      OneMore(ds, d, n);
      RunSnoc(most, d);
      AfterLpsRises(StatAfter(most, d.bin));
      AfterMpsFalls(StatAfter(most, d.bin));
    }
  }

  /** From any state of the coder, 29 equal decisions in a bin make their symbol its more probable one. */
  lemma SymbolIsLearned(ds: seq<Decision>, d: Decision, n: nat)
    requires Adapts(StatAfter(ds, d.bin))
    requires n >= 29
    ensures Mps(StatAfter(ds + Repeated(d, n), d.bin)) == d.bit
  {
    hide Doubts, Trust, Learns, RowAt, Run, Mps;
    Persuades(ds, d, n);
    BoundedDoubts(StatAfter(ds, d.bin) % 128);
  }

  lemma BoundedDoubts(i: nat)
    requires i < FIXED_STATE
    ensures Doubts(i) <= 28 && Trust(i) <= 45
  {
    hide Doubts, Trust, RowAt;
    EveryRow(i);
  }

  /** How many decisions at most are between a model and the smallest estimate for a bin's more probable symbol. */
  ghost function Distrust(m: Normal, bin: Bin): nat
    requires Adapts(Stat(m.stats, bin))
  {
    0x8001 * Trust(Stat(m.stats, bin) % 128) + (m.interval.size - 0x8000)
  }

  lemma Convinces(m: Normal, d: Decision)
    requires Adapts(Stat(m.stats, d.bin)) && Mps(Stat(m.stats, d.bin)) == d.bit
    ensures var sv := Stat(m.stats, d.bin);
            var after := Step(m, d);
            && Adapts(Stat(after.stats, d.bin)) && Mps(Stat(after.stats, d.bin)) == d.bit
            && (if EstimateOf(sv).qe == 1 then Stat(after.stats, d.bin) == sv
                else Distrust(after, d.bin) < Distrust(m, d.bin))
  {
    hide AfterLps, AfterMps, EstimateOf, TakesUpper, Renormalized, Part, Trust;
    AfterMpsFalls(Stat(m.stats, d.bin));
    ShiftsWhenSmall(m, d);
  }

  lemma {:induction false} Converges(ds: seq<Decision>, d: Decision, n: nat)
    requires Adapts(StatAfter(ds, d.bin)) && Mps(StatAfter(ds, d.bin)) == d.bit
    ensures var after := StatAfter(ds + Repeated(d, n), d.bin);
            && Adapts(after) && Mps(after) == d.bit
            && (EstimateOf(after).qe == 1
                || Distrust(Run(ds + Repeated(d, n)), d.bin) + n <= Distrust(Run(ds), d.bin))
  {
    hide Step, EstimateOf, Distrust;
    if n == 0 {
      assert ds + Repeated(d, 0) == ds;
    } else {
      Converges(ds, d, n - 1);
      var most := ds + Repeated(d, n - 1);
      OneMore(ds, d, n);
      RunSnoc(most, d);
      Convinces(Run(most), d);
    }
  }

  /** More equal decisions than any bin can withstand. */
  const CONVINCED := 29 + 46 * 0x8001

  /** From any state of the coder, equal decisions in a bin end at the smallest estimate for the other symbol. */
  lemma SymbolIsTrusted(ds: seq<Decision>, d: Decision, n: nat)
    requires Adapts(StatAfter(ds, d.bin))
    requires n >= CONVINCED
    ensures var after := StatAfter(ds + Repeated(d, n), d.bin);
            Mps(after) == d.bit && EstimateOf(after).qe == 1
  {
    hide Doubts, Trust, Learns, RowAt, Run, Mps, EstimateOf;
    Persuades(ds, d, 29);
    SymbolIsLearned(ds, d, 29);
    var learned := ds + Repeated(d, 29);
    Converges(learned, d, n - 29);
    BoundedDoubts(StatAfter(learned, d.bin) % 128);
    assert learned + Repeated(d, n - 29) == ds + Repeated(d, n);
  }
}
