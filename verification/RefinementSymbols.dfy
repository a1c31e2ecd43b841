/** Which symbols a refinement scan asks the Huffman table for, as a function of its blocks. */
module RefinementSymbols {
  import opened Coefficients
  import opened PointTransform
  import opened HuffmanBuilders
  import opened RefinementCoding

  const MAX_CORR_BITS := 1000

  /** What is pending between blocks: blocks of a run, and their correction bits. */
  datatype Pend = Pend(run: nat, bits: nat)

  /** The same inside a block, with the zeros and the correction bits since the last symbol. */
  datatype Hand = Hand(run: nat, be: nat, r: nat, br: nat)

  function RunOf(run: nat): seq<nat> {
    if 0 < run <= MAX_EOBRUN then [RunSymbol(run)] else []
  }

  /** The symbols from position k of a band on, and what is pending behind it. */
  ghost function WalkFrom(b: Band, z: Block, k: nat, h: Hand): (seq<nat>, Pend)
    requires ValidBand(b)
    decreases b.se + 1 - k, h.r
  {
    if k > b.se then
      ([], if h.r > 0 || h.br > 0 then Pend(h.run + 1, h.be + h.br) else Pend(h.run, h.be))
    else if Level(z[k], b.al) == 0 then
      WalkFrom(b, z, k + 1, h.(r := h.r + 1))
    else if h.r > 15 && !NoneNew(b, z, k, b.se + 1) then
      var rest := WalkFrom(b, z, k, Hand(0, 0, h.r - 16, 0));
      (RunOf(h.run) + [ZRL] + rest.0, rest.1)
    else if Level(z[k], b.al) > 1 then
      WalkFrom(b, z, k + 1, h.(br := h.br + 1))
    else
      var rest := WalkFrom(b, z, k + 1, Hand(0, 0, 0, 0));
      (RunOf(h.run) + [h.r * 16 + 1] + rest.0, rest.1)
  }

  /** A block: a run that got too long, or has too many correction bits, is written at once. */
  ghost function BlockSymbols(b: Band, z: Block, p: Pend): (seq<nat>, Pend)
    requires ValidBand(b)
  {
    var (symbols, q) := WalkFrom(b, z, b.ss, Hand(p.run, p.bits, 0, 0));
    if q.run == MAX_EOBRUN || q.bits > MAX_CORR_BITS - BLOCK_SIZE + 1 then (symbols + RunOf(q.run), Pend(0, 0))
    else (symbols, q)
  }

  ghost function BlocksSymbols(b: Band, zs: seq<Block>): (seq<nat>, Pend)
    requires ValidBand(b)
  {
    if zs == [] then ([], Pend(0, 0))
    else
      var (before, p) := BlocksSymbols(b, zs[..|zs| - 1]);
      var (symbols, q) := BlockSymbols(b, zs[|zs| - 1], p);
      (before + symbols, q)
  }

  /** All symbols of a scan, with the run that is pending at its end. */
  ghost function ScanSymbols(b: Band, zs: seq<Block>): seq<nat>
    requires ValidBand(b)
  {
    BlocksSymbols(b, zs).0 + RunOf(BlocksSymbols(b, zs).1.run)
  }

  ghost predicate AllCoded(c: CTable, symbols: seq<nat>) {
    forall i :: 0 <= i < |symbols| ==> HasSymbol(c, symbols[i])
  }

  /** The last symbol asked for has no code. */
  ghost predicate Refused(c: CTable, asked: seq<nat>) {
    asked != [] && !HasSymbol(c, asked[|asked| - 1])
  }

  /** All symbols of a block when some have been asked for already, and what will be pending. */
  ghost function Course(b: Band, z: Block, k: nat, h: Hand, asked: seq<nat>): (seq<nat>, Pend)
    requires ValidBand(b)
  {
    (asked + WalkFrom(b, z, k, h).0, WalkFrom(b, z, k, h).1)
  }

  lemma {:induction false} CourseZeros(b: Band, z: Block, k: nat, m: nat, h: Hand, asked: seq<nat>)
    requires ValidBand(b) && k <= m <= b.se + 1 && forall i :: k <= i < m ==> Level(z[i], b.al) == 0
    ensures Course(b, z, k, h, asked) == Course(b, z, m, h.(r := h.r + (m - k)), asked)
    decreases m - k
  {
    hide Level;
    if k < m {
      CourseZeros(b, z, k + 1, m, h.(r := h.r + 1), asked);
    } else {
      assert h == h.(r := h.r);
    }
  }

  lemma CourseZrl(b: Band, z: Block, k: nat, h: Hand, asked: seq<nat>)
    requires ValidBand(b) && k <= b.se && Level(z[k], b.al) != 0 && h.r > 15 && !NoneNew(b, z, k, b.se + 1)
    ensures Course(b, z, k, h, asked) == Course(b, z, k, Hand(0, 0, h.r - 16, 0), asked + RunOf(h.run) + [ZRL])
    ensures asked + RunOf(h.run) + [ZRL] <= Course(b, z, k, h, asked).0
  {
    hide Level, NoneNew, RunOf;
    var rest := WalkFrom(b, z, k, Hand(0, 0, h.r - 16, 0));
    assert asked + (RunOf(h.run) + [ZRL] + rest.0) == asked + RunOf(h.run) + [ZRL] + rest.0;
  }

  lemma CourseCorrection(b: Band, z: Block, k: nat, h: Hand, asked: seq<nat>)
    requires ValidBand(b) && k <= b.se && Level(z[k], b.al) > 1 && (h.r <= 15 || NoneNew(b, z, k, b.se + 1))
    ensures Course(b, z, k, h, asked) == Course(b, z, k + 1, h.(br := h.br + 1), asked)
  {
    hide Level, NoneNew;
  }

  lemma CourseNew(b: Band, z: Block, k: nat, h: Hand, asked: seq<nat>)
    requires ValidBand(b) && k <= b.se && Level(z[k], b.al) == 1 && h.r <= 15
    ensures Course(b, z, k, h, asked) == Course(b, z, k + 1, Hand(0, 0, 0, 0), asked + RunOf(h.run) + [h.r * 16 + 1])
    ensures asked + RunOf(h.run) + [h.r * 16 + 1] <= Course(b, z, k, h, asked).0
  {
    hide Level, NoneNew, RunOf;
    var rest := WalkFrom(b, z, k + 1, Hand(0, 0, 0, 0));
    assert asked + (RunOf(h.run) + [h.r * 16 + 1] + rest.0) == asked + RunOf(h.run) + [h.r * 16 + 1] + rest.0;
  }

  lemma CourseEnd(b: Band, z: Block, k: nat, h: Hand, asked: seq<nat>)
    requires ValidBand(b) && k <= b.se + 1 && forall i :: k <= i <= b.se ==> Level(z[i], b.al) == 0
    ensures var left := b.se + 1 - k;
            Course(b, z, k, h, asked)
            == (asked, if h.r > 0 || left > 0 || h.br > 0 then Pend(h.run + 1, h.be + h.br) else Pend(h.run, h.be))
  {
    hide Level;
    CourseZeros(b, z, k, b.se + 1, h, asked);
    assert asked + [] == asked;
  }

  /** The symbols of a longer sequence of blocks begin with those of a shorter one. */
  lemma {:induction false} BlocksSymbolsGrow(b: Band, zs: seq<Block>, i: nat)
    requires ValidBand(b) && i <= |zs|
    ensures BlocksSymbols(b, zs[..i]).0 <= ScanSymbols(b, zs)
    decreases |zs| - i
  {
    hide BlockSymbols;
    if i == |zs| {
      assert zs[..i] == zs;
    } else {
      BlocksSymbolsGrow(b, zs, i + 1);
      assert zs[..i + 1][..i] == zs[..i];
    }
  }

  // -------------------------------------------------------------------- when the pending run is left alone

  /** A block without a new coefficient in the band. */
  ghost predicate Quiet(b: Band, z: Block)
    requires ValidBand(b)
  {
    NoneNew(b, z, b.ss, b.se + 1)
  }

  ghost function CorrectionCount(b: Band, z: Block): nat
    requires ValidBand(b)
  {
    |Corrections(b, z, b.ss, b.se + 1)|
  }

  lemma {:induction false} QuietWalk(b: Band, z: Block, k: nat, h: Hand)
    requires ValidBand(b) && b.ss <= k <= b.se + 1 && NoneNew(b, z, k, b.se + 1) && (k > b.se ==> h.r > 0 || h.br > 0)
    ensures WalkFrom(b, z, k, h) == ([], Pend(h.run + 1, h.be + h.br + |Corrections(b, z, k, b.se + 1)|))
    decreases b.se + 1 - k
  {
    hide Level;
    if k <= b.se {
      QuietWalk(b, z, k + 1, if Level(z[k], b.al) == 0 then h.(r := h.r + 1) else h.(br := h.br + 1));
    }
  }

  /** A block without a new coefficient writes nothing but a run that is full, or has too many correction bits. */
  lemma QuietBlock(b: Band, z: Block, p: Pend)
    requires ValidBand(b) && Quiet(b, z)
    ensures var run, bits := p.run + 1, p.bits + CorrectionCount(b, z);
            BlockSymbols(b, z, p) == if run == MAX_EOBRUN || bits > MAX_CORR_BITS - BLOCK_SIZE + 1
                                     then (RunOf(run), Pend(0, 0)) else ([], Pend(run, bits))
  {
    hide WalkFrom, Corrections, NoneNew;
    QuietWalk(b, z, b.ss, Hand(p.run, p.bits, 0, 0));
    assert [] + RunOf(p.run + 1) == RunOf(p.run + 1);
  }

  ghost function CorrectionTotal(b: Band, zs: seq<Block>): nat
    requires ValidBand(b)
  {
    if zs == [] then 0 else CorrectionTotal(b, zs[..|zs| - 1]) + CorrectionCount(b, zs[|zs| - 1])
  }

  /** As long as a run is not full and its correction bits leave room for another block, it is not written. */
  lemma {:induction false} RunIsHeld(b: Band, xs: seq<Block>, zs: seq<Block>)
    requires ValidBand(b) && forall i :: 0 <= i < |zs| ==> Quiet(b, zs[i])
    requires var p := BlocksSymbols(b, xs).1;
             zs == [] || (p.run + |zs| < MAX_EOBRUN && p.bits + CorrectionTotal(b, zs) <= MAX_CORR_BITS - BLOCK_SIZE + 1)
    ensures var (symbols, p) := BlocksSymbols(b, xs);
            BlocksSymbols(b, xs + zs) == (symbols, Pend(p.run + |zs|, p.bits + CorrectionTotal(b, zs)))
  {
    hide BlockSymbols, Quiet, CorrectionCount;
    if zs == [] {
      assert xs + zs == xs;
    } else {
      var n := |zs| - 1;
      var p := BlocksSymbols(b, xs).1;
      RunIsHeld(b, xs, zs[..n]);
      assert (xs + zs)[..|xs + zs| - 1] == xs + zs[..n];
      assert (xs + zs)[|xs + zs| - 1] == zs[n];
      QuietBlock(b, zs[n], Pend(p.run + n, p.bits + CorrectionTotal(b, zs[..n])));
      var symbols := BlocksSymbols(b, xs).0;
      assert symbols + [] == symbols;
    }
  }

  lemma NoBlocks(b: Band)
    requires ValidBand(b)
    ensures BlocksSymbols(b, []) == ([], Pend(0, 0)) && CorrectionTotal(b, []) == 0
  {
  }

  lemma LastBlock(b: Band, zs: seq<Block>)
    requires ValidBand(b) && zs != []
    ensures var n := |zs| - 1;
            var (before, p) := BlocksSymbols(b, zs[..n]);
            var (symbols, q) := BlockSymbols(b, zs[n], p);
            && BlocksSymbols(b, zs) == (before + symbols, q)
            && CorrectionTotal(b, zs) == CorrectionTotal(b, zs[..n]) + CorrectionCount(b, zs[n])
  {
  }

  /** Blocks without new coefficients make one single run, whose symbol is all that the scan asks for. */
  lemma QuietScan(b: Band, zs: seq<Block>)
    requires ValidBand(b) && forall i :: 0 <= i < |zs| ==> Quiet(b, zs[i])
    requires |zs| <= MAX_EOBRUN && CorrectionTotal(b, zs) <= MAX_CORR_BITS - BLOCK_SIZE + 1
    ensures ScanSymbols(b, zs) == RunOf(|zs|)
  {
    hide BlockSymbols, Quiet, CorrectionCount, BlocksSymbols, CorrectionTotal;
    NoBlocks(b);
    if |zs| < MAX_EOBRUN {
      RunIsHeld(b, [], zs);
      assert [] + zs == zs;
      assert [] + RunOf(|zs|) == RunOf(|zs|);
    } else {
      var n := |zs| - 1;
      LastBlock(b, zs);
      RunIsHeld(b, [], zs[..n]);
      assert [] + zs[..n] == zs[..n];
      QuietBlock(b, zs[n], Pend(n, CorrectionTotal(b, zs[..n])));
      assert [] + RunOf(|zs|) + RunOf(0) == RunOf(|zs|);
    }
  }
}
