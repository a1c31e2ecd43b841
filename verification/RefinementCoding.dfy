/**
 Refinement of AC coefficients with Huffman codes: the decoder of section G.1.2.3 of ITU-T T.81 (Figure G.7),
 and what the bits written so far have to mean to it while an end-of-band run is pending.
 */
module RefinementCoding {
  import opened Powers
  import opened BitStrings
  import opened Coefficients
  import opened PointTransform
  import opened HuffmanDecoding
  import opened HuffmanBuilders
  import opened HuffmanSymbols
  import opened HuffmanBlocks

  const MAX_EOBRUN := 0x7FFF

  /** The band of the scan, and the bit it adds. */
  datatype Band = Band(ss: nat, se: nat, al: nat)

  predicate ValidBand(b: Band) {
    1 <= b.ss <= b.se < BLOCK_SIZE
  }

  // ---------------------------------------------------------------------------------- the decoder

  /** A correction bit moves a coefficient one step away from zero. */
  function Corrected(b: Band, x: int, bit: bool): int {
    if bit then x + Signed(x < 0, Pow2(b.al)) else x
  }

  /** Passes coefficients that are nonzero already, correcting them, and r zeros, up to the next zero. */
  function Skip(b: Band, y: Block, k: nat, r: nat, bs: Bits): (s: (Block, nat, Bits))
    requires b.se < BLOCK_SIZE
    ensures k <= s.1
    decreases b.se + 1 - k
  {
    if k > b.se then (y, k, bs)
    else if y[k] != 0 then Skip(b, y[k := Corrected(b, y[k], BitAt(bs, 0) == 1)], k + 1, r, Drop(bs, 1))
    else if r == 0 then (y, k, bs)
    else Skip(b, y, k + 1, r - 1, bs)
  }

  /** Corrects the rest of a band that brings no new coefficient. */
  function Rest(b: Band, y: Block, k: nat, bs: Bits): (Block, Bits)
    requires b.se < BLOCK_SIZE
    decreases b.se + 1 - k
  {
    if k > b.se then (y, bs)
    else if y[k] != 0 then Rest(b, y[k := Corrected(b, y[k], BitAt(bs, 0) == 1)], k + 1, Drop(bs, 1))
    else Rest(b, y, k + 1, bs)
  }

  /** A band outside an end-of-band run: the block, the blocks left in a run that begins here, and the bits. */
  function ReadCoefs(d: DTable, b: Band, y: Block, k: nat, bs: Bits): (Block, nat, Bits)
    requires Shaped(d) && b.se < BLOCK_SIZE
    decreases b.se + 1 - k
  {
    if k > b.se then (y, 0, bs)
    else
      var sym := LookupDecode(d, bs);
      var rest := Drop(bs, sym.length);
      var r := sym.value / 16;
      if sym.value % 16 != 0 then
        var (y1, k1, more) := Skip(b, y, k, r, Drop(rest, 1));
        var y2 := if k1 <= b.se then y1[k1 := Signed(BitAt(rest, 0) == 0, Pow2(b.al))] else y1;
        ReadCoefs(d, b, y2, k1 + 1, more)
      else if r == 15 then
        var (y1, k1, more) := Skip(b, y, k, r, rest);
        ReadCoefs(d, b, y1, k1 + 1, more)
      else
        var (y1, more) := Rest(b, y, k, Drop(rest, r));
        (y1, Pow2(r) + Peek(rest, r) - 1, more)
  }

  function ReadRefined(d: DTable, b: Band, y: Block, eobrun: nat, bs: Bits): (Block, nat, Bits)
    requires Shaped(d) && b.se < BLOCK_SIZE
  {
    if eobrun > 0 then
      var (y1, more) := Rest(b, y, b.ss, bs);
      (y1, eobrun - 1, more)
    else ReadCoefs(d, b, y, b.ss, bs)
  }

  /** Block after block. */
  function ReadAll(d: DTable, b: Band, ys: seq<Block>, bs: Bits): (r: (seq<Block>, nat, Bits))
    requires Shaped(d) && b.se < BLOCK_SIZE
    ensures |r.0| == |ys|
  {
    if ys == [] then ([], 0, bs)
    else
      var (done, eobrun, more) := ReadAll(d, b, ys[..|ys| - 1], bs);
      var (y, left, after) := ReadRefined(d, b, ys[|ys| - 1], eobrun, more);
      (done + [y], left, after)
  }

  // ------------------------------------------------------------------------- what is to be received

  /** The coefficients of z from ss up to k at this scan's bit, the others as they were. */
  function Mixed(b: Band, y: Block, z: Block, k: nat): (w: Block)
    ensures forall i :: 0 <= i < BLOCK_SIZE ==> w[i] == if b.ss <= i < k then Truncated(z[i], b.al) else y[i]
  {
    seq(64, i requires 0 <= i < 64 => if b.ss <= i < k then Truncated(z[i], b.al) else y[i])
  }

  /** The decoder's block holds the band one bit coarser. */
  ghost predicate OneBitCoarser(b: Band, y: Block, z: Block) {
    forall i :: b.ss <= i <= b.se && i < BLOCK_SIZE ==> y[i] == Truncated(z[i], b.al + 1)
  }

  /** Coefficients from k up to t that are zero at this bit. */
  function Zeros(b: Band, z: Block, k: nat, t: nat): nat
    requires t <= BLOCK_SIZE
    decreases t - k
  {
    if k >= t then 0 else (if Level(z[k], b.al) == 0 then 1 else 0) + Zeros(b, z, k + 1, t)
  }

  /** The correction bits of the coefficients from k up to t. */
  function Corrections(b: Band, z: Block, k: nat, t: nat): Bits
    requires t <= BLOCK_SIZE
    decreases t - k
  {
    if k >= t then []
    else (if Level(z[k], b.al) > 1 then [Level(z[k], b.al) % 2 == 1] else []) + Corrections(b, z, k + 1, t)
  }

  /** No coefficient from k up to t becomes nonzero in this scan. */
  ghost predicate NoneNew(b: Band, z: Block, k: nat, t: nat) {
    forall i :: k <= i < t && i < BLOCK_SIZE ==> Level(z[i], b.al) != 1
  }

  /** What the two blocks say about each other at one position. */
  lemma CoarserAt(b: Band, y: Block, z: Block, k: nat)
    requires ValidBand(b) && OneBitCoarser(b, y, z) && b.ss <= k <= b.se
    ensures y[k] == 0 <==> Level(z[k], b.al) <= 1
    ensures Level(z[k], b.al) > 1 ==> Corrected(b, y[k], Level(z[k], b.al) % 2 == 1) == Truncated(z[k], b.al)
    ensures Level(z[k], b.al) == 1 ==> Truncated(z[k], b.al) == Signed(z[k] < 0, Pow2(b.al))
    ensures Level(z[k], b.al) == 0 ==> Truncated(z[k], b.al) == 0
  {
    hide Level, Pow2;
    OneBitFiner(z[k], b.al);
    MulSign(0, Pow2(b.al));
  }

  lemma MixedStep(b: Band, y: Block, z: Block, k: nat)
    requires b.ss <= k < BLOCK_SIZE
    ensures Mixed(b, y, z, k)[k := Truncated(z[k], b.al)] == Mixed(b, y, z, k + 1) && Mixed(b, y, z, k)[k] == y[k]
    ensures y[k] == Truncated(z[k], b.al) ==> Mixed(b, y, z, k) == Mixed(b, y, z, k + 1)
  {
    hide Truncated;
  }

  /** The correction bit of coefficient k comes first if it has one. */
  lemma NextCorrection(b: Band, z: Block, k: nat, t: nat, rest: Bits)
    requires k < t <= BLOCK_SIZE
    ensures var bs, more := Corrections(b, z, k, t) + rest, Corrections(b, z, k + 1, t) + rest;
            if Level(z[k], b.al) > 1 then (BitAt(bs, 0) == 1 <==> Level(z[k], b.al) % 2 == 1) && Drop(bs, 1) == more
            else bs == more
  {
    hide Level;
    var more := Corrections(b, z, k + 1, t);
    var bs := Corrections(b, z, k, t) + rest;
    if Level(z[k], b.al) > 1 {
      assert bs == [Level(z[k], b.al) % 2 == 1] + (more + rest);
    } else {
      assert bs == [] + more + rest;
    }
  }

  lemma NoCorrections(b: Band, z: Block, k: nat, rest: Bits)
    requires k <= BLOCK_SIZE
    ensures Corrections(b, z, k, k) + rest == rest
  {
  }

  /** Correction bits and zeros up to t are skipped as they were counted. */
  lemma {:induction false} SkipReads(b: Band, y: Block, z: Block, k: nat, t: nat, rest: Bits)
    requires ValidBand(b) && OneBitCoarser(b, y, z) && b.ss <= k <= t <= b.se + 1 && NoneNew(b, z, k, t)
    requires t <= b.se ==> y[t] == 0
    ensures Skip(b, Mixed(b, y, z, k), k, Zeros(b, z, k, t), Corrections(b, z, k, t) + rest) == (Mixed(b, y, z, t), t, rest)
    decreases t - k
  {
    hide Level, Truncated, Mixed, Corrected, Corrections, Drop;
    if k == t {
      NoCorrections(b, z, k, rest);
      if t <= b.se {
        MixedStep(b, y, z, t);
      }
    } else {
      CoarserAt(b, y, z, k);
      MixedStep(b, y, z, k);
      SkipReads(b, y, z, k + 1, t, rest);
      NextCorrection(b, z, k, t, rest);
    }
  }

  /** The rest of a band is corrected. */
  lemma {:induction false} RestReads(b: Band, y: Block, z: Block, k: nat, rest: Bits)
    requires ValidBand(b) && OneBitCoarser(b, y, z) && b.ss <= k <= b.se + 1 && NoneNew(b, z, k, b.se + 1)
    ensures Rest(b, Mixed(b, y, z, k), k, Corrections(b, z, k, b.se + 1) + rest) == (Mixed(b, y, z, b.se + 1), rest)
    decreases b.se + 1 - k
  {
    hide Level, Truncated, Mixed, Corrected, Corrections, Drop;
    if k > b.se {
      NoCorrections(b, z, k, rest);
    } else {
      CoarserAt(b, y, z, k);
      MixedStep(b, y, z, k);
      RestReads(b, y, z, k + 1, rest);
      NextCorrection(b, z, k, b.se + 1, rest);
    }
  }

  // ---------------------------------------------------------------------- counting while encoding

  lemma {:induction false} CountSnoc(b: Band, z: Block, k: nat, t: nat)
    requires k <= t < BLOCK_SIZE
    ensures Zeros(b, z, k, t + 1) == Zeros(b, z, k, t) + if Level(z[t], b.al) == 0 then 1 else 0
    ensures Corrections(b, z, k, t + 1)
         == Corrections(b, z, k, t) + if Level(z[t], b.al) > 1 then [Level(z[t], b.al) % 2 == 1] else []
    decreases t - k
  {
    hide Level;
    if k < t {
      CountSnoc(b, z, k + 1, t);
    }
  }

  /** A stretch of zeros brings no correction bits. */
  lemma {:induction false} CountZeros(b: Band, z: Block, k: nat, m: nat, t: nat)
    requires k <= m <= t <= BLOCK_SIZE && forall i :: m <= i < t ==> Level(z[i], b.al) == 0
    ensures Zeros(b, z, k, t) == Zeros(b, z, k, m) + (t - m)
    ensures Corrections(b, z, k, t) == Corrections(b, z, k, m)
    decreases t - m
  {
    hide Level, Zeros, Corrections;
    if m < t {
      CountZeros(b, z, k, m, t - 1);
      CountSnoc(b, z, k, t - 1);
    }
  }

  lemma CountNone(b: Band, z: Block, k: nat)
    requires k <= BLOCK_SIZE
    ensures Zeros(b, z, k, k) == 0 && Corrections(b, z, k, k) == []
  {
  }

  // ------------------------------------------------------------------------------- inside a block

  /** Symbol 0xF0 stands for 16 zeros, symbol r * 16 + 1 for a new coefficient behind r zeros. */
  const ZRL := 0xF0

  predicate HasSymbol(c: CTable, s: nat) {
    |c.ehufco| == |c.ehufsi| == 256 && s < 256 && c.ehufsi[s] > 0
  }

  /** The bits written for a block so far bring the decoder from the start of the band to position k. */
  ghost predicate InBlock(d: DTable, b: Band, y: Block, z: Block, k: nat, sent: Bits)
    requires Shaped(d) && ValidBand(b)
  {
    forall rest: Bits ::
      ReadCoefs(d, b, y, b.ss, sent + rest) == ReadCoefs(d, b, Mixed(b, y, z, k), k, rest)
  }

  lemma InBlockStart(d: DTable, b: Band, y: Block, z: Block)
    requires Shaped(d) && ValidBand(b)
    ensures InBlock(d, b, y, z, b.ss, [])
  {
    hide ReadCoefs;
    assert Mixed(b, y, z, b.ss) == y;
    forall rest: Bits
      ensures ReadCoefs(d, b, y, b.ss, [] + rest) == ReadCoefs(d, b, Mixed(b, y, z, b.ss), b.ss, rest)
    {
      assert [] + rest == rest;
    }
  }

  /** What the decoder does with a symbol of the encoder's table. */
  lemma SymbolStep(c: CTable, d: DTable, s: nat, rest: Bits)
    requires Paired(c, d) && HasSymbol(c, s)
    ensures Shaped(d)
    ensures var sym := LookupDecode(d, SymbolBits(c, s) + rest);
            sym.value == s && Drop(SymbolBits(c, s) + rest, sym.length) == rest
  {
    SymbolIsRead(c, d, s, rest);
  }

  /** Symbol ZRL, behind it the correction bits up to its last zero at t. */
  lemma ZrlReads(c: CTable, d: DTable, b: Band, y: Block, z: Block, k: nat, t: nat, rest: Bits)
    requires Paired(c, d) && HasSymbol(c, ZRL) && Shaped(d) && ValidBand(b) && OneBitCoarser(b, y, z)
    requires b.ss <= k <= t <= b.se && NoneNew(b, z, k, t) && Zeros(b, z, k, t) == 15 && Level(z[t], b.al) == 0
    ensures ReadCoefs(d, b, Mixed(b, y, z, k), k, SymbolBits(c, ZRL) + Corrections(b, z, k, t) + rest)
         == ReadCoefs(d, b, Mixed(b, y, z, t + 1), t + 1, rest)
  {
    hide Level, Truncated, Mixed, Skip, Corrections, Zeros, LookupDecode, SymbolBits, Paired, OneBitCoarser, NoneNew;
    var corr := Corrections(b, z, k, t);
    assert SymbolBits(c, ZRL) + corr + rest == SymbolBits(c, ZRL) + (corr + rest);
    SymbolStep(c, d, ZRL, corr + rest);
    CoarserAt(b, y, z, t);
    SkipReads(b, y, z, k, t, rest);
    MixedStep(b, y, z, t);
  }

  /** The symbol of a new coefficient at t, its sign and the correction bits up to it. */
  lemma NewReads(c: CTable, d: DTable, b: Band, y: Block, z: Block, k: nat, t: nat, rest: Bits)
    requires Shaped(d) && ValidBand(b) && OneBitCoarser(b, y, z)
    requires b.ss <= k <= t <= b.se && NoneNew(b, z, k, t) && Zeros(b, z, k, t) <= 15 && Level(z[t], b.al) == 1
    requires Paired(c, d) && HasSymbol(c, Zeros(b, z, k, t) * 16 + 1)
    ensures var bs := SymbolBits(c, Zeros(b, z, k, t) * 16 + 1) + [z[t] >= 0] + Corrections(b, z, k, t);
            ReadCoefs(d, b, Mixed(b, y, z, k), k, bs + rest) == ReadCoefs(d, b, Mixed(b, y, z, t + 1), t + 1, rest)
  {
    hide Level, Truncated, Mixed, Skip, Corrections, Zeros, LookupDecode, SymbolBits, Paired, OneBitCoarser, NoneNew,
         Pow2;
    var corr := Corrections(b, z, k, t);
    var code := SymbolBits(c, Zeros(b, z, k, t) * 16 + 1);
    var after := [z[t] >= 0] + (corr + rest);
    assert code + [z[t] >= 0] + corr + rest == code + after;
    SymbolStep(c, d, Zeros(b, z, k, t) * 16 + 1, after);
    assert Drop(after, 1) == corr + rest && (BitAt(after, 0) == 0 <==> z[t] < 0);
    CoarserAt(b, y, z, t);
    SkipReads(b, y, z, k, t, rest);
    MixedStep(b, y, z, t);
  }

  lemma InBlockZrl(c: CTable, d: DTable, b: Band, y: Block, z: Block, k: nat, t: nat, sent: Bits)
    requires Paired(c, d) && HasSymbol(c, ZRL) && Shaped(d) && ValidBand(b) && OneBitCoarser(b, y, z)
    requires b.ss <= k <= t <= b.se && NoneNew(b, z, k, t) && Zeros(b, z, k, t) == 15 && Level(z[t], b.al) == 0
    requires InBlock(d, b, y, z, k, sent)
    ensures InBlock(d, b, y, z, t + 1, sent + SymbolBits(c, ZRL) + Corrections(b, z, k, t))
  {
    hide Level, ReadCoefs, Corrections, Zeros, SymbolBits, Paired, OneBitCoarser, NoneNew, Mixed;
    var code, corr := SymbolBits(c, ZRL), Corrections(b, z, k, t);
    forall rest: Bits
      ensures ReadCoefs(d, b, y, b.ss, sent + code + corr + rest) == ReadCoefs(d, b, Mixed(b, y, z, t + 1), t + 1, rest)
    {
      assert sent + code + corr + rest == sent + (code + corr + rest);
      ZrlReads(c, d, b, y, z, k, t, rest);
    }
  }

  lemma InBlockNew(c: CTable, d: DTable, b: Band, y: Block, z: Block, k: nat, t: nat, sent: Bits)
    requires Shaped(d) && ValidBand(b) && OneBitCoarser(b, y, z)
    requires b.ss <= k <= t <= b.se && NoneNew(b, z, k, t) && Zeros(b, z, k, t) <= 15 && Level(z[t], b.al) == 1
    requires Paired(c, d) && HasSymbol(c, Zeros(b, z, k, t) * 16 + 1)
    requires InBlock(d, b, y, z, k, sent)
    ensures var bs := SymbolBits(c, Zeros(b, z, k, t) * 16 + 1) + [z[t] >= 0] + Corrections(b, z, k, t);
            InBlock(d, b, y, z, t + 1, sent + bs)
  {
    hide Level, ReadCoefs, Corrections, Zeros, SymbolBits, Paired, OneBitCoarser, NoneNew, Mixed;
    var bs := SymbolBits(c, Zeros(b, z, k, t) * 16 + 1) + [z[t] >= 0] + Corrections(b, z, k, t);
    forall rest: Bits
      ensures ReadCoefs(d, b, y, b.ss, sent + bs + rest) == ReadCoefs(d, b, Mixed(b, y, z, t + 1), t + 1, rest)
    {
      assert sent + bs + rest == sent + (bs + rest);
      NewReads(c, d, b, y, z, k, t, rest);
    }
  }

  // ------------------------------------------------------------------------------ end-of-band runs

  /** The symbol of an end-of-band run of n blocks and its extra bits. */
  function RunSymbol(n: nat): (s: nat)
    requires 0 < n <= MAX_EOBRUN
    ensures s < 256
  {
    NBitsRange(n);
    NBitsOfRun(n);
    (NBits(n) - 1) * 16
  }

  lemma NBitsOfRun(n: nat)
    requires 0 < n <= MAX_EOBRUN
    ensures 0 < NBits(n) <= 15
  {
    NBitsRange(n);
    NBitsLimit(n, 15);
    Pow2Values();
  }

  function RunBits(c: CTable, n: nat): Bits
    requires 0 < n <= MAX_EOBRUN && |c.ehufco| == |c.ehufsi| == 256
  {
    SymbolBits(c, RunSymbol(n)) + WordBits(n, RunSymbol(n) / 16)
  }

  /** A run is read as it was counted. */
  lemma RunReads(c: CTable, d: DTable, b: Band, y: Block, k: nat, n: nat, rest: Bits)
    requires Paired(c, d) && Shaped(d) && ValidBand(b) && k <= b.se
    requires 0 < n <= MAX_EOBRUN && |c.ehufco| == |c.ehufsi| == 256 && HasSymbol(c, RunSymbol(n))
    ensures var (w, more) := Rest(b, y, k, rest);
            ReadCoefs(d, b, y, k, RunBits(c, n) + rest) == (w, n - 1, more)
  {
    hide LookupDecode, SymbolBits, Paired, Rest, Pow2, NBits, WordBits, Peek, Drop;
    var r := NBits(n) - 1;
    NBitsOfRun(n);
    NBitsRange(n);
    DoublePower(r);
    var low: nat := n - Pow2(r);
    assert n == 1 * Pow2(r) + low;
    StaleBits(1, low, r);
    assert RunBits(c, n) + rest == SymbolBits(c, RunSymbol(n)) + (WordBits(low, r) + rest);
    SymbolStep(c, d, RunSymbol(n), WordBits(low, r) + rest);
    PeekWord(low, r, rest);
  }

  predicate RunCoded(c: CTable, n: nat) {
    |c.ehufco| == |c.ehufsi| == 256 && n <= MAX_EOBRUN && (n > 0 ==> HasSymbol(c, RunSymbol(n)))
  }

  /** What is still to be written for a pending run: its symbol, and the correction bits of its blocks. */
  function Pending(c: CTable, n: nat, corr: Bits): Bits
    requires RunCoded(c, n)
  {
    if n == 0 then [] else RunBits(c, n) + corr
  }

  /** The blocks with the bit of this scan. */
  function AllRefined(b: Band, ys: seq<Block>, zs: seq<Block>): (ws: seq<Block>)
    requires |ys| == |zs|
    ensures |ws| == |ys| && forall i :: 0 <= i < |ws| ==> ws[i] == Mixed(b, ys[i], zs[i], b.se + 1)
  {
    seq(|ys|, i requires 0 <= i < |ys| => Mixed(b, ys[i], zs[i], b.se + 1))
  }

  /**
   The bits written and the run that is pending are right for the blocks so far: however many blocks j the
   run still grows by, and whatever comes behind it, the decoder refines all of them, with j blocks to go.
   */
  ghost predicate Sent(c: CTable, d: DTable, b: Band, ys: seq<Block>, zs: seq<Block>, bits: Bits, n: nat, corr: Bits)
    requires Shaped(d) && ValidBand(b)
  {
    && |ys| == |zs|
    && forall j: nat, rest: Bits :: (n == 0 ==> j == 0) && RunCoded(c, n + j) ==>
         ReadAll(d, b, ys, bits + Pending(c, n + j, corr) + rest) == (AllRefined(b, ys, zs), j, rest)
  }

  lemma SentAt(c: CTable, d: DTable, b: Band, ys: seq<Block>, zs: seq<Block>, bits: Bits, n: nat, corr: Bits, j: nat,
               rest: Bits)
    requires Shaped(d) && ValidBand(b) && Sent(c, d, b, ys, zs, bits, n, corr)
    requires (n == 0 ==> j == 0) && RunCoded(c, n + j)
    ensures |ys| == |zs|
    ensures ReadAll(d, b, ys, bits + Pending(c, n + j, corr) + rest) == (AllRefined(b, ys, zs), j, rest)
  {
  }

  lemma NothingSent(c: CTable, d: DTable, b: Band)
    requires Shaped(d) && ValidBand(b)
    ensures Sent(c, d, b, [], [], [], 0, [])
  {
    forall j: nat, rest: Bits | j == 0 && RunCoded(c, j)
      ensures ReadAll(d, b, [], [] + Pending(c, j, []) + rest) == (AllRefined(b, [], []), j, rest)
    {
      assert [] + [] + rest == rest;
    }
  }

  lemma ReadAllSnoc(d: DTable, b: Band, ys: seq<Block>, y: Block, zs: seq<Block>, z: Block, bs: Bits, j: nat,
                    more: Bits)
    requires Shaped(d) && ValidBand(b) && |ys| == |zs|
    requires ReadAll(d, b, ys, bs) == (AllRefined(b, ys, zs), j, more)
    ensures var (w, left, after) := ReadRefined(d, b, y, j, more);
            w == Mixed(b, y, z, b.se + 1) ==>
            ReadAll(d, b, ys + [y], bs) == (AllRefined(b, ys + [y], zs + [z]), left, after)
  {
    hide ReadRefined, Mixed;
    assert (ys + [y])[..|ys|] == ys;
    assert AllRefined(b, ys + [y], zs + [z]) == AllRefined(b, ys, zs) + [Mixed(b, y, z, b.se + 1)];
  }

  /** The pending run is written. */
  lemma SentFlush(c: CTable, d: DTable, b: Band, ys: seq<Block>, zs: seq<Block>, bits: Bits, n: nat, corr: Bits)
    requires Shaped(d) && ValidBand(b) && RunCoded(c, n) && Sent(c, d, b, ys, zs, bits, n, corr)
    ensures Sent(c, d, b, ys, zs, bits + Pending(c, n, corr), 0, [])
  {
    hide ReadAll, RunSymbol, RunBits;
    var all := bits + Pending(c, n, corr);
    forall j: nat, rest: Bits | j == 0
      ensures ReadAll(d, b, ys, all + Pending(c, 0 + j, []) + rest) == (AllRefined(b, ys, zs), j, rest)
    {
      assert all + [] + rest == bits + Pending(c, n, corr) + rest;
      SentAt(c, d, b, ys, zs, bits, n, corr, 0, rest);
    }
  }

  /** A block without new coefficients makes the run longer. */
  lemma SentLonger(c: CTable, d: DTable, b: Band, ys: seq<Block>, zs: seq<Block>, bits: Bits, n: nat, corr: Bits,
                   y: Block, z: Block)
    requires Paired(c, d) && Shaped(d) && ValidBand(b) && Sent(c, d, b, ys, zs, bits, n, corr)
    requires OneBitCoarser(b, y, z) && NoneNew(b, z, b.ss, b.se + 1) && (n == 0 ==> corr == [])
    ensures Sent(c, d, b, ys + [y], zs + [z], bits, n + 1, corr + Corrections(b, z, b.ss, b.se + 1))
  {
    hide ReadAll, RunSymbol, RunBits, Paired, ReadCoefs, Rest, Corrections, OneBitCoarser, NoneNew, Mixed, HasSymbol,
         AllRefined, Sent;
    var own := Corrections(b, z, b.ss, b.se + 1);
    SentSizes(c, d, b, ys, zs, bits, n, corr);
    forall j: nat, rest: Bits | RunCoded(c, n + 1 + j)
      ensures ReadAll(d, b, ys + [y], bits + Pending(c, n + 1 + j, corr + own) + rest)
           == (AllRefined(b, ys + [y], zs + [z]), j, rest)
    {
      LongerReads(c, d, b, ys, zs, bits, n, corr, y, z, j, rest);
    }
    SentIntro(c, d, b, ys + [y], zs + [z], bits, n + 1, corr + own);
  }

  lemma SentSizes(c: CTable, d: DTable, b: Band, ys: seq<Block>, zs: seq<Block>, bits: Bits, n: nat, corr: Bits)
    requires Shaped(d) && ValidBand(b) && Sent(c, d, b, ys, zs, bits, n, corr)
    ensures |ys| == |zs|
  {
  }

  lemma SentIntro(c: CTable, d: DTable, b: Band, ys: seq<Block>, zs: seq<Block>, bits: Bits, n: nat, corr: Bits)
    requires Shaped(d) && ValidBand(b) && |ys| == |zs|
    requires forall j: nat, rest: Bits :: (n == 0 ==> j == 0) && RunCoded(c, n + j) ==>
               ReadAll(d, b, ys, bits + Pending(c, n + j, corr) + rest) == (AllRefined(b, ys, zs), j, rest)
    ensures Sent(c, d, b, ys, zs, bits, n, corr)
  {
  }

  lemma LongerReads(c: CTable, d: DTable, b: Band, ys: seq<Block>, zs: seq<Block>, bits: Bits, n: nat, corr: Bits,
                    y: Block, z: Block, j: nat, rest: Bits)
    requires Paired(c, d) && Shaped(d) && ValidBand(b) && Sent(c, d, b, ys, zs, bits, n, corr) && |ys| == |zs|
    requires OneBitCoarser(b, y, z) && NoneNew(b, z, b.ss, b.se + 1) && (n == 0 ==> corr == [])
    requires RunCoded(c, n + 1 + j)
    ensures ReadAll(d, b, ys + [y], bits + Pending(c, n + 1 + j, corr + Corrections(b, z, b.ss, b.se + 1)) + rest)
            == (AllRefined(b, ys + [y], zs + [z]), j, rest)
  {
    hide ReadAll, RunSymbol, RunBits, Paired, ReadCoefs, Rest, Corrections, OneBitCoarser, NoneNew, Mixed, HasSymbol,
         AllRefined, Sent;
    var own := Corrections(b, z, b.ss, b.se + 1);
    var run := RunBits(c, n + 1 + j);
    var bs := bits + (run + (corr + own)) + rest;
    MixedStart(b, y, z);
    RestReads(b, y, z, b.ss, rest);
    if n == 0 {
      SentAt(c, d, b, ys, zs, bits, 0, corr, 0, run + (own + rest));
      assert bs == bits + [] + (run + (own + rest));
      RunReads(c, d, b, y, b.ss, 1 + j, own + rest);
      ReadAllSnoc(d, b, ys, y, zs, z, bs, 0, run + (own + rest));
    } else {
      SentAt(c, d, b, ys, zs, bits, n, corr, j + 1, own + rest);
      assert bs == bits + (run + corr) + (own + rest);
      ReadAllSnoc(d, b, ys, y, zs, z, bs, j + 1, own + rest);
    }
  }

  lemma MixedStart(b: Band, y: Block, z: Block)
    ensures Mixed(b, y, z, b.ss) == y
  {
  }

  /** A block with something written for it, the pending run being written before. */
  lemma SentBlock(c: CTable, d: DTable, b: Band, ys: seq<Block>, zs: seq<Block>, bits: Bits, y: Block, z: Block, k: nat,
                  sent: Bits)
    requires Paired(c, d) && Shaped(d) && ValidBand(b) && Sent(c, d, b, ys, zs, bits, 0, [])
    requires OneBitCoarser(b, y, z) && b.ss <= k <= b.se + 1 && NoneNew(b, z, k, b.se + 1)
    requires InBlock(d, b, y, z, k, sent)
    ensures var n := if k <= b.se then 1 else 0;
            Sent(c, d, b, ys + [y], zs + [z], bits + sent, n, Corrections(b, z, k, b.se + 1))
  {
    hide ReadAll, RunSymbol, RunBits, Paired, ReadCoefs, Rest, Corrections, OneBitCoarser, NoneNew, Mixed, HasSymbol,
         AllRefined, Sent, InBlock;
    var own := Corrections(b, z, k, b.se + 1);
    var n := if k <= b.se then 1 else 0;
    SentSizes(c, d, b, ys, zs, bits, 0, []);
    forall j: nat, rest: Bits | (n == 0 ==> j == 0) && RunCoded(c, n + j)
      ensures ReadAll(d, b, ys + [y], bits + sent + Pending(c, n + j, own) + rest)
           == (AllRefined(b, ys + [y], zs + [z]), j, rest)
    {
      BlockReads(c, d, b, ys, zs, bits, y, z, k, sent, j, rest);
    }
    SentIntro(c, d, b, ys + [y], zs + [z], bits + sent, n, own);
  }

  lemma BlockReads(c: CTable, d: DTable, b: Band, ys: seq<Block>, zs: seq<Block>, bits: Bits, y: Block, z: Block,
                   k: nat,
                   sent: Bits, j: nat, rest: Bits)
    requires Paired(c, d) && Shaped(d) && ValidBand(b) && Sent(c, d, b, ys, zs, bits, 0, []) && |ys| == |zs|
    requires OneBitCoarser(b, y, z) && b.ss <= k <= b.se + 1 && NoneNew(b, z, k, b.se + 1)
    requires InBlock(d, b, y, z, k, sent)
    requires var n := if k <= b.se then 1 else 0; (n == 0 ==> j == 0) && RunCoded(c, n + j)
    ensures var n := if k <= b.se then 1 else 0;
            ReadAll(d, b, ys + [y], bits + sent + Pending(c, n + j, Corrections(b, z, k, b.se + 1)) + rest)
            == (AllRefined(b, ys + [y], zs + [z]), j, rest)
  {
    hide ReadAll, RunSymbol, RunBits, Paired, Rest, Corrections, OneBitCoarser, NoneNew, Mixed, HasSymbol, AllRefined,
         Sent, InBlock;
    var own := Corrections(b, z, k, b.se + 1);
    var n := if k <= b.se then 1 else 0;
    var tail := Pending(c, n + j, own) + rest;
    SentAt(c, d, b, ys, zs, bits, 0, [], 0, sent + tail);
    assert bits + [] + (sent + tail) == bits + sent + Pending(c, n + j, own) + rest;
    ReadAllSnoc(d, b, ys, y, zs, z, bits + [] + (sent + tail), 0, sent + tail);
    InBlockAt(d, b, y, z, k, sent, tail);
    if k <= b.se {
      TailReads(c, d, b, y, z, k, j, rest);
    } else {
      assert tail == rest;
    }
  }

  /** The run that begins in a block, and the bits of the rest of the block. */
  lemma TailReads(c: CTable, d: DTable, b: Band, y: Block, z: Block, k: nat, j: nat, rest: Bits)
    requires Paired(c, d) && Shaped(d) && ValidBand(b) && OneBitCoarser(b, y, z) && b.ss <= k <= b.se
    requires NoneNew(b, z, k, b.se + 1) && RunCoded(c, 1 + j)
    ensures ReadCoefs(d, b, Mixed(b, y, z, k), k, Pending(c, 1 + j, Corrections(b, z, k, b.se + 1)) + rest)
         == (Mixed(b, y, z, b.se + 1), j, rest)
  {
    hide ReadCoefs, RunSymbol, RunBits, Paired, Rest, Corrections, OneBitCoarser, NoneNew, Mixed, HasSymbol;
    var own := Corrections(b, z, k, b.se + 1);
    assert RunBits(c, 1 + j) + own + rest == RunBits(c, 1 + j) + (own + rest);
    RunReads(c, d, b, Mixed(b, y, z, k), k, 1 + j, own + rest);
    RestReads(b, y, z, k, rest);
  }

  lemma InBlockAt(d: DTable, b: Band, y: Block, z: Block, k: nat, sent: Bits, rest: Bits)
    requires Shaped(d) && ValidBand(b) && InBlock(d, b, y, z, k, sent)
    ensures ReadCoefs(d, b, y, b.ss, sent + rest) == ReadCoefs(d, b, Mixed(b, y, z, k), k, rest)
  {
  }
}
