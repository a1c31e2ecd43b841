/** The refinement of AC coefficients as the progressive Huffman encoder does it, block after block. */
module RefinementEncoder {
  import opened Powers
  import opened BitStrings
  import opened ByteStrings
  import opened BitWriting
  import opened Coefficients
  import opened PointTransform
  import opened MarkedBytes
  import opened HuffmanDecoding
  import opened HuffmanBuilders
  import opened HuffmanSymbols
  import opened HuffmanBlocks
  import opened ProgressiveBits
  import opened RefinementCoding
  import opened RefinementSymbols

  /** What is written and what is pending. */
  datatype Snapshot = Snapshot(bits: Bits, run: nat, corr: Bits)

  /**
   Where the encoder is inside a block: the decoder would be at position k. As long as nothing has been
   written for the block, the earlier run is still pending; afterwards nothing is.
   */
  ghost predicate Begun(c: CTable, d: DTable, b: Band, y: Block, z: Block, s0: Snapshot, s: Snapshot, k: nat,
                        sent: Bits)
    requires Shaped(d) && ValidBand(b)
  {
    && InBlock(d, b, y, z, k, sent)
    && if sent == [] then k == b.ss && s == s0
       else RunCoded(c, s0.run) && s == Snapshot(s0.bits + Pending(c, s0.run, s0.corr) + sent, 0, [])
  }

  lemma BegunStart(c: CTable, d: DTable, b: Band, y: Block, z: Block, s: Snapshot)
    requires Shaped(d) && ValidBand(b)
    ensures Begun(c, d, b, y, z, s, s, b.ss, [])
  {
    hide InBlock;
    InBlockStart(d, b, y, z);
  }

  /** The state once a piece more has been written, whatever was pending in front of it. */
  lemma BegunMore(c: CTable, d: DTable, b: Band, y: Block, z: Block, s0: Snapshot, s: Snapshot, k: nat, sent: Bits,
                  piece: Bits, k1: nat)
    requires Shaped(d) && ValidBand(b) && Begun(c, d, b, y, z, s0, s, k, sent) && RunCoded(c, s.run) && piece != []
    requires InBlock(d, b, y, z, k1, sent + piece)
    ensures Begun(c, d, b, y, z, s0, Snapshot(s.bits + Pending(c, s.run, s.corr) + piece, 0, []), k1, sent + piece)
  {
    hide InBlock, RunBits, RunSymbol;
    if sent == [] {
      assert s.bits + Pending(c, s.run, s.corr) + piece == s0.bits + Pending(c, s0.run, s0.corr) + (sent + piece);
    } else {
      assert s.bits + [] + piece == s0.bits + Pending(c, s0.run, s0.corr) + (sent + piece);
    }
  }

  lemma BegunBlock(c: CTable, d: DTable, b: Band, y: Block, z: Block, s0: Snapshot, s: Snapshot, k: nat, sent: Bits)
    requires Shaped(d) && ValidBand(b) && Begun(c, d, b, y, z, s0, s, k, sent)
    ensures InBlock(d, b, y, z, k, sent)
  {
  }

  /** Symbol ZRL, behind it the buffered correction bits. */
  lemma BegunZrl(c: CTable, d: DTable, b: Band, y: Block, z: Block, s0: Snapshot, s: Snapshot, k: nat, sent: Bits,
                 t: nat)
    requires Paired(c, d) && HasSymbol(c, ZRL) && Shaped(d) && ValidBand(b) && OneBitCoarser(b, y, z)
    requires b.ss <= k <= t <= b.se && NoneNew(b, z, k, t) && Zeros(b, z, k, t) == 15 && Level(z[t], b.al) == 0
    requires Begun(c, d, b, y, z, s0, s, k, sent) && RunCoded(c, s.run)
    ensures var piece := SymbolBits(c, ZRL) + Corrections(b, z, k, t);
            Begun(c, d, b, y, z, s0, Snapshot(s.bits + Pending(c, s.run, s.corr) + piece, 0, []), t + 1, sent + piece)
  {
    hide Begun, InBlock, Paired, OneBitCoarser, NoneNew, Level, Zeros, Corrections, SymbolBits, RunCoded, Pending;
    var code, corr := SymbolBits(c, ZRL), Corrections(b, z, k, t);
    BegunBlock(c, d, b, y, z, s0, s, k, sent);
    InBlockZrl(c, d, b, y, z, k, t, sent);
    assert sent + code + corr == sent + (code + corr);
    SymbolNotEmpty(c, ZRL);
    BegunMore(c, d, b, y, z, s0, s, k, sent, code + corr, t + 1);
  }

  lemma SymbolNotEmpty(c: CTable, s: nat)
    requires HasSymbol(c, s)
    ensures SymbolBits(c, s) != []
  {
  }

  /** The symbol and the sign of a new coefficient, behind it the buffered correction bits. */
  lemma BegunNew(c: CTable, d: DTable, b: Band, y: Block, z: Block, s0: Snapshot, s: Snapshot, k: nat, sent: Bits,
                 t: nat)
    requires Shaped(d) && ValidBand(b) && OneBitCoarser(b, y, z)
    requires b.ss <= k <= t <= b.se && NoneNew(b, z, k, t) && Zeros(b, z, k, t) <= 15 && Level(z[t], b.al) == 1
    requires Paired(c, d) && HasSymbol(c, Zeros(b, z, k, t) * 16 + 1)
    requires Begun(c, d, b, y, z, s0, s, k, sent) && RunCoded(c, s.run)
    ensures var piece := SymbolBits(c, Zeros(b, z, k, t) * 16 + 1) + [z[t] >= 0] + Corrections(b, z, k, t);
            Begun(c, d, b, y, z, s0, Snapshot(s.bits + Pending(c, s.run, s.corr) + piece, 0, []), t + 1, sent + piece)
  {
    hide Begun, InBlock, Paired, OneBitCoarser, NoneNew, Level, Zeros, Corrections, SymbolBits, RunCoded, Pending;
    var piece := SymbolBits(c, Zeros(b, z, k, t) * 16 + 1) + [z[t] >= 0] + Corrections(b, z, k, t);
    BegunBlock(c, d, b, y, z, s0, s, k, sent);
    InBlockNew(c, d, b, y, z, k, t, sent);
    BegunMore(c, d, b, y, z, s0, s, k, sent, piece, t + 1);
  }

  /** The end of the band: what is left of it joins the run, if anything is left. */
  lemma BegunEnd(c: CTable, d: DTable, b: Band, ys: seq<Block>, zs: seq<Block>, y: Block, z: Block,
                 s0: Snapshot, s: Snapshot, k: nat, sent: Bits)
    requires Paired(c, d) && Shaped(d) && ValidBand(b) && OneBitCoarser(b, y, z)
    requires b.ss <= k <= b.se + 1 && NoneNew(b, z, k, b.se + 1)
    requires Sent(c, d, b, ys, zs, s0.bits, s0.run, s0.corr) && (s0.run == 0 ==> s0.corr == [])
    requires Begun(c, d, b, y, z, s0, s, k, sent)
    ensures k <= b.se ==> Sent(c, d, b, ys + [y], zs + [z], s.bits, s.run + 1, s.corr + Corrections(b, z, k, b.se + 1))
    ensures k > b.se ==> Sent(c, d, b, ys + [y], zs + [z], s.bits, s.run, s.corr)
  {
    hide InBlock, Paired, OneBitCoarser, NoneNew, Corrections, Sent, RunCoded, Pending;
    if sent == [] {
      SentLonger(c, d, b, ys, zs, s.bits, s.run, s.corr, y, z);
    } else {
      SentFlush(c, d, b, ys, zs, s0.bits, s0.run, s0.corr);
      SentBlock(c, d, b, ys, zs, s0.bits + Pending(c, s0.run, s0.corr), y, z, k, sent);
      CountNone(b, z, b.se + 1);
      assert [] + Corrections(b, z, k, b.se + 1) == Corrections(b, z, k, b.se + 1);
    }
  }

  /** The shape of a derived table. */
  ghost predicate Usual(c: CTable) {
    |c.ehufco| == |c.ehufsi| == 256 && forall s :: 0 <= s < 256 ==> c.ehufsi[s] <= 16
  }

  // -------------------------------------------------------------------------------- bit masks

  /** A bit string as a word, the first bit lowest. */
  function Mask(bs: Bits): nat {
    if bs == [] then 0 else (if bs[0] then 1 else 0) + 2 * Mask(bs[1..])
  }

  lemma {:induction false} MaskSnoc(bs: Bits, x: bool)
    ensures Mask(bs + [x]) == Mask(bs) + if x then Pow2(|bs|) else 0
  {
    if bs == [] {
      assert [x][1..] == [];
    } else {
      assert (bs + [x])[0] == bs[0] && (bs + [x])[1..] == bs[1..] + [x];
      MaskSnoc(bs[1..], x);
    }
  }

  lemma MaskStep(bs: Bits)
    requires bs != []
    ensures Mask(bs) / 2 == Mask(bs[1..]) && (Mask(bs) % 2 == 1 <==> bs[0])
  {
  }

  lemma {:induction false} MaskZero(bs: Bits)
    ensures Mask(bs) == 0 <==> forall i :: 0 <= i < |bs| ==> !bs[i]
  {
    if bs != [] {
      MaskZero(bs[1..]);
      assert forall i :: 0 < i < |bs| ==> bs[i] == bs[1..][i - 1];
    }
  }

  lemma {:induction false} MaskShift(bs: Bits, n: nat)
    requires n <= |bs|
    ensures ShiftRight(Mask(bs), n) == Mask(bs[n..])
  {
    if n == 0 {
      assert bs[0..] == bs;
      assert Pow2(0) == 1;
    } else {
      hide Mask, Pow2;
      MaskStep(bs);
      MaskShift(bs[1..], n - 1);
      assert bs[1..][n - 1..] == bs[n..];
      DoublePower(n - 1);
      ShiftHalf(Mask(bs), n);
    }
  }

  lemma ShiftHalf(v: nat, n: nat)
    requires 0 < n
    ensures ShiftRight(v / 2, n - 1) == ShiftRight(v, n)
  {
    hide Pow2;
    var p, h := Pow2(n - 1), v / 2;
    DoublePower(n - 1);
    var q := h / p;
    QuotientBounds(h, p);
    MulAssoc(q, 2, p);
    MulAssoc(q + 1, 2, p);
    assert q * (2 * p) == 2 * (q * p) && (q + 1) * (2 * p) == 2 * ((q + 1) * p);
    FloorIs(v, 2 * p, q);
  }

  /** count_zeroes: the zeros below the lowest set bit, and the word without them. */
  method CountZeroes(w: nat, ghost bs: Bits) returns (idx: nat, rest: nat)
    requires w == Mask(bs) && w != 0
    ensures idx < |bs| && bs[idx] && (forall i :: 0 <= i < idx ==> !bs[i]) && rest == Mask(bs[idx..])
  {
    hide Mask;
    idx, rest := 0, w;
    assert bs[0..] == bs;
    NoMask();
    MaskStep(bs);
    while rest % 2 == 0
      invariant idx < |bs| && rest == Mask(bs[idx..]) && rest != 0 && (rest % 2 == 1 <==> bs[idx])
      invariant forall i :: 0 <= i < idx ==> !bs[i]
      decreases |bs| - idx
    {
      MaskStep(bs[idx..]);
      assert bs[idx..][1..] == bs[idx + 1..];
      rest := rest / 2;
      idx := idx + 1;
      MaskStep(bs[idx..]);
    }
  }

  lemma NoMask()
    ensures Mask([]) == 0
  {
  }

  /** Which coefficients of the band are not zero at this bit. */
  function Nonzero(b: Band, z: Block, n: nat): (m: Bits)
    requires b.ss + n <= BLOCK_SIZE
    ensures |m| == n
  {
    seq(n, i requires 0 <= i < n => Level(z[b.ss + i], b.al) != 0)
  }

  /** Which of them are positive. */
  function Positive(b: Band, z: Block, n: nat): (m: Bits)
    requires b.ss + n <= BLOCK_SIZE
    ensures |m| == n
  {
    seq(n, i requires 0 <= i < n => Level(z[b.ss + i], b.al) != 0 && z[b.ss + i] >= 0)
  }

  /** encode_mcu_AC_refine_prepare: magnitudes, masks, and the last newly nonzero coefficient (or 0). */
  method Prepare(b: Band, z: Block) returns (absvalues: seq<nat>, zerobits: nat, signbits: nat, eob: nat)
    requires ValidBand(b)
    ensures |absvalues| == b.se - b.ss + 1 && forall i :: 0 <= i < |absvalues| ==> absvalues[i] == Level(z[b.ss + i], b.al)
    ensures zerobits == Mask(Nonzero(b, z, |absvalues|)) && signbits == Mask(Positive(b, z, |absvalues|))
    ensures forall i :: eob < i < |absvalues| ==> absvalues[i] != 1
    ensures eob == 0 || (eob < |absvalues| && absvalues[eob] == 1)
  {
    hide Mask, Level, Pow2;
    absvalues, zerobits, signbits, eob := [], 0, 0, 0;
    NoMask();
    for k := 0 to b.se - b.ss + 1
      invariant |absvalues| == k && forall i :: 0 <= i < k ==> absvalues[i] == Level(z[b.ss + i], b.al)
      invariant zerobits == Mask(Nonzero(b, z, k)) && signbits == Mask(Positive(b, z, k))
      invariant forall i :: eob < i < k ==> absvalues[i] != 1
      invariant eob == 0 || (eob < k && absvalues[eob] == 1)
    {
      var temp := Level(z[b.ss + k], b.al);
      assert Nonzero(b, z, k + 1) == Nonzero(b, z, k) + [temp != 0];
      assert Positive(b, z, k + 1) == Positive(b, z, k) + [temp != 0 && z[b.ss + k] >= 0];
      MaskSnoc(Nonzero(b, z, k), temp != 0);
      MaskSnoc(Positive(b, z, k), temp != 0 && z[b.ss + k] >= 0);
      if temp != 0 {
        zerobits := zerobits + Pow2(k);
        signbits := signbits + if z[b.ss + k] >= 0 then Pow2(k) else 0;
      }
      absvalues := absvalues + [temp];
      if temp == 1 {
        eob := k;
      }
    }
  }

  /** Between positions k and t: so many zeros, these correction bits, and no new coefficient. */
  ghost predicate Passed(b: Band, z: Block, k: nat, t: nat, r: nat, corr: Bits)
    requires t <= BLOCK_SIZE
  {
    k <= t && r == Zeros(b, z, k, t) && corr == Corrections(b, z, k, t) && NoneNew(b, z, k, t)
  }

  lemma PassedNothing(b: Band, z: Block, k: nat)
    requires k <= BLOCK_SIZE
    ensures Passed(b, z, k, k, 0, [])
  {
    CountNone(b, z, k);
  }

  lemma PassedZeros(b: Band, z: Block, k: nat, t: nat, u: nat, r: nat, corr: Bits)
    requires t <= u <= BLOCK_SIZE && Passed(b, z, k, t, r, corr) && forall i :: t <= i < u ==> Level(z[i], b.al) == 0
    ensures Passed(b, z, k, u, r + (u - t), corr)
  {
    hide Level, Zeros, Corrections;
    CountZeros(b, z, k, t, u);
  }

  lemma PassedNonzero(b: Band, z: Block, k: nat, t: nat, r: nat, corr: Bits)
    requires t < BLOCK_SIZE && Passed(b, z, k, t, r, corr) && Level(z[t], b.al) > 1
    ensures Passed(b, z, k, t + 1, r, corr + [Level(z[t], b.al) % 2 == 1])
  {
    hide Level, Zeros, Corrections;
    CountSnoc(b, z, k, t);
  }

  /** The 16th zero behind position k, when only zeros stand behind position m. */
  ghost function SixteenthZero(b: Band, z: Block, k: nat, m: nat): nat
    requires m <= BLOCK_SIZE && Zeros(b, z, k, m) <= 15
  {
    m + (15 - Zeros(b, z, k, m))
  }

  lemma AtSixteenthZero(b: Band, z: Block, k: nat, m: nat, t: nat, r: nat, corr: Bits)
    requires k <= m <= t <= BLOCK_SIZE && Passed(b, z, k, t, r, corr) && r > 15
    requires Zeros(b, z, k, m) <= 15 && forall i :: m <= i < t ==> Level(z[i], b.al) == 0
    ensures var u := SixteenthZero(b, z, k, m);
            && m <= u < t && Zeros(b, z, k, u) == 15 && Level(z[u], b.al) == 0 && NoneNew(b, z, k, u)
            && corr == Corrections(b, z, k, u) && Passed(b, z, u + 1, t, r - 16, []) && Zeros(b, z, u + 1, u + 1) == 0
  {
    hide Level, Zeros, Corrections;
    var u := SixteenthZero(b, z, k, m);
    CountZeros(b, z, k, m, t);
    CountZeros(b, z, k, m, u);
    CountNone(b, z, u + 1);
    CountZeros(b, z, u + 1, u + 1, t);
  }

  lemma MoreCoded(c: CTable, asked: seq<nat>, s: nat)
    requires AllCoded(c, asked)
    ensures if HasSymbol(c, s) then AllCoded(c, asked + [s]) else Refused(c, asked + [s])
  {
    hide HasSymbol;
  }

  class Encoder {
    const table: CTable
    const sink: BitEmitter
    var eobrun: nat               // run length of EOBs
    var be: nat                   // number of buffered correction bits before the block
    const bitBuffer: array<bool>  // buffer for correction bits
    ghost var asked: seq<nat>     // the symbols whose codes have been looked up

    /** Inside a block. */
    ghost predicate Open()
      reads this, sink, bitBuffer
    {
      && sink.Valid() && bitBuffer.Length == MAX_CORR_BITS && be <= MAX_CORR_BITS
      && eobrun < MAX_EOBRUN && (eobrun == 0 ==> be == 0)
      && Usual(table) && AllCoded(table, asked)
    }

    /** Between blocks there is room for the correction bits of one block more. */
    ghost predicate Valid()
      reads this, sink, bitBuffer
    {
      Open() && be <= MAX_CORR_BITS - BLOCK_SIZE + 1
    }

    ghost function Now(): Snapshot
      requires be <= bitBuffer.Length
      reads this, sink, bitBuffer
    {
      Snapshot(sink.bits, eobrun, bitBuffer[..be])
    }

    /** All symbols of a block, at position k behind r zeros and br correction bits. */
    ghost function CourseAt(b: Band, z: Block, k: nat, r: nat, br: nat): (seq<nat>, Pend)
      requires ValidBand(b)
      reads this
    {
      Course(b, z, k, Hand(eobrun, be, r, br), asked)
    }

    constructor (table: CTable)
      requires Usual(table)
      ensures Valid() && fresh(sink) && fresh(bitBuffer) && this.table == table && Now() == Snapshot([], 0, [])
      ensures asked == [] && be == 0
    {
      this.table := table;
      sink := new BitEmitter();
      bitBuffer := new bool[MAX_CORR_BITS];
      eobrun, be, asked := 0, 0, [];
    }

    /** emit_symbol, when not gathering statistics; a symbol without a code is an error. */
    method EmitSymbol(s: nat) returns (ok: bool)
      requires sink.Valid() && Usual(table) && s < 256 && AllCoded(table, asked)
      modifies sink, `asked
      ensures ok == HasSymbol(table, s) && sink.Valid()
      ensures sink.bits == old(sink.bits) + if ok then SymbolBits(table, s) else []
      ensures asked == old(asked) + [s] && if ok then AllCoded(table, asked) else Refused(table, asked)
    {
      hide BitEmitter.Valid, AllCoded, Refused;
      MoreCoded(table, asked, s);
      asked := asked + [s];
      ok := table.ehufsi[s] != 0;
      if ok {
        sink.EmitBits(table.ehufco[s], table.ehufsi[s]);
      }
    }

    /** emit_buffered_bits */
    method EmitBufferedBits(start: nat, nbits: nat)
      requires sink.Valid() && bitBuffer.Length == MAX_CORR_BITS && start + nbits <= MAX_CORR_BITS
      modifies sink
      ensures sink.Valid() && sink.bits == old(sink.bits) + bitBuffer[start..start + nbits]
    {
      hide BitEmitter.Valid;
      var k := 0;
      while k < nbits
        invariant k <= nbits && sink.Valid() && sink.bits == old(sink.bits) + bitBuffer[start..start + k]
      {
        sink.EmitBits(if bitBuffer[start + k] then 1 else 0, 1);
        OneBitWord(bitBuffer[start + k]);
        assert bitBuffer[start..start + k + 1] == bitBuffer[start..start + k] + [bitBuffer[start + k]];
        k := k + 1;
      }
    }

    /** The symbol of a run and its extra bits. */
    method EmitRun(run: nat) returns (ok: bool)
      requires sink.Valid() && Usual(table) && 0 < run <= MAX_EOBRUN && AllCoded(table, asked)
      modifies sink, `asked
      ensures ok == RunCoded(table, run) && sink.Valid()
      ensures asked == old(asked) + RunOf(run) && if ok then AllCoded(table, asked) else Refused(table, asked)
      ensures ok ==> sink.bits == old(sink.bits) + RunBits(table, run)
    {
      hide BitEmitter.Valid, RunSymbol, WordBits, SymbolBits, NBits, AllCoded, Refused;
      var nbits := NBits(run) - 1;
      RunSymbolIs(run);
      ok := EmitSymbol(nbits * 16);
      if ok && nbits > 0 {
        sink.EmitBits(run, nbits);
      }
      NoWordBits(run);
      Regroup(old(sink.bits), SymbolBits(table, nbits * 16), WordBits(run, nbits));
    }

    /** emit_eobrun: the pending run and its correction bits. */
    method EmitEobrun() returns (ok: bool)
      requires sink.Valid() && bitBuffer.Length == MAX_CORR_BITS && be <= MAX_CORR_BITS && eobrun <= MAX_EOBRUN
      requires (eobrun == 0 ==> be == 0) && Usual(table) && AllCoded(table, asked)
      modifies this`eobrun, this`be, this`asked, sink
      ensures ok == RunCoded(table, old(eobrun))
      ensures asked == old(asked) + RunOf(old(eobrun)) && (ok || Refused(table, asked))
      ensures ok ==> Open() && Now() == old(Snapshot(sink.bits + Pending(table, eobrun, bitBuffer[..be]), 0, []))
    {
      hide BitEmitter.Valid, RunSymbol, RunBits, HasSymbol, AllCoded, Refused;
      ok := true;
      ghost var before, corr := sink.bits, bitBuffer[..be];
      if eobrun > 0 {
        ghost var run := eobrun;
        ok := EmitRun(eobrun);
        if !ok {
          return;
        }
        eobrun := 0;
        EmitBufferedBits(0, be);
        Regroup(before, RunBits(table, run), corr);
        be := 0;
      }
      assert before + [] == before && old(asked) + [] == old(asked);
    }

    /** The ZRL symbols in front of position t, each with the correction bits up to its last zero. */
    method EmitZrls(b: Band, run: nat, count: nat, ghost d: DTable, ghost y: Block, ghost z: Block, ghost s0: Snapshot,
                    ghost k0: nat, ghost m0: nat, ghost t: nat, ghost sent0: Bits)
      returns (ok: bool, r: nat, br: nat, ghost k: nat, ghost sent: Bits)
      requires Open() && Paired(table, d) && Shaped(d) && ValidBand(b) && OneBitCoarser(b, y, z)
      requires b.ss <= k0 <= m0 <= t <= b.se && Zeros(b, z, k0, m0) <= 15
      requires forall i :: m0 <= i < t ==> Level(z[i], b.al) == 0
      requires be + count <= MAX_CORR_BITS && Passed(b, z, k0, t, run, bitBuffer[be..be + count])
      requires Begun(table, d, b, y, z, s0, Now(), k0, sent0)
      requires Level(z[t], b.al) != 0 && (run > 15 ==> !NoneNew(b, z, t, b.se + 1))
      modifies this`eobrun, this`be, this`asked, sink
      ensures ok || (Refused(table, asked) && asked <= old(CourseAt(b, z, t, run, count)).0)
      ensures ok ==> CourseAt(b, z, t, r, br) == old(CourseAt(b, z, t, run, count))
      ensures ok ==> Open() && b.ss <= k <= t && r <= 15 && be + br <= old(be) + count
      ensures ok ==> Passed(b, z, k, t, r, bitBuffer[be..be + br]) && Begun(table, d, b, y, z, s0, Now(), k, sent)
    {
      hide BitEmitter.Valid, Paired, OneBitCoarser, Zeros, Corrections, Level, Passed, Begun, Pending, RunCoded,
           SixteenthZero, HasSymbol, SymbolBits, NoneNew, AllCoded, Refused, Course, RunOf;
      ok, r, br, k, sent := true, run, count, k0, sent0;
      ghost var m := m0;
      while r > 15
        invariant Open() && b.ss <= k <= m <= t && Zeros(b, z, k, m) <= 15 && forall i :: m <= i < t ==> Level(z[i], b.al) == 0
        invariant be + br <= old(be) + count && Passed(b, z, k, t, r, bitBuffer[be..be + br])
        invariant Begun(table, d, b, y, z, s0, Now(), k, sent)
        invariant CourseAt(b, z, t, r, br) == old(CourseAt(b, z, t, run, count))
      {
        CourseZrl(b, z, t, Hand(eobrun, be, r, br), asked);
        var start := be;
        ghost var s, corr, u := Now(), bitBuffer[be..be + br], SixteenthZero(b, z, k, m);
        AtSixteenthZero(b, z, k, m, t, r, corr);
        ok := EmitEobrun();
        if !ok {
          return;
        }
        ok := EmitSymbol(ZRL);
        if !ok {
          return;
        }
        EmitBufferedBits(start, br);
        BegunZrl(table, d, b, y, z, s0, s, k, sent, u);
        Regroup(s.bits + Pending(table, s.run, s.corr), SymbolBits(table, ZRL), corr);
        sent := sent + (SymbolBits(table, ZRL) + corr);
        r, br := r - 16, 0;
        k, m := u + 1, u + 1;
      }
    }

    /** A new coefficient at position t: its symbol, its sign, and the buffered correction bits. */
    method EmitNew(b: Band, r: nat, positive: bool, br: nat, ghost d: DTable, ghost y: Block, ghost z: Block,
                   ghost s0: Snapshot, ghost k: nat, ghost t: nat, ghost sent0: Bits)
      returns (ok: bool, ghost sent: Bits)
      requires Open() && Paired(table, d) && Shaped(d) && ValidBand(b) && OneBitCoarser(b, y, z)
      requires b.ss <= k <= t <= b.se && r <= 15 && Level(z[t], b.al) == 1 && positive == (z[t] >= 0)
      requires be + br <= MAX_CORR_BITS && Passed(b, z, k, t, r, bitBuffer[be..be + br])
      requires Begun(table, d, b, y, z, s0, Now(), k, sent0)
      modifies this`eobrun, this`be, this`asked, sink
      ensures ok || (Refused(table, asked) && asked <= old(CourseAt(b, z, t, r, br)).0)
      ensures ok ==> CourseAt(b, z, t + 1, 0, 0) == old(CourseAt(b, z, t, r, br))
      ensures ok ==> Open() && be == 0 && Begun(table, d, b, y, z, s0, Now(), t + 1, sent)
    {
      hide BitEmitter.Valid, Paired, OneBitCoarser, Level, Begun, Pending, RunCoded, HasSymbol, SymbolBits, Zeros,
           Corrections, NoneNew, AllCoded, Refused, Course, RunOf;
      sent := sent0;
      CourseNew(b, z, t, Hand(eobrun, be, r, br), asked);
      var start := be;
      ghost var s, corr := Now(), bitBuffer[be..be + br];
      ok := EmitEobrun();
      if !ok {
        return;
      }
      ok := EmitSymbol(r * 16 + 1);
      if !ok {
        return;
      }
      sink.EmitBits(if positive then 1 else 0, 1);
      OneBitWord(positive);
      EmitBufferedBits(start, br);
      BegunNew(table, d, b, y, z, s0, s, k, sent, t);
      ghost var piece := SymbolBits(table, r * 16 + 1) + [positive] + corr;
      PieceParts(s.bits + Pending(table, s.run, s.corr), SymbolBits(table, r * 16 + 1), [positive], corr);
      sent := sent + piece;
    }

    /** Inside a block, in front of coefficient p of the band. */
    ghost predicate Walking(b: Band, d: DTable, y: Block, z: Block, s0: Snapshot, eob: nat, p: nat, r: nat, br: nat,
                            k: nat, sent: Bits)
      reads this, sink, bitBuffer
    {
      && Open() && Paired(table, d) && Shaped(d) && ValidBand(b) && OneBitCoarser(b, y, z)
      && b.ss <= k <= b.ss + p <= b.se + 1 && be + br <= MAX_CORR_BITS - BLOCK_SIZE + 1 + p
      && Passed(b, z, k, b.ss + p, r, bitBuffer[be..be + br]) && (p <= eob ==> r <= 15)
      && Begun(table, d, b, y, z, s0, Now(), k, sent)
    }

    /** BR_buffer[BR] = bit */
    method BufferBit(br: nat, bit: bool)
      requires Open() && be + br < MAX_CORR_BITS
      modifies bitBuffer
      ensures Open() && Now() == old(Now()) && bitBuffer[be..be + br + 1] == old(bitBuffer[be..be + br]) + [bit]
    {
      hide BitEmitter.Valid, AllCoded;
      ghost var was, corr := bitBuffer[..be], bitBuffer[be..be + br];
      bitBuffer[be + br] := bit;
      assert bitBuffer[..be] == was && bitBuffer[be..be + br] == corr;
    }

    /** Over zeros to coefficient p, with the ZRL symbols that are needed in front of it. */
    method PassZeros(b: Band, p: nat, eob: nat, run: nat, count: nat, ghost d: DTable, ghost y: Block, ghost z: Block,
                     ghost s0: Snapshot, ghost m: nat, ghost k0: nat, ghost sent0: Bits)
      returns (ok: bool, r: nat, br: nat, ghost k: nat, ghost sent: Bits)
      requires m <= p && b.ss + p <= b.se && run >= p - m && Walking(b, d, y, z, s0, eob, m, run - (p - m), count, k0, sent0)
      requires forall i :: b.ss + m <= i < b.ss + p ==> Level(z[i], b.al) == 0
      requires Level(z[b.ss + p], b.al) != 0 && LastNew(b, z, eob)
      modifies this`eobrun, this`be, this`asked, sink
      ensures ok || (Refused(table, asked) && asked <= old(CourseAt(b, z, b.ss + m, run - (p - m), count)).0)
      ensures ok ==> CourseAt(b, z, b.ss + p, r, br) == old(CourseAt(b, z, b.ss + m, run - (p - m), count))
      ensures ok ==> Walking(b, d, y, z, s0, eob, p, r, br, k, sent)
    {
      hide BitEmitter.Valid, Paired, OneBitCoarser, Level, Begun, Passed, NoneNew, Zeros, Usual, Shaped, AllCoded,
           Refused, Course, LastNew;
      CourseZeros(b, z, b.ss + m, b.ss + p, Hand(eobrun, be, run - (p - m), count), asked);
      NewAhead(b, z, eob, p);
      ok, r, br, k, sent := true, run, count, k0, sent0;
      StretchStart(b, z, k, b.ss + m, r - (p - m), bitBuffer[be..be + br]);
      PassedZeros(b, z, k, b.ss + m, b.ss + p, r - (p - m), bitBuffer[be..be + br]);
      if p <= eob {
        ok, r, br, k, sent := EmitZrls(b, r, br, d, y, z, s0, k, b.ss + m, b.ss + p, sent);
      }
    }

    /** Coefficient p, which is not zero: a correction bit, or a symbol if it is new. */
    method TakeCoef(b: Band, temp: nat, positive: bool, p: nat, run: nat, count: nat, ghost eob: nat, ghost d: DTable,
                    ghost y: Block, ghost z: Block, ghost s0: Snapshot, ghost k0: nat, ghost sent0: Bits)
      returns (ok: bool, r: nat, br: nat, ghost k: nat, ghost sent: Bits)
      requires b.ss + p <= b.se && Walking(b, d, y, z, s0, eob, p, run, count, k0, sent0)
      requires temp == Level(z[b.ss + p], b.al) != 0 && positive == (z[b.ss + p] >= 0) && (temp == 1 ==> p <= eob)
      requires LastNew(b, z, eob)
      modifies this`eobrun, this`be, this`asked, sink, bitBuffer
      ensures ok || (Refused(table, asked) && asked <= old(CourseAt(b, z, b.ss + p, run, count)).0)
      ensures ok ==> CourseAt(b, z, b.ss + p + 1, r, br) == old(CourseAt(b, z, b.ss + p, run, count))
      ensures ok ==> Walking(b, d, y, z, s0, eob, p + 1, r, br, k, sent)
    {
      hide BitEmitter.Valid, Paired, OneBitCoarser, Level, Begun, Passed, NoneNew, Zeros, Usual, Shaped, AllCoded,
           Refused, Course, LastNew;
      ok, r, br, k, sent := true, run, count, k0, sent0;
      if temp > 1 {
        PassedNonzero(b, z, k, b.ss + p, r, bitBuffer[be..be + br]);
        if p > eob {
          NoneBehind(b, z, eob, p);
        }
        CourseCorrection(b, z, b.ss + p, Hand(eobrun, be, r, br), asked);
        BufferBit(br, temp % 2 == 1);
        br := br + 1;
      } else {
        ok, sent := EmitNew(b, r, positive, br, d, y, z, s0, k, b.ss + p, sent);
        if !ok {
          return;
        }
        r, br, k := 0, 0, b.ss + p + 1;
        PassedNothing(b, z, k);
        assert bitBuffer[be..be + br] == [];
      }
    }

    /** The walk over the coefficients that are not zero. */
    method EncodeCoefs(b: Band, z: Block, ghost d: DTable, ghost y: Block, ghost s0: Snapshot)
      returns (ok: bool, r: nat, br: nat, left: nat, ghost eob: nat, ghost k: nat, ghost sent: Bits)
      requires Valid() && Paired(table, d) && Shaped(d) && ValidBand(b) && OneBitCoarser(b, y, z) && s0 == Now()
      modifies this`eobrun, this`be, this`asked, sink, bitBuffer
      ensures ok || (Refused(table, asked) && asked <= old(CourseAt(b, z, b.ss, 0, 0)).0)
      ensures ok ==> left <= b.se - b.ss + 1 && CourseAt(b, z, b.se + 1 - left, r, br) == old(CourseAt(b, z, b.ss, 0, 0))
      ensures ok ==> left <= b.se - b.ss + 1 && Walking(b, d, y, z, s0, eob, b.se - b.ss + 1 - left, r, br, k, sent)
      ensures ok ==> forall i :: b.se + 1 - left <= i <= b.se ==> Level(z[i], b.al) == 0
    {
      hide Encoder.Walking, BitEmitter.Valid, Paired, OneBitCoarser, Level, Mask, Nonzero, Positive, ShiftRight,
           AllCoded, Refused, Course, LastNew;
      var absvalues, zerobits, signbits, e := Prepare(b, z);
      var n, p := |absvalues|, 0;
      ok, r, br, k, sent, eob := true, 0, 0, b.ss, [], e;
      ghost var nonzero, positive := Nonzero(b, z, n), Positive(b, z, n);
      assert nonzero[0..] == nonzero && positive[0..] == positive;
      StartWalking(b, d, y, z, e);
      LastNewIs(b, z, absvalues, e);
      while zerobits != 0
        invariant p <= n && zerobits == Mask(nonzero[p..]) && signbits == Mask(positive[p..])
        invariant Walking(b, d, y, z, s0, e, p, r, br, k, sent) && ok
        invariant CourseAt(b, z, b.ss + p, r, br) == old(CourseAt(b, z, b.ss, 0, 0))
        decreases n - p
      {
        ghost var m := p;
        var idx;
        idx, zerobits := CountZeroes(zerobits, nonzero[p..]);
        SkipZeros(b, z, n, p, idx);
        r, p, signbits := r + idx, p + idx, ShiftRight(signbits, idx);
        TakeOne(nonzero, p);
        TakeOne(positive, p);
        ok, r, br, k, sent := PassZeros(b, p, e, r, br, d, y, z, s0, m, k, sent);
        if !ok {
          left := 0;
          return;
        }
        ok, r, br, k, sent := TakeCoef(b, absvalues[p], signbits % 2 == 1, p, r, br, e, d, y, z, s0, k, sent);
        if !ok {
          left := 0;
          return;
        }
        zerobits, signbits, p := zerobits / 2, signbits / 2, p + 1;
      }
      left := n - p;
      RestIsZero(b, z, n, p);
    }

    lemma StartWalking(b: Band, d: DTable, y: Block, z: Block, eob: nat)
      requires Valid() && Paired(table, d) && Shaped(d) && ValidBand(b) && OneBitCoarser(b, y, z)
      ensures Walking(b, d, y, z, Now(), eob, 0, 0, 0, b.ss, [])
    {
      hide BitEmitter.Valid, Paired, OneBitCoarser, Begun, Passed;
      BegunStart(table, d, b, y, z, Now());
      PassedNothing(b, z, b.ss);
      assert bitBuffer[be..be + 0] == [];
    }

    /**
     encode_mcu_AC_refine: afterwards the block is sent, or part of the pending run. The buffer for correction
     bits does not overflow, and neither does the run.
     */
    method EncodeMcu(b: Band, z: Block, ghost d: DTable, ghost y: Block, ghost ys: seq<Block>, ghost zs: seq<Block>)
      returns (ok: bool)
      requires Valid() && Paired(table, d) && Shaped(d) && ValidBand(b) && OneBitCoarser(b, y, z)
      requires Sent(table, d, b, ys, zs, Now().bits, Now().run, Now().corr)
      modifies this`eobrun, this`be, this`asked, sink, bitBuffer
      ensures var (symbols, q) := old(BlockSymbols(b, z, Pend(eobrun, be)));
              if ok then asked == old(asked) + symbols && q == Pend(eobrun, be)
              else Refused(table, asked) && asked <= old(asked) + symbols
      ensures ok ==> Valid() && Sent(table, d, b, ys + [y], zs + [z], Now().bits, Now().run, Now().corr)
    {
      hide Encoder.Walking, BitEmitter.Valid, Paired, OneBitCoarser, Level, Sent, RunCoded, Pending, Usual, Shaped,
           AllCoded, Refused, WalkFrom, RunOf;
      ghost var s0 := Now();
      var r, br, left;
      ghost var eob, k, sent;
      ok, r, br, left, eob, k, sent := EncodeCoefs(b, z, d, y, s0);
      if !ok {
        return;
      }
      EndOfWalk(b, d, ys, zs, y, z, s0, eob, left, r, br, k, sent);
      CourseEnd(b, z, b.se + 1 - left, Hand(eobrun, be, r, br), asked);
      ghost var s, corr := Now(), Corrections(b, z, k, b.se + 1);
      if r > 0 || left > 0 || br > 0 {
        eobrun := eobrun + 1;
        be := be + br;
        assert Now() == Snapshot(s.bits, s.run + 1, s.corr + corr);
        if eobrun == MAX_EOBRUN || be > MAX_CORR_BITS - BLOCK_SIZE + 1 {
          ghost var last := Now();
          ok := EmitEobrun();
          if !ok {
            return;
          }
          SentFlush(table, d, b, ys + [y], zs + [z], last.bits, last.run, last.corr);
        }
      }
    }

    /** What the end of the band adds to the run. */
    lemma EndOfWalk(b: Band, d: DTable, ys: seq<Block>, zs: seq<Block>, y: Block, z: Block, s0: Snapshot, eob: nat,
                    left: nat, r: nat, br: nat, k: nat, sent: Bits)
      requires ValidBand(b) && left <= b.se - b.ss + 1
      requires Walking(b, d, y, z, s0, eob, b.se - b.ss + 1 - left, r, br, k, sent)
      requires forall i :: b.se + 1 - left <= i <= b.se ==> Level(z[i], b.al) == 0
      requires Sent(table, d, b, ys, zs, s0.bits, s0.run, s0.corr) && (s0.run == 0 ==> s0.corr == [])
      ensures Open() && be + br <= MAX_CORR_BITS && k <= b.se + 1
      ensures bitBuffer[..be + br] == bitBuffer[..be] + Corrections(b, z, k, b.se + 1)
      ensures k <= b.se <==> r > 0 || left > 0 || br > 0
      ensures k <= b.se ==>
                Sent(table, d, b, ys + [y], zs + [z], sink.bits, eobrun + 1, bitBuffer[..be] + Corrections(b, z, k, b.se + 1))
      ensures k > b.se ==> be <= MAX_CORR_BITS - BLOCK_SIZE + 1
      ensures k > b.se ==> Sent(table, d, b, ys + [y], zs + [z], sink.bits, eobrun, bitBuffer[..be])
    {
      hide BitEmitter.Valid, Paired, OneBitCoarser, Level, Begun, Sent, RunCoded, Pending, Usual, Shaped, Zeros,
           Corrections;
      var t, corr := b.se + 1 - left, bitBuffer[be..be + br];
      PassedZeros(b, z, k, t, b.se + 1, r, corr);
      PassedSomething(b, z, k, b.se + 1, r + left, corr);
      BegunEnd(table, d, b, ys, zs, y, z, s0, Now(), k, sent);
      BegunIdle(table, d, b, y, z, s0, Now(), k, sent);
      assert |bitBuffer[..be]| == be;
      assert bitBuffer[..be + br] == bitBuffer[..be] + corr;
    }

    /** finish_pass: the pending run goes out, and the last byte is filled up with ones. */
    method FinishPass(b: Band, ghost d: DTable, ghost ys: seq<Block>, ghost zs: seq<Block>)
      returns (ok: bool, ghost padding: nat)
      requires Valid() && Shaped(d) && ValidBand(b)
      requires Sent(table, d, b, ys, zs, Now().bits, Now().run, Now().corr)
      modifies this`eobrun, this`be, this`asked, sink
      ensures asked == old(asked) + RunOf(old(eobrun)) && if ok then AllCoded(table, asked) else Refused(table, asked)
      ensures ok ==> sink.out == Stuff(sink.raw) && padding < 8 && |ys| == |zs|
                     && ReadAll(d, b, ys, ByteBits(sink.raw)) == (AllRefined(b, ys, zs), 0, OneBits(padding))
    {
      hide Sent, RunCoded, Pending, Usual, Shaped, ReadAll, AllRefined, ByteBits, Stuff, Aligned, Held, AllCoded, Refused,
           RunOf;
      ghost var last := Now();
      padding := 0;
      ok := EmitEobrun();
      if !ok {
        return;
      }
      SentFlush(table, d, b, ys, zs, last.bits, last.run, last.corr);
      ghost var bits := sink.bits;
      padding := sink.FlushBits();
      SentDone(table, d, b, ys, zs, bits, OneBits(padding));
    }
  }

  /** With nothing pending, the bits alone are read back. */
  lemma SentDone(c: CTable, d: DTable, b: Band, ys: seq<Block>, zs: seq<Block>, bits: Bits, rest: Bits)
    requires Shaped(d) && ValidBand(b) && Usual(c) && Sent(c, d, b, ys, zs, bits, 0, [])
    ensures |ys| == |zs| && ReadAll(d, b, ys, bits + rest) == (AllRefined(b, ys, zs), 0, rest)
  {
    hide ReadAll, AllRefined;
    SentAt(c, d, b, ys, zs, bits, 0, [], 0, rest);
    assert bits + [] + rest == bits + rest;
  }

  lemma BegunIdle(c: CTable, d: DTable, b: Band, y: Block, z: Block, s0: Snapshot, s: Snapshot, k: nat, sent: Bits)
    requires Shaped(d) && ValidBand(b) && Begun(c, d, b, y, z, s0, s, k, sent)
    ensures k != b.ss ==> s.run == 0 && s.corr == []
  {
    hide InBlock, Pending, RunCoded;
  }

  /** Every coefficient that is passed leaves a trace. */
  lemma PassedSomething(b: Band, z: Block, k: nat, t: nat, r: nat, corr: Bits)
    requires t <= BLOCK_SIZE && Passed(b, z, k, t, r, corr)
    ensures k < t <==> r > 0 || corr != []
  {
    hide Level;
    if k < t {
      assert Level(z[k], b.al) == 0 || Level(z[k], b.al) > 1;
    } else {
      CountNone(b, z, k);
    }
  }

  /** The mask without its lowest bit. */
  lemma TakeOne(bs: Bits, p: nat)
    requires p < |bs|
    ensures Mask(bs[p..]) / 2 == Mask(bs[p + 1..]) && (Mask(bs[p..]) % 2 == 1 <==> bs[p])
  {
    hide Mask;
    MaskStep(bs[p..]);
    assert bs[p..][1..] == bs[p + 1..];
  }

  /** The zeros up to the next coefficient that is not zero. */
  lemma SkipZeros(b: Band, z: Block, n: nat, p: nat, idx: nat)
    requires ValidBand(b) && n == b.se - b.ss + 1 && p + idx < n
    requires var bs := Nonzero(b, z, n)[p..]; bs[idx] && forall i :: 0 <= i < idx ==> !bs[i]
    ensures Level(z[b.ss + p + idx], b.al) != 0
    ensures forall i :: b.ss + p <= i < b.ss + p + idx ==> Level(z[i], b.al) == 0
    ensures Nonzero(b, z, n)[p..][idx..] == Nonzero(b, z, n)[p + idx..]
    ensures ShiftRight(Mask(Positive(b, z, n)[p..]), idx) == Mask(Positive(b, z, n)[p + idx..])
    ensures Positive(b, z, n)[p + idx] == (z[b.ss + p + idx] >= 0)
  {
    hide Level, Mask, ShiftRight;
    var bs := Nonzero(b, z, n);
    forall i | b.ss + p <= i < b.ss + p + idx
      ensures Level(z[i], b.al) == 0
    {
      assert bs[p..][i - b.ss - p] == bs[i - b.ss];
    }
    assert bs[p..][idx] == bs[p + idx];
    MaskShift(Positive(b, z, n)[p..], idx);
    assert Positive(b, z, n)[p..][idx..] == Positive(b, z, n)[p + idx..];
  }

  lemma RestIsZero(b: Band, z: Block, n: nat, p: nat)
    requires ValidBand(b) && n == b.se - b.ss + 1 && p <= n && Mask(Nonzero(b, z, n)[p..]) == 0
    ensures forall i :: b.ss + p <= i <= b.se ==> Level(z[i], b.al) == 0
  {
    hide Level, Mask;
    var bs := Nonzero(b, z, n);
    MaskZero(bs[p..]);
    forall i | b.ss + p <= i <= b.se
      ensures Level(z[i], b.al) == 0
    {
      assert bs[p..][i - b.ss - p] == bs[i - b.ss];
    }
  }

  /** Coefficient eob is the last one that becomes nonzero, or there is none and eob is 0. */
  ghost predicate LastNew(b: Band, z: Block, eob: nat)
    requires ValidBand(b)
  {
    && NoneNew(b, z, b.ss + eob + 1, b.se + 1)
    && (eob == 0 || (b.ss + eob <= b.se && Level(z[b.ss + eob], b.al) == 1))
  }

  lemma LastNewIs(b: Band, z: Block, absvalues: seq<nat>, eob: nat)
    requires ValidBand(b) && |absvalues| == b.se - b.ss + 1
    requires forall i :: 0 <= i < |absvalues| ==> absvalues[i] == Level(z[b.ss + i], b.al)
    requires forall i :: eob < i < |absvalues| ==> absvalues[i] != 1
    requires eob == 0 || (eob < |absvalues| && absvalues[eob] == 1)
    ensures LastNew(b, z, eob)
  {
    hide Level;
    forall i | b.ss + eob + 1 <= i < b.se + 1
      ensures Level(z[i], b.al) != 1
    {
      assert absvalues[i - b.ss] != 1;
    }
  }

  /** Up to the last new coefficient, one is still to come. */
  lemma NewAhead(b: Band, z: Block, eob: nat, p: nat)
    requires ValidBand(b) && LastNew(b, z, eob) && b.ss + p <= b.se
    ensures p <= eob && 0 < p ==> !NoneNew(b, z, b.ss + p, b.se + 1)
  {
    hide Level;
  }

  /** Behind the last new coefficient there is none. */
  lemma NoneBehind(b: Band, z: Block, eob: nat, p: nat)
    requires ValidBand(b) && LastNew(b, z, eob) && p > eob
    ensures NoneNew(b, z, b.ss + p, b.se + 1)
  {
    hide Level;
  }

  lemma NotAllCoded(c: CTable, asked: seq<nat>, symbols: seq<nat>)
    requires Refused(c, asked) && asked <= symbols
    ensures !AllCoded(c, symbols)
  {
    assert symbols[|asked| - 1] == asked[|asked| - 1];
  }

  lemma StretchStart(b: Band, z: Block, k: nat, m: nat, r: nat, corr: Bits)
    requires m <= BLOCK_SIZE && Passed(b, z, k, m, r, corr)
    ensures Zeros(b, z, k, m) == r && k <= m
  {
  }

  lemma PieceParts(x: Bits, code: Bits, sign: Bits, corr: Bits)
    ensures x + code + sign + corr == x + (code + sign + corr)
  {
  }

  lemma OneBitWord(x: bool)
    ensures WordBits(if x then 1 else 0, 1) == [x]
  {
  }

  lemma RunSymbolIs(n: nat)
    requires 0 < n <= MAX_EOBRUN
    ensures 0 < NBits(n) <= 15 && RunSymbol(n) == (NBits(n) - 1) * 16
  {
    hide NBits;
    NBitsOfRun(n);
  }

  /**
   A refinement scan of one component: whatever the blocks, the bytes give a decoder that has the band one bit
   coarser the bit of this scan, for every block, and nothing is left but padding.
   */
  method EncodeScan(table: CTable, b: Band, zs: seq<Block>, ghost d: DTable, ghost ys: seq<Block>)
    returns (ok: bool, out: seq<Byte>, ghost raw: seq<Byte>, ghost padding: nat)
    requires Usual(table) && Paired(table, d) && Shaped(d) && ValidBand(b) && |ys| == |zs|
    requires forall i :: 0 <= i < |ys| ==> OneBitCoarser(b, ys[i], zs[i])
    ensures ok <==> AllCoded(table, ScanSymbols(b, zs))
    ensures ok ==> out == Stuff(raw) && padding < 8
                   && ReadAll(d, b, ys, ByteBits(raw)) == (AllRefined(b, ys, zs), 0, OneBits(padding))
  {
    hide Paired, OneBitCoarser, Sent, Usual, Shaped, ReadAll, AllRefined, ByteBits, Stuff, BitEmitter.Valid, BlockSymbols,
         AllCoded, Refused, RunOf;
    ok, out, raw, padding := true, [], [], 0;
    var encoder := new Encoder(table);
    NothingSent(table, d, b);
    var i := 0;
    while i < |zs|
      invariant i <= |zs| && encoder.Valid() && encoder.table == table
      invariant BlocksSymbols(b, zs[..i]) == (encoder.asked, Pend(encoder.eobrun, encoder.be))
      invariant Sent(table, d, b, ys[..i], zs[..i], encoder.Now().bits, encoder.Now().run, encoder.Now().corr)
    {
      ok := encoder.EncodeMcu(b, zs[i], d, ys[i], ys[..i], zs[..i]);
      assert zs[..i + 1][..i] == zs[..i];
      if !ok {
        BlocksSymbolsGrow(b, zs, i + 1);
        NotAllCoded(table, encoder.asked, ScanSymbols(b, zs));
        return;
      }
      assert ys[..i + 1] == ys[..i] + [ys[i]] && zs[..i + 1] == zs[..i] + [zs[i]];
      i := i + 1;
    }
    assert ys[..|ys|] == ys && zs[..|zs|] == zs;
    ok, padding := encoder.FinishPass(b, d, ys, zs);
    if ok {
      out, raw := encoder.sink.out, encoder.sink.raw;
    } else {
      NotAllCoded(table, encoder.asked, ScanSymbols(b, zs));
    }
  }
}
