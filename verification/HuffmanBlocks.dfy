/**
 Huffman coding of coefficient blocks (sections F.1.2 and F.2.2 of ITU-T T.81): the symbols and extra
 bits of a block, and the decoder that gets the block back from them. Blocks are in zigzag order.
 */
module HuffmanBlocks {
  import opened Powers
  import opened BitStrings
  import opened Coefficients
  import opened HuffmanDecoding
  import opened HuffmanBuilders
  import opened HuffmanSymbols

  const MAX_COEF_BITS := 10

  /** JPEG_NBITS: the number of bits of a magnitude. */
  function NBits(v: nat): nat {
    if v == 0 then 0 else 1 + NBits(v / 2)
  }

  lemma {:induction false} NBitsRange(v: nat)
    requires 0 < v
    ensures 0 < NBits(v) && Pow2(NBits(v) - 1) <= v < Pow2(NBits(v))
  {
    hide Pow2;
    if v / 2 == 0 {
      NoBits();
      FirstPowers();
    } else {
      NBitsRange(v / 2);
      DoublePower(NBits(v / 2) - 1);
      DoublePower(NBits(v / 2));
    }
  }

  /** A number of at most n bits is below 2^n, and the other way round. */
  lemma NBitsLimit(v: nat, n: nat)
    ensures NBits(v) <= n <==> v < Pow2(n)
  {
    hide Pow2, NBits;
    if v == 0 {
      NoBits();
    } else {
      NBitsRange(v);
      if NBits(v) <= n {
        Pow2Monotone(NBits(v), n);
      } else {
        Pow2Monotone(n, NBits(v) - 1);
      }
    }
  }

  lemma FirstPowers()
    ensures Pow2(0) == 1 && Pow2(1) == 2
  {
  }

  lemma NoBits()
    ensures NBits(0) == 0
  {
  }

  /** The bits that follow a symbol: the value itself, or its complement when it is negative. */
  function Extra(x: int): (e: nat) {
    var n := NBits(Abs(x));
    NBitsLimit(Abs(x), n);
    if x < 0 then x - 1 + Pow2(n) else x
  }

  /** HUFF_EXTEND (Figure F.12). */
  function Extend(r: nat, s: nat): int
    requires 0 < s
  {
    if r < Pow2(s - 1) then r - Pow2(s) + 1 else r
  }

  lemma ExtraFits(x: int)
    ensures Extra(x) < Pow2(NBits(Abs(x)))
  {
    NBitsLimit(Abs(x), NBits(Abs(x)));
  }

  /** Extending the extra bits gives the value back. */
  lemma ExtendsBack(x: int)
    requires x != 0
    ensures 0 < NBits(Abs(x)) && Extend(Extra(x), NBits(Abs(x))) == x
  {
    hide NBits;
    NBitsRange(Abs(x));
    DoublePower(NBits(Abs(x)) - 1);
  }

  /** A symbol of table `tbl` and the bits behind it, as many as its low half says. */
  datatype Token = Token(dc: bool, tbl: nat, symbol: nat, extra: nat)

  predicate WellFormed(t: Token) {
    t.symbol < 256 && t.extra < Pow2(t.symbol % 16)
  }

  /** AC coefficients from position k on, after a run of r zeros. */
  function AcTokens(tbl: nat, z: Block, k: nat, r: nat): seq<Token>
    requires k <= BLOCK_SIZE
    decreases BLOCK_SIZE - k, r
  {
    if k == BLOCK_SIZE then
      if r > 0 then [Token(false, tbl, 0, 0)] else []
    else if z[k] == 0 then AcTokens(tbl, z, k + 1, r + 1)
    else if r > 15 then [Token(false, tbl, 0xF0, 0)] + AcTokens(tbl, z, k, r - 16)
    else [CoefToken(tbl, r, z[k])] + AcTokens(tbl, z, k + 1, 0)
  }

  /** A nonzero coefficient behind r zeros. */
  function CoefToken(tbl: nat, r: nat, x: int): Token {
    Token(false, tbl, r * 16 + NBits(Abs(x)), Extra(x))
  }

  /** The tokens from position k on, one step at a time. */
  lemma AcStep(tbl: nat, z: Block, k: nat, r: nat)
    requires k <= BLOCK_SIZE
    ensures k == BLOCK_SIZE ==> AcTokens(tbl, z, k, r) == if r > 0 then [Token(false, tbl, 0, 0)] else []
    ensures k < BLOCK_SIZE && z[k] == 0 ==> AcTokens(tbl, z, k, r) == AcTokens(tbl, z, k + 1, r + 1)
    ensures k < BLOCK_SIZE && z[k] != 0 && r > 15 ==>
              AcTokens(tbl, z, k, r) == [Token(false, tbl, 0xF0, 0)] + AcTokens(tbl, z, k, r - 16)
    ensures k < BLOCK_SIZE && z[k] != 0 && r <= 15 ==>
              AcTokens(tbl, z, k, r) == [CoefToken(tbl, r, z[k])] + AcTokens(tbl, z, k + 1, 0)
  {
    hide NBits, Extra;
  }

  function DcToken(tbl: nat, diff: int): Token {
    Token(true, tbl, NBits(Abs(diff)), Extra(diff))
  }

  /** What can be coded: other values are refused with JERR_BAD_DCT_COEF. */
  predicate Codable(diff: int, z: Block) {
    NBits(Abs(diff)) <= MAX_COEF_BITS + 1 && AcCodable(z, 1)
  }

  predicate AcCodable(z: Block, k: nat) {
    forall i :: k <= i < BLOCK_SIZE ==> NBits(Abs(z[i])) <= MAX_COEF_BITS
  }

  /** The tables of a scan, by table number. */
  datatype Tables = Tables(dc: seq<CTable>, ac: seq<CTable>)

  predicate HasTable(c: Tables, t: Token) {
    if t.dc then t.tbl < |c.dc| else t.tbl < |c.ac|
  }

  function TableOf(c: Tables, t: Token): CTable
    requires HasTable(c, t)
  {
    if t.dc then c.dc[t.tbl] else c.ac[t.tbl]
  }

  predicate Writable(c: Tables, t: Token) {
    && WellFormed(t) && HasTable(c, t)
    && |TableOf(c, t).ehufco| == |TableOf(c, t).ehufsi| == 256
  }

  /** The symbol has a code. */
  predicate HasCode(c: Tables, t: Token) {
    Writable(c, t) && TableOf(c, t).ehufsi[t.symbol] > 0
  }

  function TokenBits(c: Tables, t: Token): Bits
    requires Writable(c, t)
  {
    SymbolBits(TableOf(c, t), t.symbol) + WordBits(t.extra, t.symbol % 16)
  }

  predicate AllWritable(c: Tables, ts: seq<Token>) {
    forall i :: 0 <= i < |ts| ==> Writable(c, ts[i])
  }

  predicate Covered(c: Tables, ts: seq<Token>) {
    AllWritable(c, ts) && forall i :: 0 <= i < |ts| ==> HasCode(c, ts[i])
  }

  function BitsOf(c: Tables, ts: seq<Token>): Bits
    requires AllWritable(c, ts)
  {
    if ts == [] then []
    else assert ts[0] == ts[0]; TokenBits(c, ts[0]) + BitsOf(c, ts[1..])
  }

  /** The bits of tokens, with more bits behind them. */
  function BitsBefore(c: Tables, ts: seq<Token>, tail: Bits): Bits
    requires AllWritable(c, ts)
  {
    if ts == [] then tail
    else
      assert ts[0] == ts[0];
      SymbolBits(TableOf(c, ts[0]), ts[0].symbol)
      + (WordBits(ts[0].extra, ts[0].symbol % 16) + BitsBefore(c, ts[1..], tail))
  }

  lemma {:induction false} BitsBeforeIs(c: Tables, ts: seq<Token>, tail: Bits)
    requires AllWritable(c, ts)
    ensures BitsBefore(c, ts, tail) == BitsOf(c, ts) + tail
  {
    if ts == [] {
      assert [] + tail == tail;
    } else {
      BitsBeforeIs(c, ts[1..], tail);
      assert ts[0] == ts[0];
      var s, w, rest := SymbolBits(TableOf(c, ts[0]), ts[0].symbol), WordBits(ts[0].extra, ts[0].symbol % 16), BitsOf(c, ts[1..]);
      assert s + (w + (rest + tail)) == s + w + rest + tail;
    }
  }

  // ------------------------------------------------------------------------------- decoding

  /** Section F.2.2.1: the difference, and the bits behind it. */
  function ReadDc(d: DTable, bs: Bits): (int, Bits)
    requires Shaped(d)
  {
    var sym := LookupDecode(d, bs);
    var rest := Drop(bs, sym.length);
    if sym.value == 0 then (0, rest) else (Extend(Peek(rest, sym.value), sym.value), Drop(rest, sym.value))
  }

  /** Where a coefficient of position k goes: positions past the end share the last one. */
  function Place(k: nat): (p: nat)
    ensures p < BLOCK_SIZE
  {
    if k < BLOCK_SIZE then k else BLOCK_SIZE - 1
  }

  /** Section F.2.2.2: the coefficients from position k on, and the bits behind them. */
  function ReadAc(d: DTable, bs: Bits, y: Block, k: nat): (Block, Bits)
    requires Shaped(d)
    decreases BLOCK_SIZE - k
  {
    if k >= BLOCK_SIZE then (y, bs)
    else
      var sym := LookupDecode(d, bs);
      var rest := Drop(bs, sym.length);
      var r, s := sym.value / 16, sym.value % 16;
      if s != 0 then
        ReadAc(d, Drop(rest, s), y[Place(k + r) := Jcoef(Extend(Peek(rest, s), s))], k + r + 1)
      else if r != 15 then (y, rest)
      else ReadAc(d, rest, y, k + 16)
  }

  /** One token is read back, whatever follows it. */
  lemma TokenIsRead(c: Tables, d: DTable, ts: seq<Token>, tail: Bits)
    requires Covered(c, ts) && ts != [] && HasCode(c, ts[0]) && Paired(TableOf(c, ts[0]), d)
    ensures Covered(c, ts[1..]) && Shaped(d)
    ensures var t, bs := ts[0], BitsBefore(c, ts, tail);
            var sym := LookupDecode(d, bs);
            var rest := Drop(bs, sym.length);
            && sym.value == t.symbol
            && Peek(rest, t.symbol % 16) == t.extra
            && Drop(rest, t.symbol % 16) == BitsBefore(c, ts[1..], tail)
  {
    hide Peek, WordBits, LookupDecode, SymbolBits, Pow2, Drop;
    var t, after := ts[0], BitsBefore(c, ts[1..], tail);
    PeekWord(t.extra, t.symbol % 16, after);
    SymbolIsRead(TableOf(c, t), d, t.symbol, WordBits(t.extra, t.symbol % 16) + after);
  }

  lemma NothingDropped(bs: Bits)
    ensures Drop(bs, 0) == bs
  {
  }

  /** What a block read so far has in common with the one that was sent. */
  ghost predicate ReadUpTo(z: Block, y: Block, k: nat) {
    && (forall i :: 1 <= i < BLOCK_SIZE && i < k ==> y[i] == z[i])
    && (forall i :: k <= i < BLOCK_SIZE ==> y[i] == 0)
  }

  /** The decoder gets the AC coefficients from the bits of their tokens. */
  lemma {:induction false} AcIsRead(c: Tables, d: DTable, tbl: nat, z: Block, k: nat, r: nat, y: Block, tail: Bits)
    requires 1 + r <= k <= BLOCK_SIZE && AcCodable(z, k) && tbl < |c.ac| && Paired(c.ac[tbl], d)
    requires Covered(c, AcTokens(tbl, z, k, r))
    requires ReadUpTo(z, y, k - r) && forall i :: k - r <= i < k ==> z[i] == 0
    ensures Shaped(d)
    ensures ReadAc(d, BitsBefore(c, AcTokens(tbl, z, k, r), tail), y, k - r) == (z[0 := y[0]], tail)
    decreases BLOCK_SIZE - k, r
  {
    hide Covered, BitsBefore, LookupDecode, Peek, Drop, Extra, Extend, NBits, Pow2, Paired, ReadAc, AcTokens;
    AcStep(tbl, z, k, r);
    if k == BLOCK_SIZE {
      if r > 0 {
        LastZeros(c, d, tbl, z, r, y, tail);
      } else {
        NoneLeft(c, d, tbl, z, y, tail);
      }
    } else if z[k] == 0 {
      AcIsRead(c, d, tbl, z, k + 1, r + 1, y, tail);
    } else if r > 15 {
      LongRun(c, d, tbl, z, k, r, y, tail);
      AcIsRead(c, d, tbl, z, k, r - 16, y, tail);
    } else {
      OneCoefficient(c, d, tbl, z, k, r, y, tail);
      AcIsRead(c, d, tbl, z, k + 1, 0, y[k := z[k]], tail);
    }
  }

  lemma NoneLeft(c: Tables, d: DTable, tbl: nat, z: Block, y: Block, tail: Bits)
    requires tbl < |c.ac| && Paired(c.ac[tbl], d) && ReadUpTo(z, y, BLOCK_SIZE)
    ensures Covered(c, AcTokens(tbl, z, BLOCK_SIZE, 0)) && Shaped(d)
    ensures ReadAc(d, BitsBefore(c, AcTokens(tbl, z, BLOCK_SIZE, 0), tail), y, BLOCK_SIZE) == (z[0 := y[0]], tail)
  {
    assert y == z[0 := y[0]];
  }

  /** The end-of-block symbol. */
  lemma LastZeros(c: Tables, d: DTable, tbl: nat, z: Block, r: nat, y: Block, tail: Bits)
    requires 0 < r < BLOCK_SIZE && tbl < |c.ac| && Paired(c.ac[tbl], d)
    requires Covered(c, AcTokens(tbl, z, BLOCK_SIZE, r))
    requires ReadUpTo(z, y, BLOCK_SIZE - r) && forall i :: BLOCK_SIZE - r <= i < BLOCK_SIZE ==> z[i] == 0
    ensures Shaped(d)
    ensures ReadAc(d, BitsBefore(c, AcTokens(tbl, z, BLOCK_SIZE, r), tail), y, BLOCK_SIZE - r) == (z[0 := y[0]], tail)
  {
    hide BitsBefore, LookupDecode, Peek, Drop, Extend, Pow2, Paired;
    var ts := AcTokens(tbl, z, BLOCK_SIZE, r);
    assert ts == [Token(false, tbl, 0, 0)];
    FirstHasCode(c, ts);
    TokenIsRead(c, d, ts, tail);
    AllWritten(c, ts[1..], tail);
    NothingDropped(Drop(BitsBefore(c, ts, tail), LookupDecode(d, BitsBefore(c, ts, tail)).length));
    assert y == z[0 := y[0]];
  }

  lemma AllWritten(c: Tables, ts: seq<Token>, tail: Bits)
    requires ts == []
    ensures Covered(c, ts) && BitsBefore(c, ts, tail) == tail
  {
  }

  lemma FirstHasCode(c: Tables, ts: seq<Token>)
    requires Covered(c, ts) && ts != []
    ensures HasCode(c, ts[0]) && Covered(c, ts[1..])
  {
  }

  /** A run of 16 zeros. */
  lemma LongRun(c: Tables, d: DTable, tbl: nat, z: Block, k: nat, r: nat, y: Block, tail: Bits)
    requires 15 < r < k < BLOCK_SIZE && z[k] != 0 && tbl < |c.ac| && Paired(c.ac[tbl], d)
    requires Covered(c, AcTokens(tbl, z, k, r))
    ensures Covered(c, AcTokens(tbl, z, k, r - 16)) && Shaped(d)
    ensures ReadAc(d, BitsBefore(c, AcTokens(tbl, z, k, r), tail), y, k - r)
         == ReadAc(d, BitsBefore(c, AcTokens(tbl, z, k, r - 16), tail), y, k - r + 16)
  {
    hide BitsBefore, LookupDecode, Peek, Drop, Extend, Pow2, Paired;
    var ts := AcTokens(tbl, z, k, r);
    assert ts[0] == Token(false, tbl, 0xF0, 0) && ts[1..] == AcTokens(tbl, z, k, r - 16);
    FirstHasCode(c, ts);
    TokenIsRead(c, d, ts, tail);
    NothingDropped(Drop(BitsBefore(c, ts, tail), LookupDecode(d, BitsBefore(c, ts, tail)).length));
  }

  /** A nonzero coefficient with the zeros before it. */
  lemma OneCoefficient(c: Tables, d: DTable, tbl: nat, z: Block, k: nat, r: nat, y: Block, tail: Bits)
    requires r <= 15 && r < k < BLOCK_SIZE && z[k] != 0 && AcCodable(z, k) && tbl < |c.ac| && Paired(c.ac[tbl], d)
    requires Covered(c, AcTokens(tbl, z, k, r))
    ensures Covered(c, AcTokens(tbl, z, k + 1, 0)) && Shaped(d)
    ensures ReadAc(d, BitsBefore(c, AcTokens(tbl, z, k, r), tail), y, k - r)
         == ReadAc(d, BitsBefore(c, AcTokens(tbl, z, k + 1, 0), tail), y[k := z[k]], k + 1)
  {
    hide BitsBefore, LookupDecode, Peek, Drop, Extend, Extra, NBits, Pow2, Paired, Jcoef;
    var ts, n := AcTokens(tbl, z, k, r), NBits(Abs(z[k]));
    assert ts[0] == CoefToken(tbl, r, z[k]) && ts[1..] == AcTokens(tbl, z, k + 1, 0);
    FirstHasCode(c, ts);
    TokenIsRead(c, d, ts, tail);
    ExtendsBack(z[k]);
    CodableIsJcoef(z[k]);
  }

  lemma CodableIsJcoef(x: int)
    requires NBits(Abs(x)) <= MAX_COEF_BITS
    ensures Jcoef(x) == x
  {
    NBitsLimit(Abs(x), MAX_COEF_BITS);
    assert Pow2(MAX_COEF_BITS) == 1024;
  }
}
