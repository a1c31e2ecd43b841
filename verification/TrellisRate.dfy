/** The trellis counts exactly the bits that the Huffman encoder spends on the AC coefficients of a block. */
module TrellisRate {
  import opened Powers
  import opened BitStrings
  import opened Coefficients
  import opened HuffmanBlocks
  import opened HuffmanEncoder
  import opened TrellisCosts
  import opened TrellisChoice
  import opened TrellisAc
  import TrellisDc

  /** The whole AC band of a block, coded with one of the tables. */
  ghost predicate WholeBand(b: Band, c: Tables, tbl: nat) {
    BandOk(b) && b.ss == 1 && b.se == BLOCK_SIZE - 1 && TablesOk(c) && tbl < |c.ac| && b.ehufsi == c.ac[tbl].ehufsi
  }

  /** The error of positions ss to n - 1. */
  function Error(b: Band, z: seq<int>, n: nat): real
    requires b.ss <= n <= |z| <= BLOCK_SIZE && Sized(b)
  {
    if n == b.ss then 0.0 else Error(b, z, n - 1) + Distortion(b, n - 1, z[n - 1])
  }

  /** The bits of positions ss to n - 1. */
  function Rate(b: Band, z: seq<int>, n: nat): nat
    requires b.ss <= n <= |z| <= BLOCK_SIZE && Sized(b)
  {
    if n == b.ss then 0
    else Rate(b, z, n - 1) + if z[n - 1] == 0 then 0 else StepRate(b, Run(b, z, n - 1), z[n - 1])
  }

  lemma {:induction false} CostIsRateAndError(b: Band, z: seq<int>, n: nat)
    requires b.ss <= n <= |z| <= BLOCK_SIZE && Sized(b)
    ensures Cost(b, z, n) == Rate(b, z, n) as real + Error(b, z, n)
  {
    hide StepRate, Distortion;
    if n > b.ss {
      CostIsRateAndError(b, z, n - 1);
    }
  }

  /** The bits from position k on, behind a run of r zeros. */
  function RateFrom(b: Band, z: Block, k: nat, r: nat): nat
    requires k <= BLOCK_SIZE && Sized(b)
    decreases BLOCK_SIZE - k
  {
    if k == BLOCK_SIZE then if r > 0 then b.ehufsi[0] else 0
    else if z[k] == 0 then RateFrom(b, z, k + 1, r + 1)
    else StepRate(b, r, z[k]) + RateFrom(b, z, k + 1, 0)
  }

  lemma {:induction false} RateSplits(b: Band, z: Block, k: nat)
    requires 1 == b.ss <= k <= BLOCK_SIZE && Sized(b)
    ensures Rate(b, z, k) + RateFrom(b, z, k, Run(b, z, k)) == RateFrom(b, z, 1, 0)
  {
    hide StepRate;
    if k > 1 {
      RateSplits(b, z, k - 1);
    }
  }

  lemma StepTokens(c: Tables, tbl: nat, z: Block, k: nat, r: nat)
    requires k < BLOCK_SIZE && z[k] != 0 && NBits(Abs(z[k])) <= MAX_COEF_BITS && TablesOk(c) && tbl < |c.ac|
    ensures r <= 15 ==> Writable(c, CoefToken(tbl, r, z[k]))
    ensures Writable(c, Token(false, tbl, 0xF0, 0)) && Writable(c, Token(false, tbl, 0, 0))
    ensures r <= 15 ==>
              |TokenBits(c, CoefToken(tbl, r, z[k]))| == c.ac[tbl].ehufsi[16 * r + NBits(Abs(z[k]))] + NBits(Abs(z[k]))
  {
    hide NBits, Extra, TableOk;
    NBitsRange(Abs(z[k]));
    MarkWritable(c, tbl);
    if r <= 15 {
      AcWritable(c, tbl, r, z[k]);
    }
  }

  /** One run-length-16 code less. */
  lemma LongerRun(b: Band, r: nat, v: int)
    requires |b.ehufsi| == 256 && 15 < r
    ensures StepRate(b, r, v) == b.ehufsi[0xF0] + StepRate(b, r - 16, v)
  {
    hide SizeOf, NBits;
    assert (r - 16) % 16 == r % 16 && (r - 16) / 16 == r / 16 - 1;
    MulOneMore(r / 16 - 1, b.ehufsi[0xF0]);
  }

  lemma ShortRun(b: Band, r: nat, v: int)
    requires |b.ehufsi| == 256 && r <= 15 && NBits(Abs(v)) <= 10
    ensures StepRate(b, r, v) == b.ehufsi[16 * r + NBits(Abs(v))] + NBits(Abs(v))
  {
    hide NBits;
    assert r / 16 == 0 && r % 16 == r;
    MulOneMore(0, b.ehufsi[0xF0]);
  }

  /** The tokens of the block take exactly these bits. */
  lemma {:induction false} TokensTakeRate(b: Band, c: Tables, tbl: nat, z: Block, k: nat, r: nat)
    requires WholeBand(b, c, tbl) && 1 <= k <= BLOCK_SIZE && AcCodable(z, k)
    ensures AllWritable(c, AcTokens(tbl, z, k, r))
    ensures |BitsOf(c, AcTokens(tbl, z, k, r))| == RateFrom(b, z, k, r)
    decreases BLOCK_SIZE - k, r
  {
    hide NBits, Extra, StepRate, AcTokens, Writable, TokenBits, WordBits;
    AcStep(tbl, z, k, r);
    MarkWritable(c, tbl);
    if k == BLOCK_SIZE {
      EndBits(b, c, tbl, r);
    } else if z[k] == 0 {
      TokensTakeRate(b, c, tbl, z, k + 1, r + 1);
    } else if r > 15 {
      TokensTakeRate(b, c, tbl, z, k, r - 16);
      FirstLength(c, Token(false, tbl, 0xF0, 0), AcTokens(tbl, z, k, r - 16));
      MarkBits(b, c, tbl);
      LongerRun(b, r, z[k]);
    } else {
      StepTokens(c, tbl, z, k, r);
      TokensTakeRate(b, c, tbl, z, k + 1, 0);
      FirstLength(c, CoefToken(tbl, r, z[k]), AcTokens(tbl, z, k + 1, 0));
      ShortRun(b, r, z[k]);
    }
  }

  lemma FirstLength(c: Tables, t: Token, ts: seq<Token>)
    requires Writable(c, t) && AllWritable(c, ts)
    ensures AllWritable(c, [t] + ts) && |BitsOf(c, [t] + ts)| == |TokenBits(c, t)| + |BitsOf(c, ts)|
  {
    hide Writable, TokenBits;
    assert ([t] + ts)[1..] == ts;
  }

  lemma NothingBefore(bs: Bits)
    ensures [] + bs == bs
  {
  }

  lemma MarkBits(b: Band, c: Tables, tbl: nat)
    requires WholeBand(b, c, tbl)
    ensures Writable(c, Token(false, tbl, 0xF0, 0)) && Writable(c, Token(false, tbl, 0, 0))
    ensures |TokenBits(c, Token(false, tbl, 0xF0, 0))| == b.ehufsi[0xF0]
    ensures |TokenBits(c, Token(false, tbl, 0, 0))| == b.ehufsi[0]
  {
    hide TableOk;
    MarkWritable(c, tbl);
  }

  lemma EndBits(b: Band, c: Tables, tbl: nat, r: nat)
    requires WholeBand(b, c, tbl)
    ensures var ts := if r > 0 then [Token(false, tbl, 0, 0)] else [];
            AllWritable(c, ts) && |BitsOf(c, ts)| == if r > 0 then b.ehufsi[0] else 0
  {
    hide TableOk, TokenBits;
    MarkBits(b, c, tbl);
    FirstToken(c, Token(false, tbl, 0, 0), []);
    NothingBefore(TokenBits(c, Token(false, tbl, 0, 0)));
    NothingBefore(BitsOf(c, [Token(false, tbl, 0, 0)]));
  }

  lemma AdmissibleBits(b: Band, i: nat, v: int)
    requires i < |b.src| && i < |b.q| && Admissible(b, i, v)
    ensures NBits(Abs(v)) <= MAX_COEF_BITS
  {
    hide NBits;
    TenBits();
    NBitsLimit(Abs(v), MAX_COEF_BITS);
  }

  /** What values cost: the bits the encoder spends on it, plus its error. */
  lemma CostIsBits(b: Band, c: Tables, tbl: nat, z: Block)
    requires WholeBand(b, c, tbl) && Values(b, z, BLOCK_SIZE)
    ensures AcCodable(z, 1) && AllWritable(c, AcTokens(tbl, z, 1, 0))
    ensures TotalCost(b, z) == |BitsOf(c, AcTokens(tbl, z, 1, 0))| as real + Error(b, z, BLOCK_SIZE)
  {
    hide NBits, StepRate, Distortion, BitsOf, AcTokens, AllWritable, Admissible, TablesOk;
    forall i | 1 <= i < BLOCK_SIZE
      ensures NBits(Abs(z[i])) <= MAX_COEF_BITS
    {
      if z[i] == 0 {
        NoBits();
      } else {
        AdmissibleBits(b, i, z[i]);
      }
    }
    TokensTakeRate(b, c, tbl, z, 1, 0);
    CostIsRateAndError(b, z, BLOCK_SIZE);
    RateSplits(b, z, BLOCK_SIZE);
  }

  /** The DC trellis counts the bits of the encoder's symbol and extra bits for a difference. */
  lemma DcRateIsBits(r: TrellisDc.Row, c: Tables, tbl: nat, diff: int)
    requires TablesOk(c) && tbl < |c.dc| && r.ehufsi == c.dc[tbl].ehufsi && NBits(Abs(diff)) <= MAX_COEF_BITS + 1
    ensures Writable(c, DcToken(tbl, diff)) && |r.ehufsi| == 256
    ensures TrellisDc.DcRate(r, diff) == |TokenBits(c, DcToken(tbl, diff))|
  {
    hide NBits, Extra;
    DcWritable(c, tbl, diff);
  }

  /**
   The AC trellis for a sequential block: of all values from zero to the rounded quotient whose symbols have
   codes, those it leaves behind have the least sum of bits spent by the encoder and weighted error.
   */
  method QuantizeBlock(b: Band, c: Tables, tbl: nat, coef: array<int>)
    requires coef.Length == BLOCK_SIZE && WholeBand(b, c, tbl) && BelowSentinel(b)
    modifies coef
    ensures Values(b, coef[..], BLOCK_SIZE) && AllWritable(c, AcTokens(tbl, coef[..], 1, 0))
    ensures forall z: Block :: Values(b, z, BLOCK_SIZE) ==>
              && AllWritable(c, AcTokens(tbl, z, 1, 0))
              && |BitsOf(c, AcTokens(tbl, coef[..], 1, 0))| as real + Error(b, coef[..], BLOCK_SIZE)
                 <= |BitsOf(c, AcTokens(tbl, z, 1, 0))| as real + Error(b, z, BLOCK_SIZE)
    ensures coef[0] == old(coef[0])
  {
    hide Values, TotalCost, BitsOf, AcTokens, AllWritable, Error, BelowSentinel, TablesOk;
    QuantizeBand(b, coef);
    CostIsBits(b, c, tbl, coef[..]);
    forall z: Block | Values(b, z, BLOCK_SIZE)
      ensures AllWritable(c, AcTokens(tbl, z, 1, 0))
      ensures |BitsOf(c, AcTokens(tbl, coef[..], 1, 0))| as real + Error(b, coef[..], BLOCK_SIZE)
           <= |BitsOf(c, AcTokens(tbl, z, 1, 0))| as real + Error(b, z, BLOCK_SIZE)
    {
      CostIsBits(b, c, tbl, z);
    }
  }
}
