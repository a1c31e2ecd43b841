/**
 What the AC trellis of jcdctmgr.c minimizes: the bits of a band of coefficients and its weighted
 squared error, in exact arithmetic.
 */
module TrellisCosts {
  import opened Powers
  import opened Coefficients
  import opened PointTransform
  import opened HuffmanBlocks

  const SENTINEL_COST := 100000000000000000000000000000000000000.0
  const MAX_QUANTIZED := 1023

  /** Positions ss to se of a block: source values, quantizer steps, weights of the error, code sizes. */
  datatype Band = Band(ss: nat, se: nat, src: seq<int>, q: seq<nat>, w: seq<real>, ehufsi: seq<nat>)

  ghost predicate BandOk(b: Band) {
    && 1 <= b.ss <= b.se < BLOCK_SIZE && |b.src| == |b.q| == |b.w| == BLOCK_SIZE && |b.ehufsi| == 256
    && (forall i :: 0 <= i < BLOCK_SIZE ==> 0 < b.q[i] && 0.0 <= b.w[i])
    && (forall s :: 0 <= s < 256 ==> b.ehufsi[s] <= 16)
  }

  /** The rounded quotient of a magnitude, before it is capped. */
  function Quotient(x: nat, q: nat): nat
    requires 0 < q
  {
    (x + q / 2) / q
  }

  function Capped(v: nat): nat {
    if v > MAX_QUANTIZED then MAX_QUANTIZED else v
  }

  /** The k-th magnitude tried for a quotient: the largest of k + 1 bits, or the quotient itself. */
  function Candidate(v: nat, k: nat): nat
    requires k < NBits(v)
  {
    if k < NBits(v) - 1 then Pow2(k + 1) - 1 else v
  }

  function SquaredError(delta: int, w: real): real {
    (delta * delta) as real * w
  }

  /** The weighted squared error of value v at position i. */
  function Distortion(b: Band, i: nat, v: int): real
    requires i < |b.src| && i < |b.q| && i < |b.w|
  {
    SquaredError(v * b.q[i] - b.src[i], b.w[i])
  }

  /** The size of a symbol's code; no code outside the table. */
  function SizeOf(b: Band, s: nat): nat
    requires |b.ehufsi| == 256
  {
    if s < 256 then b.ehufsi[s] else 0
  }

  /** The bits of a value behind a run of zeros. */
  function StepRate(b: Band, run: nat, v: int): nat
    requires |b.ehufsi| == 256
  {
    run / 16 * b.ehufsi[0xF0] + SizeOf(b, 16 * (run % 16) + NBits(Abs(v))) + NBits(Abs(v))
  }

  /** All symbols of the step have codes. */
  predicate StepCodable(b: Band, run: nat, v: int)
    requires |b.ehufsi| == 256
  {
    SizeOf(b, 16 * (run % 16) + NBits(Abs(v))) != 0 && (run / 16 != 0 ==> b.ehufsi[0xF0] != 0)
  }

  /** How many zeros stand at the end of positions ss to n - 1. */
  function Run(b: Band, z: seq<int>, n: nat): (r: nat)
    requires b.ss <= n <= |z|
    ensures r <= n - b.ss
  {
    if n == b.ss then 0 else if z[n - 1] == 0 then Run(b, z, n - 1) + 1 else 0
  }

  predicate Sized(b: Band) {
    |b.src| == |b.q| == |b.w| == BLOCK_SIZE && |b.ehufsi| == 256
  }

  /** Bits and error of positions ss to n - 1, end-of-block symbol not included. */
  function Cost(b: Band, z: seq<int>, n: nat): real
    requires b.ss <= n <= |z| <= BLOCK_SIZE && Sized(b)
  {
    if n == b.ss then 0.0
    else
      Cost(b, z, n - 1) + Distortion(b, n - 1, z[n - 1])
      + if z[n - 1] == 0 then 0.0 else StepRate(b, Run(b, z, n - 1), z[n - 1]) as real
  }

  /** With the end-of-block symbol when the band ends in zeros. */
  function TotalCost(b: Band, z: seq<int>): real
    requires b.ss <= b.se < |z| <= BLOCK_SIZE && Sized(b)
  {
    Cost(b, z, b.se + 1) + if Run(b, z, b.se + 1) > 0 then b.ehufsi[0] as real else 0.0
  }

  /** A nonzero value the trellis may choose at position i. */
  ghost predicate Nonzero(b: Band, i: nat, v: int)
    requires i < |b.src| && i < |b.q| && 0 < b.q[i]
  {
    var c := Capped(Quotient(Abs(b.src[i]), b.q[i]));
    exists k :: 0 <= k < NBits(c) && v == Signed(b.src[i] < 0, Candidate(c, k))
  }

  /** A selection for positions ss to n - 1 all of whose symbols have codes. */
  ghost predicate Selection(b: Band, z: seq<int>, n: nat)
    requires BandOk(b) && b.ss <= n <= |z| <= BLOCK_SIZE
  {
    forall p :: b.ss <= p < n && z[p] != 0 ==> Nonzero(b, p, z[p]) && StepCodable(b, Run(b, z, p), z[p])
  }

  /** The error of leaving positions ss to n - 1 at zero. */
  function ZeroDistortion(b: Band, n: nat): real
    requires b.ss <= n <= BLOCK_SIZE && Sized(b)
  {
    if n == b.ss then 0.0 else ZeroDistortion(b, n - 1) + Distortion(b, n - 1, 0)
  }

  /** Zeros only add their error. */
  lemma {:induction false} CostOfRun(b: Band, z: seq<int>, m: nat, n: nat)
    requires b.ss <= m <= n <= |z| <= BLOCK_SIZE && Sized(b)
    requires forall p :: m <= p < n ==> z[p] == 0
    ensures Cost(b, z, n) == Cost(b, z, m) + ZeroDistortion(b, n) - ZeroDistortion(b, m)
    ensures Run(b, z, n) == Run(b, z, m) + (n - m)
    decreases n
  {
    hide Distortion;
    if m < n {
      CostOfRun(b, z, m, n - 1);
    }
  }

  /** The position behind the last nonzero value, or ss. */
  lemma {:induction false} RunIsZeros(b: Band, z: seq<int>, n: nat)
    requires b.ss <= n <= |z|
    ensures forall p :: n - Run(b, z, n) <= p < n ==> z[p] == 0
    ensures var m := n - Run(b, z, n); b.ss <= m && (m == b.ss || z[m - 1] != 0) && Run(b, z, m) == 0
  {
    if n > b.ss && z[n - 1] == 0 {
      RunIsZeros(b, z, n - 1);
    }
  }

  /** A coefficient's cost, seen from the last nonzero one before it. */
  lemma CostFromLast(b: Band, z: seq<int>, p: nat)
    requires b.ss <= p < |z| <= BLOCK_SIZE && Sized(b) && z[p] != 0
    ensures var m := p - Run(b, z, p);
            && b.ss <= m <= p && (m == b.ss || z[m - 1] != 0)
            && Cost(b, z, p + 1) == Cost(b, z, m) + (ZeroDistortion(b, p) - ZeroDistortion(b, m))
                                    + Distortion(b, p, z[p]) + StepRate(b, p - m, z[p]) as real
  {
    hide Distortion, StepRate;
    RunIsZeros(b, z, p);
    CostOfRun(b, z, p - Run(b, z, p), p);
  }

  /** Only the positions up to n matter. */
  lemma {:induction false} CostAgree(b: Band, y: seq<int>, z: seq<int>, n: nat)
    requires b.ss <= n <= |y| && n <= |z| && |y| <= BLOCK_SIZE && |z| <= BLOCK_SIZE && Sized(b)
    requires forall p :: b.ss <= p < n ==> y[p] == z[p]
    ensures Cost(b, y, n) == Cost(b, z, n) && Run(b, y, n) == Run(b, z, n)
  {
    hide Distortion, StepRate;
    if n > b.ss {
      CostAgree(b, y, z, n - 1);
    }
  }

  // ------------------------------------------------------------ costs stay below the sentinel

  const STEP_BITS := 100

  /** A candidate is no further from the source than zero is. */
  lemma CandidateIsNear(b: Band, i: nat, v: int)
    requires BandOk(b) && i < BLOCK_SIZE && Nonzero(b, i, v)
    ensures v != 0 && 0 < NBits(Abs(v)) <= 10
    ensures Distortion(b, i, v) <= Distortion(b, i, 0)
  {
    hide Distortion, Candidate, Quotient, NBits;
    var x, q := Abs(b.src[i]), b.q[i];
    var c := Capped(Quotient(x, q));
    var k :| 0 <= k < NBits(c) && v == Signed(b.src[i] < 0, Candidate(c, k));
    CandidateRange(c, k);
    NearerThanZero(Candidate(c, k), c, x, q);
    SmallerSquare(Candidate(c, k) * q - x, x, b.w[i]);
    DistortionIs(b, i, Candidate(c, k));
    DistortionIs(b, i, 0);
  }

  /** The code measures the error of the magnitude. */
  lemma DistortionIs(b: Band, i: nat, a: nat)
    requires i < |b.src| && i < |b.q| && i < |b.w|
    ensures var d := a * b.q[i] - Abs(b.src[i]);
            Distortion(b, i, Signed(b.src[i] < 0, a)) == SquaredError(d, b.w[i])
  {
    var d := a * b.q[i] - Abs(b.src[i]);
    MulNegated(a, b.q[i]);
    if b.src[i] < 0 {
      var m := Signed(true, a);
      assert m * b.q[i] - b.src[i] == 0 - d;
      SquareOfNegative(d);
    }
  }

  lemma SquareOfNegative(d: int)
    ensures (-d) * (-d) == d * d
  {
  }

  lemma CandidateRange(c: nat, k: nat)
    requires k < NBits(c) && c <= MAX_QUANTIZED
    ensures 0 < Candidate(c, k) <= c && NBits(Candidate(c, k)) == k + 1 <= 10
  {
    hide Pow2, NBits;
    NoBits();
    NBitsRange(c);
    NBitsLimit(c, 10);
    TenBits();
    DoublePower(k);
    Pow2Monotone(k + 1, NBits(c) - 1 + 1);
    if k < NBits(c) - 1 {
      Pow2Monotone(k + 1, NBits(c) - 1);
      NBitsLimit(Pow2(k + 1) - 1, k + 1);
      NBitsLimit(Pow2(k + 1) - 1, k);
    }
  }

  lemma TenBits()
    ensures Pow2(10) == 1024
  {
  }

  lemma NearerThanZero(a: nat, c: nat, x: nat, q: nat)
    requires 0 < q && 0 < a <= c <= Quotient(x, q)
    ensures 0 <= a * q <= 2 * x
  {
    var v := Quotient(x, q);
    QuotientBounds(x + q / 2, q);
    MulMonotone(a, v, q);
    MulMonotone(1, v, q);
    MulSign(a, q);
  }

  lemma SmallerSquare(d: int, x: int, w: real)
    requires 0 <= d + x && d <= x && 0.0 <= w
    ensures SquaredError(d, w) <= SquaredError(0 - x, w)
  {
    SquareOfNegative(x);
    SquareOfNegative(d);
    SquareMonotone(Abs(d), x);
    var dd, xx := d * d, x * x;
    assert dd <= xx;
    ScaledReal(dd as real, xx as real, w);
  }

  lemma SquareMonotone(a: nat, b: nat)
    requires a <= b
    ensures a * a <= b * b
  {
    MulMonotone(a, b, a);
    MulMonotone(a, b, b);
  }

  lemma ScaledReal(x: real, y: real, w: real)
    requires x <= y && 0.0 <= w
    ensures x * w <= y * w
  {
  }

  lemma StepIsSmall(b: Band, run: nat, v: int)
    requires |b.ehufsi| == 256 && (forall s :: 0 <= s < 256 ==> b.ehufsi[s] <= 16) && run < BLOCK_SIZE
    requires NBits(Abs(v)) <= 10
    ensures StepRate(b, run, v) <= STEP_BITS
  {
    hide NBits;
    var m := run / 16;
    assert m <= 3;
    MulMonotone(m, 3, b.ehufsi[0xF0]);
  }

  /** No selection costs as much as the sentinel, unless leaving out everything already does. */
  lemma {:induction false} SelectionBound(b: Band, z: seq<int>, n: nat)
    requires BandOk(b) && b.ss <= n <= |z| <= BLOCK_SIZE && Selection(b, z, n)
    ensures Cost(b, z, n) <= ZeroDistortion(b, n) + (STEP_BITS * (n - b.ss)) as real
  {
    hide Distortion, StepRate, Nonzero, StepCodable, NBits;
    if n > b.ss {
      SelectionBound(b, z, n - 1);
      if z[n - 1] != 0 {
        CandidateIsNear(b, n - 1, z[n - 1]);
        StepIsSmall(b, Run(b, z, n - 1), z[n - 1]);
      }
    }
  }

  lemma {:induction false} ZeroDistortionGrows(b: Band, m: nat, n: nat)
    requires BandOk(b) && b.ss <= m <= n <= BLOCK_SIZE
    ensures 0.0 <= ZeroDistortion(b, m) <= ZeroDistortion(b, n)
    decreases n
  {
    hide Distortion;
    if n > b.ss {
      DistortionPositive(b, n - 1);
      ZeroDistortionGrows(b, if m == n then m - 1 else m, n - 1);
    }
  }

  lemma DistortionPositive(b: Band, i: nat)
    requires BandOk(b) && i < BLOCK_SIZE
    ensures 0.0 <= Distortion(b, i, 0)
  {
    var d := 0 * b.q[i] - b.src[i];
    SquarePositive(d);
    ScaledReal(0.0, (d * d) as real, b.w[i]);
  }

  lemma SquarePositive(d: int)
    ensures 0 <= d * d
  {
  }
}
