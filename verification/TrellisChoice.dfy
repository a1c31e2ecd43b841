/** The candidates of the AC trellis stand for all values between zero and the rounded quotient. */
module TrellisChoice {
  import opened Powers
  import opened Coefficients
  import opened PointTransform
  import opened HuffmanBlocks
  import opened TrellisCosts

  /** A nonzero value of the source's sign, no larger than the source over the step, rounded, and 1023. */
  predicate Admissible(b: Band, i: nat, v: int)
    requires i < |b.src| && i < |b.q|
  {
    && v != 0 && (v < 0 <==> b.src[i] < 0) && Abs(v) <= MAX_QUANTIZED
    && Abs(v) * b.q[i] <= Abs(b.src[i]) + b.q[i] / 2
  }

  /** Admissible values and zeros at positions ss to n - 1 all of whose symbols have codes. */
  ghost predicate Values(b: Band, z: seq<int>, n: nat)
    requires BandOk(b) && b.ss <= n <= |z| <= BLOCK_SIZE
  {
    forall p :: b.ss <= p < n && z[p] != 0 ==> Admissible(b, p, z[p]) && StepCodable(b, Run(b, z, p), z[p])
  }

  /** A magnitude is within the rounded quotient exactly if its multiple is within the source and half a step. */
  lemma WithinQuotient(a: nat, x: nat, q: nat)
    requires 0 < q
    ensures a <= Quotient(x, q) <==> a * q <= x + q / 2
  {
    QuotientBounds(x + q / 2, q);
    if a <= Quotient(x, q) {
      MulMonotone(a, Quotient(x, q), q);
    } else {
      MulMonotone(Quotient(x, q) + 1, a, q);
    }
  }

  lemma CandidateIsAdmissible(b: Band, i: nat, v: int)
    requires BandOk(b) && i < BLOCK_SIZE && Nonzero(b, i, v)
    ensures Admissible(b, i, v)
  {
    hide Candidate, Quotient, NBits;
    var c := Capped(Quotient(Abs(b.src[i]), b.q[i]));
    var k :| 0 <= k < NBits(c) && v == Signed(b.src[i] < 0, Candidate(c, k));
    CandidateRange(c, k);
    WithinQuotient(Candidate(c, k), Abs(b.src[i]), b.q[i]);
  }

  /** A selection of candidates is one of admissible values. */
  lemma SelectionIsValues(b: Band, z: seq<int>, n: nat)
    requires BandOk(b) && b.ss <= n <= |z| <= BLOCK_SIZE && Selection(b, z, n)
    ensures Values(b, z, n)
  {
    hide Nonzero, Admissible, StepCodable;
    forall p | b.ss <= p < n && z[p] != 0
      ensures Admissible(b, p, z[p]) && StepCodable(b, Run(b, z, p), z[p])
    {
      CandidateIsAdmissible(b, p, z[p]);
    }
  }

  /** The candidate with as many bits as an admissible value. */
  function Snapped(b: Band, i: nat, v: int): int
    requires i < |b.src| && i < |b.q| && 0 < b.q[i]
  {
    var c := Capped(Quotient(Abs(b.src[i]), b.q[i]));
    if 0 < NBits(Abs(v)) <= NBits(c) then Signed(b.src[i] < 0, Candidate(c, NBits(Abs(v)) - 1)) else v
  }

  /** No value of as many bits that is within the quotient is larger than the candidate. */
  lemma LargestOfItsBits(c: nat, a: nat)
    requires 0 < a <= c <= MAX_QUANTIZED
    ensures 0 < NBits(a) <= NBits(c) && a <= Candidate(c, NBits(a) - 1)
  {
    hide Pow2, NBits;
    NBitsRange(a);
    NBitsRange(c);
    NBitsLimit(a, NBits(c));
  }

  /** Going up to the candidate leads towards the source. */
  lemma UpIsNearer(a: nat, d: nat, x: nat, q: nat)
    requires 0 < q && a <= d <= Quotient(x, q)
    ensures Abs(d * q - x) <= Abs(a * q - x)
  {
    hide Quotient;
    WithinQuotient(d, x, q);
    MulMonotone(a, d, q);
    if a < d {
      MulMonotone(a + 1, d, q);
      MulOneMore(a, q);
    }
  }

  lemma SquaresCompare(d: int, e: int, w: real)
    requires Abs(d) <= Abs(e) && 0.0 <= w
    ensures SquaredError(d, w) <= SquaredError(e, w)
  {
    SquareOfNegative(d);
    SquareOfNegative(e);
    SquareMonotone(Abs(d), Abs(e));
    var dd, ee := d * d, e * e;
    assert dd <= ee;
    ScaledReal(dd as real, ee as real, w);
  }

  /** The candidate takes the same bits and has no larger error. */
  lemma SnappedIsNearer(b: Band, i: nat, v: int)
    requires BandOk(b) && i < BLOCK_SIZE && Admissible(b, i, v)
    ensures var y := Snapped(b, i, v);
            && y != 0 && Nonzero(b, i, y) && NBits(Abs(y)) == NBits(Abs(v))
            && Distortion(b, i, y) <= Distortion(b, i, v)
  {
    hide Distortion, Candidate, Quotient, NBits, SquaredError;
    var x, q := Abs(b.src[i]), b.q[i];
    var c := Capped(Quotient(x, q));
    WithinQuotient(Abs(v), x, q);
    LargestOfItsBits(c, Abs(v));
    var k := NBits(Abs(v)) - 1;
    CandidateRange(c, k);
    UpIsNearer(Abs(v), Candidate(c, k), x, q);
    SquaresCompare(Candidate(c, k) * q - x, Abs(v) * q - x, b.w[i]);
    DistortionIs(b, i, Candidate(c, k));
    DistortionIs(b, i, Abs(v));
  }

  lemma SameStep(b: Band, run: nat, v: int, y: int)
    requires |b.ehufsi| == 256 && NBits(Abs(v)) == NBits(Abs(y))
    ensures StepRate(b, run, v) == StepRate(b, run, y) && (StepCodable(b, run, v) <==> StepCodable(b, run, y))
  {
  }

  /** Each value replaced by the candidate that stands for it. */
  ghost predicate StandsFor(b: Band, y: seq<int>, z: seq<int>, n: nat)
    requires BandOk(b) && b.ss <= n <= BLOCK_SIZE == |y| == |z|
  {
    forall p :: b.ss <= p < n ==> y[p] == if z[p] == 0 then 0 else Snapped(b, p, z[p])
  }

  lemma {:induction false} SnappedCosts(b: Band, y: seq<int>, z: seq<int>, n: nat)
    requires BandOk(b) && b.ss <= n <= BLOCK_SIZE == |y| == |z| && Values(b, z, n) && StandsFor(b, y, z, n)
    ensures Run(b, y, n) == Run(b, z, n) && Cost(b, y, n) <= Cost(b, z, n) && Selection(b, y, n)
  {
    hide Distortion, StepRate, StepCodable, Nonzero, Admissible, Snapped, NBits;
    if n > b.ss {
      SnappedCosts(b, y, z, n - 1);
      if z[n - 1] != 0 {
        SnappedIsNearer(b, n - 1, z[n - 1]);
        SameStep(b, Run(b, z, n - 1), z[n - 1], y[n - 1]);
      }
    }
  }

  /** For any admissible values there are candidates that cost no more. */
  lemma CandidatesSuffice(b: Band, z: seq<int>) returns (y: seq<int>)
    requires BandOk(b) && |z| == BLOCK_SIZE && Values(b, z, b.se + 1)
    ensures |y| == BLOCK_SIZE && Selection(b, y, b.se + 1) && TotalCost(b, y) <= TotalCost(b, z)
  {
    hide Selection, Snapped, Cost;
    y := seq(BLOCK_SIZE, p requires 0 <= p < BLOCK_SIZE => if z[p] == 0 then 0 else Snapped(b, p, z[p]));
    SnappedCosts(b, y, z, b.se + 1);
  }
}
