/** The AC trellis of jcdctmgr.c: a dynamic program over the positions of a band, and its backtracking. */
module TrellisAc {
  import opened Coefficients
  import opened PointTransform
  import opened HuffmanBlocks
  import opened TrellisCosts
  import opened TrellisChoice

  /** A selection whose last nonzero value stands at position p. */
  ghost predicate EndsAt(b: Band, z: seq<int>, p: nat) {
    BandOk(b) && |z| == BLOCK_SIZE && b.ss <= p < BLOCK_SIZE && z[p] != 0 && Selection(b, z, p + 1)
  }

  /** Going from a nonzero value at j (or the start, j = ss - 1) to value v at i. */
  function PathCost(b: Band, acc: seq<real>, j: nat, i: nat, v: int): real
    requires Sized(b) && |acc| == BLOCK_SIZE && b.ss <= j + 1 <= i < BLOCK_SIZE
  {
    acc[j] + (ZeroDistortion(b, i) - ZeroDistortion(b, j + 1)) + Distortion(b, i, v) + StepRate(b, i - 1 - j, v) as real
  }

  /** A position from which a path can go on. */
  predicate Reached(b: Band, c: seq<int>, acc: seq<real>, j: nat)
    requires |c| == |acc| == BLOCK_SIZE
  {
    j + 1 == b.ss || (b.ss <= j < BLOCK_SIZE && c[j] != 0 && acc[j] < SENTINEL_COST)
  }

  /** Below the sentinel, acc[p] is the cost of the path that ends with c[p] and comes from from[p]. */
  ghost predicate Witnessed(b: Band, c: seq<int>, acc: seq<real>, from: seq<nat>, p: nat)
    requires BandOk(b) && |c| == |acc| == |from| == BLOCK_SIZE && b.ss <= p < BLOCK_SIZE
  {
    acc[p] < SENTINEL_COST ==>
      && Nonzero(b, p, c[p]) && c[p] != 0
      && b.ss <= from[p] + 1 <= p && Reached(b, c, acc, from[p])
      && StepCodable(b, p - 1 - from[p], c[p])
      && acc[p] == PathCost(b, acc, from[p], p, c[p])
  }

  /** No selection that ends at p costs less. */
  ghost predicate Minimal(b: Band, c: seq<int>, acc: seq<real>, p: nat)
    requires BandOk(b) && |c| == |acc| == BLOCK_SIZE && b.ss <= p < BLOCK_SIZE
  {
    forall z :: EndsAt(b, z, p) ==> acc[p] <= Cost(b, z, p + 1) && acc[p] < SENTINEL_COST && c[p] != 0
  }

  ghost predicate Settled(b: Band, c: seq<int>, acc: seq<real>, from: seq<nat>, n: nat) {
    && BandOk(b) && |c| == |acc| == |from| == BLOCK_SIZE && b.ss <= n <= BLOCK_SIZE
    && acc[b.ss - 1] == 0.0
    && (forall p :: b.ss <= p < n ==> Witnessed(b, c, acc, from, p) && Minimal(b, c, acc, p))
    && (forall p :: b.ss <= p < n && c[p] == 0 ==> acc[p] == SENTINEL_COST)
  }

  /** The limit up to which the sentinel stands for "no path". */
  ghost predicate BelowSentinel(b: Band)
    requires BandOk(b)
  {
    ZeroDistortion(b, b.se + 1) + (STEP_BITS * BLOCK_SIZE + 16) as real < SENTINEL_COST
  }

  /** zero[p] is the error of leaving positions ss to p at zero. */
  ghost predicate ZerosAre(b: Band, zero: seq<real>, n: nat)
    requires BandOk(b)
  {
    |zero| == BLOCK_SIZE && b.ss <= n <= BLOCK_SIZE && forall p :: b.ss <= p + 1 <= n ==> zero[p] == ZeroDistortion(b, p + 1)
  }

  /** What one candidate costs, and when it can be coded. */
  lemma CandidateCost(b: Band, acc: seq<real>, zero: seq<real>, i: nat, j: nat, qval: nat, k: nat)
    requires BandOk(b) && |acc| == BLOCK_SIZE && b.ss <= j + 1 <= i < BLOCK_SIZE && ZerosAre(b, zero, i)
    requires qval == Capped(Quotient(Abs(b.src[i]), b.q[i])) && k < NBits(qval)
    requires (i - 1 - j) / 16 == 0 || b.ehufsi[0xF0] != 0
    ensures k < 10
    ensures var run, a := i - 1 - j, Candidate(qval, k);
            var v, s, d := Signed(b.src[i] < 0, a), 16 * (run % 16) + (k + 1), a * b.q[i] - Abs(b.src[i]);
            && Nonzero(b, i, v) && (StepCodable(b, run, v) <==> b.ehufsi[s] != 0)
            && PathCost(b, acc, j, i, v) == (b.ehufsi[s] + (k + 1) + run / 16 * b.ehufsi[0xF0]) as real
                                            + SquaredError(d, b.w[i]) + (zero[i - 1] - zero[j] + acc[j])
  {
    hide ZeroDistortion, NBits, Candidate, Quotient, Distortion, SquaredError;
    CandidateRange(qval, k);
    DistortionIs(b, i, Candidate(qval, k));
  }

  lemma EveryCandidate(b: Band, acc: seq<real>, i: nat, j: nat, qval: nat, best: real)
    requires BandOk(b) && |acc| == BLOCK_SIZE && b.ss <= j + 1 <= i < BLOCK_SIZE
    requires qval == Capped(Quotient(Abs(b.src[i]), b.q[i]))
    requires forall m :: 0 <= m < NBits(qval) && StepCodable(b, i - 1 - j, Signed(b.src[i] < 0, Candidate(qval, m))) ==>
               best <= PathCost(b, acc, j, i, Signed(b.src[i] < 0, Candidate(qval, m)))
    ensures forall v :: Nonzero(b, i, v) && StepCodable(b, i - 1 - j, v) ==> best <= PathCost(b, acc, j, i, v)
  {
    hide PathCost, StepCodable, NBits, Quotient;
  }

  /** The candidates at position i, tried behind a path that ends at j. */
  method TryCandidates(b: Band, acc: seq<real>, zero: seq<real>, i: nat, j: nat, qval: nat, best0: real, value0: int,
                       from0: nat)
    returns (best: real, value: int, from: nat)
    requires BandOk(b) && |acc| == BLOCK_SIZE && b.ss <= j + 1 <= i < BLOCK_SIZE && ZerosAre(b, zero, i)
    requires qval == Capped(Quotient(Abs(b.src[i]), b.q[i]))
    requires (i - 1 - j) / 16 == 0 || b.ehufsi[0xF0] != 0
    ensures best <= best0
    ensures forall v :: Nonzero(b, i, v) && StepCodable(b, i - 1 - j, v) ==> best <= PathCost(b, acc, j, i, v)
    ensures best == best0 ==> value == value0 && from == from0
    ensures best < best0 ==>
              from == j && Nonzero(b, i, value) && StepCodable(b, i - 1 - j, value) && best == PathCost(b, acc, j, i, value)
  {
    hide ZeroDistortion, NBits, Candidate, Quotient, PathCost, StepCodable, Nonzero, Signed, ZerosAre, SquaredError;
    best, value, from := best0, value0, from0;
    var zeroRun := i - 1 - j;
    var runBits := zeroRun / 16 * b.ehufsi[0xF0];
    for k := 0 to NBits(qval)
      invariant best <= best0
      invariant forall m :: 0 <= m < k && StepCodable(b, zeroRun, Signed(b.src[i] < 0, Candidate(qval, m))) ==>
                  best <= PathCost(b, acc, j, i, Signed(b.src[i] < 0, Candidate(qval, m)))
      invariant best == best0 ==> value == value0 && from == from0
      invariant best < best0 ==>
        from == j && Nonzero(b, i, value) && StepCodable(b, zeroRun, value) && best == PathCost(b, acc, j, i, value)
    {
      CandidateCost(b, acc, zero, i, j, qval, k);
      ZeroShape(b, zero, i);
      var candidate := Candidate(qval, k);
      var coefBits := b.ehufsi[16 * (zeroRun % 16) + (k + 1)];
      if coefBits != 0 {
        var delta := candidate * b.q[i] - Abs(b.src[i]);
        var rate := coefBits + (k + 1) + runBits;
        var cost := rate as real + SquaredError(delta, b.w[i]);
        cost := cost + (zero[i - 1] - zero[j] + acc[j]);
        if cost < best {
          value := Signed(b.src[i] < 0, candidate);
          best := cost;
          from := j;
        }
      }
    }
    EveryCandidate(b, acc, i, j, qval, best);
  }

  lemma ZeroShape(b: Band, zero: seq<real>, n: nat)
    requires BandOk(b) && ZerosAre(b, zero, n)
    ensures |zero| == BLOCK_SIZE
  {
  }

  // ---------------------------------------------------------------------- one position

  /** The last nonzero value of a selection before position i is where a path went through. */
  lemma PathOf(b: Band, c: seq<int>, acc: seq<real>, from: seq<nat>, z: seq<int>, i: nat)
    requires Settled(b, c, acc, from, i) && EndsAt(b, z, i) && i <= b.se && BelowSentinel(b)
    ensures Run(b, z, i) <= i - b.ss
    ensures var j := i - 1 - Run(b, z, i);
            && Reached(b, c, acc, j)
            && Nonzero(b, i, z[i]) && StepCodable(b, i - 1 - j, z[i])
            && PathCost(b, acc, j, i, z[i]) <= Cost(b, z, i + 1) < SENTINEL_COST
  {
    hide Distortion, StepRate, Nonzero, StepCodable, NBits, ZeroDistortion, Cost, Settled, Reached;
    CostFromLast(b, z, i);
    PathStart(b, c, acc, from, z, i);
    SelectionBound(b, z, i + 1);
    ZeroDistortionGrows(b, i + 1, b.se + 1);
  }

  lemma PathStart(b: Band, c: seq<int>, acc: seq<real>, from: seq<nat>, z: seq<int>, i: nat)
    requires Settled(b, c, acc, from, i) && EndsAt(b, z, i)
    ensures |acc| == BLOCK_SIZE && Run(b, z, i) <= i - b.ss
    ensures var j := i - 1 - Run(b, z, i); Reached(b, c, acc, j) && acc[j] <= Cost(b, z, j + 1)
  {
    hide Nonzero, StepCodable, ZeroDistortion, Cost, Witnessed;
    var j := i - 1 - Run(b, z, i);
    RunIsZeros(b, z, i);
    if j + 1 > b.ss {
      assert EndsAt(b, z, j);
      assert Minimal(b, c, acc, j);
    } else {
      NothingCosts(b, z);
    }
  }

  lemma NothingCosts(b: Band, z: seq<int>)
    requires Sized(b) && b.ss <= |z| <= BLOCK_SIZE
    ensures Cost(b, z, b.ss) == 0.0
  {
  }

  /** Selections that end at i and whose last nonzero value before stands in front of j. */
  ghost predicate TriedUpTo(b: Band, best: real, i: nat, j: nat) {
    forall z :: EndsAt(b, z, i) && i < Run(b, z, i) + j + 1 ==> best <= Cost(b, z, i + 1)
  }

  /** A start that was not skipped has been tried with every candidate. */
  lemma TriedStart(b: Band, c: seq<int>, acc: seq<real>, from: seq<nat>, i: nat, j: nat, best0: real, best: real)
    requires Settled(b, c, acc, from, i) && i <= b.se && BelowSentinel(b) && b.ss <= j + 1 <= i && best <= best0
    requires TriedUpTo(b, best0, i, j)
    requires Reached(b, c, acc, j) && ((i - 1 - j) / 16 == 0 || b.ehufsi[0xF0] != 0) ==>
               forall v :: Nonzero(b, i, v) && StepCodable(b, i - 1 - j, v) ==> best <= PathCost(b, acc, j, i, v)
    ensures TriedUpTo(b, best, i, j + 1)
  {
    hide Nonzero, PathCost, ZeroDistortion, Cost, Settled, BelowSentinel;
    forall z | EndsAt(b, z, i) && i < Run(b, z, i) + (j + 1) + 1
      ensures best <= Cost(b, z, i + 1)
    {
      PathOf(b, c, acc, from, z, i);
    }
  }

  lemma NothingTried(b: Band, best: real, i: nat)
    requires b.ss <= i && 1 <= b.ss
    ensures TriedUpTo(b, best, i, b.ss - 1)
  {
  }

  /** All starts tried: the position is settled. */
  lemma SettledNext(b: Band, c: seq<int>, acc: seq<real>, from: seq<nat>, i: nat, c': seq<int>, acc': seq<real>,
                    from': seq<nat>)
    requires Settled(b, c, acc, from, i) && i <= b.se && BelowSentinel(b)
    requires |c'| == |acc'| == |from'| == BLOCK_SIZE
    requires forall p :: 0 <= p < BLOCK_SIZE && p != i ==> c'[p] == c[p] && acc'[p] == acc[p] && from'[p] == from[p]
    requires TriedUpTo(b, acc'[i], i, i) && Witnessed(b, c', acc', from', i)
    requires c'[i] == 0 ==> acc'[i] == SENTINEL_COST
    ensures Settled(b, c', acc', from', i + 1)
  {
    hide Nonzero, PathCost, ZeroDistortion, Cost, StepCodable, BelowSentinel;
    forall z | EndsAt(b, z, i)
      ensures acc'[i] <= Cost(b, z, i + 1) && acc'[i] < SENTINEL_COST && c'[i] != 0
    {
      PathOf(b, c, acc, from, z, i);
    }
    forall p | b.ss <= p < i
      ensures Witnessed(b, c', acc', from', p) && Minimal(b, c', acc', p)
    {
      assert Witnessed(b, c, acc, from, p) && Minimal(b, c, acc, p);
      WitnessedSame(b, c, acc, from, p, c', acc', from');
    }
  }

  lemma WitnessedSame(b: Band, c: seq<int>, acc: seq<real>, from: seq<nat>, p: nat, c': seq<int>, acc': seq<real>,
                      from': seq<nat>)
    requires BandOk(b) && |c| == |acc| == |from| == |c'| == |acc'| == |from'| == BLOCK_SIZE && b.ss <= p < BLOCK_SIZE
    requires forall m :: 0 <= m <= p ==> c'[m] == c[m] && acc'[m] == acc[m] && from'[m] == from[m]
    requires Witnessed(b, c, acc, from, p)
    ensures Witnessed(b, c', acc', from', p)
  {
    hide Nonzero, StepCodable, ZeroDistortion, Distortion, StepRate;
  }

  /** A quotient of 0 leaves no choice. */
  lemma NoChoice(b: Band, i: nat)
    requires BandOk(b) && b.ss <= i <= b.se && Quotient(Abs(b.src[i]), b.q[i]) == 0
    ensures forall z :: !EndsAt(b, z, i)
  {
    hide Quotient;
    NoBits();
  }

  /** All starts and candidates for position i; the arrays hold the best so far at i. */
  method SettlePosition(b: Band, i: nat, qval: nat, coef: array<int>, acc: array<real>, from: array<nat>,
                        zero: array<real>)
    requires coef.Length == acc.Length == from.Length == zero.Length == BLOCK_SIZE
    requires acc != zero && from as object != coef as object
    requires BandOk(b) && Settled(b, coef[..], acc[..], from[..], i) && b.ss <= i <= b.se && BelowSentinel(b)
    requires ZerosAre(b, zero[..], i) && qval == Capped(Quotient(Abs(b.src[i]), b.q[i]))
    modifies coef, acc, from
    ensures Settled(b, coef[..], acc[..], from[..], i + 1)
    ensures forall p :: 0 <= p < BLOCK_SIZE && p != i ==> coef[p] == old(coef[p])
  {
    hide Settled, ZeroDistortion, Nonzero, PathCost, StepCodable, Quotient, BelowSentinel, ZerosAre, TriedUpTo, BandOk;
    BandFacts(b);
    ghost var c, a, f := coef[..], acc[..], from[..];
    acc[i] := SENTINEL_COST;
    NothingTried(b, SENTINEL_COST, i);
    for j := b.ss - 1 to i
      invariant forall p :: 0 <= p < BLOCK_SIZE && p != i ==> coef[p] == c[p] && acc[p] == a[p] && from[p] == f[p]
      invariant TriedUpTo(b, acc[i], i, j) && acc[i] <= SENTINEL_COST
      invariant acc[i] == SENTINEL_COST || Found(b, c, a, i, acc[i], coef[i], from[i])
    {
      ghost var before := acc[i];
      if (j + 1 == b.ss || coef[j] != 0) && ((i - 1 - j) / 16 == 0 || b.ehufsi[0xF0] != 0) {
        var best, value, start := TryCandidates(b, acc[..], zero[..], i, j, qval, acc[i], coef[i], from[i]);
        SamePaths(b, a, acc[..], i, j);
        FoundOne(b, c, a, f, i, j, before, best, value);
        coef[i], acc[i], from[i] := value, best, start;
      }
      TriedStart(b, c, a, f, i, j, before, acc[i]);
    }
    FoundIsWitnessed(b, c, a, f, i, coef[..], acc[..], from[..]);
    SettledNext(b, c, a, f, i, coef[..], acc[..], from[..]);
  }

  lemma BandFacts(b: Band)
    requires BandOk(b)
    ensures 1 <= b.ss <= b.se < BLOCK_SIZE && Sized(b) && forall i :: 0 <= i < BLOCK_SIZE ==> 0 < b.q[i]
  {
  }

  /** The best path to i so far. */
  ghost predicate Found(b: Band, c: seq<int>, acc: seq<real>, i: nat, cost: real, v: int, j: nat)
    requires BandOk(b) && |c| == |acc| == BLOCK_SIZE && b.ss <= i < BLOCK_SIZE
  {
    && b.ss <= j + 1 <= i && Reached(b, c, acc, j) && cost < SENTINEL_COST
    && Nonzero(b, i, v) && v != 0 && StepCodable(b, i - 1 - j, v) && cost == PathCost(b, acc, j, i, v)
  }

  lemma SamePaths(b: Band, a: seq<real>, acc: seq<real>, i: nat, j: nat)
    requires Sized(b) && |a| == |acc| == BLOCK_SIZE && b.ss <= j + 1 <= i < BLOCK_SIZE && a[j] == acc[j]
    ensures forall v :: PathCost(b, acc, j, i, v) == PathCost(b, a, j, i, v)
  {
    hide ZeroDistortion, Distortion, StepRate;
  }

  /** An improvement below the sentinel comes from a position that was reached. */
  lemma FoundOne(b: Band, c: seq<int>, a: seq<real>, f: seq<nat>, i: nat, j: nat, before: real, best: real, v: int)
    requires Settled(b, c, a, f, i) && i <= b.se && BelowSentinel(b) && b.ss <= j + 1 <= i
    requires j + 1 == b.ss || c[j] != 0
    requires best <= before <= SENTINEL_COST
    requires best < before ==> Nonzero(b, i, v) && StepCodable(b, i - 1 - j, v) && best == PathCost(b, a, j, i, v)
    ensures best < before ==> Found(b, c, a, i, best, v, j)
  {
    hide Nonzero, StepCodable;
    if best < before {
      CandidateIsNear(b, i, v);
      PathIsDearer(b, a, j, i, v);
      assert j + 1 > b.ss ==> Witnessed(b, c, a, f, j);
      assert j + 1 > b.ss ==> Reached(b, c, a, j);
    }
  }

  lemma PathIsDearer(b: Band, a: seq<real>, j: nat, i: nat, v: int)
    requires BandOk(b) && |a| == BLOCK_SIZE && b.ss <= j + 1 <= i < BLOCK_SIZE
    ensures a[j] <= PathCost(b, a, j, i, v)
  {
    hide ZeroDistortion, StepRate;
    ZeroDistortionGrows(b, j + 1, i);
    var d := v * b.q[i] - b.src[i];
    SquarePositive(d);
    ScaledReal(0.0, (d * d) as real, b.w[i]);
  }

  lemma FoundIsWitnessed(b: Band, c: seq<int>, a: seq<real>, f: seq<nat>, i: nat, c': seq<int>, a': seq<real>,
                         f': seq<nat>)
    requires Settled(b, c, a, f, i) && i <= b.se && |c'| == |a'| == |f'| == BLOCK_SIZE
    requires forall p :: 0 <= p < BLOCK_SIZE && p != i ==> c'[p] == c[p] && a'[p] == a[p] && f'[p] == f[p]
    requires a'[i] == SENTINEL_COST || Found(b, c, a, i, a'[i], c'[i], f'[i])
    ensures Witnessed(b, c', a', f', i) && (c'[i] == 0 ==> a'[i] == SENTINEL_COST)
  {
    hide Nonzero, StepCodable, ZeroDistortion, Distortion, StepRate, Settled;
    SettledShape(b, c, a, f, i);
  }

  lemma SettledShape(b: Band, c: seq<int>, a: seq<real>, f: seq<nat>, n: nat)
    requires Settled(b, c, a, f, n)
    ensures BandOk(b) && |c| == |a| == |f| == BLOCK_SIZE
  {
  }

  // -------------------------------------------------------------------- the whole band

  /** The cost of ending the block behind the value at p (p = ss - 1: of an all-zero band). */
  function EndCost(b: Band, acc: seq<real>, p: nat): real
    requires Sized(b) && |acc| == BLOCK_SIZE && b.ss <= p + 1 <= b.se + 1 <= BLOCK_SIZE
  {
    acc[p] + (ZeroDistortion(b, b.se + 1) - ZeroDistortion(b, p + 1)) + if p < b.se then b.ehufsi[0] as real else 0.0
  }

  /** No selection costs less than the cheapest end. */
  lemma EndsAreMinimal(b: Band, c: seq<int>, acc: seq<real>, from: seq<nat>, best: real, z: seq<int>)
    requires Settled(b, c, acc, from, b.se + 1) && BelowSentinel(b)
    requires |z| == BLOCK_SIZE && Selection(b, z, b.se + 1)
    requires best <= EndCost(b, acc, b.ss - 1)
    requires forall p :: b.ss <= p <= b.se && c[p] != 0 ==> best <= EndCost(b, acc, p)
    ensures best <= TotalCost(b, z)
  {
    hide Nonzero, StepCodable, ZeroDistortion, Distortion, StepRate, Cost;
    var n := b.se + 1;
    RunIsZeros(b, z, n);
    var m := n - Run(b, z, n);
    CostOfRun(b, z, m, n);
    NothingCosts(b, z);
    NoZeroDistortion(b);
    if m > b.ss {
      assert EndsAt(b, z, m - 1);
      assert Minimal(b, c, acc, m - 1);
    }
  }

  lemma NoZeroDistortion(b: Band)
    requires Sized(b) && b.ss <= BLOCK_SIZE
    ensures ZeroDistortion(b, b.ss) == 0.0
  {
  }

  /** The values on the path that ends at `last`, zeros everywhere else. */
  function Traced(b: Band, c: seq<int>, from: seq<nat>, last: nat, n: nat): (z: seq<int>)
    requires |c| == |from| == BLOCK_SIZE && b.ss <= n <= BLOCK_SIZE
    ensures |z| == n
    decreases n
  {
    if n == b.ss then c[..n]
    else if n - 1 > last then Traced(b, c, from, last, n - 1) + [0]
    else Traced(b, c, from, from[n - 1], n - 1) + [c[n - 1]]
  }

  /** The path costs what the table says, and it is a selection. */
  lemma {:induction false} TracedCost(b: Band, c: seq<int>, acc: seq<real>, from: seq<nat>, last: nat, n: nat)
    requires Settled(b, c, acc, from, n) && Reached(b, c, acc, last) && b.ss <= last + 1 <= n
    ensures var z := Traced(b, c, from, last, n);
            && Selection(b, z, n) && Run(b, z, n) == n - 1 - last
            && Cost(b, z, n) == acc[last] + (ZeroDistortion(b, n) - ZeroDistortion(b, last + 1))
    decreases n
  {
    hide Nonzero, StepCodable, ZeroDistortion, Distortion, StepRate;
    var z := Traced(b, c, from, last, n);
    if n == b.ss {
    } else if n - 1 > last {
      TracedCost(b, c, acc, from, last, n - 1);
      ExtendTraced(b, Traced(b, c, from, last, n - 1), 0, n);
      ZeroStep(b, n);
    } else {
      assert Witnessed(b, c, acc, from, last);
      TracedCost(b, c, acc, from, from[last], last);
      ExtendTraced(b, Traced(b, c, from, from[last], last), c[last], n);
    }
  }

  lemma ZeroStep(b: Band, n: nat)
    requires b.ss < n <= BLOCK_SIZE && Sized(b)
    ensures ZeroDistortion(b, n) == ZeroDistortion(b, n - 1) + Distortion(b, n - 1, 0)
  {
  }

  /** One position more. */
  lemma ExtendTraced(b: Band, y: seq<int>, v: int, n: nat)
    requires BandOk(b) && b.ss < n <= BLOCK_SIZE && |y| == n - 1 && Selection(b, y, n - 1)
    requires v != 0 ==> Nonzero(b, n - 1, v) && StepCodable(b, Run(b, y, n - 1), v)
    ensures Selection(b, y + [v], n)
    ensures Run(b, y + [v], n) == if v == 0 then Run(b, y, n - 1) + 1 else 0
    ensures Cost(b, y + [v], n)
         == Cost(b, y, n - 1) + Distortion(b, n - 1, v)
            + if v == 0 then 0.0 else StepRate(b, Run(b, y, n - 1), v) as real
  {
    hide Nonzero, StepCodable, Distortion, StepRate;
    CostAgree(b, y, y + [v], n - 1);
    forall p | b.ss <= p < n - 1 && y[p] != 0
      ensures Run(b, y + [v], p) == Run(b, y, p)
    {
      CostAgree(b, y, y + [v], p);
    }
  }

  /** The program for all positions of the band. */
  method Settle(b: Band, coef: array<int>, acc: array<real>, from: array<nat>, zero: array<real>)
    requires coef.Length == acc.Length == from.Length == zero.Length == BLOCK_SIZE
    requires acc != zero && from as object != coef as object && BandOk(b) && BelowSentinel(b)
    modifies coef, acc, from, zero
    ensures Settled(b, coef[..], acc[..], from[..], b.se + 1) && ZerosAre(b, zero[..], b.se + 1)
    ensures forall p :: 0 <= p < BLOCK_SIZE && !(b.ss <= p <= b.se) ==> coef[p] == old(coef[p])
  {
    hide ZeroDistortion, Nonzero, StepCodable, Quotient, BelowSentinel, Witnessed, Minimal, Distortion, NBits, ZerosAre,
      Settled, BandOk;
    BandFacts(b);
    zero[b.ss - 1], acc[b.ss - 1] := 0.0, 0.0;
    FirstZero(b, zero[..]);
    NothingSettled(b, coef[..], acc[..], from[..]);
    for i := b.ss to b.se + 1
      invariant Settled(b, coef[..], acc[..], from[..], i) && ZerosAre(b, zero[..], i)
      invariant forall p :: 0 <= p < BLOCK_SIZE && !(b.ss <= p <= b.se) ==> coef[p] == old(coef[p])
    {
      var x, q := Abs(b.src[i]), b.q[i];
      ghost var before := zero[..];
      zero[i] := SquaredError(x, b.w[i]) + zero[i - 1];
      NextZero(b, before, zero[..], i);
      var qval := Quotient(x, q);
      if qval == 0 {
        ghost var c, a := coef[..], acc[..];
        coef[i], acc[i] := 0, SENTINEL_COST;
        SettledZero(b, c, a, from[..], i, coef[..], acc[..]);
      } else {
        FewerZeros(b, zero[..], i);
        SettlePosition(b, i, Capped(qval), coef, acc, from, zero);
      }
    }
  }

  lemma FirstZero(b: Band, zero: seq<real>)
    requires BandOk(b) && |zero| == BLOCK_SIZE && zero[b.ss - 1] == 0.0
    ensures ZerosAre(b, zero, b.ss)
  {
  }

  lemma FewerZeros(b: Band, zero: seq<real>, n: nat)
    requires BandOk(b) && ZerosAre(b, zero, n + 1) && b.ss <= n
    ensures ZerosAre(b, zero, n)
  {
  }

  lemma NextZero(b: Band, before: seq<real>, after: seq<real>, i: nat)
    requires BandOk(b) && ZerosAre(b, before, i) && b.ss <= i < BLOCK_SIZE
    requires after == before[i := SquaredError(Abs(b.src[i]), b.w[i]) + before[i - 1]]
    ensures ZerosAre(b, after, i + 1)
  {
    SquareOfNegative(b.src[i]);
    assert 0 * b.q[i] - b.src[i] == -b.src[i];
  }

  lemma NothingSettled(b: Band, c: seq<int>, acc: seq<real>, from: seq<nat>)
    requires BandOk(b) && |c| == |acc| == |from| == BLOCK_SIZE && acc[b.ss - 1] == 0.0
    ensures Settled(b, c, acc, from, b.ss)
  {
  }

  lemma SettledZero(b: Band, c: seq<int>, a: seq<real>, f: seq<nat>, i: nat, c': seq<int>, a': seq<real>)
    requires Settled(b, c, a, f, i) && b.ss <= i <= b.se && Quotient(Abs(b.src[i]), b.q[i]) == 0
    requires c' == c[i := 0] && a' == a[i := SENTINEL_COST]
    ensures Settled(b, c', a', f, i + 1)
  {
    hide Nonzero, StepCodable, ZeroDistortion, Distortion, StepRate, EndsAt, Quotient, PathCost;
    NoChoice(b, i);
    forall p | b.ss <= p < i
      ensures Witnessed(b, c', a', f, p) && Minimal(b, c', a', p)
    {
      assert Witnessed(b, c, a, f, p) && Minimal(b, c, a, p);
      WitnessedSame(b, c, a, f, p, c', a', f);
    }
  }

  /** Where the cheapest path ends; ss - 1 when the band is best left at zero. */
  method BestEnd(b: Band, c: seq<int>, acc: seq<real>, zero: seq<real>, ghost from: seq<nat>)
    returns (last: nat, ghost best: real)
    requires BandOk(b) && BelowSentinel(b) && Settled(b, c, acc, from, b.se + 1) && ZerosAre(b, zero, b.se + 1)
    ensures b.ss <= last + 1 <= b.se + 1 && Reached(b, c, acc, last) && best == EndCost(b, acc, last)
    ensures best <= EndCost(b, acc, b.ss - 1)
    ensures forall p :: b.ss <= p <= b.se && c[p] != 0 ==> best <= EndCost(b, acc, p)
  {
    hide ZeroDistortion, Witnessed, Minimal;
    EmptyBand(b, acc, zero, c, from);
    last := b.ss - 1;
    var bestCost := zero[b.se] + b.ehufsi[0] as real;
    for i := b.ss to b.se + 1
      invariant b.ss <= last + 1 <= i && Reached(b, c, acc, last) && bestCost == EndCost(b, acc, last)
      invariant bestCost <= EndCost(b, acc, b.ss - 1)
      invariant forall p :: b.ss <= p < i && c[p] != 0 ==> bestCost <= EndCost(b, acc, p)
    {
      if c[i] != 0 {
        var cost := acc[i] + zero[b.se] - zero[i];
        if i < b.se {
          cost := cost + b.ehufsi[0] as real;
        }
        EndIsDearer(b, acc, i);
        if cost < bestCost {
          bestCost := cost;
          last := i;
        }
      }
    }
    best := bestCost;
  }

  lemma EmptyBand(b: Band, acc: seq<real>, zero: seq<real>, c: seq<int>, from: seq<nat>)
    requires BandOk(b) && BelowSentinel(b) && Settled(b, c, acc, from, b.se + 1) && ZerosAre(b, zero, b.se + 1)
    ensures EndCost(b, acc, b.ss - 1) == zero[b.se] + b.ehufsi[0] as real < SENTINEL_COST
  {
    hide Witnessed, Minimal;
    NoZeroDistortion(b);
  }

  lemma EndIsDearer(b: Band, acc: seq<real>, p: nat)
    requires BandOk(b) && |acc| == BLOCK_SIZE && b.ss <= p <= b.se
    ensures acc[p] <= EndCost(b, acc, p)
  {
    ZeroDistortionGrows(b, p + 1, b.se + 1);
  }

  /** Zeroes the values off the path. */
  method Backtrack(b: Band, coef: array<int>, from: array<nat>, last0: nat, ghost acc: seq<real>)
    requires coef.Length == from.Length == BLOCK_SIZE && from as object != coef as object
    requires Settled(b, coef[..], acc, from[..], b.se + 1) && b.ss <= last0 + 1 && last0 <= b.se
    requires Reached(b, coef[..], acc, last0)
    modifies coef
    ensures coef[..b.se + 1] == Traced(b, old(coef[..]), from[..], last0, b.se + 1)
    ensures coef[b.se + 1..] == old(coef[b.se + 1..])
  {
    SettledShape(b, coef[..], acc, from[..], b.se + 1);
    BandFacts(b);
    hide BandOk, Settled, Traced, Reached, Written, OnPath;
    ghost var c, f := coef[..], from[..];
    ghost var z := Traced(b, c, f, last0, b.se + 1);
    NothingWritten(b, c, acc, f, z, last0);
    var last: int := last0;
    var i: int := b.se;
    while i >= b.ss
      invariant b.ss - 2 <= i <= b.se && Written(b, coef[..], c, z, i)
      invariant i >= b.ss - 1 ==> OnPath(b, c, acc, f, z, last, i)
      decreases i
    {
      i := ZeroRun(b, coef, i, last, c, acc, f, z);
      StepBack(b, c, acc, f, z, i, coef[..]);
      last := from[i];
      i := i - 1;
    }
    TracedPrefix(b, c, f, last0, b.se + 1);
    AllWritten(b, coef[..], c, z, i);
  }

  lemma NothingWritten(b: Band, c: seq<int>, acc: seq<real>, f: seq<nat>, z: seq<int>, last: nat)
    requires |c| == |acc| == |f| == BLOCK_SIZE && 1 <= b.ss <= b.se + 1 <= BLOCK_SIZE && b.ss <= last + 1 <= b.se + 1
    requires Reached(b, c, acc, last) && z == Traced(b, c, f, last, b.se + 1)
    ensures Written(b, c, c, z, b.se) && OnPath(b, c, acc, f, z, last, b.se)
  {
    assert z[..b.se + 1] == z;
  }

  lemma AllWritten(b: Band, y: seq<int>, c: seq<int>, z: seq<int>, i: int)
    requires Written(b, y, c, z, i) && i < b.ss && forall p :: 0 <= p < b.ss && p < |z| ==> z[p] == c[p]
    ensures y[..b.se + 1] == z && y[b.se + 1..] == c[b.se + 1..]
  {
  }

  /** Behind position i the values are final, the others untouched. */
  ghost predicate Written(b: Band, y: seq<int>, c: seq<int>, z: seq<int>, i: int) {
    && |y| == |c| == BLOCK_SIZE && |z| == b.se + 1 <= BLOCK_SIZE
    && forall p :: 0 <= p < BLOCK_SIZE ==> y[p] == if i < p <= b.se && b.ss <= p then z[p] else c[p]
  }

  /** The zeros down to the next value on the path. */
  method ZeroRun(b: Band, coef: array<int>, i0: int, last: int, ghost c: seq<int>, ghost acc: seq<real>,
                 ghost f: seq<nat>, ghost z: seq<int>)
    returns (i: int)
    requires coef.Length == |c| == |acc| == |f| == BLOCK_SIZE && i0 <= b.se
    requires Written(b, coef[..], c, z, i0) && OnPath(b, c, acc, f, z, last, i0)
    modifies coef
    ensures Written(b, coef[..], c, z, i) && i == last && OnPath(b, c, acc, f, z, last, i)
  {
    i := i0;
    while i > last
      invariant i <= i0 && Written(b, coef[..], c, z, i) && OnPath(b, c, acc, f, z, last, i)
      decreases i
    {
      OffPath(b, c, acc, f, z, last, i);
      coef[i] := 0;
      i := i - 1;
    }
  }

  /** Up to position i the result is still the path that ends at `last`. */
  ghost predicate OnPath(b: Band, c: seq<int>, acc: seq<real>, f: seq<nat>, z: seq<int>, last: int, i: int)
    requires |c| == |acc| == |f| == BLOCK_SIZE
  {
    && 1 <= b.ss <= i + 1 <= |z| <= BLOCK_SIZE && b.ss <= last + 1 <= i + 1
    && Reached(b, c, acc, last) && z[..i + 1] == Traced(b, c, f, last, i + 1)
  }

  lemma OffPath(b: Band, c: seq<int>, acc: seq<real>, f: seq<nat>, z: seq<int>, last: int, i: int)
    requires |c| == |acc| == |f| == BLOCK_SIZE && OnPath(b, c, acc, f, z, last, i) && last < i
    ensures z[i] == 0 && OnPath(b, c, acc, f, z, last, i - 1)
  {
    assert z[..i + 1][i] == z[i] && z[..i + 1][..i] == z[..i];
  }

  lemma StepBack(b: Band, c: seq<int>, acc: seq<real>, f: seq<nat>, z: seq<int>, i: int, y: seq<int>)
    requires Settled(b, c, acc, f, b.se + 1) && OnPath(b, c, acc, f, z, i, i) && i <= b.se && Written(b, y, c, z, i)
    ensures b.ss - 1 <= i && Written(b, y, c, z, i - 1)
    ensures b.ss <= i ==> OnPath(b, c, acc, f, z, f[i], i - 1)
  {
    hide Nonzero, StepCodable, ZeroDistortion, Distortion, StepRate;
    if b.ss <= i {
      assert Witnessed(b, c, acc, f, i);
      assert z[..i + 1][i] == z[i] && z[..i + 1][..i] == z[..i];
    }
  }

  lemma {:induction false} TracedPrefix(b: Band, c: seq<int>, from: seq<nat>, last: nat, n: nat)
    requires |c| == |from| == BLOCK_SIZE && b.ss <= n <= BLOCK_SIZE
    ensures forall p :: 0 <= p < b.ss ==> Traced(b, c, from, last, n)[p] == c[p]
    decreases n
  {
    if n > b.ss {
      TracedPrefix(b, c, from, if n - 1 > last then last else from[n - 1], n - 1);
    }
  }

  /**
   The AC part of quantize_trellis for one block: of all values from zero to the rounded quotient whose
   symbols have codes, candidates or not, none cost less than those it leaves behind.
   */
  method QuantizeBand(b: Band, coef: array<int>)
    requires coef.Length == BLOCK_SIZE && BandOk(b) && BelowSentinel(b)
    modifies coef
    ensures Values(b, coef[..], b.se + 1)
    ensures forall z :: |z| == BLOCK_SIZE && Values(b, z, b.se + 1) ==> TotalCost(b, coef[..]) <= TotalCost(b, z)
    ensures forall p :: 0 <= p < BLOCK_SIZE && !(b.ss <= p <= b.se) ==> coef[p] == old(coef[p])
  {
    hide Settled, ZerosAre, BelowSentinel, Selection, Values, TotalCost, BandOk, Reached;
    BandFacts(b);
    var acc := new real[BLOCK_SIZE];
    var zero := new real[BLOCK_SIZE];
    var from := new nat[BLOCK_SIZE];
    Settle(b, coef, acc, from, zero);
    ghost var c := coef[..];
    var last;
    ghost var best;
    last, best := BestEnd(b, coef[..], acc[..], zero[..], from[..]);
    Backtrack(b, coef, from, last, acc[..]);
    TracedPrefix(b, c, from[..], last, b.se + 1);
    ResultCost(b, c, acc[..], from[..], last, coef[..]);
    SelectionIsValues(b, coef[..], b.se + 1);
    forall z | |z| == BLOCK_SIZE && Values(b, z, b.se + 1)
      ensures TotalCost(b, coef[..]) <= TotalCost(b, z)
    {
      var y := CandidatesSuffice(b, z);
      EndsAreMinimal(b, c, acc[..], from[..], best, y);
    }
    assert forall p :: b.se < p < BLOCK_SIZE ==> coef[p] == coef[b.se + 1..][p - b.se - 1];
  }

  /** What is left behind costs exactly what the best end costs. */
  lemma ResultCost(b: Band, c: seq<int>, acc: seq<real>, from: seq<nat>, last: nat, z: seq<int>)
    requires Settled(b, c, acc, from, b.se + 1) && Reached(b, c, acc, last) && b.ss <= last + 1 <= b.se + 1
    requires |z| == BLOCK_SIZE && z[..b.se + 1] == Traced(b, c, from, last, b.se + 1)
    ensures Selection(b, z, b.se + 1) && TotalCost(b, z) == EndCost(b, acc, last)
  {
    hide Nonzero, StepCodable, ZeroDistortion, Distortion, StepRate, Cost, Traced;
    var y, n := Traced(b, c, from, last, b.se + 1), b.se + 1;
    TracedCost(b, c, acc, from, last, n);
    CostAgree(b, y, z, n);
    forall p | b.ss <= p < n && z[p] != 0
      ensures Nonzero(b, p, z[p]) && StepCodable(b, Run(b, z, p), z[p])
    {
      CostAgree(b, y, z, p);
    }
  }
}
