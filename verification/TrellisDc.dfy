/** The DC trellis of jcdctmgr.c: a shortest path through the candidates of a row of blocks. */
module TrellisDc {
  import opened Powers
  import opened Coefficients
  import opened PointTransform
  import opened HuffmanBlocks
  import opened TrellisCosts

  const MAX_CANDIDATES := 9
  const LIMIT := 1024

  /**
   A row of blocks: DC source values, quantizer step times 8, error weights, and optionally the row
   above (source and quantized) with the weight of vertical gradients.
   */
  datatype Row = Row(src: seq<int>, q: nat, lambda: seq<real>, above: bool, srcAbove: seq<int>, coefAbove: seq<int>,
                     delta: real, ehufsi: seq<nat>, last: int)

  predicate RowOk(r: Row) {
    && 0 < |r.src| == |r.lambda| && 0 < r.q && |r.ehufsi| == 256
    && (r.above ==> |r.srcAbove| == |r.coefAbove| == |r.src|)
  }

  /** get_num_dc_trellis_candidates: the first odd number from 2 + 60 / quantval on, but no more than 9. */
  function Candidates(quantval: nat): (m: nat)
    requires 0 < quantval
    ensures 3 <= m <= MAX_CANDIDATES && m % 2 == 1
    ensures (m - 3) * quantval <= 60 && (m == MAX_CANDIDATES || 60 < (m - 1) * quantval)
  {
    QuotientBounds(60, quantval);
    var n := 2 + 60 / quantval;
    CandidatesNeeded(quantval, if n % 2 == 0 then n + 1 else n);
    CandidatesNeeded(quantval, MAX_CANDIDATES);
    var odd := if n % 2 == 0 then n + 1 else n;
    if odd < MAX_CANDIDATES then odd else MAX_CANDIDATES
  }

  lemma CandidatesNeeded(quantval: nat, m: nat)
    requires 0 < quantval && 3 <= m
    ensures m - 1 <= 2 + 60 / quantval ==> (m - 3) * quantval <= 60
    ensures 2 + 60 / quantval <= m ==> 60 < (m - 1) * quantval
  {
    QuotientBounds(60, quantval);
    if m - 1 <= 2 + 60 / quantval {
      MulMonotone(m - 3, 60 / quantval, quantval);
    }
    if 2 + 60 / quantval <= m {
      MulMonotone(60 / quantval + 1, m - 1, quantval);
    }
  }

  function Clipped(v: int): int {
    if v >= LIMIT then LIMIT - 1 else if v <= -LIMIT then -LIMIT + 1 else v
  }

  /** Candidate k of m for block i: around the rounded quotient, with the sign of the source. */
  function DcCandidate(r: Row, m: nat, i: nat, k: nat): int
    requires RowOk(r) && i < |r.src|
  {
    Signed(r.src[i] < 0, Clipped(Quotient(Abs(r.src[i]), r.q) - m / 2 + k))
  }

  /** Its weighted error, that of the vertical gradient mixed in when there is a row above. */
  function DcDistortion(r: Row, i: nat, v: int): real
    requires RowOk(r) && i < |r.src|
  {
    var d := SquaredError(v * r.q - r.src[i], r.lambda[i]);
    if r.above && r.delta > 0.0 then
      var gradient := (r.srcAbove[i] - r.src[i]) - (r.coefAbove[i] * r.q - v * r.q);
      d + r.delta * (SquaredError(gradient, r.lambda[i]) - d)
    else d
  }

  /** The error weighs the value with 1 - delta, and with delta the step it takes from the row above. */
  lemma ErrorIsMixed(r: Row, i: nat, v: int)
    requires RowOk(r) && i < |r.src| && r.above && r.delta > 0.0
    ensures var e := v * r.q - r.src[i];
            var g := (v * r.q - r.coefAbove[i] * r.q) - (r.src[i] - r.srcAbove[i]);
            DcDistortion(r, i, v) == ((1.0 - r.delta) * (e * e) as real + r.delta * (g * g) as real) * r.lambda[i]
  {
    var e := v * r.q - r.src[i];
    var g := (v * r.q - r.coefAbove[i] * r.q) - (r.src[i] - r.srcAbove[i]);
    Mixed((e * e) as real, (g * g) as real, r.delta, r.lambda[i]);
  }

  lemma Mixed(x: real, y: real, d: real, w: real)
    ensures x * w + d * (y * w - x * w) == ((1.0 - d) * x + d * y) * w
  {
  }

  /** The bits of a DC difference. */
  function DcRate(r: Row, diff: int): nat
    requires |r.ehufsi| == 256
  {
    var n := NBits(Abs(diff));
    n + if n < 256 then r.ehufsi[n] else 0
  }

  /** Choosing candidate k of block i after candidate l of the block before (for block 0: after the predictor). */
  function Step(r: Row, m: nat, i: nat, l: nat, k: nat): real
    requires RowOk(r) && i < |r.src|
  {
    var before := if i == 0 then r.last else DcCandidate(r, m, i - 1, l);
    DcRate(r, DcCandidate(r, m, i, k) - before) as real + DcDistortion(r, i, DcCandidate(r, m, i, k))
  }

  /** The cost of a choice for the first n blocks. */
  function ChoiceCost(r: Row, m: nat, s: seq<nat>, n: nat): real
    requires RowOk(r) && n <= |s| && n <= |r.src|
  {
    if n == 0 then 0.0
    else ChoiceCost(r, m, s, n - 1) + Step(r, m, n - 1, if n == 1 then 0 else s[n - 2], s[n - 1])
  }

  ghost predicate Chooses(r: Row, m: nat, s: seq<nat>, n: nat) {
    |s| == n <= |r.src| && forall i :: 0 <= i < n ==> s[i] < m
  }

  /** Entry k of column i: reached from back[k, i], and no choice that ends there costs less. */
  ghost predicate Entry(r: Row, m: nat, acc: seq<seq<real>>, back: seq<seq<int>>, i: nat, k: nat)
    requires RowOk(r) && i < |acc| == |back| <= |r.src| && k < m
    requires forall j :: 0 <= j <= i ==> |acc[j]| == |back[j]| == m
  {
    && (if i == 0 then acc[0][k] == Step(r, m, 0, 0, k)
        else 0 <= back[i][k] < m && acc[i][k] == acc[i - 1][back[i][k]] + Step(r, m, i, back[i][k], k))
    && forall s :: Chooses(r, m, s, i + 1) && s[i] == k ==> acc[i][k] <= ChoiceCost(r, m, s, i + 1)
  }

  ghost predicate Columns(r: Row, m: nat, acc: seq<seq<real>>, back: seq<seq<int>>, n: nat) {
    && RowOk(r) && n == |acc| == |back| <= |r.src|
    && (forall j :: 0 <= j < n ==> |acc[j]| == |back[j]| == m)
    && forall i, k :: 0 <= i < n && 0 <= k < m ==> Entry(r, m, acc, back, i, k)
  }

  lemma {:induction false} ChoiceAgree(r: Row, m: nat, s: seq<nat>, t: seq<nat>, n: nat)
    requires RowOk(r) && n <= |s| && n <= |t| && n <= |r.src| && s[..n] == t[..n]
    ensures ChoiceCost(r, m, s, n) == ChoiceCost(r, m, t, n)
  {
    hide Step;
    if n > 0 {
      assert s[..n][..n - 1] == s[..n - 1] && t[..n][..n - 1] == t[..n - 1];
      assert s[..n][n - 1] == s[n - 1] && t[..n][n - 1] == t[n - 1];
      if n > 1 {
        assert s[..n][n - 2] == s[n - 2] && t[..n][n - 2] == t[n - 2];
      }
      ChoiceAgree(r, m, s, t, n - 1);
    }
  }

  /** The best of all ways to reach candidate k of block i: entry 0 first, ties to the earlier one. */
  method BestBefore(r: Row, m: nat, i: nat, k: nat, before: seq<real>) returns (cost: real, l: nat)
    requires RowOk(r) && 0 < i < |r.src| && 0 < m == |before| && k < m
    ensures l < m && cost == before[l] + Step(r, m, i, l, k)
    ensures forall j :: 0 <= j < m ==> cost <= before[j] + Step(r, m, i, j, k)
  {
    hide DcCandidate, DcDistortion, DcRate, Step;
    cost, l := 0.0, 0;
    for j := 0 to m
      invariant j > 0 ==> l < j && cost == before[l] + Step(r, m, i, l, k)
      invariant forall p :: 0 <= p < j ==> cost <= before[p] + Step(r, m, i, p, k)
    {
      var rate := DcRate(r, DcCandidate(r, m, i, k) - DcCandidate(r, m, i - 1, j));
      var c := rate as real + DcDistortion(r, i, DcCandidate(r, m, i, k)) + before[j];
      StepIs(r, m, i, j, k);
      if j == 0 || c < cost {
        cost, l := c, j;
      }
    }
  }

  lemma StepIs(r: Row, m: nat, i: nat, l: nat, k: nat)
    requires RowOk(r) && 0 < i < |r.src|
    ensures Step(r, m, i, l, k)
         == DcRate(r, DcCandidate(r, m, i, k) - DcCandidate(r, m, i - 1, l)) as real
            + DcDistortion(r, i, DcCandidate(r, m, i, k))
  {
  }

  /** An entry computed from the best predecessor bounds every choice. */
  lemma EntryIsBound(r: Row, m: nat, acc: seq<seq<real>>, back: seq<seq<int>>, i: nat, k: nat, cost: real)
    requires Columns(r, m, acc, back, i) && i < |r.src| && 0 < m && k < m
    requires i == 0 ==> cost == Step(r, m, 0, 0, k)
    requires i > 0 ==> forall l :: 0 <= l < m ==> cost <= acc[i - 1][l] + Step(r, m, i, l, k)
    ensures forall s :: Chooses(r, m, s, i + 1) && s[i] == k ==> cost <= ChoiceCost(r, m, s, i + 1)
  {
    hide Step;
    forall s | Chooses(r, m, s, i + 1) && s[i] == k
      ensures cost <= ChoiceCost(r, m, s, i + 1)
    {
      if i > 0 {
        var t := s[..i];
        assert Chooses(r, m, t, i) && t[i - 1] == s[i - 1];
        assert t[..i] == t && s[..i] == t;
        ChoiceAgree(r, m, s, t, i);
        assert Entry(r, m, acc, back, i - 1, s[i - 1]);
      } else {
        FirstChoice(r, m, s);
      }
    }
  }

  lemma FirstChoice(r: Row, m: nat, s: seq<nat>)
    requires RowOk(r) && |s| >= 1
    ensures ChoiceCost(r, m, s, 1) == Step(r, m, 0, 0, s[0])
  {
    assert ChoiceCost(r, m, s, 0) == 0.0;
  }

  /** One block: all its candidates. */
  method NextColumn(r: Row, m: nat, ghost acc: seq<seq<real>>, ghost back: seq<seq<int>>, i: nat, before: seq<real>)
    returns (col: seq<real>, from: seq<int>)
    requires Columns(r, m, acc, back, i) && i < |r.src| && 0 < m && (i > 0 ==> before == acc[i - 1])
    ensures Columns(r, m, acc + [col], back + [from], i + 1)
  {
    hide Step, DcCandidate, DcDistortion, DcRate, Columns;
    ColumnsShape(r, m, acc, back, i);
    col, from := [], [];
    for k := 0 to m
      invariant |col| == |from| == k
      invariant forall p :: 0 <= p < k ==> NewEntry(r, m, acc, i, p, col[p], from[p])
    {
      if i == 0 {
        var rate := DcRate(r, DcCandidate(r, m, 0, k) - r.last);
        var cost := rate as real + DcDistortion(r, 0, DcCandidate(r, m, 0, k));
        FirstStep(r, m, k);
        EntryIsBound(r, m, acc, back, i, k, cost);
        col, from := col + [cost], from + [-1];
      } else {
        var cost, l := BestBefore(r, m, i, k, before);
        EntryIsBound(r, m, acc, back, i, k, cost);
        col, from := col + [cost], from + [l];
      }
    }
    AddColumn(r, m, acc, back, i, col, from);
  }

  lemma ColumnsShape(r: Row, m: nat, acc: seq<seq<real>>, back: seq<seq<int>>, n: nat)
    requires Columns(r, m, acc, back, n)
    ensures RowOk(r) && n == |acc| == |back| && forall j :: 0 <= j < n ==> |acc[j]| == |back[j]| == m
  {
  }

  lemma FirstStep(r: Row, m: nat, k: nat)
    requires RowOk(r)
    ensures Step(r, m, 0, 0, k)
         == DcRate(r, DcCandidate(r, m, 0, k) - r.last) as real + DcDistortion(r, 0, DcCandidate(r, m, 0, k))
  {
  }

  /** What Entry says, for a column that is not yet part of the table. */
  ghost predicate NewEntry(r: Row, m: nat, acc: seq<seq<real>>, i: nat, k: nat, cost: real, l: int)
    requires RowOk(r) && i == |acc| < |r.src| && k < m && (i > 0 ==> |acc[i - 1]| == m)
  {
    && (if i == 0 then cost == Step(r, m, 0, 0, k)
        else 0 <= l < m && cost == acc[i - 1][l] + Step(r, m, i, l, k))
    && forall s :: Chooses(r, m, s, i + 1) && s[i] == k ==> cost <= ChoiceCost(r, m, s, i + 1)
  }

  lemma AddColumn(r: Row, m: nat, acc: seq<seq<real>>, back: seq<seq<int>>, i: nat, col: seq<real>, from: seq<int>)
    requires Columns(r, m, acc, back, i) && i < |r.src| && |col| == |from| == m
    requires forall p :: 0 <= p < m ==> NewEntry(r, m, acc, i, p, col[p], from[p])
    ensures Columns(r, m, acc + [col], back + [from], i + 1)
  {
    hide Step, ChoiceCost;
    var a, b := acc + [col], back + [from];
    forall j, k | 0 <= j < i + 1 && 0 <= k < m
      ensures Entry(r, m, a, b, j, k)
    {
      if j < i {
        assert Entry(r, m, acc, back, j, k);
      } else {
        assert NewEntry(r, m, acc, i, k, col[k], from[k]);
      }
    }
  }

  /** The choice that leads to entry k of the last column. */
  function Back(back: seq<seq<int>>, m: nat, n: nat, k: nat): (s: seq<nat>)
    requires n <= |back| && forall j :: 0 <= j < n ==> |back[j]| == m
    requires k < m && forall j, p :: 1 <= j < n && 0 <= p < m ==> 0 <= back[j][p] < m
    ensures |s| == n && forall i :: 0 <= i < n ==> s[i] < m
  {
    if n == 0 then [] else if n == 1 then [k] else Back(back, m, n - 1, back[n - 1][k]) + [k]
  }

  lemma {:induction false} BackCost(r: Row, m: nat, acc: seq<seq<real>>, back: seq<seq<int>>, n: nat, k: nat)
    requires Columns(r, m, acc, back, |acc|) && 0 < n <= |acc| && k < m
    ensures forall j, p :: 1 <= j < n && 0 <= p < m ==> 0 <= back[j][p] < m
    ensures ChoiceCost(r, m, Back(back, m, n, k), n) == acc[n - 1][k]
    decreases n
  {
    hide Step;
    forall j, p | 1 <= j < n && 0 <= p < m
      ensures 0 <= back[j][p] < m
    {
      assert Entry(r, m, acc, back, j, p);
    }
    assert Entry(r, m, acc, back, n - 1, k);
    var s := Back(back, m, n, k);
    if n == 1 {
      FirstChoice(r, m, s);
    } else {
      var l := back[n - 1][k];
      BackCost(r, m, acc, back, n - 1, l);
      var t := Back(back, m, n - 1, l);
      assert s[..n - 1] == t && t[..n - 1] == t;
      ChoiceAgree(r, m, s, t, n - 1);
      LastOfBack(back, m, n - 1, l);
    }
  }

  lemma LastOfBack(back: seq<seq<int>>, m: nat, n: nat, k: nat)
    requires 0 < n <= |back| && forall j :: 0 <= j < n ==> |back[j]| == m
    requires k < m && forall j, p :: 1 <= j < n && 0 <= p < m ==> 0 <= back[j][p] < m
    ensures Back(back, m, n, k)[n - 1] == k
  {
  }

  /** The values of a choice. */
  ghost predicate Carries(r: Row, m: nat, s: seq<nat>, dc: seq<int>, from: nat)
    requires RowOk(r)
  {
    |dc| == |s| == |r.src| && forall i :: from <= i < |s| ==> dc[i] == DcCandidate(r, m, i, s[i])
  }

  // ------------------------------------------------------------------ values instead of candidates

  /** The largest value of the source's sign, where the source is beyond it. */
  predicate Extreme(r: Row, i: nat, v: int)
    requires i < |r.src|
  {
    v == Signed(r.src[i] < 0, LIMIT - 1) && (LIMIT - 1) * r.q < Abs(r.src[i])
  }

  /** A value of at most 10 bits whose multiple is less than m half steps from the source. */
  predicate InReach(r: Row, m: nat, i: nat, v: int)
    requires i < |r.src|
  {
    Abs(v) < LIMIT && (2 * Abs(v * r.q - r.src[i]) < m * r.q || Extreme(r, i, v))
  }

  /** The same, m half steps included. */
  predicate Reaches(r: Row, m: nat, i: nat, v: int)
    requires i < |r.src|
  {
    Abs(v) < LIMIT && (2 * Abs(v * r.q - r.src[i]) <= m * r.q || Extreme(r, i, v))
  }

  /** Bits of the differences and errors of the first n values. */
  function ValueCost(r: Row, dc: seq<int>, n: nat): real
    requires RowOk(r) && n <= |dc| && n <= |r.src|
  {
    if n == 0 then 0.0
    else
      ValueCost(r, dc, n - 1) + DcRate(r, dc[n - 1] - if n == 1 then r.last else dc[n - 2]) as real
      + DcDistortion(r, n - 1, dc[n - 1])
  }

  /** The rounded quotient is at most half a step from the source. */
  lemma Rounded(x: nat, q: nat)
    requires 0 < q
    ensures 2 * Abs(Quotient(x, q) * q - x) <= q
  {
    QuotientBounds(x + q / 2, q);
    MulOneMore(Quotient(x, q), q);
  }

  /** A magnitude, signs of which the source's taken out, and its multiple. */
  lemma MirroredError(a: int, q: nat, src: int)
    ensures Abs(Signed(src < 0, a) * q - src) == Abs(a * q - Abs(src))
  {
    MulNegated(a, q);
  }

  /** h away from the rounded quotient is at most 2 * h + 1 half steps away from the source, and back. */
  lemma NearQuotient(a: int, x: nat, q: nat, h: nat)
    requires 0 < q
    ensures Abs(a - Quotient(x, q)) <= h ==> 2 * Abs(a * q - x) <= (2 * h + 1) * q
    ensures 2 * Abs(a * q - x) < (2 * h + 1) * q ==> Abs(a - Quotient(x, q)) <= h
  {
    hide Quotient;
    var v := Quotient(x, q);
    Rounded(x, q);
    Multiples(a, v, q, h);
    if a - v > h {
      MulMonotone(h + 1, a - v, q);
    } else if v - a > h {
      MulMonotone(h + 1, v - a, q);
    } else {
      MulMonotone(a - v, h, q);
      MulMonotone(v - a, h, q);
    }
  }

  lemma Multiples(a: int, v: int, q: nat, h: nat)
    ensures (a - v) * q == a * q - v * q && (v - a) * q == v * q - a * q
    ensures (2 * h + 1) * q == 2 * (h * q) + q && (h + 1) * q == h * q + q
  {
  }

  /** Every candidate is in reach. */
  lemma CandidateReaches(r: Row, m: nat, i: nat, k: nat)
    requires RowOk(r) && i < |r.src| && k < m && m % 2 == 1 && m <= MAX_CANDIDATES
    ensures Reaches(r, m, i, DcCandidate(r, m, i, k))
  {
    hide Quotient;
    var x, h := Abs(r.src[i]), m / 2;
    var a := Quotient(x, r.q) - h + k;
    NearQuotient(a, x, r.q, h);
    MirroredError(Clipped(a), r.q, r.src[i]);
    if a >= LIMIT {
      NearQuotient(LIMIT - 1, x, r.q, h);
      var v := Quotient(x, r.q);
      if LIMIT - 1 < v {
        Rounded(x, r.q);
        MulMonotone(LIMIT, v, r.q);
        MulOneMore(LIMIT - 1, r.q);
      }
    }
  }

  /** Every value in reach is a candidate. */
  lemma ReachIsCandidate(r: Row, m: nat, i: nat, v: int) returns (k: nat)
    requires RowOk(r) && i < |r.src| && m % 2 == 1 && InReach(r, m, i, v)
    ensures k < m && DcCandidate(r, m, i, k) == v
  {
    hide Quotient;
    var x, h := Abs(r.src[i]), m / 2;
    var a := Signed(r.src[i] < 0, v);
    MirroredError(a, r.q, r.src[i]);
    if 2 * Abs(v * r.q - r.src[i]) < m * r.q {
      NearQuotient(a, x, r.q, h);
      k := a - Quotient(x, r.q) + h;
    } else {
      QuotientFrom(x, r.q, LIMIT - 1);
      k := m - 1;
    }
  }

  lemma QuotientFrom(x: nat, q: nat, a: nat)
    requires 0 < q && a * q <= x
    ensures a <= Quotient(x, q)
  {
    QuotientBounds(x + q / 2, q);
    if Quotient(x, q) + 1 <= a {
      MulMonotone(Quotient(x, q) + 1, a, q);
    }
  }

  /** The cost of a choice is that of its values. */
  lemma {:induction false} ChoiceIsValues(r: Row, m: nat, s: seq<nat>, dc: seq<int>, n: nat)
    requires RowOk(r) && n <= |s| && n <= |dc| && n <= |r.src|
    requires forall i :: 0 <= i < n ==> dc[i] == DcCandidate(r, m, i, s[i])
    ensures ChoiceCost(r, m, s, n) == ValueCost(r, dc, n)
  {
    hide DcCandidate, DcDistortion, DcRate;
    if n > 0 {
      ChoiceIsValues(r, m, s, dc, n - 1);
    }
  }

  /** A cheapest choice of candidates is a cheapest choice of values. */
  lemma CheapestValues(r: Row, m: nat, best: seq<nat>, coef: seq<int>, dc: seq<int>)
    requires RowOk(r) && m % 2 == 1 && Chooses(r, m, best, |r.src|) && Carries(r, m, best, coef, 0)
    requires forall s :: Chooses(r, m, s, |r.src|) ==> ChoiceCost(r, m, best, |r.src|) <= ChoiceCost(r, m, s, |r.src|)
    requires |dc| == |r.src| && forall i :: 0 <= i < |dc| ==> InReach(r, m, i, dc[i])
    ensures ValueCost(r, coef, |r.src|) <= ValueCost(r, dc, |r.src|)
  {
    hide DcCandidate, InReach, ChoiceCost, ValueCost;
    var s: seq<nat> := [];
    for i := 0 to |dc|
      invariant |s| == i && forall p :: 0 <= p < i ==> s[p] < m && dc[p] == DcCandidate(r, m, p, s[p])
    {
      var k := ReachIsCandidate(r, m, i, dc[i]);
      s := s + [k];
    }
    assert Chooses(r, m, s, |r.src|);
    ChoiceIsValues(r, m, best, coef, |r.src|);
    ChoiceIsValues(r, m, s, dc, |r.src|);
  }

  /**
   The DC part of quantize_trellis for a row of blocks: the values left behind are in reach of their
   sources, and no values in reach cost less, bits of the differences and errors added up.
   */
  method QuantizeDc(r: Row, quantval: nat, coef: array<int>) returns (last: int, ghost best: seq<nat>)
    requires RowOk(r) && 0 < quantval && coef.Length == |r.src|
    modifies coef
    ensures var m, n := Candidates(quantval), |r.src|;
            && Chooses(r, m, best, n) && Carries(r, m, best, coef[..], 0) && last == coef[n - 1]
            && (forall s :: Chooses(r, m, s, n) ==> ChoiceCost(r, m, best, n) <= ChoiceCost(r, m, s, n))
            && (forall i :: 0 <= i < n ==> Reaches(r, m, i, coef[i]))
            && forall dc: seq<int> :: |dc| == n && (forall i :: 0 <= i < n ==> InReach(r, m, i, dc[i])) ==>
                 ValueCost(r, coef[..], n) <= ValueCost(r, dc, n)
  {
    hide DcCandidate, Step, Columns, ChoiceCost, Reaches, InReach, ValueCost;
    var m, n := Candidates(quantval), |r.src|;
    var acc, back: seq<seq<int>> := [], [];
    NoColumns(r, m);
    var col: seq<real> := [];
    for bi := 0 to n
      invariant Columns(r, m, acc, back, bi) && bi == |acc| && (bi > 0 ==> col == acc[bi - 1])
    {
      var from;
      col, from := NextColumn(r, m, acc, back, bi, col);
      acc, back := acc + [col], back + [from];
    }
    ColumnsShape(r, m, acc, back, n);
    var j := 0;
    for i := 1 to m
      invariant j < m && forall p :: 0 <= p < i ==> col[j] <= col[p]
    {
      if col[i] < col[j] {
        j := i;
      }
    }
    BackCost(r, m, acc, back, n, j);
    best := Back(back, m, n, j);
    CheapestEnd(r, m, acc, back, n, j, col);
    StoreChoice(r, m, acc, back, j, coef, best);
    last := coef[n - 1];
    forall i | 0 <= i < n
      ensures Reaches(r, m, i, coef[i])
    {
      CandidateReaches(r, m, i, best[i]);
    }
    forall dc: seq<int> | |dc| == n && (forall i :: 0 <= i < n ==> InReach(r, m, i, dc[i]))
      ensures ValueCost(r, coef[..], n) <= ValueCost(r, dc, n)
    {
      CheapestValues(r, m, best, coef[..], dc);
    }
  }

  lemma NoColumns(r: Row, m: nat)
    requires RowOk(r)
    ensures Columns(r, m, [], [], 0)
  {
  }

  lemma CheapestEnd(r: Row, m: nat, acc: seq<seq<real>>, back: seq<seq<int>>, n: nat, j: nat, ends: seq<real>)
    requires Columns(r, m, acc, back, n) && 0 < n && ends == acc[n - 1] && j < m
    requires forall p :: 0 <= p < m ==> ends[j] <= ends[p]
    ensures forall s :: Chooses(r, m, s, n) ==> acc[n - 1][j] <= ChoiceCost(r, m, s, n)
  {
    hide Step, ChoiceCost;
    forall s | Chooses(r, m, s, n)
      ensures acc[n - 1][j] <= ChoiceCost(r, m, s, n)
    {
      assert Entry(r, m, acc, back, n - 1, s[n - 1]);
    }
  }

  /** The backtracking loop. */
  method StoreChoice(r: Row, m: nat, acc: seq<seq<real>>, back: seq<seq<int>>, j0: nat, coef: array<int>,
                     ghost best: seq<nat>)
    requires Columns(r, m, acc, back, |r.src|) && coef.Length == |r.src| && j0 < m
    requires forall j, p :: 1 <= j < |r.src| && 0 <= p < m ==> 0 <= back[j][p] < m
    requires best == Back(back, m, |r.src|, j0)
    modifies coef
    ensures Carries(r, m, best, coef[..], 0)
  {
    hide DcCandidate, Entry;
    var j: int := j0;
    var bi: int := |r.src| - 1;
    assert best[..bi + 1] == best;
    while bi >= 0
      invariant -1 <= bi < |r.src| && Carries(r, m, best, coef[..], bi + 1)
      invariant bi >= 0 ==> 0 <= j < m && best[..bi + 1] == Back(back, m, bi + 1, j)
    {
      LastOfBack(back, m, bi + 1, j);
      assert best[..bi + 1][bi] == best[bi] && best[..bi + 1][..bi] == best[..bi];
      coef[bi] := DcCandidate(r, m, bi, j);
      j := back[bi][j];
      bi := bi - 1;
    }
  }
}
