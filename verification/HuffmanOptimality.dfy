/**
 Why merging the two rarest symbols gives an optimal code: no assignment of code lengths that
 satisfies Kraft's inequality, and so no prefix code, costs less (section K.2 of ITU-T T.81).
 Symbols are indices; a count of 0 marks a symbol that takes no part.
 */
module HuffmanOptimality {
  import opened Powers

  ghost function Sum(s: seq<int>): int {
    if s == [] then 0 else Sum(s[..|s| - 1]) + s[|s| - 1]
  }

  lemma {:induction false} SumUpdate(s: seq<int>, i: nat, x: int)
    requires i < |s|
    ensures Sum(s[i := x]) == Sum(s) - s[i] + x
  {
    var t := s[i := x];
    if i == |s| - 1 {
      assert t[..i] == s[..i];
    } else {
      SumUpdate(s[..|s| - 1], i, x);
      assert t[..|s| - 1] == s[..|s| - 1][i := x];
    }
  }

  lemma {:induction false} SumOfZeros(t: seq<int>)
    requires forall s :: 0 <= s < |t| ==> t[s] == 0
    ensures Sum(t) == 0
  {
    if t != [] {
      SumOfZeros(t[..|t| - 1]);
    }
  }

  /** freq[i] * len[i], added up: the bits the code spends. */
  ghost function CostTerms(freq: seq<nat>, len: seq<nat>): (t: seq<int>)
    requires |freq| == |len|
    ensures |t| == |freq|
  {
    seq(|freq|, i requires 0 <= i < |freq| => freq[i] * len[i])
  }

  ghost function Cost(freq: seq<nat>, len: seq<nat>): int
    requires |freq| == |len|
  {
    Sum(CostTerms(freq, len))
  }

  /** 2^(m - len[i]) for each symbol that takes part. */
  ghost function KraftTerms(freq: seq<nat>, len: seq<nat>, m: nat): (t: seq<int>)
    requires |freq| == |len| && Within(freq, len, m)
    ensures |t| == |freq|
  {
    seq(|freq|, i requires 0 <= i < |freq| => if freq[i] == 0 then 0 else Pow2(m - len[i]))
  }

  ghost predicate Within(freq: seq<nat>, len: seq<nat>, m: nat)
    requires |freq| == |len|
  {
    forall i :: 0 <= i < |freq| && freq[i] != 0 ==> len[i] <= m
  }

  /** Kraft's inequality, scaled by 2^m: code words of these lengths can exist. */
  ghost predicate Kraft(freq: seq<nat>, len: seq<nat>, m: nat)
  {
    |freq| == |len| && Within(freq, len, m) && Sum(KraftTerms(freq, len, m)) <= Pow2(m)
  }

  lemma CostUpdate(freq: seq<nat>, len: seq<nat>, i: nat, f: nat, l: nat)
    requires |freq| == |len| && i < |freq|
    ensures Cost(freq[i := f], len[i := l]) == Cost(freq, len) - freq[i] * len[i] + f * l
  {
    SumUpdate(CostTerms(freq, len), i, f * l);
    assert CostTerms(freq[i := f], len[i := l]) == CostTerms(freq, len)[i := f * l];
  }

  ghost function Weight(f: nat, l: nat, m: nat): nat
    requires f != 0 ==> l <= m
  {
    if f == 0 then 0 else Pow2(m - l)
  }

  lemma KraftUpdate(freq: seq<nat>, len: seq<nat>, m: nat, i: nat, f: nat, l: nat)
    requires |freq| == |len| && i < |freq| && Within(freq, len, m) && (f != 0 ==> l <= m)
    ensures Within(freq[i := f], len[i := l], m)
    ensures Sum(KraftTerms(freq[i := f], len[i := l], m))
         == Sum(KraftTerms(freq, len, m)) - Weight(freq[i], len[i], m) + Weight(f, l, m)
  {
    SumUpdate(KraftTerms(freq, len, m), i, Weight(f, l, m));
    assert KraftTerms(freq[i := f], len[i := l], m) == KraftTerms(freq, len, m)[i := Weight(f, l, m)];
  }

  /** Giving the rarer symbol the longer length does not cost more. */
  lemma Swap(freq: seq<nat>, len: seq<nat>, m: nat, c: nat, x: nat) returns (better: seq<nat>)
    requires Kraft(freq, len, m) && c < |freq| && x < |freq| && freq[c] != 0 && freq[x] != 0
    requires freq[c] <= freq[x] && len[c] <= len[x]
    ensures better == len[c := len[x]][x := len[c]]
    ensures Kraft(freq, better, m) && Cost(freq, better) <= Cost(freq, len)
  {
    var mid := len[c := len[x]];
    better := mid[x := len[c]];
    assert freq[c := freq[c]] == freq && freq[x := freq[x]] == freq;
    CostUpdate(freq, len, c, freq[c], len[x]);
    CostUpdate(freq, mid, x, freq[x], len[c]);
    KraftUpdate(freq, len, m, c, freq[c], len[x]);
    KraftUpdate(freq, mid, m, x, freq[x], len[c]);
    if c != x {
      SwapGain(freq[c], freq[x], len[c], len[x]);
    }
  }

  lemma SwapGain(f: nat, g: nat, k: nat, l: nat)
    requires f <= g && k <= l
    ensures f * l + g * k <= f * k + g * l
  {
    assert (g - f) * (l - k) >= 0;
  }

  lemma {:induction false} SumScale(s: seq<int>, t: seq<int>, k: int)
    requires |s| == |t| && forall i :: 0 <= i < |s| ==> t[i] == k * s[i]
    ensures Sum(t) == k * Sum(s)
  {
    if s != [] {
      SumScale(s[..|s| - 1], t[..|t| - 1], k);
      assert k * (Sum(s[..|s| - 1]) + s[|s| - 1]) == k * Sum(s[..|s| - 1]) + k * s[|s| - 1];
    }
  }

  /** Kraft sums at different scales. */
  lemma Rescale(freq: seq<nat>, len: seq<nat>, m: nat, d: nat)
    requires |freq| == |len| && Within(freq, len, m)
    ensures Within(freq, len, m + d)
    ensures Sum(KraftTerms(freq, len, m + d)) == Pow2(d) * Sum(KraftTerms(freq, len, m))
  {
    hide Pow2;
    var s, t := KraftTerms(freq, len, m), KraftTerms(freq, len, m + d);
    forall i | 0 <= i < |freq|
      ensures t[i] == Pow2(d) * s[i]
    {
      if freq[i] != 0 {
        Pow2Add(d, m - len[i]);
      }
    }
    SumScale(s, t, Pow2(d));
  }

  lemma CancelFactor(k: nat, x: int, y: int)
    requires 0 < k && k * x <= k * y
    ensures x <= y
  {
    assert x > y ==> k * (x - y) > 0;
  }

  /** Kraft's inequality does not depend on the scale. */
  lemma KraftAt(freq: seq<nat>, len: seq<nat>, m: nat, m': nat)
    requires Kraft(freq, len, m) && m' <= m && Within(freq, len, m')
    ensures Kraft(freq, len, m')
  {
    Rescale(freq, len, m', m - m');
    Pow2Add(m - m', m');
    CancelFactor(Pow2(m - m'), Sum(KraftTerms(freq, len, m')), Pow2(m'));
  }

  ghost predicate Others(freq: seq<nat>, len: seq<nat>, c: nat, m: nat)
    requires |freq| == |len|
  {
    forall i :: 0 <= i < |freq| && i != c && freq[i] != 0 ==> len[i] <= m
  }

  /** A single longest code word can be cut down to the length of the second longest. */
  lemma ShortenLongest(freq: seq<nat>, len: seq<nat>, c: nat, m: nat)
    requires c < |freq| == |len| && freq[c] != 0 && Kraft(freq, len, len[c]) && Others(freq, len, c, m) && m < len[c]
    ensures Kraft(freq, len[c := m], m)
  {
    hide Pow2, Kraft, KraftTerms;
    var top, without := len[c], freq[c := 0];
    KraftMeans(freq, len, top);
    assert freq[c := freq[c]] == freq && len[c := len[c]] == len && without[c := freq[c]] == freq;
    KraftUpdate(freq, len, top, c, 0, len[c]);
    Rescale(without, len, m, top - m);
    Pow2Add(top - m, m);
    Pow2Zero();
    var rest := Sum(KraftTerms(without, len, m));
    assert Pow2(top - m) * rest + 1 <= Pow2(top - m) * Pow2(m);
    StrictFactor(Pow2(top - m), rest, Pow2(m));
    KraftUpdate(without, len, m, c, freq[c], m);
    KraftIs(freq, len[c := m], m);
  }

  lemma Pow2Zero()
    ensures Pow2(0) == 1
  {
  }

  lemma StrictFactor(k: nat, x: int, y: int)
    requires 0 < k && k * x + 1 <= k * y
    ensures x + 1 <= y
  {
    assert x >= y ==> k * (x - y) >= 0;
  }

  lemma KraftMeans(freq: seq<nat>, len: seq<nat>, m: nat)
    requires Kraft(freq, len, m)
    ensures |freq| == |len| && Within(freq, len, m) && Sum(KraftTerms(freq, len, m)) <= Pow2(m)
  {
  }

  lemma KraftIs(freq: seq<nat>, len: seq<nat>, m: nat)
    requires |freq| == |len| && Within(freq, len, m) && Sum(KraftTerms(freq, len, m)) <= Pow2(m)
    ensures Kraft(freq, len, m)
  {
  }

  /** A symbol of greatest length among those that take part, other than `avoid`. */
  lemma {:induction false} Longest(freq: seq<nat>, len: seq<nat>, avoid: int, n: nat) returns (x: nat)
    requires |freq| == |len| && n <= |freq|
    requires exists i :: 0 <= i < n && i != avoid && freq[i] != 0
    ensures x < n && x != avoid && freq[x] != 0
    ensures forall i :: 0 <= i < n && i != avoid && freq[i] != 0 ==> len[i] <= len[x]
  {
    if exists i :: 0 <= i < n - 1 && i != avoid && freq[i] != 0 {
      x := Longest(freq, len, avoid, n - 1);
      if n - 1 != avoid && freq[n - 1] != 0 && len[n - 1] > len[x] {
        x := n - 1;
      }
    } else {
      x := n - 1;
    }
  }

  /** c1 is a rarest symbol, c2 a rarest of the others. */
  ghost predicate TwoRarest(freq: seq<nat>, c1: nat, c2: nat) {
    && c1 < |freq| && c2 < |freq| && c1 != c2 && freq[c1] != 0 && freq[c2] != 0
    && (forall i :: 0 <= i < |freq| && freq[i] != 0 ==> freq[c1] <= freq[i])
    && (forall i :: 0 <= i < |freq| && freq[i] != 0 && i != c1 ==> freq[c2] <= freq[i])
  }

  /** The two rarest symbols may as well share the greatest length. */
  lemma Siblings(freq: seq<nat>, len: seq<nat>, m: nat, c1: nat, c2: nat) returns (better: seq<nat>, top: nat)
    requires Kraft(freq, len, m) && TwoRarest(freq, c1, c2)
    ensures |better| == |freq| && Kraft(freq, better, top) && Cost(freq, better) <= Cost(freq, len)
    ensures 1 <= top && better[c1] == better[c2] == top
  {
    hide Pow2, Kraft, Cost;
    KraftMeans(freq, len, m);
    var x := Longest(freq, len, -1, |freq|);
    var one := Swap(freq, len, m, c1, x);
    KraftMeans(freq, one, m);
    var y := Longest(freq, one, c1, |freq|);
    better := Swap(freq, one, m, c2, y);
    KraftMeans(freq, better, m);
    assert Within(freq, better, better[c1]);
    KraftAt(freq, better, m, better[c1]);
    top := better[c2];
    if top < better[c1] {
      ShortenLongest(freq, better, c1, top);
      ShorterIsCheaper(freq, better, c1, top);
      better := better[c1 := top];
    }
    KraftMeans(freq, better, top);
    NotBothEmpty(freq, better, top, c1, c2);
  }

  lemma ShorterIsCheaper(freq: seq<nat>, len: seq<nat>, c: nat, l: nat)
    requires |freq| == |len| && c < |freq| && l <= len[c]
    ensures Cost(freq, len[c := l]) <= Cost(freq, len)
  {
    CostUpdate(freq, len, c, freq[c], l);
    assert freq[c := freq[c]] == freq;
    MulMonotone(l, len[c], freq[c]);
  }

  /** Two symbols cannot both have the empty code word. */
  lemma NotBothEmpty(freq: seq<nat>, len: seq<nat>, m: nat, c1: nat, c2: nat)
    requires c1 < |freq| == |len| && c2 < |freq| && Kraft(freq, len, m) && len[c1] == len[c2] == m
    requires c1 != c2 && freq[c1] != 0 && freq[c2] != 0
    ensures 1 <= m
  {
    if m == 0 {
      var s := KraftTerms(freq, len, 0);
      Pow2Zero();
      SumOfTwo(s, c1, c2);
    }
  }

  lemma {:induction false} SumNonNegative(s: seq<int>)
    requires forall i :: 0 <= i < |s| ==> 0 <= s[i]
    ensures 0 <= Sum(s)
  {
    if s != [] {
      SumNonNegative(s[..|s| - 1]);
    }
  }

  lemma SumOfTwo(s: seq<int>, i: nat, j: nat)
    requires i < |s| && j < |s| && i != j && forall k :: 0 <= k < |s| ==> 0 <= s[k]
    ensures s[i] + s[j] <= Sum(s)
  {
    SumUpdate(s, i, 0);
    SumUpdate(s[i := 0], j, 0);
    SumNonNegative(s[i := 0][j := 0]);
  }

  /** How many symbols take part. */
  ghost function Used(freq: seq<nat>): nat {
    |set i | 0 <= i < |freq| && freq[i] != 0|
  }

  const MAX_TOTAL := 1_000_000_000

  /** The symbol the search loop ends with: the rarest, the last one in case of ties, or -1. */
  function Rarest(freq: seq<nat>, skip: int, n: nat): (c: int)
    requires n <= |freq|
    ensures -1 <= c < n && (c >= 0 ==> freq[c] != 0 && c != skip && freq[c] <= MAX_TOTAL)
    ensures forall i :: 0 <= i < n && i != skip && 0 < freq[i] <= MAX_TOTAL ==> c >= 0 && freq[c] <= freq[i]
  {
    if n == 0 then -1
    else
      var c := Rarest(freq, skip, n - 1);
      var v := if c < 0 then MAX_TOTAL else freq[c];
      if freq[n - 1] != 0 && freq[n - 1] <= v && n - 1 != skip then n - 1 else c
  }

  /** The two trees become one. */
  function Merged(freq: seq<nat>, c1: nat, c2: nat): (f: seq<nat>)
    requires c1 < |freq| && c2 < |freq| && c1 != c2 && freq[c1] != 0 && freq[c2] != 0
    ensures |f| == |freq|
    ensures Used(f) < Used(freq)
  {
    var f := freq[c1 := freq[c1] + freq[c2]][c2 := 0];
    FewerUsed(freq, f, c2);
    f
  }

  lemma FewerUsed(freq: seq<nat>, f: seq<nat>, c: nat)
    requires |f| == |freq| && c < |freq| && freq[c] != 0 && f[c] == 0
    requires forall i :: 0 <= i < |freq| && i != c ==> (f[i] != 0 <==> freq[i] != 0)
    ensures Used(f) == Used(freq) - 1
  {
    var s, t := set i | 0 <= i < |freq| && freq[i] != 0, set i | 0 <= i < |f| && f[i] != 0;
    assert s == t + {c};
  }

  /** What the merging procedure adds up to: every merge costs one bit per symbol below it. */
  ghost function MergeCost(freq: seq<nat>): nat
    decreases Used(freq)
  {
    var c1 := Rarest(freq, -1, |freq|);
    var c2 := Rarest(freq, c1, |freq|);
    if c1 < 0 || c2 < 0 then 0
    else freq[c1] + freq[c2] + MergeCost(Merged(freq, c1, c2))
  }

  lemma {:induction false} TermAtMostSum(freq: seq<nat>, i: nat)
    requires i < |freq|
    ensures freq[i] <= Sum(freq)
  {
    SumUpdate(freq, i, 0);
    SumNonNegative(freq[i := 0]);
  }

  lemma MergedSum(freq: seq<nat>, c1: nat, c2: nat)
    requires c1 < |freq| && c2 < |freq| && c1 != c2 && freq[c1] != 0 && freq[c2] != 0
    ensures Sum(Merged(freq, c1, c2)) == Sum(freq)
  {
    hide Sum, Used;
    var f := freq[c1 := freq[c1] + freq[c2]];
    SumUpdate(freq, c1, freq[c1] + freq[c2]);
    SumUpdate(f, c2, 0);
  }

  /** Taking a common last bit off two code words leaves a code for the merged symbols. */
  lemma MergeLengths(freq: seq<nat>, len: seq<nat>, m: nat, c1: nat, c2: nat)
    requires Kraft(freq, len, m) && TwoRarest(freq, c1, c2) && 1 <= m && len[c1] == len[c2] == m
    ensures Kraft(Merged(freq, c1, c2), len[c1 := m - 1], m)
    ensures Cost(freq, len) == freq[c1] + freq[c2] + Cost(Merged(freq, c1, c2), len[c1 := m - 1])
  {
    hide Pow2, Kraft, Cost, KraftTerms;
    KraftMeans(freq, len, m);
    var sum := freq[c1] + freq[c2];
    var f, l := freq[c1 := sum], len[c1 := m - 1];
    assert l[c2 := m] == l;
    KraftUpdate(freq, len, m, c1, sum, m - 1);
    KraftUpdate(f, l, m, c2, 0, m);
    CostUpdate(freq, len, c1, sum, m - 1);
    CostUpdate(f, l, c2, 0, m);
    Pow2Zero();
    assert Pow2(1) == 2 by { OneBit(); }
    KraftIs(Merged(freq, c1, c2), l, m);
    assert freq[c1] * m + freq[c2] * m == sum * (m - 1) + sum;
  }

  lemma OneBit()
    ensures Pow2(1) == 2
  {
  }

  /** No code whose lengths satisfy Kraft's inequality is cheaper than the merging procedure. */
  lemma {:induction false} LowerBound(freq: seq<nat>, len: seq<nat>, m: nat)
    requires Kraft(freq, len, m) && Sum(freq) <= MAX_TOTAL
    ensures MergeCost(freq) <= Cost(freq, len)
    decreases Used(freq)
  {
    hide Pow2, Kraft, Cost, KraftTerms, Merged;
    KraftMeans(freq, len, m);
    var c1 := Rarest(freq, -1, |freq|);
    var c2 := Rarest(freq, c1, |freq|);
    if c1 < 0 || c2 < 0 {
      CostNonNegative(freq, len);
    } else {
      forall i | 0 <= i < |freq|
        ensures freq[i] <= MAX_TOTAL
      {
        TermAtMostSum(freq, i);
      }
      var better, top := Siblings(freq, len, m, c1, c2);
      MergeLengths(freq, better, top, c1, c2);
      MergedSum(freq, c1, c2);
      LowerBound(Merged(freq, c1, c2), better[c1 := top - 1], top);
    }
  }

  lemma CostNonNegative(freq: seq<nat>, len: seq<nat>)
    requires |freq| == |len|
    ensures 0 <= Cost(freq, len)
  {
    forall i | 0 <= i < |freq|
      ensures 0 <= CostTerms(freq, len)[i]
    {
      MulMonotone(0, freq[i], len[i]);
    }
    SumNonNegative(CostTerms(freq, len));
  }
}
