/** Counts of code lengths that overflow a byte: never with 254 symbols, but with 255 that are equally frequent. */
module HuffmanOverflow {
  import opened Powers
  import opened HuffmanOptimality
  import opened HuffmanForest
  import opened HuffmanLimit
  import opened HuffmanTable

  lemma {:induction false} CountOfAtMost(size: seq<nat>, l: nat)
    requires 1 <= l
    ensures CountOf(size, l) <= CountNonzero(size)
  {
    if size != [] {
      CountOfAtMost(size[..|size| - 1], l);
    }
  }

  /** With at most 254 symbols in use no size is shared by 256. */
  lemma FewSymbols(orig: seq<nat>, size: seq<nat>, l: nat)
    requires CountsOk(orig) && CompleteSizes(orig, size) && CountNonzero(orig[..256]) <= 254 && 1 <= l
    ensures CountOf(size, l) != 256
  {
    hide CountOf, CompleteSizes;
    PseudoSymbolSize(orig, size);
    CountOfAtMost(size, l);
  }

  /** 255 symbols that occur once each, and the pseudo-symbol. */
  ghost predicate AllButOnce(orig: seq<nat>, hole: nat) {
    |orig| == SYMBOLS && hole < 256 && forall s :: 0 <= s < |orig| ==> orig[s] == if s == hole then 0 else 1
  }

  lemma {:induction false} SumOfOnes(s: seq<int>)
    requires forall i :: 0 <= i < |s| ==> s[i] == 1
    ensures Sum(s) == |s|
  {
    if s != [] {
      SumOfOnes(s[..|s| - 1]);
    }
  }

  lemma SumAllButOnce(orig: seq<nat>, hole: nat)
    requires AllButOnce(orig, hole)
    ensures Sum(orig) == 256
  {
    hide Sum;
    SumOfOnes(orig[hole := 1]);
    SumUpdate(orig, hole, 1);
  }

  /** 2^(8 - l) lies above a line that it touches at 8 only. */
  lemma Tangent(l: nat, m: nat)
    requires l <= m && 9 <= m
    ensures 4 * Pow2(m - l) >= Pow2(m - 8) * (28 - 3 * l)
    ensures 4 * Pow2(m - l) == Pow2(m - 8) * (28 - 3 * l) ==> l == 8
  {
    hide Pow2;
    var p := Pow2(m - 8);
    Pow2Positive(m - 8);
    Pow2Positive(m - l);
    if l >= 10 {
      MulSign(p, 3 * l - 28);
      MulNegated(28 - 3 * l, p);
    } else if l == 9 {
      DoublePower(m - 9);
    } else if l < 8 {
      Pow2Add(8 - l, m - 8);
      SmallTangent(8 - l);
      MulMonotone(28 - 3 * l + 1, 4 * Pow2(8 - l), p);
      MulOneMore(28 - 3 * l, p);
      MulAssoc(4, Pow2(8 - l), p);
    }
  }

  lemma SmallTangent(x: nat)
    requires x <= 8
    ensures x > 0 ==> 4 * Pow2(x) >= 5 + 3 * x
  {
    if x > 1 {
      SmallTangent(x - 1);
    }
  }

  /** How far each term of Kraft's sum lies above the line, scaled. */
  ghost function Excess(orig: seq<nat>, size: seq<nat>): (d: seq<int>)
    requires |orig| == |size| && Within(orig, size, |orig|) && 9 <= |orig|
    ensures |d| == |orig|
  {
    var k, c, p := KraftTerms(orig, size, |orig|), CostTerms(orig, size), Pow2(|orig| - 8);
    seq(|orig|, i requires 0 <= i < |orig| => 4 * k[i] - p * (28 * orig[i] - 3 * c[i]))
  }

  lemma {:induction false} SumCombined(d: seq<int>, k: seq<int>, o: seq<int>, c: seq<int>, p: int)
    requires |d| == |k| == |o| == |c| && forall i :: 0 <= i < |d| ==> d[i] == 4 * k[i] - p * (28 * o[i] - 3 * c[i])
    ensures Sum(d) == 4 * Sum(k) - p * (28 * Sum(o) - 3 * Sum(c))
  {
    if d != [] {
      var n := |d| - 1;
      SumCombined(d[..n], k[..n], o[..n], c[..n], p);
      Distributed(p, 28 * Sum(o[..n]) - 3 * Sum(c[..n]), 28 * o[n] - 3 * c[n]);
    }
  }

  lemma Distributed(p: int, x: int, y: int)
    ensures p * (x + y) == p * x + p * y
  {
  }

  /** No term lies below the line, and only 8 bits lie on it. */
  lemma ExcessAt(orig: seq<nat>, size: seq<nat>, hole: nat, i: nat)
    requires AllButOnce(orig, hole) && CompleteSizes(orig, size) && i < |orig|
    ensures Excess(orig, size)[i] >= 0
    ensures Excess(orig, size)[i] == 0 && i != hole ==> size[i] == 8
  {
    hide Pow2, Sum;
    if i != hole {
      Tangent(size[i], |orig|);
    }
  }

  /** Equal sizes of 8 bits cost 2048 bits, and no code is cheaper than the merges. */
  lemma FlatCost(orig: seq<nat>, hole: nat)
    requires AllButOnce(orig, hole)
    ensures MergeCost(orig) <= 2048
  {
    hide Sum, MergeCost;
    var flat := seq(|orig|, _ => 8);
    SumAllButOnce(orig, hole);
    assert KraftTerms(orig, flat, 8) == orig;
    SumScale(orig, CostTerms(orig, flat), 8);
    Pow2Values();
    LowerBound(orig, flat, 8);
  }

  /** Every symbol gets 8 bits. */
  lemma AllEight(orig: seq<nat>, size: seq<nat>, hole: nat)
    requires AllButOnce(orig, hole) && CompleteSizes(orig, size) && Cost(orig, size) == MergeCost(orig)
    ensures |size| == |orig| && forall s :: 0 <= s < |size| ==> size[s] == if s == hole then 0 else 8
  {
    hide Sum, Pow2, MergeCost, Excess, KraftTerms, CostTerms;
    var n := |orig|;
    var d, p := Excess(orig, size), Pow2(n - 8);
    FlatCost(orig, hole);
    SumAllButOnce(orig, hole);
    ExcessSum(orig, size);
    Pow2Add(8, n - 8);
    Pow2Values();
    MulMonotone(28 * 256 - 3 * 2048, 28 * 256 - 3 * Cost(orig, size), p);
    forall i | 0 <= i < n
      ensures size[i] == if i == hole then 0 else 8
    {
      forall j | 0 <= j < n
        ensures 0 <= d[j]
      {
        ExcessAt(orig, size, hole, j);
      }
      TermAtMostSum(d, i);
      ExcessAt(orig, size, hole, i);
    }
  }

  lemma ExcessSum(orig: seq<nat>, size: seq<nat>)
    requires |orig| == |size| && Within(orig, size, |orig|) && 9 <= |orig|
    ensures Sum(Excess(orig, size))
         == 4 * Sum(KraftTerms(orig, size, |orig|)) - Pow2(|orig| - 8) * (28 * Sum(orig) - 3 * Cost(orig, size))
  {
    hide Sum, Pow2, KraftTerms, CostTerms;
    SumCombined(Excess(orig, size), KraftTerms(orig, size, |orig|), orig, CostTerms(orig, size), Pow2(|orig| - 8));
  }

  lemma {:induction false} CountEights(size: seq<nat>, orig: seq<nat>)
    requires |size| == |orig| && forall s :: 0 <= s < |size| ==> size[s] == 8 * orig[s] && orig[s] <= 1
    ensures CountOf(size, 8) == Sum(orig)
  {
    if size != [] {
      CountEights(size[..|size| - 1], orig[..|orig| - 1]);
    }
  }

  /**
   Any 255 of the 256 symbols, each counted once: all optimal sizes are 8, so that bits[8] would have to be
   256, and the builder is left without a length in use.
   */
  lemma EqualCounts(orig: seq<nat>, size: seq<nat>, hole: nat)
    requires AllButOnce(orig, hole) && CompleteSizes(orig, size) && Cost(orig, size) == MergeCost(orig)
    ensures CountsOk(orig) && CountNonzero(orig[..256]) == 255 && !HasLong(size) && CountOf(size, 8) == 256
  {
    hide Sum, CompleteSizes, CountOf, MergeCost, CountNonzero;
    SumAllButOnce(orig, hole);
    AllEight(orig, size, hole);
    CountEights(size, orig);
    assert orig[if hole == 0 then 1 else 0] != 0;
    CountOnes(orig[..256], hole);
  }

  lemma {:induction false} CountOnes(s: seq<nat>, hole: nat)
    requires forall i :: 0 <= i < |s| ==> s[i] == if i == hole then 0 else 1
    ensures CountNonzero(s) == if hole < |s| then |s| - 1 else |s|
  {
    if s != [] {
      CountOnes(s[..|s| - 1], hole);
    }
  }
}
