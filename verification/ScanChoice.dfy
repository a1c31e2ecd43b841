/** What the scan search chooses, as a function of the sizes that the scans turned out to have. */
module ScanChoice {
  import opened ScanSearch
  import opened ScanSelection
  import Powers

  /** The sizes of the scans from one number up to another. */
  function SizesOf(size: seq<nat>, lo: nat, hi: nat): nat
    requires hi <= |size|
    decreases hi
  {
    if hi <= lo then 0 else SizesOf(size, lo, hi - 1) + size[hi - 1]
  }

  /** The refinement scans of luma for bits below b. */
  function LumaBelow(size: seq<nat>, b: nat): nat
    requires 3 * b < |size|
  {
    if b == 0 then 0 else LumaBelow(size, b - 1) + size[3 + 3 * (b - 1)]
  }

  /** Luma down to bit b, and the refinements from there. */
  function LumaCosts(size: seq<nat>): (c: seq<nat>)
    requires LUMA_SPLIT <= |size|
    ensures |c| == AL_MAX_LUMA + 1
  {
    seq(AL_MAX_LUMA + 1, b requires 0 <= b <= AL_MAX_LUMA =>
      SizesOf(size, 3 * b + 1, 3 * b + 3) + LumaBelow(size, b))
  }

  function ChromaBelow(size: seq<nat>, b: nat): nat
    requires CHROMA_AC + 6 * b <= |size|
  {
    if b == 0 then 0
    else ChromaBelow(size, b - 1) + size[CHROMA_AC + 4 + 6 * (b - 1)] + size[CHROMA_AC + 5 + 6 * (b - 1)]
  }

  function ChromaCosts(size: seq<nat>): (c: seq<nat>)
    requires CHROMA_SPLIT <= |size|
    ensures |c| == AL_MAX_CHROMA + 1
  {
    seq(AL_MAX_CHROMA + 1, b requires 0 <= b <= AL_MAX_CHROMA =>
      SizesOf(size, CHROMA_AC + 6 * b, CHROMA_AC + 6 * b + 4) + ChromaBelow(size, b))
  }

  /** The ways to split a spectrum: 0 stands for not splitting it. */
  function SplitCosts(size: seq<nat>, start: nat, m: nat): (c: seq<nat>)
    requires GroupEnd(start, m, SPLITS) <= |size|
    ensures |c| == SPLITS + 1
  {
    seq(SPLITS + 1, k requires 0 <= k <= SPLITS =>
      assert GroupEnd(start, m, k) <= GroupEnd(start, m, SPLITS);
      SizesOf(size, GroupStart(start, m, k), GroupEnd(start, m, k)))
  }

  // ---------------------------------------------------------------------------------- choices

  /** Each bit more has paid so far. */
  ghost predicate Falls(c: seq<nat>, best: nat) {
    best < |c| && forall b :: 0 <= b < best ==> c[b + 1] < c[b]
  }

  /** Each bit has paid up to here, and one more would not, or is not tried. */
  ghost predicate Settled(c: seq<nat>, best: nat) {
    Falls(c, best) && (best + 1 < |c| ==> c[best + 1] >= c[best])
  }

  /** The cheapest of the first ways, the earliest of equally cheap ones. */
  function FirstLeast(c: seq<nat>, n: nat): (b: nat)
    requires n < |c|
    ensures b <= n && (forall k :: 0 <= k <= n ==> c[b] <= c[k]) && (forall k :: 0 <= k < b ==> c[b] < c[k])
  {
    if n == 0 then 0
    else
      var b := FirstLeast(c, n - 1);
      if c[n] < c[b] then n else b
  }

  /** No way behind t is tried: not splitting is best, or the best split is not at the border of those tried. */
  predicate Stops(c: seq<nat>, t: nat)
    requires t < |c|
  {
    var b := FirstLeast(c, t);
    (t == 2 && b == 0) || (t == 3 && b != 2) || (t == 4 && b != 4)
  }

  ghost predicate GoesOn(c: seq<nat>, n: nat)
    requires n <= |c|
  {
    forall t :: 0 <= t < n ==> !Stops(c, t)
  }

  /** The best way among those that are tried. */
  ghost predicate Searched(c: seq<nat>, best: nat) {
    exists n :: 0 <= n < |c| && LastTried(c, n) && best == FirstLeast(c, n)
  }

  ghost predicate LastTried(c: seq<nat>, n: nat)
    requires n < |c|
  {
    GoesOn(c, n) && (Stops(c, n) || n == |c| - 1)
  }

  // -------------------------------------------------------------------------- during the search

  /** When scan s is next: the cost of the best Al of luma so far, or that it is settled. */
  ghost predicate LumaJudged(size: seq<nat>, s: nat, best: nat, cost: nat)
    requires LUMA_SPLIT <= |size|
  {
    if s < LUMA_SPLIT then 3 <= s ==> Falls(LumaCosts(size), best) && cost == LumaCosts(size)[best]
    else Settled(LumaCosts(size), best)
  }

  ghost predicate ChromaJudged(size: seq<nat>, s: nat, best: nat, cost: nat)
    requires CHROMA_SPLIT <= |size|
  {
    if s < CHROMA_SPLIT then s >= CHROMA_AC + 4 ==> Falls(ChromaCosts(size), best) && cost == ChromaCosts(size)[best]
    else Settled(ChromaCosts(size), best)
  }

  /** How many splits have been tried when scan s is next. */
  function Tried(start: nat, m: nat, s: nat): nat
    requires start + m <= s && 1 <= m <= 2
  {
    (s - start - m) / (2 * m)
  }

  lemma TriedIs(start: nat, m: nat, s: nat, n: nat)
    requires 1 <= m <= 2 && n <= SPLITS
    ensures start + m <= s ==> GroupEnd(start, m, Tried(start, m, s)) <= s
    ensures start + m <= GroupEnd(start, m, n) <= GroupEnd(start, m, SPLITS) && Tried(start, m, GroupEnd(start, m, n)) == n
    ensures if n == 0 then GroupEnd(start, m, n) - 1 < start + m
            else start + m <= GroupEnd(start, m, n) - 1 && Tried(start, m, GroupEnd(start, m, n) - 1) == n - 1
    ensures n < SPLITS ==> GroupEnd(start, m, n) < GroupEnd(start, m, SPLITS)
    ensures start + m <= s < GroupEnd(start, m, SPLITS) ==> Tried(start, m, s) < SPLITS
  {
    if m == 1 {
      TwoApart(start + 1, s, n);
    } else {
      FourApart(start + 2, s, n);
    }
  }

  lemma TwoApart(start: nat, s: nat, n: nat)
    ensures start <= s ==> start + (s - start) / 2 * 2 <= s
    ensures (start + 2 * n - start) / 2 == n && (n > 0 ==> (start + 2 * n - 1 - start) / 2 == n - 1)
  {
  }

  lemma FourApart(start: nat, s: nat, n: nat)
    ensures start <= s ==> start + (s - start) / 4 * 4 <= s
    ensures (start + 4 * n - start) / 4 == n && (n > 0 ==> (start + 4 * n - 1 - start) / 4 == n - 1)
  {
  }

  /** When scan s is next: the best split so far, or the one that was searched for. */
  ghost predicate SplitJudged(size: seq<nat>, s: nat, start: nat, m: nat, best: nat, cost: nat)
    requires GroupEnd(start, m, SPLITS) <= |size| && 1 <= m <= 2
  {
    var c := SplitCosts(size, start, m);
    if s < GroupEnd(start, m, SPLITS) then
      s >= start + m ==>
        var n := Tried(start, m, s);
        n <= SPLITS && best == FirstLeast(c, n) && cost == c[best] && GoesOn(c, n + 1)
    else Searched(c, best)
  }

  // -------------------------------------------------------------------- what later sizes leave alone

  lemma {:induction false} SizesStay(size: seq<nat>, s: nat, v: nat, lo: nat, hi: nat)
    requires hi <= s < |size|
    ensures SizesOf(size[s := v], lo, hi) == SizesOf(size, lo, hi)
    decreases hi
  {
    if lo < hi {
      SizesStay(size, s, v, lo, hi - 1);
    }
  }

  lemma {:induction false} LumaBelowStays(size: seq<nat>, s: nat, v: nat, b: nat)
    requires 3 * b < s < |size|
    ensures LumaBelow(size[s := v], b) == LumaBelow(size, b)
  {
    if b > 0 {
      LumaBelowStays(size, s, v, b - 1);
    }
  }

  lemma {:induction false} ChromaBelowStays(size: seq<nat>, s: nat, v: nat, b: nat)
    requires CHROMA_AC + 6 * b <= s < |size|
    ensures ChromaBelow(size[s := v], b) == ChromaBelow(size, b)
  {
    if b > 0 {
      ChromaBelowStays(size, s, v, b - 1);
    }
  }

  lemma {:induction false} FirstLeastSame(c: seq<nat>, d: seq<nat>, n: nat)
    requires n < |c| == |d| && forall k :: 0 <= k <= n ==> c[k] == d[k]
    ensures FirstLeast(c, n) == FirstLeast(d, n)
  {
    if n > 0 {
      FirstLeastSame(c, d, n - 1);
    }
  }

  lemma GoesOnSame(c: seq<nat>, d: seq<nat>, n: nat)
    requires n <= |c| == |d| && forall k :: 0 <= k < n ==> c[k] == d[k]
    ensures GoesOn(c, n) ==> GoesOn(d, n)
  {
    if GoesOn(c, n) {
      forall t | 0 <= t < n
        ensures !Stops(d, t)
      {
        assert !Stops(c, t);
        FirstLeastSame(c, d, t);
      }
    }
  }

  lemma LumaStays(size: seq<nat>, s: nat, v: nat, best: nat, cost: nat)
    requires LUMA_SPLIT <= |size| && s < |size| && LumaJudged(size, s, best, cost)
    requires s < LUMA_SPLIT ==> 3 <= s ==> best == s / 3 - 1
    ensures LumaJudged(size[s := v], s, best, cost)
  {
    var c, d := LumaCosts(size), LumaCosts(size[s := v]);
    forall b | 0 <= b <= AL_MAX_LUMA && 3 * b + 2 < s
      ensures c[b] == d[b]
    {
      SizesStay(size, s, v, 3 * b + 1, 3 * b + 3);
      LumaBelowStays(size, s, v, b);
    }
    assert s >= LUMA_SPLIT ==> c == d;
  }

  lemma ChromaStays(size: seq<nat>, s: nat, v: nat, best: nat, cost: nat)
    requires CHROMA_SPLIT <= |size| && s < |size| && ChromaJudged(size, s, best, cost)
    requires s < CHROMA_SPLIT ==> best == if s < 30 then 0 else (s - 30) / 6
    ensures ChromaJudged(size[s := v], s, best, cost)
  {
    var c, d := ChromaCosts(size), ChromaCosts(size[s := v]);
    forall b | 0 <= b <= AL_MAX_CHROMA && CHROMA_AC + 6 * b + 4 <= s
      ensures c[b] == d[b]
    {
      SizesStay(size, s, v, CHROMA_AC + 6 * b, CHROMA_AC + 6 * b + 4);
      ChromaBelowStays(size, s, v, b);
    }
    assert s >= CHROMA_SPLIT ==> c == d;
  }

  lemma GroupsRise(start: nat, m: nat, k: nat, n: nat)
    requires k <= n
    ensures GroupEnd(start, m, k) <= GroupEnd(start, m, n)
  {
    Powers.MulMonotone(k, n, m);
  }

  lemma SplitStays(size: seq<nat>, s: nat, v: nat, start: nat, m: nat, best: nat, cost: nat)
    requires GroupEnd(start, m, SPLITS) <= |size| && 1 <= m <= 2 && s < |size|
    requires SplitJudged(size, s, start, m, best, cost)
    ensures SplitJudged(size[s := v], s, start, m, best, cost)
  {
    hide GroupEnd, GroupStart, Tried;
    var c, d := SplitCosts(size, start, m), SplitCosts(size[s := v], start, m);
    TriedIs(start, m, s, SPLITS);
    forall k | 0 <= k <= SPLITS && GroupEnd(start, m, k) <= s
      ensures c[k] == d[k]
    {
      SizesStay(size, s, v, GroupStart(start, m, k), GroupEnd(start, m, k));
    }
    if s >= GroupEnd(start, m, SPLITS) {
      forall k | 0 <= k <= SPLITS
        ensures c[k] == d[k]
      {
        GroupsRise(start, m, k, SPLITS);
      }
      assert c == d;
    } else if s >= start + m {
      var n := Tried(start, m, s);
      forall k | 0 <= k <= n
        ensures c[k] == d[k]
      {
        GroupsRise(start, m, k, n);
      }
      FirstLeastSame(c, d, n);
      GoesOnSame(c, d, n + 1);
    }
  }

  // ----------------------------------------------------------------------------- one scan more

  /** A bit of luma has been tried: it is better, or the search for it is over. */
  lemma LumaTried(size: seq<nat>, b: nat, best: nat, cost: nat)
    requires LUMA_SPLIT <= |size| && b <= AL_MAX_LUMA && LumaJudged(size, 3 * b + 2, best, cost)
    requires b > 0 ==> best == b - 1
    ensures b == 0 || LumaCosts(size)[b] < cost ==> LumaJudged(size, 3 * b + 3, b, LumaCosts(size)[b])
    ensures b > 0 && LumaCosts(size)[b] >= cost ==> LumaJudged(size, LUMA_SPLIT, best, cost)
  {
  }

  lemma ChromaTried(size: seq<nat>, b: nat, best: nat, cost: nat)
    requires CHROMA_SPLIT <= |size| && b <= AL_MAX_CHROMA && ChromaJudged(size, CHROMA_AC + 6 * b + 3, best, cost)
    requires b > 0 ==> best == b - 1
    ensures b == 0 || ChromaCosts(size)[b] < cost ==> ChromaJudged(size, CHROMA_AC + 6 * b + 4, b, ChromaCosts(size)[b])
    ensures b > 0 && ChromaCosts(size)[b] >= cost ==> ChromaJudged(size, CHROMA_SPLIT, best, cost)
  {
  }

  /** A split has been tried. */
  lemma SplitTried(size: seq<nat>, start: nat, m: nat, n: nat, best: nat, cost: nat, b: nat, least: nat)
    requires GroupEnd(start, m, SPLITS) <= |size| && 1 <= m <= 2 && n <= SPLITS
    requires SplitJudged(size, GroupEnd(start, m, n) - 1, start, m, best, cost)
    requires var better := n == 0 || SplitCosts(size, start, m)[n] < cost;
             && b == (if better then n else best)
             && least == (if better then SplitCosts(size, start, m)[n] else cost)
    ensures var stop := (n == 2 && b == 0) || (n == 3 && b != 2) || (n == 4 && b != 4);
            && (!stop ==> SplitJudged(size, GroupEnd(start, m, n), start, m, b, least))
            && (stop || n == SPLITS ==> Searched(SplitCosts(size, start, m), b))
  {
    hide GroupEnd, GroupStart, Tried, SplitCosts;
    var c := SplitCosts(size, start, m);
    TriedIs(start, m, GroupEnd(start, m, n), n);
    assert b == FirstLeast(c, n) && least == c[b];
    if Stops(c, n) || n == SPLITS {
      assert LastTried(c, n);
    } else {
      assert GoesOn(c, n + 1);
    }
  }

  // ------------------------------------------------------------------------------- all together

  /** What the sizes so far say about the choices, when scan s is next. */
  ghost predicate Judged(size: seq<nat>, s: nat, x: Choices, cost: nat, together: bool, color: bool) {
    && |size| == ScanCount(color) && s <= |size|
    && LumaJudged(size, s, x.alLuma, cost)
    && (LUMA_SPLIT <= s ==> SplitJudged(size, s, LUMA_SPLIT, 1, x.splitLuma, cost))
    && (color && CHROMA_AC <= s ==>
          && (together <==> size[CHROMA_DC] <= size[CHROMA_DC + 1] + size[CHROMA_DC + 2])
          && ChromaJudged(size, s, x.alChroma, cost))
    && (color && CHROMA_SPLIT <= s ==> SplitJudged(size, s, CHROMA_SPLIT, 2, x.splitChroma, cost))
  }

  lemma NothingJudged(size: seq<nat>, x: Choices, cost: nat, together: bool, color: bool)
    requires |size| == ScanCount(color)
    ensures Judged(size, 0, x, cost, together, color)
  {
  }

  /** The size of the scan that is next says nothing about the choices before it. */
  lemma JudgedStays(size: seq<nat>, s: nat, v: nat, x: Choices, cost: nat, together: bool, color: bool,
                    have: seq<bool>, al: seq<int>)
    requires Judged(size, s, x, cost, together, color) && Known(have, al, s, x, color) && s < |size|
    ensures Judged(size[s := v], s, x, cost, together, color)
  {
    hide LumaJudged, ChromaJudged, SplitJudged, AsPlanned, AllAt, Spectrum, LumaRefined, ChromaRefined;
    LumaStays(size, s, v, x.alLuma, cost);
    if LUMA_SPLIT <= s {
      SplitStays(size, s, v, LUMA_SPLIT, 1, x.splitLuma, cost);
    }
    if color && CHROMA_AC <= s {
      ChromaStays(size, s, v, x.alChroma, cost);
    }
    if color && CHROMA_SPLIT <= s {
      SplitStays(size, s, v, CHROMA_SPLIT, 2, x.splitChroma, cost);
    }
  }

  lemma JudgedLuma(size: seq<nat>, s: nat, x: Choices, cost: nat, together: bool, color: bool, t: nat, best: nat,
                   least: nat)
    requires s < t <= LUMA_SPLIT && Judged(size, s, x, cost, together, color) && LumaJudged(size, t, best, least)
    ensures Judged(size, t, x.(alLuma := best), least, together, color)
  {
    hide LumaJudged;
  }

  lemma JudgedSplit(size: seq<nat>, s: nat, x: Choices, cost: nat, together: bool, color: bool, t: nat, best: nat,
                    least: nat)
    requires LUMA_SPLIT <= s < t <= CHROMA_DC && Judged(size, s, x, cost, together, color)
    requires SplitJudged(size, t, LUMA_SPLIT, 1, best, least)
    ensures Judged(size, t, x.(splitLuma := best), least, together, color)
  {
    hide SplitJudged;
  }

  lemma JudgedDc(size: seq<nat>, s: nat, x: Choices, cost: nat, before: bool, together: bool)
    requires CHROMA_DC <= s < CHROMA_AC && Judged(size, s, x, cost, before, true)
    requires s + 1 == CHROMA_AC ==> (together <==> size[CHROMA_DC] <= size[CHROMA_DC + 1] + size[CHROMA_DC + 2])
    ensures Judged(size, s + 1, x, cost, together, true)
  {
    hide Searched, Settled;
  }

  lemma JudgedChroma(size: seq<nat>, s: nat, x: Choices, cost: nat, together: bool, t: nat, best: nat, least: nat)
    requires CHROMA_AC <= s < t <= CHROMA_SPLIT && Judged(size, s, x, cost, together, true)
    requires ChromaJudged(size, t, best, least)
    ensures Judged(size, t, x.(alChroma := best), least, together, true)
  {
    hide Searched, Settled, ChromaJudged;
  }

  lemma JudgedChromaSplit(size: seq<nat>, s: nat, x: Choices, cost: nat, together: bool, t: nat, best: nat, least: nat)
    requires CHROMA_SPLIT <= s < t <= 64 && Judged(size, s, x, cost, together, true)
    requires SplitJudged(size, t, CHROMA_SPLIT, 2, best, least)
    ensures Judged(size, t, x.(splitChroma := best), least, together, true)
  {
    hide Searched, Settled;
  }

  lemma JudgedParts(size: seq<nat>, s: nat, x: Choices, cost: nat, together: bool, color: bool)
    requires Judged(size, s, x, cost, together, color)
    ensures |size| == ScanCount(color) && LumaJudged(size, s, x.alLuma, cost)
    ensures LUMA_SPLIT <= s ==> SplitJudged(size, s, LUMA_SPLIT, 1, x.splitLuma, cost)
    ensures color && CHROMA_AC <= s ==> ChromaJudged(size, s, x.alChroma, cost)
    ensures color && CHROMA_SPLIT <= s ==> SplitJudged(size, s, CHROMA_SPLIT, 2, x.splitChroma, cost)
  {
  }

  lemma LumaCostIs(size: seq<nat>, b: nat)
    requires LUMA_SPLIT <= |size| && b <= AL_MAX_LUMA
    ensures LumaCosts(size)[b] == size[3 * b + 1] + size[3 * b + 2] + LumaBelow(size, b)
  {
    TwoSizes(size, 3 * b + 1);
  }

  lemma ChromaCostIs(size: seq<nat>, b: nat)
    requires CHROMA_SPLIT <= |size| && b <= AL_MAX_CHROMA
    ensures var lo := CHROMA_AC + 6 * b;
            ChromaCosts(size)[b] == size[lo] + size[lo + 1] + size[lo + 2] + size[lo + 3] + ChromaBelow(size, b)
  {
    FourSizes(size, CHROMA_AC + 6 * b);
  }

  lemma TwoSizes(size: seq<nat>, lo: nat)
    requires lo + 2 <= |size|
    ensures SizesOf(size, lo, lo + 1) == size[lo] && SizesOf(size, lo, lo + 2) == size[lo] + size[lo + 1]
  {
    assert SizesOf(size, lo, lo) == 0;
    assert SizesOf(size, lo, lo + 1) == SizesOf(size, lo, lo) + size[lo];
    assert SizesOf(size, lo, lo + 2) == SizesOf(size, lo, lo + 1) + size[lo + 1];
  }

  lemma FourSizes(size: seq<nat>, lo: nat)
    requires lo + 4 <= |size|
    ensures SizesOf(size, lo, lo + 4) == size[lo] + size[lo + 1] + size[lo + 2] + size[lo + 3]
    ensures SizesOf(size, lo, lo + 2) == size[lo] + size[lo + 1]
  {
    TwoSizes(size, lo);
    assert SizesOf(size, lo, lo + 4) == SizesOf(size, lo, lo + 3) + size[lo + 3];
    assert SizesOf(size, lo, lo + 3) == SizesOf(size, lo, lo + 2) + size[lo + 2];
  }

  lemma LumaSplitCostIs(size: seq<nat>, k: nat)
    requires CHROMA_DC <= |size| && k <= SPLITS
    ensures var c := SplitCosts(size, LUMA_SPLIT, 1);
            c[k] == if k == 0 then size[LUMA_SPLIT] else size[LUMA_SPLIT + 2 * k - 1] + size[LUMA_SPLIT + 2 * k]
  {
    if k > 0 {
      TwoSizes(size, LUMA_SPLIT + 2 * k - 1);
    } else {
      TwoSizes(size, LUMA_SPLIT);
    }
  }

  lemma ChromaSplitCostIs(size: seq<nat>, k: nat)
    requires 64 <= |size| && k <= SPLITS
    ensures var c, lo := SplitCosts(size, CHROMA_SPLIT, 2), CHROMA_SPLIT + 4 * k - 2;
            c[k] == if k == 0 then size[CHROMA_SPLIT] + size[CHROMA_SPLIT + 1]
                    else size[lo] + size[lo + 1] + size[lo + 2] + size[lo + 3]
  {
    if k > 0 {
      FourSizes(size, CHROMA_SPLIT + 4 * k - 2);
    } else {
      FourSizes(size, CHROMA_SPLIT);
    }
  }

  /** A scan in the middle of a group decides nothing. */
  lemma SplitUntried(size: seq<nat>, s: nat, start: nat, m: nat, best: nat, cost: nat)
    requires GroupEnd(start, m, SPLITS) <= |size| && 1 <= m <= 2 && SplitJudged(size, s, start, m, best, cost)
    requires s + 1 < start + m || (start + m <= s && s + 1 < GroupEnd(start, m, SPLITS) && (s + 1 - start - m) % (2 * m) != 0)
    ensures SplitJudged(size, s + 1, start, m, best, cost)
  {
    hide SplitCosts, GoesOn;
    if start + m <= s {
      if m == 1 {
        assert Tried(start, m, s + 1) == Tried(start, m, s);
      } else {
        assert Tried(start, m, s + 1) == Tried(start, m, s);
      }
    }
  }

  lemma SplitIsSearched(size: seq<nat>, start: nat, m: nat, t: nat, best: nat, cost: nat)
    requires GroupEnd(start, m, SPLITS) <= |size| && 1 <= m <= 2 && GroupEnd(start, m, SPLITS) <= t
    requires Searched(SplitCosts(size, start, m), best)
    ensures SplitJudged(size, t, start, m, best, cost)
  {
  }

  /** Once every scan has been dealt with, all choices are made. */
  lemma ChosenAtEnd(size: seq<nat>, x: Choices, cost: nat, together: bool, color: bool)
    requires Judged(size, ScanCount(color), x, cost, together, color)
    ensures Settled(LumaCosts(size), x.alLuma) && Searched(SplitCosts(size, LUMA_SPLIT, 1), x.splitLuma)
    ensures color ==>
              && (together <==> size[CHROMA_DC] <= size[CHROMA_DC + 1] + size[CHROMA_DC + 2])
              && Settled(ChromaCosts(size), x.alChroma) && Searched(SplitCosts(size, CHROMA_SPLIT, 2), x.splitChroma)
  {
    hide LumaCosts, ChromaCosts, SplitCosts, Searched, Settled;
  }
}
