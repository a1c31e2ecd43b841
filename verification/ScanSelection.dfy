/**
 What the scan search knows about the scans it has coded: which buffers it holds, and down to which bit each
 was coded, as far as the choices made need them.
 */
module ScanSelection {
  import opened ScanSearch

  // ------------------------------------------------------------ what is known about the scans coded

  /** Scan i is in its buffer, and was coded down to bit al. */
  ghost predicate Have(have: seq<bool>, al: seq<int>, i: nat, a: int) {
    i < |have| == |al| && have[i] && al[i] == a
  }

  /** The bit a scan is planned for does not depend on the image. */
  function PlannedAl(i: nat): int
    requires i < 64
  {
    Planned(true, 1, i).al
  }

  /** All scans from one number up to another are in their buffers, coded as they were planned. */
  ghost predicate AsPlanned(have: seq<bool>, al: seq<int>, lo: nat, hi: nat) {
    hi <= |have| == |al| && hi <= 64 && forall i :: lo <= i < hi ==> have[i] && al[i] == PlannedAl(i)
  }

  /** The buffers of a range, all coded down to the same bit. */
  ghost predicate AllAt(have: seq<bool>, al: seq<int>, lo: nat, hi: nat, a: int) {
    hi <= |have| == |al| && forall i :: lo <= i < hi ==> have[i] && al[i] == a
  }

  /** The refinement scans that a choice of Al for luma needs. */
  ghost predicate LumaRefined(have: seq<bool>, al: seq<int>, best: nat) {
    forall a :: 0 <= a < best ==> RefinesLuma(have, al, a)
  }

  ghost predicate RefinesLuma(have: seq<bool>, al: seq<int>, a: nat) {
    Have(have, al, 3 + 3 * a, a)
  }

  ghost predicate ChromaRefined(have: seq<bool>, al: seq<int>, best: nat) {
    forall a :: 0 <= a < best ==> RefinesChroma(have, al, a)
  }

  ghost predicate RefinesChroma(have: seq<bool>, al: seq<int>, a: nat) {
    Have(have, al, CHROMA_AC + 4 + 6 * a, a) && Have(have, al, CHROMA_AC + 5 + 6 * a, a)
  }

  /** When scan s is next: how far successive approximation of luma has been tried, or that it is decided. */
  ghost predicate LumaBits(have: seq<bool>, al: seq<int>, s: nat, best: nat) {
    && (0 < s ==> Have(have, al, 0, 0))
    && if s < LUMA_SPLIT then AsPlanned(have, al, 1, s) && (3 <= s ==> best == s / 3 - 1)
       else best <= AL_MAX_LUMA && LumaRefined(have, al, best)
  }

  ghost predicate ChromaBits(have: seq<bool>, al: seq<int>, s: nat, best: nat) {
    if s < CHROMA_SPLIT then AsPlanned(have, al, CHROMA_AC, s) && best == if s < 30 then 0 else (s - 30) / 6
    else best <= AL_MAX_CHROMA && ChromaRefined(have, al, best)
  }

  /** The scans of split `best` of m components, among those from `start` on. */
  function GroupStart(start: nat, m: nat, best: nat): nat {
    if best == 0 then start else start + m + 2 * m * (best - 1)
  }

  function GroupEnd(start: nat, m: nat, best: nat): nat {
    start + m + 2 * m * best
  }

  /** When scan s is next: how many splits of the spectrum have been tried, or that one is decided. */
  ghost predicate Spectrum(have: seq<bool>, al: seq<int>, s: nat, start: nat, m: nat, best: nat, a: int) {
    if s < GroupEnd(start, m, SPLITS) then
      s > start ==> AllAt(have, al, start, s, a) && (s >= start + m ==> best <= SPLITS && GroupEnd(start, m, best) <= s)
    else
      best <= SPLITS && AllAt(have, al, GroupStart(start, m, best), GroupEnd(start, m, best), a)
  }

  lemma GroupsAreOrdered(start: nat, m: nat, best: nat, s: nat)
    requires 1 <= m <= 2 && GroupEnd(start, m, best) <= s
    ensures start <= GroupStart(start, m, best) <= GroupEnd(start, m, best) <= s
  {
  }

  /** The search is over for a spectrum: the best split so far is decided. */
  lemma SpectrumDecided(have: seq<bool>, al: seq<int>, s: nat, start: nat, m: nat, best: nat, a: int, t: nat)
    requires 1 <= m <= 2 && start + m <= s <= GroupEnd(start, m, SPLITS) <= t
    requires AllAt(have, al, start, s, a) && best <= SPLITS && GroupEnd(start, m, best) <= s
    ensures Spectrum(have, al, t, start, m, best, a)
  {
    GroupsAreOrdered(start, m, best, s);
  }

  /** Scan s has been coded: nothing that was known before is lost. */
  ghost predicate Coded(have: seq<bool>, al: seq<int>, s: nat, a: int, have1: seq<bool>, al1: seq<int>) {
    s < |have| == |al| && have1 == have[s := true] && al1 == al[s := a]
  }

  /** A luma scan more of the first part, where nothing is decided yet. */
  lemma LumaOneMore(have: seq<bool>, al: seq<int>, s: nat, best: nat, have1: seq<bool>, al1: seq<int>)
    requires s < LUMA_SPLIT && LumaBits(have, al, s, best) && Coded(have, al, s, PlannedAl(s), have1, al1)
    ensures Have(have1, al1, 0, 0) && AsPlanned(have1, al1, 1, s + 1)
  {
    assert PlannedAl(0) == 0;
  }

  /** The refinement scans among the planned ones. */
  lemma LumaIsRefined(have: seq<bool>, al: seq<int>, n: nat, best: nat)
    requires best <= AL_MAX_LUMA && 3 * best < n <= LUMA_SPLIT && AsPlanned(have, al, 1, n)
    ensures LumaRefined(have, al, best)
  {
    forall a | 0 <= a < best
      ensures RefinesLuma(have, al, a)
    {
      assert PlannedAl(3 + 3 * a) == a;
    }
  }

  lemma ChromaIsRefined(have: seq<bool>, al: seq<int>, n: nat, best: nat)
    requires best <= AL_MAX_CHROMA && CHROMA_AC + 6 * best < n <= CHROMA_SPLIT && AsPlanned(have, al, CHROMA_AC, n)
    ensures ChromaRefined(have, al, best)
  {
    forall a | 0 <= a < best
      ensures RefinesChroma(have, al, a)
    {
      assert PlannedAl(30 + 6 * a) == a && PlannedAl(31 + 6 * a) == a;
    }
  }

  /** What a later scan leaves alone. */
  lemma LaterScan(have: seq<bool>, al: seq<int>, s: nat, a: int, have1: seq<bool>, al1: seq<int>, bestLuma: nat,
                  bestChroma: nat, split: nat)
    requires Coded(have, al, s, a, have1, al1)
    ensures s >= LUMA_SPLIT && LumaBits(have, al, s, bestLuma) ==> forall t :: s <= t ==> LumaBits(have1, al1, t, bestLuma)
    ensures s >= CHROMA_DC && Spectrum(have, al, s, LUMA_SPLIT, 1, split, bestLuma) ==>
              forall t :: s <= t ==> Spectrum(have1, al1, t, LUMA_SPLIT, 1, split, bestLuma)
    ensures s >= CHROMA_AC && AllAt(have, al, CHROMA_DC, CHROMA_AC, 0) ==> AllAt(have1, al1, CHROMA_DC, CHROMA_AC, 0)
    ensures s >= CHROMA_SPLIT && ChromaBits(have, al, s, bestChroma) ==>
              forall t :: s <= t ==> ChromaBits(have1, al1, t, bestChroma)
  {
    assert forall x: nat :: LumaRefined(have, al, x) && x <= AL_MAX_LUMA && s >= LUMA_SPLIT ==> LumaRefined(have1, al1, x) by {
      forall x: nat | LumaRefined(have, al, x) && x <= AL_MAX_LUMA && s >= LUMA_SPLIT
        ensures LumaRefined(have1, al1, x)
      {
        forall a | 0 <= a < x
          ensures RefinesLuma(have1, al1, a)
        {
          assert RefinesLuma(have, al, a);
        }
      }
    }
    assert forall x: nat :: ChromaRefined(have, al, x) && x <= AL_MAX_CHROMA && s >= CHROMA_SPLIT ==> ChromaRefined(have1, al1, x) by {
      forall x: nat | ChromaRefined(have, al, x) && x <= AL_MAX_CHROMA && s >= CHROMA_SPLIT
        ensures ChromaRefined(have1, al1, x)
      {
        forall a | 0 <= a < x
          ensures RefinesChroma(have1, al1, a)
        {
          assert RefinesChroma(have, al, a);
        }
      }
    }
  }

  function ChromaDcUpTo(s: nat): nat {
    if s < CHROMA_DC then CHROMA_DC else if s < CHROMA_AC then s else CHROMA_AC
  }

  /** The choices made so far. */
  datatype Choices = Choices(alLuma: nat, splitLuma: nat, alChroma: nat, splitChroma: nat)

  /** All that is known when scan s is next. */
  ghost predicate Known(have: seq<bool>, al: seq<int>, s: nat, x: Choices, color: bool) {
    && |have| == |al| == ScanCount(color) && s <= |have|
    && LumaBits(have, al, s, x.alLuma) && Spectrum(have, al, s, LUMA_SPLIT, 1, x.splitLuma, x.alLuma)
    && if !color then x.alChroma == 0
       else
         && AllAt(have, al, CHROMA_DC, ChromaDcUpTo(s), 0) && ChromaBits(have, al, s, x.alChroma)
         && Spectrum(have, al, s, CHROMA_SPLIT, 2, x.splitChroma, x.alChroma)
  }

  lemma NothingKnown(have: seq<bool>, al: seq<int>, x: Choices, color: bool)
    requires |have| == |al| == ScanCount(color) && x.alChroma == 0
    ensures Known(have, al, 0, x, color)
  {
  }

  /** Scan s of the first luma part is coded; Al is decided when scan t is the first of the next part. */
  lemma KnownLumaBits(have: seq<bool>, al: seq<int>, s: nat, x: Choices, color: bool, have1: seq<bool>, al1: seq<int>,
                      t: nat, best: nat)
    requires s < LUMA_SPLIT && Known(have, al, s, x, color) && Coded(have, al, s, PlannedAl(s), have1, al1)
    requires s < t <= LUMA_SPLIT
    requires if t == LUMA_SPLIT then best <= AL_MAX_LUMA && 3 * best <= s else t == s + 1 && (3 <= t ==> best == t / 3 - 1)
    ensures Known(have1, al1, t, x.(alLuma := best), color)
  {
    LumaOneMore(have, al, s, x.alLuma, have1, al1);
    if t == LUMA_SPLIT {
      LumaIsRefined(have1, al1, s + 1, best);
    }
  }

  /** Scan s of the luma split is coded. */
  lemma KnownLumaSplit(have: seq<bool>, al: seq<int>, s: nat, x: Choices, color: bool, have1: seq<bool>, al1: seq<int>,
                       t: nat, best: nat)
    requires LUMA_SPLIT <= s < CHROMA_DC && Known(have, al, s, x, color) && Coded(have, al, s, x.alLuma, have1, al1)
    requires s < t <= CHROMA_DC && (t == s + 1 || t == CHROMA_DC)
    requires best <= SPLITS && GroupEnd(LUMA_SPLIT, 1, best) <= s + 1
    ensures Known(have1, al1, t, x.(splitLuma := best), color)
  {
    LaterScan(have, al, s, x.alLuma, have1, al1, x.alLuma, 0, 0);
    if t == CHROMA_DC {
      SpectrumDecided(have1, al1, s + 1, LUMA_SPLIT, 1, best, x.alLuma, t);
    }
  }

  /** A chroma DC scan is coded. */
  lemma KnownChromaDc(have: seq<bool>, al: seq<int>, s: nat, x: Choices, have1: seq<bool>, al1: seq<int>)
    requires CHROMA_DC <= s < CHROMA_AC && Known(have, al, s, x, true) && Coded(have, al, s, PlannedAl(s), have1, al1)
    ensures Known(have1, al1, s + 1, x, true)
  {
    LaterScan(have, al, s, PlannedAl(s), have1, al1, x.alLuma, 0, x.splitLuma);
  }

  /** Scan s of the first chroma part is coded. */
  lemma KnownChromaBits(have: seq<bool>, al: seq<int>, s: nat, x: Choices, have1: seq<bool>, al1: seq<int>, t: nat, best: nat)
    requires CHROMA_AC <= s < CHROMA_SPLIT && Known(have, al, s, x, true) && Coded(have, al, s, PlannedAl(s), have1, al1)
    requires s < t <= CHROMA_SPLIT && best <= AL_MAX_CHROMA
    requires if t == CHROMA_SPLIT then CHROMA_AC + 6 * best <= s
             else t == s + 1 && best == if t < 30 then 0 else (t - 30) / 6
    ensures Known(have1, al1, t, x.(alChroma := best), true)
  {
    LaterScan(have, al, s, PlannedAl(s), have1, al1, x.alLuma, 0, x.splitLuma);
    if t == CHROMA_SPLIT {
      ChromaIsRefined(have1, al1, s + 1, best);
    }
  }

  /** Scan s of the chroma split is coded. */
  lemma KnownChromaSplit(have: seq<bool>, al: seq<int>, s: nat, x: Choices, have1: seq<bool>, al1: seq<int>, t: nat, best: nat)
    requires CHROMA_SPLIT <= s < 64 && Known(have, al, s, x, true) && Coded(have, al, s, x.alChroma, have1, al1)
    requires s < t <= 64 && (t == s + 1 || t == 64)
    requires s > CHROMA_SPLIT ==> best <= SPLITS && GroupEnd(CHROMA_SPLIT, 2, best) <= s + 1
    requires s == CHROMA_SPLIT ==> t == s + 1
    ensures Known(have1, al1, t, x.(splitChroma := best), true)
  {
    LaterScan(have, al, s, x.alChroma, have1, al1, x.alLuma, x.alChroma, x.splitLuma);
    if t == 64 {
      SpectrumDecided(have1, al1, s + 1, CHROMA_SPLIT, 2, best, x.alChroma, t);
    }
  }
}
