/**
 The scan search: the script of scans to try (jpeg_search_progression), for gray images and for YCbCr images.
 */
module ScanSearch {
  import opened ArithScans

  const AL_MAX_LUMA := 3
  const AL_MAX_CHROMA := 2
  const SPLITS := 5
  const LUMA_SPLIT := 12     // first scan of the luma frequency split
  const CHROMA_DC := 23      // number of luma scans
  const CHROMA_AC := 26
  const CHROMA_SPLIT := 42

  /** frequency_split[] */
  function SplitAt(i: nat): (k: nat)
    requires i < SPLITS
    ensures 1 <= k < 63
  {
    [2, 8, 5, 12, 18][i]
  }

  /** Gray images have one component, the others three. */
  function ScanCount(color: bool): nat {
    if color then 64 else 23
  }

  function One(c: int, ss: int, se: int, ah: int, al: int): Scan {
    Scan([c], ss, se, ah, al)
  }

  /** The scans that tell how far to go with successive approximation, from position i of their part on. */
  function ApproximationScan(i: nat): Scan
    requires 1 <= i < LUMA_SPLIT
  {
    if i == 1 then One(0, 1, 8, 0, 0)
    else if i == 2 then One(0, 9, 63, 0, 0)
    else if i % 3 == 0 then One(0, 1, 63, i / 3, i / 3 - 1)
    else if i % 3 == 1 then One(0, 1, 8, 0, i / 3)
    else One(0, 9, 63, 0, i / 3)
  }

  function ChromaApproximationScan(i: nat): Scan
    requires i < CHROMA_SPLIT - CHROMA_AC
  {
    var a := (i + 2) / 6;
    if i < 4 then One(1 + i / 2, if i % 2 == 0 then 1 else 9, if i % 2 == 0 then 8 else 63, 0, 0)
    else if (i + 2) % 6 < 2 then One(1 + i % 2, 1, 63, a, a - 1)
    else One(if (i + 2) % 6 < 4 then 1 else 2, if i % 2 == 0 then 1 else 9, if i % 2 == 0 then 8 else 63, 0, a)
  }

  /** The scans that tell where to split the spectrum. */
  function SplitScan(c: nat, i: nat): Scan
    requires i <= 2 * SPLITS
  {
    if i == 0 then One(c, 1, 63, 0, 0)
    else if i % 2 == 1 then One(c, 1, SplitAt((i - 1) / 2), 0, 0)
    else One(c, SplitAt((i - 1) / 2) + 1, 63, 0, 0)
  }

  function ChromaSplitScan(i: nat): Scan
    requires i < 64 - CHROMA_SPLIT
  {
    if i < 2 then SplitScan(1 + i, 0)
    else SplitScan(if (i - 2) % 4 < 2 then 1 else 2, 1 + 2 * ((i - 2) / 4) + i % 2)
  }

  /** Scan i of the script to search. */
  function Planned(color: bool, dcMode: nat, i: nat): Scan
    requires i < ScanCount(color)
  {
    if i == 0 then Scan(if color && dcMode == 0 then [0, 1, 2] else [0], 0, 0, 0, 0)
    else if i < LUMA_SPLIT then ApproximationScan(i)
    else if i < CHROMA_DC then SplitScan(0, i - LUMA_SPLIT)
    else if i == CHROMA_DC then Scan([1, 2], 0, 0, 0, 0)
    else if i < CHROMA_AC then One(i - CHROMA_DC, 0, 0, 0, 0)
    else if i < CHROMA_SPLIT then ChromaApproximationScan(i - CHROMA_AC)
    else ChromaSplitScan(i - CHROMA_SPLIT)
  }

  /** The scans so far are the first of the script. */
  ghost predicate Follows(color: bool, dcMode: nat, scans: seq<Scan>) {
    |scans| <= ScanCount(color) && forall i :: 0 <= i < |scans| ==> scans[i] == Planned(color, dcMode, i)
  }

  lemma FollowsOne(color: bool, dcMode: nat, scans: seq<Scan>, scan: Scan)
    requires Follows(color, dcMode, scans) && |scans| < ScanCount(color) && scan == Planned(color, dcMode, |scans|)
    ensures Follows(color, dcMode, scans + [scan])
  {
    hide Planned;
  }

  /** fill_a_scan */
  method FillAScan(color: bool, dcMode: nat, scans0: seq<Scan>, c: int, ss: int, se: int, ah: int, al: int)
    returns (scans: seq<Scan>)
    requires Follows(color, dcMode, scans0) && |scans0| < ScanCount(color)
    requires One(c, ss, se, ah, al) == Planned(color, dcMode, |scans0|)
    ensures Follows(color, dcMode, scans) && |scans| == |scans0| + 1
  {
    scans := scans0 + [One(c, ss, se, ah, al)];
    FollowsOne(color, dcMode, scans0, One(c, ss, se, ah, al));
  }

  /** Scans with one split of the spectrum, for one component. */
  method FillSplit(color: bool, dcMode: nat, scans0: seq<Scan>, c: int, i: nat) returns (scans: seq<Scan>)
    requires i < SPLITS && Follows(color, dcMode, scans0) && |scans0| + 2 <= ScanCount(color)
    requires One(c, 1, SplitAt(i), 0, 0) == Planned(color, dcMode, |scans0|)
    requires One(c, SplitAt(i) + 1, 63, 0, 0) == Planned(color, dcMode, |scans0| + 1)
    ensures Follows(color, dcMode, scans) && |scans| == |scans0| + 2
  {
    hide Follows, Planned;
    scans := FillAScan(color, dcMode, scans0, c, 1, SplitAt(i), 0, 0);
    scans := FillAScan(color, dcMode, scans, c, SplitAt(i) + 1, 63, 0, 0);
  }

  method FillLuma(color: bool, dcMode: nat) returns (scans: seq<Scan>)
    ensures |scans| == CHROMA_DC && Follows(color, dcMode, scans)
  {
    hide Follows;
    FollowsNone(color, dcMode);
    var dc := Scan(if color && dcMode == 0 then [0, 1, 2] else [0], 0, 0, 0, 0);
    FollowsOne(color, dcMode, [], dc);
    scans := [] + [dc];
    scans := FillAScan(color, dcMode, scans, 0, 1, 8, 0, 0);
    scans := FillAScan(color, dcMode, scans, 0, 9, 63, 0, 0);
    for al := 0 to AL_MAX_LUMA
      invariant |scans| == 3 + 3 * al && Follows(color, dcMode, scans)
    {
      scans := FillAScan(color, dcMode, scans, 0, 1, 63, al + 1, al);
      scans := FillAScan(color, dcMode, scans, 0, 1, 8, 0, al + 1);
      scans := FillAScan(color, dcMode, scans, 0, 9, 63, 0, al + 1);
    }
    scans := FillAScan(color, dcMode, scans, 0, 1, 63, 0, 0);
    for i := 0 to SPLITS
      invariant |scans| == LUMA_SPLIT + 1 + 2 * i && Follows(color, dcMode, scans)
    {
      scans := FillSplit(color, dcMode, scans, 0, i);
    }
  }

  lemma FollowsNone(color: bool, dcMode: nat)
    ensures Follows(color, dcMode, [])
  {
  }

  method FillChromaStart(dcMode: nat, scans0: seq<Scan>) returns (scans: seq<Scan>)
    requires |scans0| == CHROMA_DC && Follows(true, dcMode, scans0)
    ensures |scans| == CHROMA_AC + 4 && Follows(true, dcMode, scans)
  {
    hide Follows;
    FollowsOne(true, dcMode, scans0, Scan([1, 2], 0, 0, 0, 0));
    scans := scans0 + [Scan([1, 2], 0, 0, 0, 0)];
    scans := FillAScan(true, dcMode, scans, 1, 0, 0, 0, 0);
    scans := FillAScan(true, dcMode, scans, 2, 0, 0, 0, 0);
    scans := FillAScan(true, dcMode, scans, 1, 1, 8, 0, 0);
    scans := FillAScan(true, dcMode, scans, 1, 9, 63, 0, 0);
    scans := FillAScan(true, dcMode, scans, 2, 1, 8, 0, 0);
    scans := FillAScan(true, dcMode, scans, 2, 9, 63, 0, 0);
  }

  /** The scans for one more bit of successive approximation. */
  method FillChromaBit(dcMode: nat, scans0: seq<Scan>, al: nat) returns (scans: seq<Scan>)
    requires al < AL_MAX_CHROMA && |scans0| == CHROMA_AC + 4 + 6 * al && Follows(true, dcMode, scans0)
    ensures |scans| == |scans0| + 6 && Follows(true, dcMode, scans)
  {
    hide Follows;
    scans := FillAScan(true, dcMode, scans0, 1, 1, 63, al + 1, al);
    scans := FillAScan(true, dcMode, scans, 2, 1, 63, al + 1, al);
    scans := FillAScan(true, dcMode, scans, 1, 1, 8, 0, al + 1);
    scans := FillAScan(true, dcMode, scans, 1, 9, 63, 0, al + 1);
    scans := FillAScan(true, dcMode, scans, 2, 1, 8, 0, al + 1);
    scans := FillAScan(true, dcMode, scans, 2, 9, 63, 0, al + 1);
  }

  lemma ChromaUnsplit(dcMode: nat)
    ensures Planned(true, dcMode, CHROMA_SPLIT) == One(1, 1, 63, 0, 0)
    ensures Planned(true, dcMode, CHROMA_SPLIT + 1) == One(2, 1, 63, 0, 0)
  {
  }

  /** The four chroma scans that try split i. */
  lemma ChromaSplits(dcMode: nat, i: nat)
    requires i < SPLITS
    ensures var at := CHROMA_SPLIT + 2 + 4 * i;
            && Planned(true, dcMode, at) == One(1, 1, SplitAt(i), 0, 0)
            && Planned(true, dcMode, at + 1) == One(1, SplitAt(i) + 1, 63, 0, 0)
            && Planned(true, dcMode, at + 2) == One(2, 1, SplitAt(i), 0, 0)
            && Planned(true, dcMode, at + 3) == One(2, SplitAt(i) + 1, 63, 0, 0)
  {
    hide SplitAt, SplitScan;
    ChromaSplitAt(dcMode, i, 0);
    ChromaSplitAt(dcMode, i, 1);
    ChromaSplitAt(dcMode, i, 2);
    ChromaSplitAt(dcMode, i, 3);
    SplitPair(1, i);
    SplitPair(2, i);
  }

  lemma ChromaSplitAt(dcMode: nat, i: nat, q: nat)
    requires i < SPLITS && q < 4
    ensures Planned(true, dcMode, CHROMA_SPLIT + 2 + 4 * i + q) == SplitScan(if q < 2 then 1 else 2, 1 + 2 * i + q % 2)
  {
    hide SplitScan;
    var n := 4 * i + q;
    assert n / 4 == i && n % 4 == q && (n + 2) % 2 == q % 2;
  }

  lemma SplitPair(c: nat, i: nat)
    requires i < SPLITS
    ensures SplitScan(c, 1 + 2 * i) == One(c, 1, SplitAt(i), 0, 0)
    ensures SplitScan(c, 2 + 2 * i) == One(c, SplitAt(i) + 1, 63, 0, 0)
  {
    hide SplitAt;
  }

  /** The two luma scans that try split i. */
  lemma LumaSplits(color: bool, dcMode: nat, i: nat)
    requires i < SPLITS
    ensures var at := LUMA_SPLIT + 1 + 2 * i;
            && Planned(color, dcMode, at) == One(0, 1, SplitAt(i), 0, 0)
            && Planned(color, dcMode, at + 1) == One(0, SplitAt(i) + 1, 63, 0, 0)
  {
    hide SplitAt;
  }

  method FillChroma(dcMode: nat, scans0: seq<Scan>) returns (scans: seq<Scan>)
    requires |scans0| == CHROMA_DC && Follows(true, dcMode, scans0)
    ensures |scans| == ScanCount(true) && Follows(true, dcMode, scans)
  {
    hide Follows, ChromaApproximationScan;
    scans := FillChromaStart(dcMode, scans0);
    for al := 0 to AL_MAX_CHROMA
      invariant |scans| == CHROMA_AC + 4 + 6 * al && Follows(true, dcMode, scans)
    {
      scans := FillChromaBit(dcMode, scans, al);
    }
    ChromaUnsplit(dcMode);
    hide Planned;
    scans := FillAScan(true, dcMode, scans, 1, 1, 63, 0, 0);
    scans := FillAScan(true, dcMode, scans, 2, 1, 63, 0, 0);
    for i := 0 to SPLITS
      invariant |scans| == CHROMA_SPLIT + 2 + 4 * i && Follows(true, dcMode, scans)
    {
      ChromaSplits(dcMode, i);
      scans := FillSplit(true, dcMode, scans, 1, i);
      scans := FillSplit(true, dcMode, scans, 2, i);
    }
  }

  /** jpeg_search_progression: what is tried, for gray images and for YCbCr images. */
  method SearchProgression(color: bool, dcMode: nat) returns (scans: seq<Scan>)
    ensures |scans| == ScanCount(color) && forall i :: 0 <= i < |scans| ==> scans[i] == Planned(color, dcMode, i)
  {
    hide Planned;
    scans := FillLuma(color, dcMode);
    if color {
      scans := FillChroma(dcMode, scans);
    }
  }
}
