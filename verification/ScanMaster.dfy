/** The compression master while it searches for scans: passes, sizes, decisions, and the copy at the end. */
module ScanMaster {
  import opened Coefficients
  import opened ArithScans
  import opened ScanScript
  import opened SearchedScripts
  import opened ScanSearch
  import opened ScanSelection
  import opened ScanChoice

  class Master {
    const color: bool             // YCbCr with three components, or gray
    const dcMode: nat             // dc_scan_opt_mode
    const optimizeCoding: bool    // a statistics pass before each output pass
    const base: nat               // pass_number_scan_opt_base
    const scanInfo: seq<Scan>
    const scanSize: array<nat>
    const actualAl: array<int>
    const buffered: array<bool>   // scan_buffer[i] is not NULL
    var scanNumber: nat
    var passNumber: nat
    var isLastPass: bool
    var bestCost: nat
    var bestAlLuma: nat
    var bestSplitLuma: nat        // best_freq_split_idx_luma
    var interleaveChromaDc: bool
    var bestAlChroma: nat
    var bestSplitChroma: nat      // best_freq_split_idx_chroma
    var copied: seq<nat>          // the scans whose buffers have gone to the destination

    /** Passes in front of the first pass of scan s. */
    function PassesBefore(s: nat): nat {
      (if optimizeCoding then 2 * s else s) + base
    }

    /** passes_per_scan * (s + 1) - 1 + pass_number_scan_opt_base: the output pass of scan s. */
    function OutputPass(s: nat): nat {
      PassesBefore(s + 1) - 1
    }

    function TotalPasses(): nat {
      PassesBefore(ScanCount(color))
    }

    ghost predicate Shape()
      reads {}
    {
      && scanSize.Length == actualAl.Length == buffered.Length == |scanInfo| == ScanCount(color)
      && scanSize as object != actualAl as object
      && forall i :: 0 <= i < |scanInfo| ==> scanInfo[i] == Planned(color, dcMode, i)
    }

    ghost function Made(): Choices
      reads this
    {
      Choices(bestAlLuma, bestSplitLuma, bestAlChroma, bestSplitChroma)
    }

    /** Everything needed is in its buffer when scan s is next. */
    ghost predicate KnowsAt(s: nat)
      requires Shape()
      reads this, actualAl, buffered
    {
      Known(buffered[..], actualAl[..], s, Made(), color)
    }

    /** The choices are those that the sizes of the scans before scan s make. */
    ghost predicate JudgesAt(s: nat)
      reads this, scanSize
    {
      Judged(scanSize[..], s, Made(), bestCost, interleaveChromaDc, color)
    }

    /** Between the scans: the counters agree, and nothing has been copied before all is decided. */
    ghost predicate Searching()
      reads this, scanSize, actualAl, buffered
    {
      && Shape() && scanNumber <= ScanCount(color) && KnowsAt(scanNumber) && JudgesAt(scanNumber)
      && passNumber == PassesBefore(scanNumber)
      && (isLastPass <==> scanNumber == ScanCount(color))
      && (scanNumber < ScanCount(color) ==> copied == [])
    }

    constructor (color: bool, dcMode: nat, optimizeCoding: bool, base: nat)
      ensures Searching() && scanNumber == 0 && this.color == color && this.dcMode == dcMode
      ensures this.optimizeCoding == optimizeCoding && this.base == base
      ensures fresh(scanSize) && fresh(actualAl) && fresh(buffered)
    {
      hide Planned;
      var scans := SearchProgression(color, dcMode);
      this.color, this.dcMode, this.optimizeCoding, this.base, scanInfo := color, dcMode, optimizeCoding, base, scans;
      scanSize := new nat[|scans|];
      actualAl := new int[|scans|];
      buffered := new bool[|scans|](_ => false);
      scanNumber, passNumber, isLastPass := 0, base, false;
      bestAlChroma, copied := 0, [];
      new;
      NothingKnown(buffered[..], actualAl[..], Made(), color);
      NothingJudged(scanSize[..], Made(), bestCost, interleaveChromaDc, color);
    }

    /** A size that has been measured. */
    function SizeOf(i: nat): nat
      requires i < scanSize.Length == buffered.Length && buffered[i]
      reads scanSize, buffered
    {
      scanSize[i]
    }

    /** Scan scanNumber has just been coded, with `have` and `al` before it. */
    ghost predicate JustCoded(have: seq<bool>, al: seq<int>, a: int)
      reads this, scanSize, actualAl, buffered
    {
      && Shape() && scanNumber < ScanCount(color) && Known(have, al, scanNumber, Made(), color) && JudgesAt(scanNumber)
      && Coded(have, al, scanNumber, a, buffered[..], actualAl[..])
      && passNumber == OutputPass(scanNumber) && (isLastPass <==> scanNumber == ScanCount(color) - 1)
    }

    /** The decision is made; the scan that counts as coded last may be a later one. */
    ghost predicate Decided(s: nat)
      reads this, scanSize, actualAl, buffered
    {
      && Shape() && s <= scanNumber < ScanCount(color) && KnowsAt(scanNumber + 1) && JudgesAt(scanNumber + 1)
      && passNumber == OutputPass(scanNumber) && (isLastPass <==> scanNumber == ScanCount(color) - 1)
    }

    /** Goes on with the scans behind scan s. */
    method SkipTo(s: nat)
      modifies `scanNumber, `passNumber
      ensures scanNumber == s && passNumber == OutputPass(s)
    {
      scanNumber := s;
      passNumber := OutputPass(s);
    }

    /** Luma, successive approximation: another bit is only tried as long as the last one paid. */
    method SelectLumaAl(next: nat, ghost have: seq<bool>, ghost al: seq<int>)
      requires 0 < next == scanNumber + 1 <= LUMA_SPLIT && JustCoded(have, al, PlannedAl(scanNumber))
      modifies `scanNumber, `passNumber, `bestCost, `bestAlLuma
      ensures Decided(old(scanNumber))
    {
      hide Planned, Known, PlannedAl, Coded, AllAt, Have, Judged, LumaCosts;
      ghost var s, x, least := scanNumber, Made(), bestCost;
      KnownBits(have, al, s, x, color, buffered[..], actualAl[..]);
      if next > 1 && (next - 1) % 3 == 2 {
        var bits := (next - 1) / 3;
        var cost := LumaCost(next, bits);
        if bits == 0 || cost < bestCost {
          bestCost := cost;
          bestAlLuma := bits;
        } else {
          SkipTo(LUMA_SPLIT - 1);
        }
      }
      LumaBitStep(have, al, s, x, color, buffered[..], actualAl[..], scanSize[..], least, interleaveChromaDc,
                  scanNumber + 1, bestAlLuma, bestCost);
    }

    /** The sizes of luma down to a bit, and of the refinements from there. */
    method LumaCost(next: nat, bits: nat) returns (cost: nat)
      requires Shape() && bits <= AL_MAX_LUMA && next == 3 * bits + 3 && forall i :: 1 <= i < next ==> buffered[i]
      ensures cost == LumaCosts(scanSize[..])[bits]
    {
      hide Planned, LumaCosts;
      cost := SizeOf(next - 2) + SizeOf(next - 1);
      for i := 0 to bits
        invariant cost == scanSize[next - 2] + scanSize[next - 1] + LumaBelow(scanSize[..], i)
      {
        cost := cost + SizeOf(3 + 3 * i);
      }
      LumaCostIs(scanSize[..], bits);
    }

    /** Luma, frequency split: the first three splits are always tried, the others only around the best. */
    method SelectLumaSplit(next: nat, ghost have: seq<bool>, ghost al: seq<int>)
      requires LUMA_SPLIT < next == scanNumber + 1 <= CHROMA_DC && JustCoded(have, al, bestAlLuma)
      modifies `scanNumber, `passNumber, `isLastPass, `bestCost, `bestSplitLuma
      ensures Decided(old(scanNumber))
    {
      hide Planned, Known, Coded, AllAt, Have, Judged, SplitCosts;
      ghost var s, x, least := scanNumber, Made(), bestCost;
      KnownSplit(have, al, s, x, color, buffered[..], actualAl[..]);
      if next == LUMA_SPLIT + 1 {
        bestSplitLuma := 0;
        bestCost := SizeOf(next - 1);
        LumaSplitCostIs(scanSize[..], 0);
      } else if (next - LUMA_SPLIT) % 2 == 1 {
        var idx := (next - LUMA_SPLIT) / 2;
        var cost: nat := SizeOf(next - 2) + SizeOf(next - 1);
        LumaSplitCostIs(scanSize[..], idx);
        if cost < bestCost {
          bestCost := cost;
          bestSplitLuma := idx;
        }
        if (idx == 2 && bestSplitLuma == 0) || (idx == 3 && bestSplitLuma != 2) || (idx == 4 && bestSplitLuma != 4) {
          SkipTo(CHROMA_DC - 1);
          isLastPass := passNumber == TotalPasses() - 1;
        }
      }
      LumaSplitStep(have, al, s, x, color, buffered[..], actualAl[..], scanSize[..], least, interleaveChromaDc,
                    scanNumber + 1, bestSplitLuma, bestCost);
    }

    /** Chroma DC: together, unless the two scans of their own take less. */
    method SelectChromaDc(next: nat, ghost have: seq<bool>, ghost al: seq<int>)
      requires color && CHROMA_DC < next == scanNumber + 1 <= CHROMA_AC && JustCoded(have, al, PlannedAl(scanNumber))
      modifies `interleaveChromaDc
      ensures Decided(old(scanNumber))
    {
      hide Planned, Known, PlannedAl, Coded, AllAt, Have, Judged;
      ghost var s, together := scanNumber, interleaveChromaDc;
      JudgedParts(scanSize[..], s, Made(), bestCost, together, color);
      KnownChromaDc(have, al, scanNumber, Made(), buffered[..], actualAl[..]);
      if next == CHROMA_AC {
        KnownDc(buffered[..], actualAl[..], next, Made());
        interleaveChromaDc := SizeOf(CHROMA_DC) <= SizeOf(CHROMA_DC + 1) + SizeOf(CHROMA_DC + 2);
      }
      JudgedDc(scanSize[..], s, Made(), bestCost, together, interleaveChromaDc);
    }

    /** Chroma, successive approximation. */
    method SelectChromaAl(next: nat, ghost have: seq<bool>, ghost al: seq<int>)
      requires color && CHROMA_AC < next == scanNumber + 1 <= CHROMA_SPLIT && JustCoded(have, al, PlannedAl(scanNumber))
      modifies `scanNumber, `passNumber, `bestCost, `bestAlChroma
      ensures Decided(old(scanNumber))
    {
      hide Planned, Known, PlannedAl, Coded, AllAt, Have, Judged, ChromaCosts;
      ghost var s, x, least := scanNumber, Made(), bestCost;
      KnownChroma(have, al, s, x, buffered[..], actualAl[..]);
      if (next - CHROMA_AC) % 6 == 4 {
        var bits := (next - CHROMA_AC) / 6;
        var cost := ChromaCost(next, bits);
        if bits == 0 || cost < bestCost {
          bestCost := cost;
          bestAlChroma := bits;
        } else {
          SkipTo(CHROMA_SPLIT - 1);
        }
      }
      ChromaBitStep(have, al, s, x, buffered[..], actualAl[..], scanSize[..], least, interleaveChromaDc,
                    scanNumber + 1, bestAlChroma, bestCost);
    }

    /** The sizes of both chroma components down to a bit, and of the refinements from there. */
    method ChromaCost(next: nat, bits: nat) returns (cost: nat)
      requires color && Shape() && bits <= AL_MAX_CHROMA && next == CHROMA_AC + 6 * bits + 4
      requires forall i :: CHROMA_AC <= i < next ==> buffered[i]
      ensures cost == ChromaCosts(scanSize[..])[bits]
    {
      hide Planned, ChromaCosts;
      cost := SizeOf(next - 4) + SizeOf(next - 3) + SizeOf(next - 2) + SizeOf(next - 1);
      ghost var first := cost;
      for i := 0 to bits
        invariant cost == first + ChromaBelow(scanSize[..], i)
      {
        cost := cost + SizeOf(CHROMA_AC + 4 + 6 * i) + SizeOf(CHROMA_AC + 5 + 6 * i);
      }
      ChromaCostIs(scanSize[..], bits);
    }

    /** Chroma, frequency split. */
    method SelectChromaSplit(next: nat, ghost have: seq<bool>, ghost al: seq<int>)
      requires color && CHROMA_SPLIT < next == scanNumber + 1 <= 64 && JustCoded(have, al, bestAlChroma)
      modifies `scanNumber, `passNumber, `isLastPass, `bestCost, `bestSplitChroma
      ensures Decided(old(scanNumber))
    {
      hide Planned, Known, Coded, AllAt, Have, Judged, SplitCosts;
      ghost var s, x, least := scanNumber, Made(), bestCost;
      KnownChromaSpectrum(have, al, s, x, buffered[..], actualAl[..]);
      if next == CHROMA_SPLIT + 2 {
        bestSplitChroma := 0;
        bestCost := SizeOf(next - 2) + SizeOf(next - 1);
        ChromaSplitCostIs(scanSize[..], 0);
      } else if (next - CHROMA_SPLIT) % 4 == 2 {
        var idx := (next - CHROMA_SPLIT) / 4;
        var cost: nat := SizeOf(next - 4) + SizeOf(next - 3) + SizeOf(next - 2) + SizeOf(next - 1);
        ChromaSplitCostIs(scanSize[..], idx);
        if cost < bestCost {
          bestCost := cost;
          bestSplitChroma := idx;
        }
        if (idx == 2 && bestSplitChroma == 0) || (idx == 3 && bestSplitChroma != 2) || (idx == 4 && bestSplitChroma != 4) {
          SkipTo(ScanCount(color) - 1);
          isLastPass := passNumber == TotalPasses() - 1;
        }
      }
      ChromaSplitStep(have, al, s, x, buffered[..], actualAl[..], scanSize[..], least, interleaveChromaDc,
                      scanNumber + 1, bestSplitChroma, bestCost);
    }

    // ------------------------------------------------------------------------------- the copy

    function Components(): nat {
      if color then 3 else 1
    }

    ghost predicate Copyable()
      requires Shape()
      reads `copied, buffered
    {
      forall j :: 0 <= j < |copied| ==> copied[j] < ScanCount(color) && buffered[copied[j]]
    }

    /** The scans copied out, as they were coded. */
    ghost function Script(): (scans: seq<Scan>)
      requires Shape() && Copyable()
      reads `copied, buffered, actualAl
    {
      ScriptOf(copied, scanInfo, actualAl[..])
    }

    /** The scans copied out so far are in order and have come this far. */
    ghost predicate CopiedTo(dc: seq<int>, ac: seq<int>)
      reads `copied, buffered, actualAl
    {
      Shape() && Copyable() && Reaches(Components(), Script(), dc, ac)
    }

    /** copy_buffer: the buffer of a scan that was coded. */
    method CopyBuffer(i: nat, ghost al: int)
      requires Shape() && Copyable() && i < ScanCount(color) && Have(buffered[..], actualAl[..], i, al)
      modifies `copied
      ensures Copyable() && copied == old(copied) + [i]
      ensures Script() == old(Script()) + [Planned(color, dcMode, i).(al := al)]
    {
      hide Planned;
      ScriptSnoc(copied, i, scanInfo, actualAl[..]);
      copied := copied + [i];
    }

    /** The DC coefficients of all components. */
    method CopyDc() returns (ghost dc: seq<int>, ghost ac: seq<int>)
      requires Shape() && copied == [] && KnowsAt(ScanCount(color))
      modifies `copied
      ensures CopiedTo(dc, ac) && forall c :: 0 <= c < Components() ==> dc[c] == 0 && ac[c] == -1
      ensures copied == [0] + DcCopies(color, dcMode, interleaveChromaDc)
    {
      hide Known, Reaches, Planned, AllAt;
      KnownCoded(buffered[..], actualAl[..], Made(), color);
      PlannedDc(color, dcMode);
      ghost var n, first := Components(), if color && dcMode == 0 then [0, 1, 2] else [0];
      CopyBuffer(0, 0);
      BeginDc(n, first);
      assert Script() == [Scan(first, 0, 0, 0, 0)];
      dc, ac := seq(n, c requires 0 <= c < n => if c in first then 0 else -1), seq(n, _ => -1);
      if color && dcMode != 0 {
        CopyChromaDc(dc, ac);
        dc := [0, 0, 0];
      }
      ReachesSizes(n, Script(), dc, ac);
    }

    /** The chroma DC scan for both components, or the two scans for one. */
    method CopyChromaDc(ghost dc: seq<int>, ghost ac: seq<int>)
      requires color && CopiedTo(dc, ac) && KnowsAt(ScanCount(color)) && dc == [0, -1, -1]
      modifies `copied
      ensures CopiedTo([0, 0, 0], ac)
      ensures dcMode != 0 ==> copied == old(copied) + DcCopies(color, dcMode, interleaveChromaDc)
    {
      hide Known, Reaches, Planned;
      KnownCoded(buffered[..], actualAl[..], Made(), color);
      PlannedDc(color, dcMode);
      hide GroupStart, GroupEnd;
      if interleaveChromaDc && dcMode != 1 {
        AddDc(3, Script(), [1, 2], dc, ac, [0, 0, 0]);
        CopyBuffer(CHROMA_DC, 0);
      } else {
        AddDc(3, Script(), [1], dc, ac, [0, 0, -1]);
        CopyBuffer(CHROMA_DC + 1, 0);
        AddDc(3, Script(), [2], [0, 0, -1], ac, [0, 0, 0]);
        CopyBuffer(CHROMA_DC + 2, 0);
      }
    }

    /** The luma band as it is split best. */
    method CopyLumaBand(ghost dc: seq<int>, ghost ac: seq<int>) returns (ghost ac1: seq<int>)
      requires CopiedTo(dc, ac) && KnowsAt(ScanCount(color)) && |dc| == |ac| == Components() && dc[0] == 0 && ac[0] == -1
      modifies `copied
      ensures CopiedTo(dc, ac1) && ac1 == ac[0 := bestAlLuma]
      ensures copied == old(copied) + BandCopies(LUMA_SPLIT, 1, bestSplitLuma)
    {
      hide Known, Reaches, Planned, SplitAt;
      KnownCoded(buffered[..], actualAl[..], Made(), color);
      ac1 := ac[0 := bestAlLuma];
      if bestSplitLuma == 0 {
        PlannedWhole(color, dcMode);
        AddWhole(Components(), Script(), 0, 0, bestAlLuma, dc, ac);
        CopyBuffer(LUMA_SPLIT, bestAlLuma);
      } else {
        LumaSplits(color, dcMode, bestSplitLuma - 1);
        CopyPair(LUMA_SPLIT + 2 * (bestSplitLuma - 1) + 1, 0, SplitAt(bestSplitLuma - 1), bestAlLuma, dc, ac);
      }
    }

    /** Two scans that split the band of a component. */
    method CopyPair(i: nat, ghost c: nat, ghost k: nat, ghost al: nat, ghost dc: seq<int>, ghost ac: seq<int>)
      requires CopiedTo(dc, ac) && i + 1 < ScanCount(color) && AllAt(buffered[..], actualAl[..], i, i + 2, al)
      requires c < Components() && |dc| == |ac| == Components() && dc[c] == 0 && ac[c] == -1
      requires 1 <= k < 63 && al <= MAX_AH_AL
      requires Planned(color, dcMode, i) == One(c, 1, k, 0, 0) && Planned(color, dcMode, i + 1) == One(c, k + 1, 63, 0, 0)
      modifies `copied
      ensures CopiedTo(dc, ac[c := al]) && copied == old(copied) + [i, i + 1]
    {
      hide Reaches, Planned;
      AddSplit(Components(), Script(), c, k, al, dc, ac);
      ghost var script := Script();
      CopyBuffer(i, al);
      CopyBuffer(i + 1, al);
      TwoMore(script, Scan([c], 1, k, 0, al), Scan([c], k + 1, 63, 0, al));
    }

    /** The chroma bands. */
    method CopyChromaBands(ghost dc: seq<int>, ghost ac: seq<int>) returns (ghost ac1: seq<int>)
      requires color && CopiedTo(dc, ac) && KnowsAt(ScanCount(color)) && |dc| == |ac| == Components()
      requires dc[1] == 0 && dc[2] == 0 && ac[1] == -1 && ac[2] == -1
      modifies `copied
      ensures CopiedTo(dc, ac1) && ac1 == ac[1 := bestAlChroma][2 := bestAlChroma]
      ensures copied == old(copied) + BandCopies(CHROMA_SPLIT, 2, bestSplitChroma)
    {
      hide Known, Reaches, Planned, SplitAt;
      KnownCoded(buffered[..], actualAl[..], Made(), color);
      ghost var al := bestAlChroma;
      ac1 := ac[1 := al][2 := al];
      if bestSplitChroma == 0 {
        ChromaUnsplit(dcMode);
        AddWhole(3, Script(), 1, 0, al, dc, ac);
        CopyBuffer(CHROMA_SPLIT, al);
        AddWhole(3, Script(), 2, 0, al, dc, ac[1 := al]);
        CopyBuffer(CHROMA_SPLIT + 1, al);
      } else {
        ChromaSplits(dcMode, bestSplitChroma - 1);
        var i := CHROMA_SPLIT + 4 * (bestSplitChroma - 1) + 2;
        CopyPair(i, 1, SplitAt(bestSplitChroma - 1), al, dc, ac);
        CopyPair(i + 2, 2, SplitAt(bestSplitChroma - 1), al, dc, ac[1 := al]);
      }
    }

    /** The scan that refines luma to bit al. */
    method CopyLumaBit(al: nat, ghost dc: seq<int>, ghost ac: seq<int>)
      requires CopiedTo(dc, ac) && KnowsAt(ScanCount(color)) && |dc| == |ac| == Components()
      requires al < bestAlLuma && dc[0] == 0 && ac[0] == al + 1
      modifies `copied
      ensures CopiedTo(dc, ac[0 := al]) && copied == old(copied) + [3 + 3 * al]
    {
      hide Known, Reaches, Planned, AllAt;
      KnownCoded(buffered[..], actualAl[..], Made(), color);
      assert RefinesLuma(buffered[..], actualAl[..], al);
      PlannedRefinements(color, dcMode, al);
      AddWhole(Components(), Script(), 0, al + 1, al, dc, ac);
      CopyBuffer(3 + 3 * al, al);
    }

    /** The two scans that refine chroma to bit al. */
    method CopyChromaBit(al: nat, ghost dc: seq<int>, ghost ac: seq<int>)
      requires color && CopiedTo(dc, ac) && KnowsAt(ScanCount(color)) && |dc| == |ac| == Components()
      requires al < bestAlChroma && dc[1] == 0 && dc[2] == 0 && ac[1] == al + 1 && ac[2] == al + 1
      modifies `copied
      ensures CopiedTo(dc, ac[1 := al][2 := al])
      ensures copied == old(copied) + [CHROMA_AC + 4 + 6 * al, CHROMA_AC + 5 + 6 * al]
    {
      hide Known, Reaches, Planned, AllAt;
      KnownCoded(buffered[..], actualAl[..], Made(), color);
      assert RefinesChroma(buffered[..], actualAl[..], al);
      PlannedRefinements(color, dcMode, al);
      AddWhole(3, Script(), 1, al + 1, al, dc, ac);
      CopyBuffer(CHROMA_AC + 4 + 6 * al, al);
      AddWhole(3, Script(), 2, al + 1, al, dc, ac[1 := al]);
      CopyBuffer(CHROMA_AC + 5 + 6 * al, al);
    }

    /** What has been copied sends every bit of every coefficient, in an order the validator accepts. */
    ghost predicate Finished()
      reads `copied, `bestAlLuma, `bestSplitLuma, `interleaveChromaDc, `bestAlChroma, `bestSplitChroma
      reads buffered, actualAl
    {
      && Shape() && Copyable() && ValidScript(Components(), Script())
      && (forall i: nat :: i in copied <==> Wanted(i))
      && forall c, k :: 0 <= c < Components() && 0 <= k < BLOCK_SIZE ==>
           TrackerAfter(Components(), Script()).bits[c][k] == 0
    }

    /** Refinements of luma, from one bit down to another. */
    method CopyLumaBits(from: nat, to: nat, ghost dc: seq<int>, ghost ac: seq<int>)
      requires CopiedTo(dc, ac) && KnowsAt(ScanCount(color)) && |dc| == |ac| == Components()
      requires to <= from <= bestAlLuma && dc[0] == 0 && ac[0] == from
      modifies `copied
      ensures CopiedTo(dc, ac[0 := to])
      ensures forall i: nat :: i in copied <==> i in old(copied) || LumaRefines(i, to, from)
    {
      hide Known, Reaches, Planned;
      var al := from;
      ghost var now := ac;
      while al > to
        invariant to <= al <= from && CopiedTo(dc, now) && now == ac[0 := al]
        invariant forall i: nat :: i in copied <==> i in old(copied) || LumaRefines(i, al, from)
      {
        al := al - 1;
        CopyLumaBit(al, dc, now);
        now := now[0 := al];
      }
    }

    /** Refinements of chroma. */
    method CopyChromaBits(from: nat, to: nat, ghost dc: seq<int>, ghost ac: seq<int>)
      requires color && CopiedTo(dc, ac) && KnowsAt(ScanCount(color)) && |dc| == |ac| == Components()
      requires to <= from <= bestAlChroma && dc[1] == 0 && dc[2] == 0 && ac[1] == from && ac[2] == from
      modifies `copied
      ensures CopiedTo(dc, ac[1 := to][2 := to])
      ensures forall i: nat :: i in copied <==> i in old(copied) || ChromaRefines(i, to, from)
    {
      hide Known, Reaches, Planned;
      var al := from;
      ghost var now := ac;
      while al > to
        invariant to <= al <= from && CopiedTo(dc, now) && now == ac[1 := al][2 := al]
        invariant forall i: nat :: i in copied <==> i in old(copied) || ChromaRefines(i, al, from)
      {
        al := al - 1;
        CopyChromaBit(al, dc, now);
        now := now[1 := al][2 := al];
      }
    }

    /** The refinements below the bit that all components have reached, bit by bit. */
    method CopyAllBits(low: nat, ghost dc: seq<int>, ghost ac: seq<int>)
      requires CopiedTo(dc, ac) && KnowsAt(ScanCount(color)) && |dc| == |ac| == Components()
      requires low <= bestAlLuma && (color ==> low <= bestAlChroma)
      requires forall c :: 0 <= c < Components() ==> dc[c] == 0 && ac[c] == low
      modifies `copied
      ensures CopiedTo(dc, seq(Components(), _ => 0))
      ensures forall i: nat :: i in copied <==>
                i in old(copied) || LumaRefines(i, 0, low) || (color && ChromaRefines(i, 0, low))
    {
      hide Known, Reaches, Planned;
      var al: nat := low;
      ghost var now := ac;
      while al > 0
        invariant 0 <= al <= low && CopiedTo(dc, now) && |now| == Components()
        invariant forall c :: 0 <= c < Components() ==> now[c] == al
        invariant forall i: nat :: i in copied <==>
                    i in old(copied) || LumaRefines(i, al, low) || (color && ChromaRefines(i, al, low))
      {
        al := al - 1;
        CopyLumaBit(al, dc, now);
        now := now[0 := al];
        if color {
          CopyChromaBit(al, dc, now);
          now := now[1 := al][2 := al];
        }
      }
      assert now == seq(Components(), _ => 0);
    }

    /** The scans that are copied: those chosen, and the refinements they need. */
    predicate Wanted(i: nat)
      reads `bestAlLuma, `bestSplitLuma, `interleaveChromaDc, `bestAlChroma, `bestSplitChroma
    {
      || i == 0 || i in DcCopies(color, dcMode, interleaveChromaDc)
      || i in BandCopies(LUMA_SPLIT, 1, bestSplitLuma) || LumaRefines(i, 0, bestAlLuma)
      || (color && (i in BandCopies(CHROMA_SPLIT, 2, bestSplitChroma) || ChromaRefines(i, 0, bestAlChroma)))
    }

    /** The best scans, and the refinements they need, in the order of their bits. */
    method CopyScans()
      requires Shape() && copied == [] && KnowsAt(ScanCount(color))
      modifies `copied
      ensures Finished()
    {
      hide Known, Reaches, ValidScript, TrackerAfter, BandCopies, DcCopies, Planned, CopiedTo, LumaRefines, ChromaRefines;
      KnownCoded(buffered[..], actualAl[..], Made(), color);
      hide GroupStart, GroupEnd, AllAt;
      var low: nat := if bestAlLuma < bestAlChroma then bestAlLuma else bestAlChroma;
      ghost var dc, ac := CopyDc();
      CopiedSizes(dc, ac);
      ac := CopyLumaBand(dc, ac);
      CopyLumaBits(bestAlLuma, low, dc, ac);
      ac := ac[0 := low];
      if color {
        ac := CopyChromaBands(dc, ac);
        CopyChromaBits(bestAlChroma, low, dc, ac);
        ac := ac[1 := low][2 := low];
      }
      CopyAllBits(low, dc, ac);
      LumaRefinesSplit(low, bestAlLuma);
      ChromaRefinesSplit(low, bestAlChroma);
      AllCopied(dc);
    }

    lemma CopiedSizes(dc: seq<int>, ac: seq<int>)
      requires CopiedTo(dc, ac)
      ensures |dc| == |ac| == Components()
    {
      hide Reaches;
      ReachesSizes(Components(), Script(), dc, ac);
    }

    lemma AllCopied(dc: seq<int>)
      requires CopiedTo(dc, seq(Components(), _ => 0)) && forall i: nat :: i in copied <==> Wanted(i)
      requires |dc| == Components() && forall c :: 0 <= c < Components() ==> dc[c] == 0
      ensures Finished()
    {
      hide Reaches, ValidScript, TrackerAfter, Planned;
      CompleteIsValid(Components(), Script(), dc, seq(Components(), _ => 0));
    }

    // ----------------------------------------------------------------------------- the passes

    /** select_scans: what follows from the size of the scan just coded; after the last one, the copy. */
    method SelectScans(next: nat, ghost have: seq<bool>, ghost al: seq<int>)
      requires scanNumber < ScanCount(color) && next == scanNumber + 1 && copied == []
      requires JustCoded(have, al, ActualBit(scanNumber))
      modifies `scanNumber, `passNumber, `isLastPass, `bestCost, `bestAlLuma, `bestSplitLuma
      modifies `interleaveChromaDc, `bestAlChroma, `bestSplitChroma, `copied
      ensures Decided(old(scanNumber))
      ensures if scanNumber == ScanCount(color) - 1 then Finished() else copied == []
    {
      hide Known, Planned, Coded, Finished, Judged, ActualBit;
      DecideNext(next, have, al);
      if scanNumber == ScanCount(color) - 1 {
        CopyScans();
      }
    }

    /** The part that the scan belongs to decides. */
    method DecideNext(next: nat, ghost have: seq<bool>, ghost al: seq<int>)
      requires scanNumber < ScanCount(color) && next == scanNumber + 1
      requires JustCoded(have, al, ActualBit(scanNumber))
      modifies `scanNumber, `passNumber, `isLastPass, `bestCost, `bestAlLuma, `bestSplitLuma
      modifies `interleaveChromaDc, `bestAlChroma, `bestSplitChroma
      ensures Decided(old(scanNumber))
    {
      hide Known, Planned, Coded, Judged, JustCoded, Decided;
      if next <= LUMA_SPLIT {
        SelectLumaAl(next, have, al);
      } else if next <= CHROMA_DC {
        SelectLumaSplit(next, have, al);
      } else if ScanCount(color) > CHROMA_DC {
        if next <= CHROMA_AC {
          SelectChromaDc(next, have, al);
        } else if next <= CHROMA_SPLIT {
          SelectChromaAl(next, have, al);
        } else if next <= ScanCount(color) {
          SelectChromaSplit(next, have, al);
        }
      }
    }

    /** The bit that scan s goes down to: the scans that try splits use what has been found for Al. */
    function ActualBit(s: nat): int
      requires s < ScanCount(color)
      reads `bestAlLuma, `bestAlChroma
    {
      if LUMA_SPLIT <= s < CHROMA_DC then bestAlLuma
      else if CHROMA_SPLIT <= s then bestAlChroma
      else PlannedAl(s)
    }

    /** select_scan_parameters */
    method SelectScanParameters()
      requires Shape() && scanNumber < ScanCount(color)
      modifies actualAl
      ensures actualAl[..] == old(actualAl[..])[scanNumber := ActualBit(scanNumber)]
    {
      PlannedBit(color, dcMode, scanNumber);
      hide Planned;
      var bit := scanInfo[scanNumber].al;
      if scanNumber >= LUMA_SPLIT && scanNumber < CHROMA_DC {
        bit := bestAlLuma;
      }
      var chromaSplit := if color then CHROMA_SPLIT else CHROMA_DC + 4;
      if scanNumber >= chromaSplit && scanNumber < ScanCount(color) {
        bit := bestAlChroma;
      }
      actualAl[scanNumber] := bit;
    }

    /** A scan is coded, down to its actual bit, and turns out to have this size. */
    method Measure(size: nat) returns (ghost have: seq<bool>, ghost al: seq<int>)
      requires Searching() && scanNumber < ScanCount(color)
      modifies `passNumber, `isLastPass, scanSize, actualAl, buffered
      ensures JustCoded(have, al, ActualBit(scanNumber))
      ensures scanSize[..] == old(scanSize[..])[scanNumber := size]
      ensures buffered[..] == old(buffered[..])[scanNumber := true]
    {
      hide Known, Planned, ActualBit, Judged;
      ghost var measured := scanSize[..];
      have, al := buffered[..], actualAl[..];
      JudgedStays(measured, scanNumber, size, Made(), bestCost, interleaveChromaDc, color, have, al);
      SelectScanParameters();
      if optimizeCoding {
        passNumber := passNumber + 1;
      }
      isLastPass := passNumber == TotalPasses() - 1;
      scanSize[scanNumber] := size;
      buffered[scanNumber] := true;
      assert scanSize[..] == measured[scanNumber := size];
    }

    /**
     The passes of one scan, whatever size it turns out to have. Afterwards the counters agree again, however
     many scans were skipped.
     */
    method CodeScan(size: nat)
      requires Searching() && scanNumber < ScanCount(color)
      modifies this, scanSize, actualAl, buffered
      ensures Searching() && old(scanNumber) < scanNumber
      ensures scanSize[..] == old(scanSize[..])[old(scanNumber) := size]
      ensures buffered[..] == old(buffered[..])[old(scanNumber) := true]
      ensures scanNumber == ScanCount(color) ==> Finished()
    {
      hide Known, Planned, Finished, ActualBit, Judged;
      ghost var have, al := Measure(size);
      SelectScans(scanNumber + 1, have, al);
      scanNumber := scanNumber + 1;
      passNumber := passNumber + 1;
    }

    /** Of the sizes measured, the choices are the best that the search can find. */
    ghost predicate Chosen()
      requires scanSize.Length == ScanCount(color)
      reads this, scanSize
    {
      && Settled(LumaCosts(scanSize[..]), bestAlLuma)
      && Searched(SplitCosts(scanSize[..], LUMA_SPLIT, 1), bestSplitLuma)
      && (color ==>
            && (interleaveChromaDc <==> scanSize[CHROMA_DC] <= scanSize[CHROMA_DC + 1] + scanSize[CHROMA_DC + 2])
            && Settled(ChromaCosts(scanSize[..]), bestAlChroma)
            && Searched(SplitCosts(scanSize[..], CHROMA_SPLIT, 2), bestSplitChroma))
    }

    /** The sizes measured are those given. */
    ghost predicate Measured(sizes: nat -> nat)
      requires scanSize.Length == buffered.Length
      reads scanSize, buffered
    {
      forall i :: 0 <= i < buffered.Length && buffered[i] ==> scanSize[i] == sizes(i)
    }

    /** All remaining passes, for any sizes. */
    method Run(sizes: nat -> nat)
      requires Searching() && Measured(sizes)
      requires isLastPass ==> Finished()
      modifies this, scanSize, actualAl, buffered
      ensures Shape() && scanNumber == ScanCount(color) && passNumber == TotalPasses()
      ensures Measured(sizes) && Chosen() && Finished()
    {
      hide Known, Planned, Finished, Judged;
      while !isLastPass
        invariant Searching() && Measured(sizes) && (isLastPass ==> Finished())
        decreases ScanCount(color) - scanNumber
      {
        ghost var s, size, have := scanNumber, scanSize[..], buffered[..];
        CodeScan(sizes(scanNumber));
        StillMeasured(sizes, s, size, have);
      }
      ChosenAtEnd(scanSize[..], Made(), bestCost, interleaveChromaDc, color);
    }

    lemma StillMeasured(sizes: nat -> nat, s: nat, size: seq<nat>, have: seq<bool>)
      requires s < |size| == |have| && forall i :: 0 <= i < |have| && have[i] ==> size[i] == sizes(i)
      requires scanSize[..] == size[s := sizes(s)] && buffered[..] == have[s := true]
      ensures scanSize.Length == buffered.Length && Measured(sizes)
    {
      assert |scanSize[..]| == |buffered[..]|;
      forall i | 0 <= i < buffered.Length && buffered[i]
        ensures scanSize[i] == sizes(i)
      {
        assert buffered[i] == buffered[..][i] && scanSize[i] == scanSize[..][i];
      }
    }
  }

  /** The bits of the script that is searched are as planned. */
  lemma PlannedBit(color: bool, dcMode: nat, s: nat)
    requires s < ScanCount(color)
    ensures Planned(color, dcMode, s).al == PlannedAl(s)
  {
  }

  /** The chroma DC scans that are copied. */
  function DcCopies(color: bool, dcMode: nat, together: bool): seq<nat> {
    if !color || dcMode == 0 then [] else if together && dcMode != 1 then [CHROMA_DC] else [CHROMA_DC + 1, CHROMA_DC + 2]
  }

  /** Scan i refines luma to a bit from lo on and below hi. */
  predicate LumaRefines(i: nat, lo: nat, hi: nat) {
    3 + 3 * lo <= i < 3 + 3 * hi && i % 3 == 0
  }

  predicate ChromaRefines(i: nat, lo: nat, hi: nat) {
    CHROMA_AC + 4 + 6 * lo <= i < CHROMA_AC + 4 + 6 * hi && i % 6 <= 1
  }

  lemma LumaRefinesSplit(low: nat, high: nat)
    requires low <= high
    ensures forall i: nat :: LumaRefines(i, 0, high) <==> LumaRefines(i, 0, low) || LumaRefines(i, low, high)
  {
  }

  lemma ChromaRefinesSplit(low: nat, high: nat)
    requires low <= high
    ensures forall i: nat :: ChromaRefines(i, 0, high) <==> ChromaRefines(i, 0, low) || ChromaRefines(i, low, high)
  {
  }

  /** The scans of a split. */
  function BandCopies(start: nat, m: nat, best: nat): (g: seq<nat>) {
    var lo, hi := GroupStart(start, m, best), GroupEnd(start, m, best);
    seq(if lo < hi then hi - lo else 0, j => lo + j)
  }

  lemma TwoMore(script: seq<Scan>, x: Scan, y: Scan)
    ensures script + [x] + [y] == script + [x, y]
  {
  }

  lemma PlannedWhole(color: bool, dcMode: nat)
    ensures Planned(color, dcMode, LUMA_SPLIT) == One(0, 1, 63, 0, 0)
  {
  }

  /** The scans that add bit al. */
  lemma PlannedRefinements(color: bool, dcMode: nat, al: nat)
    ensures al < AL_MAX_LUMA ==> Planned(color, dcMode, 3 + 3 * al) == One(0, 1, 63, al + 1, al)
    ensures color && al < AL_MAX_CHROMA ==> Planned(color, dcMode, CHROMA_AC + 4 + 6 * al) == One(1, 1, 63, al + 1, al)
    ensures color && al < AL_MAX_CHROMA ==> Planned(color, dcMode, CHROMA_AC + 5 + 6 * al) == One(2, 1, 63, al + 1, al)
  {
  }

  /** The scans with the given numbers, each down to the bit it was coded to. */
  ghost function ScriptOf(copied: seq<nat>, scans: seq<Scan>, al: seq<int>): (script: seq<Scan>)
    requires |scans| == |al| && forall j :: 0 <= j < |copied| ==> copied[j] < |scans|
    ensures |script| == |copied|
  {
    seq(|copied|, j requires 0 <= j < |copied| => scans[copied[j]].(al := al[copied[j]]))
  }

  lemma ScriptSnoc(copied: seq<nat>, i: nat, scans: seq<Scan>, al: seq<int>)
    requires |scans| == |al| && i < |scans| && forall j :: 0 <= j < |copied| ==> copied[j] < |scans|
    ensures ScriptOf(copied + [i], scans, al) == ScriptOf(copied, scans, al) + [scans[i].(al := al[i])]
  {
  }

  lemma ReachesSizes(n: nat, scans: seq<Scan>, dc: seq<int>, ac: seq<int>)
    requires Reaches(n, scans, dc, ac)
    ensures |dc| == |ac| == n
  {
  }

  /** The DC scans of the search. */
  lemma PlannedDc(color: bool, dcMode: nat)
    ensures Planned(color, dcMode, 0) == Scan(if color && dcMode == 0 then [0, 1, 2] else [0], 0, 0, 0, 0)
    ensures color ==> Planned(color, dcMode, CHROMA_DC) == Scan([1, 2], 0, 0, 0, 0)
    ensures color ==> Planned(color, dcMode, CHROMA_DC + 1) == Scan([1], 0, 0, 0, 0)
    ensures color ==> Planned(color, dcMode, CHROMA_DC + 2) == Scan([2], 0, 0, 0, 0)
  {
  }

  /** What is in the buffers when the search is over. */
  lemma KnownCoded(have: seq<bool>, al: seq<int>, x: Choices, color: bool)
    requires Known(have, al, ScanCount(color), x, color)
    ensures Have(have, al, 0, 0) && x.alLuma <= AL_MAX_LUMA && x.splitLuma <= SPLITS
    ensures LumaRefined(have, al, x.alLuma)
    ensures AllAt(have, al, GroupStart(LUMA_SPLIT, 1, x.splitLuma), GroupEnd(LUMA_SPLIT, 1, x.splitLuma), x.alLuma)
    ensures !color ==> x.alChroma == 0
    ensures color ==> AllAt(have, al, CHROMA_DC, CHROMA_AC, 0) && x.alChroma <= AL_MAX_CHROMA && x.splitChroma <= SPLITS
    ensures color ==> ChromaRefined(have, al, x.alChroma)
    ensures color ==>
              AllAt(have, al, GroupStart(CHROMA_SPLIT, 2, x.splitChroma), GroupEnd(CHROMA_SPLIT, 2, x.splitChroma), x.alChroma)
  {
  }

  /** What the first luma part may look at. */
  /** What follows from a luma scan of the first part. */
  lemma LumaBitStep(have: seq<bool>, al: seq<int>, s: nat, x: Choices, color: bool, have1: seq<bool>, al1: seq<int>,
                    size: seq<nat>, least: nat, together: bool, t: nat, best: nat, cost: nat)
    requires s < LUMA_SPLIT && Known(have, al, s, x, color) && Coded(have, al, s, PlannedAl(s), have1, al1)
    requires Judged(size, s, x, least, together, color) && |size| == ScanCount(color)
    requires if (s + 1) % 3 != 0 then t == s + 1 && best == x.alLuma && cost == least
             else
               var b := s / 3;
               if b == 0 || LumaCosts(size)[b] < least then t == s + 1 && best == b && cost == LumaCosts(size)[b]
               else t == LUMA_SPLIT && best == x.alLuma && cost == least
    ensures Known(have1, al1, t, x.(alLuma := best), color)
    ensures Judged(size, t, x.(alLuma := best), cost, together, color)
  {
    hide Known, Judged, PlannedAl, Coded, LumaCosts;
    KnownBits(have, al, s, x, color, have1, al1);
    JudgedParts(size, s, x, least, together, color);
    if (s + 1) % 3 == 0 {
      LumaTried(size, s / 3, x.alLuma, least);
    }
    JudgedLuma(size, s, x, least, together, color, t, best, cost);
    KnownLumaBits(have, al, s, x, color, have1, al1, t, best);
  }

  /** A split that has been tried becomes the best if it is cheaper. */
  predicate Takes(c: seq<nat>, n: nat, best: nat, least: nat, b: nat, cost: nat)
    requires n < |c|
  {
    var better := n == 0 || c[n] < least;
    b == (if better then n else best) && cost == (if better then c[n] else least)
  }

  predicate Stopping(n: nat, b: nat) {
    (n == 2 && b == 0) || (n == 3 && b != 2) || (n == 4 && b != 4)
  }

  /** What follows from a scan of the luma split. */
  lemma LumaSplitStep(have: seq<bool>, al: seq<int>, s: nat, x: Choices, color: bool, have1: seq<bool>, al1: seq<int>,
                      size: seq<nat>, least: nat, together: bool, t: nat, best: nat, cost: nat)
    requires LUMA_SPLIT <= s < CHROMA_DC && Known(have, al, s, x, color) && Coded(have, al, s, x.alLuma, have1, al1)
    requires Judged(size, s, x, least, together, color) && |size| == ScanCount(color)
    requires if (s + 1 - LUMA_SPLIT) % 2 == 0 then t == s + 1 && best == x.splitLuma && cost == least
             else
               var n := (s + 1 - LUMA_SPLIT) / 2;
               && Takes(SplitCosts(size, LUMA_SPLIT, 1), n, x.splitLuma, least, best, cost)
               && t == if Stopping(n, best) then CHROMA_DC else s + 1
    ensures Known(have1, al1, t, x.(splitLuma := best), color)
    ensures Judged(size, t, x.(splitLuma := best), cost, together, color)
  {
    hide Known, Judged, Coded, SplitCosts, SplitJudged, Searched;
    KnownSplit(have, al, s, x, color, have1, al1);
    JudgedParts(size, s, x, least, together, color);
    if (s + 1 - LUMA_SPLIT) % 2 == 0 {
      SplitUntried(size, s, LUMA_SPLIT, 1, best, cost);
    } else {
      var n := (s + 1 - LUMA_SPLIT) / 2;
      SplitTried(size, LUMA_SPLIT, 1, n, x.splitLuma, least, best, cost);
      if Stopping(n, best) || n == SPLITS {
        SplitIsSearched(size, LUMA_SPLIT, 1, CHROMA_DC, best, cost);
      }
    }
    JudgedSplit(size, s, x, least, together, color, t, best, cost);
    KnownLumaSplit(have, al, s, x, color, have1, al1, t, best);
  }

  /** What follows from a chroma scan of the first part. */
  lemma ChromaBitStep(have: seq<bool>, al: seq<int>, s: nat, x: Choices, have1: seq<bool>, al1: seq<int>,
                      size: seq<nat>, least: nat, together: bool, t: nat, best: nat, cost: nat)
    requires CHROMA_AC <= s < CHROMA_SPLIT && Known(have, al, s, x, true)
    requires Coded(have, al, s, PlannedAl(s), have1, al1)
    requires Judged(size, s, x, least, together, true) && |size| == ScanCount(true)
    requires if (s + 1 - CHROMA_AC) % 6 != 4 then t == s + 1 && best == x.alChroma && cost == least
             else
               var b := (s + 1 - CHROMA_AC) / 6;
               if b == 0 || ChromaCosts(size)[b] < least then t == s + 1 && best == b && cost == ChromaCosts(size)[b]
               else t == CHROMA_SPLIT && best == x.alChroma && cost == least
    ensures Known(have1, al1, t, x.(alChroma := best), true)
    ensures Judged(size, t, x.(alChroma := best), cost, together, true)
  {
    hide Known, Judged, PlannedAl, Coded, ChromaCosts;
    KnownChroma(have, al, s, x, have1, al1);
    JudgedParts(size, s, x, least, together, true);
    if (s + 1 - CHROMA_AC) % 6 == 4 {
      ChromaTried(size, (s + 1 - CHROMA_AC) / 6, x.alChroma, least);
    }
    JudgedChroma(size, s, x, least, together, t, best, cost);
    KnownChromaBits(have, al, s, x, have1, al1, t, best);
  }

  /** What follows from a scan of the chroma split. */
  lemma ChromaSplitStep(have: seq<bool>, al: seq<int>, s: nat, x: Choices, have1: seq<bool>, al1: seq<int>,
                        size: seq<nat>, least: nat, together: bool, t: nat, best: nat, cost: nat)
    requires CHROMA_SPLIT <= s < 64 && Known(have, al, s, x, true) && Coded(have, al, s, x.alChroma, have1, al1)
    requires Judged(size, s, x, least, together, true) && |size| == ScanCount(true)
    requires if (s + 1 - CHROMA_SPLIT) % 4 != 2 then t == s + 1 && best == x.splitChroma && cost == least
             else
               var n := (s + 1 - CHROMA_SPLIT) / 4;
               && Takes(SplitCosts(size, CHROMA_SPLIT, 2), n, x.splitChroma, least, best, cost)
               && t == if Stopping(n, best) then 64 else s + 1
    ensures Known(have1, al1, t, x.(splitChroma := best), true)
    ensures Judged(size, t, x.(splitChroma := best), cost, together, true)
  {
    hide Known, Judged, Coded, SplitCosts, SplitJudged, Searched;
    KnownChromaSpectrum(have, al, s, x, have1, al1);
    JudgedParts(size, s, x, least, together, true);
    if (s + 1 - CHROMA_SPLIT) % 4 != 2 {
      SplitUntried(size, s, CHROMA_SPLIT, 2, best, cost);
    } else {
      var n := (s + 1 - CHROMA_SPLIT) / 4;
      SplitTried(size, CHROMA_SPLIT, 2, n, x.splitChroma, least, best, cost);
      if Stopping(n, best) || n == SPLITS {
        SplitIsSearched(size, CHROMA_SPLIT, 2, 64, best, cost);
      }
    }
    JudgedChromaSplit(size, s, x, least, together, t, best, cost);
    KnownChromaSplit(have, al, s, x, have1, al1, t, best);
  }

  lemma KnownBits(have: seq<bool>, al: seq<int>, s: nat, x: Choices, color: bool, have1: seq<bool>, al1: seq<int>)
    requires s < LUMA_SPLIT && Known(have, al, s, x, color) && Coded(have, al, s, PlannedAl(s), have1, al1)
    ensures forall i :: 1 <= i <= s ==> have1[i]
    ensures 3 <= s ==> x.alLuma == s / 3 - 1
  {
    LumaOneMore(have, al, s, x.alLuma, have1, al1);
  }

  lemma KnownSplit(have: seq<bool>, al: seq<int>, s: nat, x: Choices, color: bool, have1: seq<bool>, al1: seq<int>)
    requires LUMA_SPLIT <= s < CHROMA_DC && Known(have, al, s, x, color) && Coded(have, al, s, x.alLuma, have1, al1)
    ensures forall i :: LUMA_SPLIT <= i <= s ==> have1[i]
    ensures LUMA_SPLIT < s ==> x.splitLuma <= SPLITS && GroupEnd(LUMA_SPLIT, 1, x.splitLuma) <= s
  {
  }

  lemma KnownDc(have: seq<bool>, al: seq<int>, s: nat, x: Choices)
    requires CHROMA_AC <= s && Known(have, al, s, x, true)
    ensures have[CHROMA_DC] && have[CHROMA_DC + 1] && have[CHROMA_DC + 2]
  {
  }

  lemma KnownChroma(have: seq<bool>, al: seq<int>, s: nat, x: Choices, have1: seq<bool>, al1: seq<int>)
    requires CHROMA_AC <= s < CHROMA_SPLIT && Known(have, al, s, x, true) && Coded(have, al, s, PlannedAl(s), have1, al1)
    ensures forall i :: CHROMA_AC <= i <= s ==> have1[i]
    ensures x.alChroma == if s < 30 then 0 else (s - 30) / 6
  {
  }

  lemma KnownChromaSpectrum(have: seq<bool>, al: seq<int>, s: nat, x: Choices, have1: seq<bool>, al1: seq<int>)
    requires CHROMA_SPLIT <= s < 64 && Known(have, al, s, x, true) && Coded(have, al, s, x.alChroma, have1, al1)
    ensures forall i :: CHROMA_SPLIT <= i <= s ==> have1[i]
    ensures CHROMA_SPLIT + 2 <= s ==> x.splitChroma <= SPLITS && GroupEnd(CHROMA_SPLIT, 2, x.splitChroma) <= s
  {
  }
}
