/** Two-pass Huffman coding: tables made from the counts of the first pass serve the second. */
module HuffmanOptimized {
  import opened Coefficients
  import opened ByteStrings
  import opened DataSource
  import opened HuffmanOptimality
  import opened HuffmanForest
  import opened HuffmanTable
  import opened HuffmanOverflow
  import opened HuffmanCodes
  import opened HuffmanDecoding
  import opened HuffmanBuilders
  import opened HuffmanSymbols
  import opened HuffmanOptimalCodes
  import opened HuffmanBlocks
  import opened HuffmanScans
  import opened RestartIntervals
  import opened HuffmanRestarts
  import opened HuffmanGather
  import opened HuffmanTransfer
  import Dec = HuffmanDecoder

  // -------------------------------------------------------------------- the symbols of a scan

  /** DC symbols are at most 11, and no AC symbol has a size above 10. */
  predicate SymbolInRange(t: Token) {
    t.symbol < 256 && if t.dc then t.symbol <= MAX_COEF_BITS + 1 else t.symbol % 16 <= MAX_COEF_BITS
  }

  ghost predicate InRange(ts: seq<Token>) {
    forall i :: 0 <= i < |ts| ==> SymbolInRange(ts[i])
  }

  lemma InRangeConcat(ts: seq<Token>, us: seq<Token>)
    requires InRange(ts) && InRange(us)
    ensures InRange(ts + us)
  {
  }

  lemma {:induction false} AcInRange(tbl: nat, z: Block, k: nat, r: nat)
    requires 1 + r <= k <= BLOCK_SIZE && AcCodable(z, k)
    ensures InRange(AcTokens(tbl, z, k, r))
    decreases BLOCK_SIZE - k, r
  {
    hide NBits, Extra, InRange, AcTokens;
    AcStep(tbl, z, k, r);
    if k == BLOCK_SIZE {
      OneInRange(Token(false, tbl, 0, 0));
      NoneInRange();
    } else if z[k] == 0 {
      AcInRange(tbl, z, k + 1, r + 1);
    } else if r > 15 {
      AcInRange(tbl, z, k, r - 16);
      OneInRange(Token(false, tbl, 0xF0, 0));
      InRangeConcat([Token(false, tbl, 0xF0, 0)], AcTokens(tbl, z, k, r - 16));
    } else {
      AcInRange(tbl, z, k + 1, 0);
      OneInRange(CoefToken(tbl, r, z[k]));
      InRangeConcat([CoefToken(tbl, r, z[k])], AcTokens(tbl, z, k + 1, 0));
    }
  }

  lemma NoneInRange()
    ensures InRange([])
  {
  }

  lemma OneInRange(t: Token)
    requires SymbolInRange(t)
    ensures InRange([t])
  {
  }

  lemma {:induction false} ScanInRange(comps: seq<Component>, last: seq<int>, items: seq<Item>)
    requires InScan(comps, last, items) && ScanCodable(comps, last, items)
    ensures InRange(ScanTokens(comps, last, items))
    decreases |items|
  {
    hide NBits, Extra, InRange, AcTokens, AcCodable;
    if items == [] {
      NoneInRange();
    } else {
      var ci, z := items[0].ci, items[0].z;
      ScanInRange(comps, last[ci := z[0]], items[1..]);
      CodableDc(z[0] - last[ci], z);
      AcInRange(comps[ci].acTbl, z, 1, 0);
      OneInRange(DcToken(comps[ci].dcTbl, z[0] - last[ci]));
      InRangeConcat([DcToken(comps[ci].dcTbl, z[0] - last[ci])], AcTokens(comps[ci].acTbl, z, 1, 0));
      InRangeConcat(BlockTokens(comps[ci], last[ci], z), ScanTokens(comps, last[ci := z[0]], items[1..]));
    }
  }

  /** The tokens of a component name its tables. */
  ghost predicate NamesTables(comps: seq<Component>, t: Token) {
    exists ci :: 0 <= ci < |comps| && t.tbl == if t.dc then comps[ci].dcTbl else comps[ci].acTbl
  }

  lemma {:induction false} AcTable(tbl: nat, z: Block, k: nat, r: nat)
    requires k <= BLOCK_SIZE
    ensures forall t :: t in AcTokens(tbl, z, k, r) ==> !t.dc && t.tbl == tbl
    decreases BLOCK_SIZE - k, r
  {
    hide NBits, Extra;
    if k < BLOCK_SIZE {
      if z[k] == 0 {
        AcTable(tbl, z, k + 1, r + 1);
      } else if r > 15 {
        AcTable(tbl, z, k, r - 16);
      } else {
        AcTable(tbl, z, k + 1, 0);
      }
    }
  }

  lemma {:induction false} ScanNamesTables(comps: seq<Component>, last: seq<int>, items: seq<Item>)
    requires InScan(comps, last, items)
    ensures forall t :: t in ScanTokens(comps, last, items) ==> NamesTables(comps, t)
    decreases |items|
  {
    hide NBits, Extra, AcTokens;
    if items != [] {
      var ci, z := items[0].ci, items[0].z;
      ScanNamesTables(comps, last[ci := z[0]], items[1..]);
      AcTable(comps[ci].acTbl, z, 1, 0);
    }
  }

  /** A block has at least one symbol of either kind. */
  lemma {:induction false} AcSome(tbl: nat, z: Block, k: nat, r: nat)
    requires k <= BLOCK_SIZE && (k < BLOCK_SIZE || r > 0)
    ensures AcTokens(tbl, z, k, r) != []
    decreases BLOCK_SIZE - k, r
  {
    hide NBits, Extra;
    if k < BLOCK_SIZE && z[k] == 0 {
      AcSome(tbl, z, k + 1, r + 1);
    }
  }

  /** Some symbol of the table is among the tokens. */
  ghost predicate UsesTable(ts: seq<Token>, dc: bool, tbl: nat) {
    exists t :: t in ts && t.dc == dc && t.tbl == tbl
  }

  lemma {:induction false} ScanUsesTables(comps: seq<Component>, last: seq<int>, items: seq<Item>, i: nat)
    requires InScan(comps, last, items) && i < |items|
    ensures UsesTable(ScanTokens(comps, last, items), true, comps[items[i].ci].dcTbl)
    ensures UsesTable(ScanTokens(comps, last, items), false, comps[items[i].ci].acTbl)
    decreases |items|
  {
    hide NBits, Extra, AcTokens;
    var ci, z := items[0].ci, items[0].z;
    var rest := ScanTokens(comps, last[ci := z[0]], items[1..]);
    var block := BlockTokens(comps[ci], last[ci], z);
    if i == 0 {
      AcSome(comps[ci].acTbl, z, 1, 0);
      AcTable(comps[ci].acTbl, z, 1, 0);
      assert block[0] in block && block[1] in block;
      assert block[1] == AcTokens(comps[ci].acTbl, z, 1, 0)[0];
      assert block[0] in block + rest && block[1] in block + rest;
    } else {
      ScanUsesTables(comps, last[ci := z[0]], items[1..], i - 1);
      var d :| d in rest && d.dc && d.tbl == comps[items[i].ci].dcTbl;
      var a :| a in rest && !a.dc && a.tbl == comps[items[i].ci].acTbl;
      assert d in block + rest && a in block + rest;
    }
  }

  // ------------------------------------------------------------- the symbols of all segments

  lemma {:induction false} SegmentsInRange(comps: seq<Component>, segs: seq<seq<Mcu>>)
    requires AllInScan(comps, segs) && SegmentsCodable(comps, segs)
    ensures InRange(SegmentTokens(comps, segs))
  {
    hide InRange, ScanTokens, ScanCodable, InScan, Flat;
    if segs == [] {
      NoneInRange();
    } else {
      var n, zero := |segs| - 1, ZeroPredictors(|comps|);
      SegmentsInRange(comps, segs[..n]);
      ScanInRange(comps, zero, Flat(segs[n]));
      InRangeConcat(SegmentTokens(comps, segs[..n]), ScanTokens(comps, zero, Flat(segs[n])));
    }
  }

  lemma {:induction false} SegmentsNameTables(comps: seq<Component>, segs: seq<seq<Mcu>>)
    requires AllInScan(comps, segs)
    ensures forall t :: t in SegmentTokens(comps, segs) ==> NamesTables(comps, t)
  {
    hide NamesTables, ScanTokens, InScan, Flat;
    if segs != [] {
      var n := |segs| - 1;
      SegmentsNameTables(comps, segs[..n]);
      ScanNamesTables(comps, ZeroPredictors(|comps|), Flat(segs[n]));
    }
  }

  lemma {:induction false} SegmentsUseTables(comps: seq<Component>, segs: seq<seq<Mcu>>, k: nat, i: nat)
    requires AllInScan(comps, segs) && k < |segs| && i < |Flat(segs[k])| && Flat(segs[k])[i].ci < |comps|
    ensures UsesTable(SegmentTokens(comps, segs), true, comps[Flat(segs[k])[i].ci].dcTbl)
    ensures UsesTable(SegmentTokens(comps, segs), false, comps[Flat(segs[k])[i].ci].acTbl)
  {
    hide ScanTokens, InScan, Flat, UsesTable;
    var n := |segs| - 1;
    var front, last := SegmentTokens(comps, segs[..n]), ScanTokens(comps, ZeroPredictors(|comps|), Flat(segs[n]));
    if k < n {
      SegmentsUseTables(comps, segs[..n], k, i);
    } else {
      ScanUsesTables(comps, ZeroPredictors(|comps|), Flat(segs[n]), i);
    }
    UsesEither(front, last, true, comps[Flat(segs[k])[i].ci].dcTbl);
    UsesEither(front, last, false, comps[Flat(segs[k])[i].ci].acTbl);
  }

  lemma UsesEither(ts: seq<Token>, us: seq<Token>, dc: bool, tbl: nat)
    requires UsesTable(ts, dc, tbl) || UsesTable(us, dc, tbl)
    ensures UsesTable(ts + us, dc, tbl)
  {
    if UsesTable(ts, dc, tbl) {
      var t :| t in ts && t.dc == dc && t.tbl == tbl;
      assert t in ts + us;
    } else {
      var t :| t in us && t.dc == dc && t.tbl == tbl;
      assert t in ts + us;
    }
  }

  /** Every block lies in some segment. */
  lemma {:induction false} InSomeSegment(interval: nat, mcus: seq<Mcu>, item: Item) returns (k: nat, i: nat)
    requires item in Flat(mcus)
    ensures k < |Cut(interval, mcus)| && i < |Flat(Cut(interval, mcus)[k])| && Flat(Cut(interval, mcus)[k])[i] == item
    decreases |mcus|
  {
    hide Flat;
    if interval == 0 || |mcus| <= interval {
      k := 0;
      i :| 0 <= i < |Flat(mcus)| && Flat(mcus)[i] == item;
    } else {
      assert mcus == mcus[..interval] + mcus[interval..];
      FlatConcat(mcus[..interval], mcus[interval..]);
      if item in Flat(mcus[..interval]) {
        k := 0;
        i :| 0 <= i < |Flat(mcus[..interval])| && Flat(mcus[..interval])[i] == item;
      } else {
        k, i := InSomeSegment(interval, mcus[interval..], item);
        k := k + 1;
      }
    }
  }

  // ------------------------------------------------------------- counts that make a table

  lemma {:induction false} TallySum(ts: seq<Token>, dc: bool, tbl: nat)
    requires InRange(ts)
    ensures Sum(Tally(ts, dc, tbl)) <= |ts| && Tally(ts, dc, tbl)[256] == 0
  {
    hide Tally, Occurs, SymbolInRange;
    if ts == [] {
      NothingOccurs(dc, tbl);
      SumOfZeros(Tally([], dc, tbl));
    } else {
      var rest, t := ts[..|ts| - 1], ts[|ts| - 1];
      assert ts == rest + [t];
      TallySum(rest, dc, tbl);
      SymbolBelow(t);
      TallySnoc(rest, t, dc, tbl);
      SumUpdate(Tally(rest, dc, tbl), t.symbol, Tally(rest, dc, tbl)[t.symbol] + 1);
    }
  }

  lemma NothingOccurs(dc: bool, tbl: nat)
    ensures forall s :: 0 <= s < COUNTS ==> Tally([], dc, tbl)[s] == 0
  {
  }

  lemma SymbolBelow(t: Token)
    requires SymbolInRange(t)
    ensures t.symbol < 256
  {
  }

  lemma {:induction false} OneZero(s: seq<nat>, i: nat)
    requires i < |s| && s[i] == 0
    ensures CountNonzero(s) <= |s| - 1
  {
    if i < |s| - 1 {
      OneZero(s[..|s| - 1], i);
    } else {
      CountNonzeroAtMost(s[..|s| - 1]);
    }
  }

  lemma {:induction false} TwoZeros(s: seq<nat>, i: nat, j: nat)
    requires i < j < |s| && s[i] == 0 && s[j] == 0
    ensures CountNonzero(s) <= |s| - 2
  {
    if j < |s| - 1 {
      TwoZeros(s[..|s| - 1], i, j);
    } else {
      OneZero(s[..|s| - 1], i);
    }
  }

  /** No symbol has size 15, so the symbols 0x0F and 0x1F never occur. */
  lemma NeverOccurs(ts: seq<Token>, dc: bool, tbl: nat, s: nat)
    requires InRange(ts) && s % 16 == 15
    ensures Occurs(ts, dc, tbl, s) == 0
  {
    OccursIff(ts, dc, tbl, s);
  }

  /** The counts of a scan meet what the table builder relies on. */
  lemma CountsFit(ts: seq<Token>, dc: bool, tbl: nat)
    requires InRange(ts) && |ts| < MAX_TOTAL && UsesTable(ts, dc, tbl)
    ensures CountsOk(Tally(ts, dc, tbl)[256 := 1]) && CountNonzero(Tally(ts, dc, tbl)[..256]) <= 254
  {
    hide InRange, CountNonzero, Sum, Tally, Occurs;
    var c := Tally(ts, dc, tbl);
    TallySum(ts, dc, tbl);
    SumUpdate(c, 256, 1);
    NeverOccurs(ts, dc, tbl, 0x0F);
    NeverOccurs(ts, dc, tbl, 0x1F);
    TwoZeros(c[..256], 0x0F, 0x1F);
    var s := SomeSymbol(ts, dc, tbl);
    assert c[256 := 1][s] != 0;
  }

  lemma SomeSymbol(ts: seq<Token>, dc: bool, tbl: nat) returns (s: nat)
    requires InRange(ts) && UsesTable(ts, dc, tbl)
    ensures s < 256 && Tally(ts, dc, tbl)[s] != 0
  {
    var t :| t in ts && t.dc == dc && t.tbl == tbl;
    var i :| 0 <= i < |ts| && ts[i] == t;
    s := t.symbol;
    SymbolBelow(ts[i]);
    OccursIff(ts, dc, tbl, s);
  }

  /** HUFFVAL has room for 256 symbols. */
  function PadValues(listed: seq<nat>): (huffval: Values)
    ensures forall p :: 0 <= p < |listed| && p < 256 && listed[p] < 256 ==> huffval[p] == listed[p]
  {
    seq(256, p requires 0 <= p < 256 => if p < |listed| && listed[p] < 256 then listed[p] else 0)
  }

  lemma GoodShape(orig: seq<nat>, size: seq<nat>, t: HuffTable, last: nat, huffval: Values)
    requires GoodTable(orig, size, t, last) && huffval == PadValues(t.huffval)
    ensures |t.bits| == MAX_LEN + 1 && |orig| == SYMBOLS
    ensures forall p :: 0 <= p < |t.huffval| && p < 256 ==> huffval[p] == t.huffval[p]
  {
    hide Ordered, SpaceTerms16;
    forall p | 0 <= p < |t.huffval|
      ensures t.huffval[p] < 256
    {
      assert t.huffval[p] in t.huffval;
    }
  }

  /** No symbol above 15 is counted. */
  ghost predicate SmallOnly(orig: seq<nat>) {
    forall s :: 16 <= s < 256 && s < |orig| ==> orig[s] == 0
  }

  /** A table lists only sizes that differences have if and only if no other symbol is counted. */
  lemma SmallOnes(orig: seq<nat>, huffval: Values, n: nat)
    requires |orig| == SYMBOLS && ValuesOk(huffval, n, 255)
    requires forall s :: 0 <= s < 256 ==> (orig[s] != 0 <==> exists p :: 0 <= p < n && huffval[p] == s)
    ensures SmallOnly(orig) <==> ValuesOk(huffval, n, 15)
    ensures SmallOnly(orig) <==> SmallSymbols(huffval, n)
  {
    forall p | 0 <= p < n
      ensures SmallOnly(orig) ==> huffval[p] <= 15
    {
      assert orig[huffval[p]] != 0;
    }
    if !SmallOnly(orig) {
      var s :| 16 <= s < 256 && orig[s] != 0;
      var p :| 0 <= p < n && huffval[p] == s;
    }
  }

  lemma DerivedIs(t: DTable, sizes: seq<nat>, codes: seq<nat>, isDC: bool)
    requires CodeTable(sizes, codes, t.huffval) && SerialOk(t, sizes, codes) && LookupOk(t, sizes, codes)
    requires forall p :: 0 <= p < |sizes| ==> t.huffval[p] <= if isDC then 15 else 255
    ensures Dec.Derived(t, if isDC then Dec.MAX_DC_SYMBOL else Dec.MAX_AC_SYMBOL)
  {
    hide CodeTable, SerialOk, LookupOk;
    assert Dec.DerivedFrom(t, sizes, codes, if isDC then Dec.MAX_DC_SYMBOL else Dec.MAX_AC_SYMBOL);
  }

  /** The derived tables of a good table fit together; only a DC table with large symbols is refused. */
  method DerivePair(t: HuffTable, isDC: bool, ghost orig: seq<nat>, ghost size: seq<nat>, ghost last: nat)
    returns (ok: bool, c: CTable, d: DTable)
    requires |t.bits| == MAX_LEN + 1
    ensures GoodTable(orig, size, t, last) ==> (ok <==> isDC ==> SmallOnly(orig))
    ensures GoodTable(orig, size, t, last) && ok ==>
              && Paired(c, d) && Dec.Derived(d, if isDC then Dec.MAX_DC_SYMBOL else Dec.MAX_AC_SYMBOL)
              && |c.ehufsi| == 256 && |orig| == SYMBOLS
              && forall s :: 0 <= s < 256 ==> (c.ehufsi[s] > 0 <==> orig[s] != 0)
  {
    hide GoodTable, SizesUpTo, Accepted, CodeTable, Encodes, SerialOk, LookupOk, Paired, Dec.Derived, PadValues, SmallOnly,
         ValuesOk, SmallSymbols;
    c, d := CTable([], []), DTable([], [], [], []);
    var huffval := PadValues(t.huffval);
    var rc, rd;
    ghost var cc, cd;
    rc, cc := MakeCTable(t.bits, huffval, isDC);
    rd, cd := MakeDTable(t.bits, huffval, isDC);
    ok := rc.CDerived? && rd.DDerived?;
    if ok {
      c, d := rc.table, rd.table;
    }
    if GoodTable(orig, size, t, last) {
      GoodShape(orig, size, t, last, huffval);
      OptimalTableAccepted(orig, size, t, last, huffval);
      SmallOnes(orig, huffval, |Sizes(t.bits)|);
      if ok {
        CodeCount(Sizes(t.bits), cc, huffval);
        BuildersPair(t.bits, huffval, c, d, cc, cd);
        PairedShape(c, d);
        CountedHaveCodes(orig, size, t, last, huffval, cc, c);
        SmallValues(huffval, |Sizes(t.bits)|);
        DerivedIs(d, Sizes(t.bits), cd, isDC);
      }
    }
  }

  lemma SmallValues(huffval: Values, n: nat)
    requires n <= 256
    ensures ValuesOk(huffval, n, 15) ==> forall p :: 0 <= p < n ==> huffval[p] <= 15
  {
  }

  lemma PairedShape(c: CTable, d: DTable)
    requires Paired(c, d)
    ensures |c.ehufsi| == 256
  {
  }

  /**
   One table: made from its counts, then derived for both coders. It fails when Huffman's procedure gives
   some symbol more than 32 bits, when it gives 256 symbols 8 bits each, and for DC symbols above 15. When
   256 symbols have 9 bits each, the tables do not have their codes.
   */
  method BuildPair(freq: array<nat>, isDC: bool) returns (ok: bool, c: CTable, d: DTable, ghost size: seq<nat>)
    requires freq.Length == SYMBOLS && CountsOk(freq[..][256 := 1])
    modifies freq
    ensures CompleteSizes(old(freq[..][256 := 1]), size)
    ensures Cost(old(freq[..][256 := 1]), size) == MergeCost(old(freq[..][256 := 1]))
    ensures CountOf(size, 9) != 256 ==>
              (ok <==> !HasLong(size) && CountOf(size, 8) != 256 && (isDC ==> SmallOnly(old(freq[..]))))
    ensures CountOf(size, 9) != 256 && ok ==>
              && Paired(c, d) && Dec.Derived(d, if isDC then Dec.MAX_DC_SYMBOL else Dec.MAX_AC_SYMBOL)
              && |c.ehufsi| == 256 && forall s :: 0 <= s < 256 ==> (c.ehufsi[s] > 0 <==> old(freq[s]) != 0)
  {
    hide CompleteSizes, Cost, MergeCost, CountNonzero, GoodTable, Paired, Dec.Derived, CountOf, HasLong, SomeUsed;
    c, d := CTable([], []), DTable([], [], [], []);
    ghost var orig := freq[..][256 := 1];
    var r;
    ghost var last;
    r, size, last := GenOptimalTable(freq);
    ok := r.Table?;
    if ok {
      ok, c, d := DerivePair(r.table, isDC, orig, size, last);
    }
  }

  // ------------------------------------------------------------------------- both passes

  method FreshCounts(n: nat) returns (counts: seq<array<nat>>)
    ensures |counts| == n
    ensures forall t :: 0 <= t < n ==> fresh(counts[t]) && counts[t].Length == COUNTS
    ensures forall t, s :: 0 <= t < n && 0 <= s < COUNTS ==> counts[t][s] == 0
    ensures forall t, u :: 0 <= t < u < n ==> counts[t] != counts[u]
  {
    counts := [];
    for t := 0 to n
      invariant |counts| == t
      invariant forall u :: 0 <= u < t ==> fresh(counts[u]) && counts[u].Length == COUNTS
      invariant forall u, s :: 0 <= u < t && 0 <= s < COUNTS ==> counts[u][s] == 0
      invariant forall u, v :: 0 <= u < v < t ==> counts[u] != counts[v]
    {
      var a := new nat[COUNTS](_ => 0);
      counts := counts + [a];
    }
  }

  /** The statistics pass over all MCUs of a scan: it counts the symbols of all segments. */
  method GatherScan(g: Gatherer, mcus: seq<Mcu>) returns (ok: bool)
    requires g.Valid() && g.mcus == [] && InScan(g.comps, ZeroPredictors(|g.comps|), Flat(mcus))
    modifies g, g.dcCounts, g.acCounts
    ensures ok <==> RestartCodable(g.comps, g.restartInterval, mcus)
    ensures SeparateCounts(g.comps, g.dcCounts, g.acCounts)
    ensures ok ==> g.Counts(RestartTokens(g.comps, g.restartInterval, mcus))
  {
    hide SeparateCounts, RestartCodable, ScanCodable, LastAfter, InScan, Cut, Flat, Gatherer.Counts, Gatherer.Valid,
         Gatherer.Predictors;
    GathersSeparately(g);
    for n := 0 to |mcus|
      invariant g.Valid() && g.mcus == mcus[..n]
    {
      assert mcus[..n + 1] == mcus[..n] + [mcus[n]];
      PrefixCodable(g.comps, g.restartInterval, mcus, n + 1);
      GathersNext(g, mcus[n]);
      ok := g.GatherMcu(mcus[n]);
      if !ok {
        return;
      }
    }
    assert mcus[..|mcus|] == mcus;
    GatheredSoFar(g);
    ok := true;
  }

  /** What has been counted was in range, and the counts are those of all segments so far. */
  lemma GatheredSoFar(g: Gatherer)
    requires g.Valid() && InScan(g.comps, ZeroPredictors(|g.comps|), Flat(g.mcus))
    ensures RestartCodable(g.comps, g.restartInterval, g.mcus)
    ensures SeparateCounts(g.comps, g.dcCounts, g.acCounts)
    ensures g.Counts(RestartTokens(g.comps, g.restartInterval, g.mcus))
    ensures Cut(g.restartInterval, g.mcus) == g.done + [g.Current()]
    ensures |g.lastDcVal| == |g.comps| && InScan(g.comps, ZeroPredictors(|g.comps|), Flat(g.Current()))
    ensures g.Predictors() == NextPredictors(g.comps, g.restartInterval, g.Current())
  {
    hide InScan, ScanCodable, Flat, Cut, SeparateCounts, Gatherer.Counts, AllInScan, SegmentsCodable, SegmentTokens;
    LastCodable(g.comps, g.done, g.Current());
    SegmentTokensSnoc(g.comps, g.done, g.Current());
    PredictorsBehind(g.comps, g.restartInterval, g.Current());
  }

  lemma GathersSeparately(g: Gatherer)
    requires g.Valid()
    ensures SeparateCounts(g.comps, g.dcCounts, g.acCounts)
  {
    hide SeparateCounts;
  }

  /** The next MCU can be counted if and only if the scan up to it is codable. */
  lemma GathersNext(g: Gatherer, m: Mcu)
    requires g.Valid() && InScan(g.comps, ZeroPredictors(|g.comps|), Flat(g.mcus + [m]))
    ensures InScan(g.comps, g.lastDcVal, m) && InScan(g.comps, g.Predictors(), m)
    ensures ScanCodable(g.comps, g.Predictors(), m) <==> RestartCodable(g.comps, g.restartInterval, g.mcus + [m])
  {
    hide ScanCodable, Flat, Cut, AllInScan, SegmentsCodable, Gatherer.Valid, Gatherer.Predictors, Gatherer.Counts,
         SeparateCounts;
    FlatPush(g.mcus, m);
    PartsInScan(g.comps, ZeroPredictors(|g.comps|), Flat(g.mcus), m);
    GatheredSoFar(g);
    CodableSnoc(g.comps, g.restartInterval, g.mcus, m, g.done, g.Current());
  }

  /** The table has a code for exactly the symbols that occur. */
  ghost predicate ServesTable(c: CTable, d: DTable, ts: seq<Token>, dc: bool, tbl: nat) {
    && Paired(c, d) && Dec.Derived(d, if dc then Dec.MAX_DC_SYMBOL else Dec.MAX_AC_SYMBOL)
    && |c.ehufsi| == 256 && forall s :: 0 <= s < 256 ==> (c.ehufsi[s] > 0 <==> Occurs(ts, dc, tbl, s) != 0)
  }

  /** Huffman's procedure gives some symbol of these counts more than 32 bits. */
  ghost predicate TooLong(orig: seq<nat>) {
    exists size: seq<nat> :: CompleteSizes(orig, size) && Cost(orig, size) == MergeCost(orig) && HasLong(size)
  }

  /** finish_pass_gather, for the DC or the AC tables. */
  method BuildTables(counts: seq<array<nat>>, isDC: bool, ghost ts: seq<Token>)
    returns (ok: bool, cs: seq<CTable>, ds: seq<DTable>)
    requires forall t :: 0 <= t < |counts| ==> counts[t].Length == COUNTS && counts[t][..] == Tally(ts, isDC, t)
    requires forall t, u :: 0 <= t < u < |counts| ==> counts[t] != counts[u]
    requires InRange(ts) && |ts| < MAX_TOTAL && forall t :: 0 <= t < |counts| ==> UsesTable(ts, isDC, t)
    modifies counts
    ensures !ok ==> exists t :: 0 <= t < |counts| && TooLong(Tally(ts, isDC, t)[256 := 1])
    ensures ok ==> |cs| == |ds| == |counts|
    ensures ok ==> forall t :: 0 <= t < |counts| ==> ServesTable(cs[t], ds[t], ts, isDC, t)
  {
    hide CountsOk, CompleteSizes, Cost, MergeCost, CountNonzero, InRange, UsesTable, Paired, Dec.Derived, Occurs, CountOf,
         HasLong;
    cs, ds := [], [];
    for t := 0 to |counts|
      invariant |cs| == |ds| == t
      invariant forall u :: t <= u < |counts| ==> counts[u][..] == Tally(ts, isDC, u)
      invariant forall u :: 0 <= u < t ==> ServesTable(cs[u], ds[u], ts, isDC, u)
    {
      CountsFit(ts, isDC, t);
      if isDC {
        LargeNever(ts, t);
      }
      var c, d;
      ghost var size;
      ghost var orig := Tally(ts, isDC, t)[256 := 1];
      assert orig[..256] == Tally(ts, isDC, t)[..256];
      ok, c, d, size := BuildPair(counts[t], isDC);
      FewSymbols(orig, size, 8);
      FewSymbols(orig, size, 9);
      if !ok {
        return;
      }
      cs, ds := cs + [c], ds + [d];
    }
    ok := true;
  }

  lemma LargeNever(ts: seq<Token>, tbl: nat)
    requires InRange(ts)
    ensures forall s :: 16 <= s < 256 ==> Tally(ts, true, tbl)[s] == 0
  {
    forall s | 16 <= s < 256
      ensures Tally(ts, true, tbl)[s] == 0
    {
      OccursIff(ts, true, tbl, s);
    }
  }

  datatype Outcome = Received(mcus: seq<Mcu>) | OutOfRange | CodeTooLong

  /** Some block belongs to a component with this table. */
  ghost predicate InUse(comps: seq<Component>, items: seq<Item>, dc: bool, t: nat) {
    exists i :: 0 <= i < |items| && items[i].ci < |comps|
             && t == if dc then comps[items[i].ci].dcTbl else comps[items[i].ci].acTbl
  }

  /** No table is left without a block to code. */
  ghost predicate AllInUse(comps: seq<Component>, dcTables: nat, acTables: nat, items: seq<Item>) {
    && (forall ci :: 0 <= ci < |comps| ==> comps[ci].dcTbl < dcTables && comps[ci].acTbl < acTables)
    && (forall t :: 0 <= t < dcTables ==> InUse(comps, items, true, t))
    && (forall t :: 0 <= t < acTables ==> InUse(comps, items, false, t))
  }

  lemma TablesAreUsed(comps: seq<Component>, dcTables: nat, acTables: nat, interval: nat, mcus: seq<Mcu>)
    requires InScan(comps, ZeroPredictors(|comps|), Flat(mcus)) && AllInUse(comps, dcTables, acTables, Flat(mcus))
    ensures forall t :: 0 <= t < dcTables ==> UsesTable(RestartTokens(comps, interval, mcus), true, t)
    ensures forall t :: 0 <= t < acTables ==> UsesTable(RestartTokens(comps, interval, mcus), false, t)
  {
    hide UsesTable, SegmentTokens, InScan, Flat, Cut, AllInScan;
    CutInScan(comps, interval, mcus);
    forall t | 0 <= t < dcTables
      ensures UsesTable(RestartTokens(comps, interval, mcus), true, t)
    {
      assert InUse(comps, Flat(mcus), true, t);
      var i :| 0 <= i < |Flat(mcus)| && Flat(mcus)[i].ci < |comps| && comps[Flat(mcus)[i].ci].dcTbl == t;
      var k, j := InSomeSegment(interval, mcus, Flat(mcus)[i]);
      SegmentsUseTables(comps, Cut(interval, mcus), k, j);
    }
    forall t | 0 <= t < acTables
      ensures UsesTable(RestartTokens(comps, interval, mcus), false, t)
    {
      assert InUse(comps, Flat(mcus), false, t);
      var i :| 0 <= i < |Flat(mcus)| && Flat(mcus)[i].ci < |comps| && comps[Flat(mcus)[i].ci].acTbl == t;
      var k, j := InSomeSegment(interval, mcus, Flat(mcus)[i]);
      SegmentsUseTables(comps, Cut(interval, mcus), k, j);
    }
  }

  /** Tables made from the counts of the tokens serve the tokens. */
  lemma TablesServe(c: Tables, d: DTables, comps: seq<Component>, ts: seq<Token>)
    requires InRange(ts) && |c.dc| == |d.dc| && |c.ac| == |d.ac|
    requires forall t :: 0 <= t < |c.dc| ==> ServesTable(c.dc[t], d.dc[t], ts, true, t)
    requires forall t :: 0 <= t < |c.ac| ==> ServesTable(c.ac[t], d.ac[t], ts, false, t)
    requires forall ci :: 0 <= ci < |comps| ==> comps[ci].dcTbl < |c.dc| && comps[ci].acTbl < |c.ac|
    requires forall t :: t in ts ==> NamesTables(comps, t)
    ensures Fitting(c, d) && Dec.AllDerived(d) && UsesTables(comps, d) && CodesFor(c, ts)
  {
    hide Paired, Dec.Derived, Occurs;
    assert forall t :: 0 <= t < |d.dc| ==> ServesTable(c.dc[t], d.dc[t], ts, true, t);
    assert forall t :: 0 <= t < |d.ac| ==> ServesTable(c.ac[t], d.ac[t], ts, false, t);
    forall i | 0 <= i < |ts|
      ensures HasTable(c, ts[i]) && ts[i].symbol < |TableOf(c, ts[i]).ehufsi| && TableOf(c, ts[i]).ehufsi[ts[i].symbol] > 0
    {
      assert ts[i] in ts;
      SymbolBelow(ts[i]);
      OccursIff(ts, ts[i].dc, ts[i].tbl, ts[i].symbol);
    }
  }

  /** The symbols of a scan are in range and name tables of its components. */
  lemma TokensFit(comps: seq<Component>, interval: nat, mcus: seq<Mcu>)
    requires InScan(comps, ZeroPredictors(|comps|), Flat(mcus)) && RestartCodable(comps, interval, mcus)
    ensures InRange(RestartTokens(comps, interval, mcus))
    ensures forall t :: t in RestartTokens(comps, interval, mcus) ==> NamesTables(comps, t)
  {
    hide InScan, Flat, Cut, InRange, NamesTables, SegmentTokens, SegmentsCodable, AllInScan;
    CutInScan(comps, interval, mcus);
    SegmentsInRange(comps, Cut(interval, mcus));
    SegmentsNameTables(comps, Cut(interval, mcus));
  }

  /**
   Sends a scan in two passes, with any restart interval. It is refused exactly when some value is out of
   range; otherwise the tables made from the counts serve every symbol, and all coefficients come back.
   */
  method TransferOptimized(comps: seq<Component>, dcTables: nat, acTables: nat, interval: nat, mcus: seq<Mcu>,
                           members: seq<seq<nat>>, tail: seq<Byte>)
    returns (r: Outcome)
    requires InScan(comps, ZeroPredictors(|comps|), Flat(mcus)) && AllInUse(comps, dcTables, acTables, Flat(mcus))
    requires |RestartTokens(comps, interval, mcus)| < MAX_TOTAL
    requires MarkerTail(tail) && |members| == |mcus|
    requires forall n :: 0 <= n < |mcus| ==> mcus[n] != [] && members[n] == Members(mcus[n])
    ensures r.OutOfRange? <==> !RestartCodable(comps, interval, mcus)
    ensures r.Received? ==> r.mcus == mcus
    ensures r.CodeTooLong? ==>
              exists dc, t :: TooLong(Tally(RestartTokens(comps, interval, mcus), dc, t)[256 := 1])
  {
    hide RestartTokens, RestartCodable, InScan, InRange, MarkerTail, Tally, Occurs, ServesTable, Fitting,
         Dec.AllDerived, UsesTables, CodesFor, UsesTable, NamesTables, TooLong, Flat;
    ghost var ts := RestartTokens(comps, interval, mcus);
    var dcCounts := FreshCounts(dcTables);
    var acCounts := FreshCounts(acTables);
    var g := new Gatherer(comps, dcCounts, acCounts, interval);
    var ok := GatherScan(g, mcus);
    if !ok {
      return OutOfRange;
    }
    TokensFit(comps, interval, mcus);
    TablesAreUsed(comps, dcTables, acTables, interval, mcus);
    var cdc, ddc, cac, dac;
    ok, cdc, ddc := BuildTables(dcCounts, true, ts);
    if !ok {
      return CodeTooLong;
    }
    ok, cac, dac := BuildTables(acCounts, false, ts);
    if !ok {
      return CodeTooLong;
    }
    var c, d := Tables(cdc, cac), DTables(ddc, dac);
    TablesServe(c, d, comps, ts);
    var decoded;
    ok, decoded := TransferScan(c, d, comps, interval, mcus, members, tail);
    r := Received(decoded);
  }
}
