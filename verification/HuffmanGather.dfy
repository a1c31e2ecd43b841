/** The statistics pass of jchuff.c: it counts exactly the symbols that the output pass emits. */
module HuffmanGather {
  import opened Coefficients
  import opened MarkedBytes
  import opened HuffmanBlocks
  import opened HuffmanScans
  import opened RestartIntervals
  import opened HuffmanRestarts
  import opened HuffmanEncoder

  /** 256 symbols, and the pseudo-symbol of the table builder. */
  const COUNTS := 257

  /** How often symbol s of a table occurs among the tokens. */
  ghost function Occurs(ts: seq<Token>, dc: bool, tbl: nat, s: nat): nat {
    if ts == [] then 0
    else
      var t := ts[|ts| - 1];
      Occurs(ts[..|ts| - 1], dc, tbl, s) + if t.dc == dc && t.tbl == tbl && t.symbol == s then 1 else 0
  }

  ghost function Tally(ts: seq<Token>, dc: bool, tbl: nat): (c: seq<nat>)
    ensures |c| == COUNTS
    ensures forall s :: 0 <= s < COUNTS ==> c[s] == Occurs(ts, dc, tbl, s)
  {
    seq(COUNTS, s requires 0 <= s < COUNTS => Occurs(ts, dc, tbl, s))
  }

  /** One token more adds one to one count. */
  ghost predicate TallyAfter(ts: seq<Token>, t: Token, dc: bool, tbl: nat)
    requires t.symbol < COUNTS
  {
    var c := Tally(ts, dc, tbl);
    Tally(ts + [t], dc, tbl) == if t.dc == dc && t.tbl == tbl then c[t.symbol := c[t.symbol] + 1] else c
  }

  lemma TallySnoc(ts: seq<Token>, t: Token, dc: bool, tbl: nat)
    requires t.symbol < COUNTS
    ensures TallyAfter(ts, t, dc, tbl)
  {
    assert (ts + [t])[..|ts|] == ts;
  }

  lemma TallyNothing(a: array<nat>, dc: bool, tbl: nat)
    requires a.Length == COUNTS && forall s :: 0 <= s < COUNTS ==> a[s] == 0
    ensures a[..] == Tally([], dc, tbl)
  {
  }

  /** A symbol occurs if and only if some token has it. */
  lemma {:induction false} OccursIff(ts: seq<Token>, dc: bool, tbl: nat, s: nat)
    ensures Occurs(ts, dc, tbl, s) != 0
       <==> exists i :: 0 <= i < |ts| && ts[i].dc == dc && ts[i].tbl == tbl && ts[i].symbol == s
  {
    if ts != [] {
      var t, rest := ts[|ts| - 1], ts[..|ts| - 1];
      OccursIff(rest, dc, tbl, s);
      if i :| 0 <= i < |rest| && rest[i].dc == dc && rest[i].tbl == tbl && rest[i].symbol == s {
        assert ts[i] == rest[i];
      }
    }
  }

  /** The counting loop: shifts until nothing is left. */
  method CountBits(x: int) returns (nbits: nat)
    ensures nbits == NBits(Abs(x))
  {
    var temp := Abs(x);
    nbits := 0;
    while temp != 0
      invariant nbits + NBits(temp) == NBits(Abs(x))
      decreases temp
    {
      nbits := nbits + 1;
      temp := temp / 2;
    }
  }

  /** Every table has its own counts, and every component its tables. */
  ghost predicate SeparateCounts(comps: seq<Component>, dcCounts: seq<array<nat>>, acCounts: seq<array<nat>>) {
    && (forall t :: 0 <= t < |dcCounts| ==> dcCounts[t].Length == COUNTS)
    && (forall t :: 0 <= t < |acCounts| ==> acCounts[t].Length == COUNTS)
    && (forall t, u :: 0 <= t < u < |dcCounts| ==> dcCounts[t] != dcCounts[u])
    && (forall t, u :: 0 <= t < u < |acCounts| ==> acCounts[t] != acCounts[u])
    && (forall t, u :: 0 <= t < |dcCounts| && 0 <= u < |acCounts| ==> dcCounts[t] != acCounts[u])
    && (forall i :: 0 <= i < |comps| ==> comps[i].dcTbl < |dcCounts| && comps[i].acTbl < |acCounts|)
  }

  class Gatherer {
    const comps: seq<Component>
    const dcCounts: seq<array<nat>>
    const acCounts: seq<array<nat>>
    const restartInterval: nat
    var lastDcVal: seq<int>
    var restartsToGo: nat
    ghost var mcus: seq<Mcu>       // what has been counted
    ghost var done: seq<seq<Mcu>>  // its finished segments
    ghost var items: seq<Item>     // the blocks counted since the last restart

    /** The counts are those of the tokens. */
    ghost predicate Counts(ts: seq<Token>)
      requires SeparateCounts(comps, dcCounts, acCounts)
      reads dcCounts, acCounts
    {
      && (forall t :: 0 <= t < |dcCounts| ==> dcCounts[t][..] == Tally(ts, true, t))
      && (forall t :: 0 <= t < |acCounts| ==> acCounts[t][..] == Tally(ts, false, t))
    }

    /** Exactly the tokens of the finished segments and of the blocks since the last restart have been counted. */
    ghost predicate Counting()
      reads this, dcCounts, acCounts
    {
      var zero := ZeroPredictors(|comps|);
      && SeparateCounts(comps, dcCounts, acCounts)
      && AllInScan(comps, done) && SegmentsCodable(comps, done)
      && InScan(comps, zero, items) && ScanCodable(comps, zero, items) && lastDcVal == LastAfter(zero, items)
      && Counts(SegmentTokens(comps, done) + ScanTokens(comps, zero, items))
    }

    /** The MCUs are cut as the restart interval says. */
    ghost predicate Paced()
      reads this
    {
      && Cut(restartInterval, mcus) == done + [Current()] && items == Flat(Current())
      && (restartInterval > 0 ==> restartsToGo == restartInterval - |Current()|)
    }

    /** The MCUs since the last restart. */
    ghost function Current(): seq<Mcu>
      reads this
    {
      var segs := Cut(restartInterval, mcus);
      segs[|segs| - 1]
    }

    ghost predicate Valid()
      reads this, dcCounts, acCounts
    {
      Counting() && Paced()
    }

    /** The predictors that the next MCU starts with. */
    ghost function Predictors(): seq<int>
      reads this
    {
      if restartInterval > 0 && restartsToGo == 0 then ZeroPredictors(|comps|) else lastDcVal
    }

    /** start_pass_huff: the counts were cleared. */
    constructor (comps: seq<Component>, dcCounts: seq<array<nat>>, acCounts: seq<array<nat>>, restartInterval: nat)
      requires SeparateCounts(comps, dcCounts, acCounts)
      requires forall t, s :: 0 <= t < |dcCounts| && 0 <= s < COUNTS ==> dcCounts[t][s] == 0
      requires forall t, s :: 0 <= t < |acCounts| && 0 <= s < COUNTS ==> acCounts[t][s] == 0
      ensures Valid() && this.comps == comps && this.dcCounts == dcCounts && this.acCounts == acCounts && mcus == []
      ensures this.restartInterval == restartInterval
    {
      this.comps, this.dcCounts, this.acCounts, this.restartInterval := comps, dcCounts, acCounts, restartInterval;
      lastDcVal := ZeroPredictors(|comps|);
      restartsToGo := restartInterval;
      mcus, done, items := [], [], [];
      new;
      hide Tally;
      forall t | 0 <= t < |dcCounts|
        ensures dcCounts[t][..] == Tally([], true, t)
      {
        TallyNothing(dcCounts[t], true, t);
      }
      forall t | 0 <= t < |acCounts|
        ensures acCounts[t][..] == Tally([], false, t)
      {
        TallyNothing(acCounts[t], false, t);
      }
    }

    /** One increment of a count. */
    method Count(dc: bool, tbl: nat, symbol: nat, ghost extra: nat, ghost done: seq<Token>)
      requires SeparateCounts(comps, dcCounts, acCounts) && Counts(done) && symbol < COUNTS && tbl < if dc then |dcCounts| else |acCounts|
      modifies if dc then dcCounts[tbl] else acCounts[tbl]
      ensures Counts(done + [Token(dc, tbl, symbol, extra)])
    {
      hide Tally, Occurs;
      ghost var t := Token(dc, tbl, symbol, extra);
      forall u
        ensures TallyAfter(done, t, true, u) && TallyAfter(done, t, false, u)
      {
        TallySnoc(done, t, true, u);
        TallySnoc(done, t, false, u);
      }
      if dc {
        dcCounts[tbl][symbol] := dcCounts[tbl][symbol] + 1;
      } else {
        acCounts[tbl][symbol] := acCounts[tbl][symbol] + 1;
      }
      forall u | 0 <= u < |dcCounts|
        ensures dcCounts[u][..] == Tally(done + [t], true, u)
      {
        assert TallyAfter(done, t, true, u);
      }
      forall u | 0 <= u < |acCounts|
        ensures acCounts[u][..] == Tally(done + [t], false, u)
      {
        assert TallyAfter(done, t, false, u);
      }
    }

    /** htest_one_block: fails exactly on values that are out of range. */
    method HtestOneBlock(z: Block, last: int, comp: Component, ghost before: seq<Token>) returns (ok: bool)
      requires SeparateCounts(comps, dcCounts, acCounts) && Counts(before)
      requires comp.dcTbl < |dcCounts| && comp.acTbl < |acCounts|
      modifies dcCounts, acCounts
      ensures ok <==> Codable(z[0] - last, z)
      ensures ok ==> Counts(before + BlockTokens(comp, last, z))
    {
      hide SeparateCounts, Counts, NBits, AcTokens, Extra;
      var nbits := CountBits(z[0] - last);
      if nbits > MAX_COEF_BITS + 1 {
        return false;
      }
      Count(true, comp.dcTbl, nbits, Extra(z[0] - last), before);
      ghost var t := DcToken(comp.dcTbl, z[0] - last);
      Regroup(before, [t], AcTokens(comp.acTbl, z, 1, 0));
      ok := HtestAc(z, comp.acTbl, before + [t], before + [t] + AcTokens(comp.acTbl, z, 1, 0));
    }

    method HtestAc(z: Block, tbl: nat, ghost done0: seq<Token>, ghost all: seq<Token>) returns (ok: bool)
      requires SeparateCounts(comps, dcCounts, acCounts) && Counts(done0) && tbl < |acCounts|
      requires done0 + AcTokens(tbl, z, 1, 0) == all
      modifies dcCounts, acCounts
      ensures ok <==> AcCodable(z, 1)
      ensures ok ==> Counts(all)
    {
      hide SeparateCounts, Counts, NBits, Extra, AcTokens;
      var r := 0;
      ghost var done := done0;
      for k := 1 to BLOCK_SIZE
        invariant forall i :: 1 <= i < k ==> NBits(Abs(z[i])) <= MAX_COEF_BITS
        invariant Counts(done) && done + AcTokens(tbl, z, k, r) == all
      {
        if z[k] == 0 {
          AcStep(tbl, z, k, r);
          NoBits();
          r := r + 1;
        } else {
          while r > 15
            invariant Counts(done) && done + AcTokens(tbl, z, k, r) == all
          {
            AcStep(tbl, z, k, r);
            Count(false, tbl, 0xF0, 0, done);
            Regroup(done, [Token(false, tbl, 0xF0, 0)], AcTokens(tbl, z, k, r - 16));
            done := done + [Token(false, tbl, 0xF0, 0)];
            r := r - 16;
          }
          var nbits := CountBits(z[k]);
          if nbits > MAX_COEF_BITS {
            return false;
          }
          AcStep(tbl, z, k, r);
          Count(false, tbl, r * 16 + nbits, Extra(z[k]), done);
          Regroup(done, [CoefToken(tbl, r, z[k])], AcTokens(tbl, z, k + 1, 0));
          done := done + [CoefToken(tbl, r, z[k])];
          r := 0;
        }
      }
      AcStep(tbl, z, BLOCK_SIZE, r);
      if r > 0 {
        Count(false, tbl, 0, 0, done);
        done := done + [Token(false, tbl, 0, 0)];
      }
      assert done + [] == done;
      ok := true;
    }

    /** The reset of the predictors at a restart. */
    method Restart(ghost seg: seq<Mcu>)
      requires Counting() && items == Flat(seg)
      modifies `lastDcVal, `items, `done
      ensures Counting() && items == [] && done == old(done) + [seg] && lastDcVal == ZeroPredictors(|comps|)
    {
      hide Counts, SeparateCounts, ScanTokens, ScanCodable, InScan, Flat, SegmentTokens;
      SegmentTokensSnoc(comps, done, seg);
      lastDcVal := ZeroPredictors(|comps|);
      done, items := done + [seg], [];
      NothingCounted(comps);
      assert SegmentTokens(comps, done) + [] == SegmentTokens(comps, done);
    }

    /** encode_mcu_gather: fails exactly when some block is out of range. */
    method GatherMcu(mcu: Mcu) returns (ok: bool)
      requires Valid() && InScan(comps, lastDcVal, mcu)
      modifies this, dcCounts, acCounts
      ensures ok <==> ScanCodable(comps, old(Predictors()), mcu)
      ensures ok ==> Valid() && mcus == old(mcus) + [mcu]
    {
      hide Counts, SeparateCounts, ScanTokens, ScanCodable, Codable, LastAfter, Representable, BlockTokens, Cut, Flat,
           SegmentTokens, SegmentsCodable, AllInScan;
      ghost var current := Current();
      CutSnoc(restartInterval, mcus, mcu, done, current);
      FlatPush(current, mcu);
      if restartInterval > 0 {
        if restartsToGo == 0 {
          Restart(current);
          restartsToGo := restartInterval;
        }
        restartsToGo := restartsToGo - 1;
      }
      ok := GatherBlocks(mcu);
      if ok {
        mcus := mcus + [mcu];
      }
    }

    /** The blocks of an MCU, in a segment that has been begun. */
    method GatherBlocks(mcu: Mcu) returns (ok: bool)
      requires Counting() && InScan(comps, lastDcVal, mcu)
      modifies `lastDcVal, `items, dcCounts, acCounts
      ensures ok <==> ScanCodable(comps, old(lastDcVal), mcu)
      ensures ok ==> Counting() && items == old(items) + mcu
    {
      hide Counts, SeparateCounts, ScanTokens, ScanCodable, Codable, LastAfter, Representable, BlockTokens,
           SegmentTokens, SegmentsCodable, AllInScan;
      ghost var start := lastDcVal;
      NothingCoded(comps, start);
      for blkn := 0 to |mcu|
        invariant Counting() && items == old(items) + mcu[..blkn]
        invariant lastDcVal == LastAfter(start, mcu[..blkn]) && ScanCodable(comps, start, mcu[..blkn])
      {
        assert mcu[..blkn + 1] == mcu[..blkn] + [mcu[blkn]];
        PrefixInScan(comps, start, mcu, blkn + 1);
        ScanSnoc(comps, start, mcu[..blkn], mcu[blkn]);
        ok := GatherItem(mcu[blkn]);
        if !ok {
          CodableSplit(comps, start, mcu, blkn + 1);
          return;
        }
        Regroup(old(items), mcu[..blkn], [mcu[blkn]]);
      }
      assert mcu[..|mcu|] == mcu;
      ok := true;
    }

    /** One block of the MCU. */
    method GatherItem(item: Item) returns (ok: bool)
      requires Counting() && item.ci < |comps| && Representable(item.z)
      modifies `lastDcVal, `items, dcCounts, acCounts
      ensures |old(lastDcVal)| == |comps| && (ok <==> Codable(item.z[0] - old(lastDcVal)[item.ci], item.z))
      ensures ok ==> Counting() && items == old(items) + [item]
      ensures ok ==> lastDcVal == old(lastDcVal)[item.ci := item.z[0]]
    {
      hide Counts, BlockTokens, Codable, Representable, ScanTokens, ScanCodable, LastAfter, SegmentTokens,
           SegmentsCodable, AllInScan;
      ghost var zero := ZeroPredictors(|comps|);
      ghost var before := SegmentTokens(comps, done);
      OneMoreInScan(comps, zero, items, item);
      ScanSnoc(comps, zero, items, item);
      ok := HtestOneBlock(item.z, lastDcVal[item.ci], comps[item.ci], before + ScanTokens(comps, zero, items));
      if ok {
        Regroup(before, ScanTokens(comps, zero, items), BlockTokens(comps[item.ci], lastDcVal[item.ci], item.z));
        lastDcVal := lastDcVal[item.ci := item.z[0]];
        items := items + [item];
      }
    }
  }

  lemma NothingCounted(comps: seq<Component>)
    ensures var zero := ZeroPredictors(|comps|);
            && InScan(comps, zero, []) && ScanCodable(comps, zero, []) && LastAfter(zero, []) == zero
            && ScanTokens(comps, zero, []) == []
  {
  }
}
