/** Huffman coding of the blocks of a scan, MCU after MCU, within one restart interval. */
module HuffmanScans {
  import opened BitStrings
  import opened Coefficients
  import opened HuffmanDecoding
  import opened HuffmanSymbols
  import opened HuffmanBlocks

  /** The tables a component of the scan uses. */
  datatype Component = Component(dcTbl: nat, acTbl: nat)

  /** A block of an MCU and the component it belongs to. */
  datatype Item = Item(ci: nat, z: Block)

  datatype DTables = DTables(dc: seq<DTable>, ac: seq<DTable>)

  function BlockTokens(comp: Component, last: int, z: Block): seq<Token> {
    [DcToken(comp.dcTbl, z[0] - last)] + AcTokens(comp.acTbl, z, 1, 0)
  }

  /** Every block belongs to a component of the scan and holds 16-bit coefficients. */
  ghost predicate InScan(comps: seq<Component>, last: seq<int>, items: seq<Item>) {
    && |last| == |comps|
    && forall i :: 0 <= i < |items| ==> items[i].ci < |comps| && Representable(items[i].z)
  }

  /** The DC predictors after some blocks. */
  ghost function LastAfter(last: seq<int>, items: seq<Item>): (l: seq<int>)
    requires forall i :: 0 <= i < |items| ==> items[i].ci < |last|
    ensures |l| == |last|
    decreases |items|
  {
    if items == [] then last else LastAfter(last[items[0].ci := items[0].z[0]], items[1..])
  }

  /** The tokens of all blocks, the DC differences taken component by component. */
  ghost function ScanTokens(comps: seq<Component>, last: seq<int>, items: seq<Item>): seq<Token>
    requires InScan(comps, last, items)
    decreases |items|
  {
    if items == [] then []
    else
      var ci, z := items[0].ci, items[0].z;
      BlockTokens(comps[ci], last[ci], z) + ScanTokens(comps, last[ci := z[0]], items[1..])
  }

  ghost predicate ScanCodable(comps: seq<Component>, last: seq<int>, items: seq<Item>)
    requires InScan(comps, last, items)
    decreases |items|
  {
    if items == [] then true
    else
      && Codable(items[0].z[0] - last[items[0].ci], items[0].z)
      && ScanCodable(comps, last[items[0].ci := items[0].z[0]], items[1..])
  }

  /** start_pass: all predictors are 0. */
  function ZeroPredictors(n: nat): (l: seq<int>)
    ensures |l| == n
  {
    seq(n, _ => 0)
  }

  lemma ScanUnfolds(comps: seq<Component>, last: seq<int>, items: seq<Item>)
    requires InScan(comps, last, items)
    ensures items == [] ==>
              ScanTokens(comps, last, items) == [] && ScanCodable(comps, last, items) && LastAfter(last, items) == last
    ensures items != [] ==>
              var ci, z := items[0].ci, items[0].z;
              && ScanTokens(comps, last, items)
                 == BlockTokens(comps[ci], last[ci], z) + ScanTokens(comps, last[ci := z[0]], items[1..])
              && LastAfter(last, items) == LastAfter(last[ci := z[0]], items[1..])
              && (ScanCodable(comps, last, items)
                  <==> Codable(z[0] - last[ci], z) && ScanCodable(comps, last[ci := z[0]], items[1..]))
  {
    hide BlockTokens, Codable, Representable;
  }

  lemma BothInScan(comps: seq<Component>, last: seq<int>, items: seq<Item>, more: seq<Item>)
    requires InScan(comps, last, items) && InScan(comps, last, more)
    ensures InScan(comps, last, items + more)
  {
  }

  /** Blocks coded in two goes. */
  lemma {:induction false} ScanConcat(comps: seq<Component>, last: seq<int>, items: seq<Item>, more: seq<Item>)
    requires InScan(comps, last, items) && InScan(comps, last, more)
    ensures InScan(comps, last, items + more) && InScan(comps, LastAfter(last, items), more)
    ensures LastAfter(last, items + more) == LastAfter(LastAfter(last, items), more)
    ensures ScanTokens(comps, last, items + more)
         == ScanTokens(comps, last, items) + ScanTokens(comps, LastAfter(last, items), more)
    ensures ScanCodable(comps, last, items + more)
       <==> (ScanCodable(comps, last, items) && ScanCodable(comps, LastAfter(last, items), more))
    decreases |items|
  {
    hide BlockTokens, Codable, ScanTokens, ScanCodable, LastAfter;
    BothInScan(comps, last, items, more);
    ScanUnfolds(comps, last, items);
    if items == [] {
      assert items + more == more;
      assert [] + ScanTokens(comps, last, more) == ScanTokens(comps, last, more);
    } else {
      ScanUnfolds(comps, last, items + more);
      assert (items + more)[0] == items[0] && (items + more)[1..] == items[1..] + more;
      ScanConcat(comps, last[items[0].ci := items[0].z[0]], items[1..], more);
    }
  }

  /** One block more. */
  lemma ScanSnoc(comps: seq<Component>, last: seq<int>, items: seq<Item>, item: Item)
    requires InScan(comps, last, items + [item])
    ensures InScan(comps, last, items) && item.ci < |last|
    ensures LastAfter(last, items + [item]) == LastAfter(last, items)[item.ci := item.z[0]]
    ensures ScanTokens(comps, last, items + [item])
         == ScanTokens(comps, last, items) + BlockTokens(comps[item.ci], LastAfter(last, items)[item.ci], item.z)
    ensures ScanCodable(comps, last, items + [item])
       <==> (ScanCodable(comps, last, items) && Codable(item.z[0] - LastAfter(last, items)[item.ci], item.z))
  {
    hide BlockTokens, Codable, Representable;
    var all := items + [item];
    assert all[|items|] == item && forall i :: 0 <= i < |items| ==> all[i] == items[i];
    ScanConcat(comps, last, items, [item]);
    assert [item][1..] == [];
  }

  /** A block read into storage that was cleared. */
  function ReadBlock(dct: DTable, act: DTable, last: int, bs: Bits, y: Block): (Block, int, Bits)
    requires Shaped(dct) && Shaped(act)
  {
    var (diff, rest) := ReadDc(dct, bs);
    var (z, after) := ReadAc(act, rest, y[0 := Jcoef(last + diff)], 1);
    (z, last + diff, after)
  }

  function Cleared(): (y: Block)
    ensures forall i :: 0 <= i < BLOCK_SIZE ==> y[i] == 0
  {
    seq(64, _ => 0)
  }

  ghost predicate Fitting(c: Tables, d: DTables) {
    && |c.dc| == |d.dc| && |c.ac| == |d.ac|
    && (forall t :: 0 <= t < |c.dc| ==> Paired(c.dc[t], d.dc[t]))
    && (forall t :: 0 <= t < |c.ac| ==> Paired(c.ac[t], d.ac[t]))
  }

  ghost predicate AllShaped(d: DTables) {
    (forall t :: 0 <= t < |d.dc| ==> Shaped(d.dc[t])) && (forall t :: 0 <= t < |d.ac| ==> Shaped(d.ac[t]))
  }

  predicate UsesTables(comps: seq<Component>, d: DTables) {
    forall i :: 0 <= i < |comps| ==> comps[i].dcTbl < |d.dc| && comps[i].acTbl < |d.ac|
  }

  lemma CoveredSplit(c: Tables, ts: seq<Token>, us: seq<Token>)
    requires Covered(c, ts + us)
    ensures Covered(c, ts) && Covered(c, us)
  {
    forall i | 0 <= i < |ts|
      ensures HasCode(c, ts[i])
    {
      assert (ts + us)[i] == ts[i];
    }
    forall i | 0 <= i < |us|
      ensures HasCode(c, us[i])
    {
      assert (ts + us)[|ts| + i] == us[i];
    }
  }

  lemma {:induction false} BitsBeforeConcat(c: Tables, ts: seq<Token>, us: seq<Token>, tail: Bits)
    requires Covered(c, ts + us)
    ensures Covered(c, ts) && Covered(c, us)
    ensures BitsBefore(c, ts + us, tail) == BitsBefore(c, ts, BitsBefore(c, us, tail))
  {
    hide HasCode, SymbolBits, WordBits;
    CoveredSplit(c, ts, us);
    if ts == [] {
      assert ts + us == us;
    } else {
      assert (ts + us)[0] == ts[0] && (ts + us)[1..] == ts[1..] + us;
      BitsBeforeConcat(c, ts[1..], us, tail);
    }
  }

  lemma CodableDc(diff: int, z: Block)
    requires Codable(diff, z)
    ensures NBits(Abs(diff)) <= MAX_COEF_BITS + 1 && AcCodable(z, 1)
  {
  }

  /** The difference comes back. */
  lemma DcIsRead(c: Tables, d: DTable, ts: seq<Token>, tbl: nat, diff: int, tail: Bits)
    requires Covered(c, ts) && ts != [] && ts[0] == DcToken(tbl, diff) && tbl < |c.dc| && Paired(c.dc[tbl], d)
    requires NBits(Abs(diff)) <= MAX_COEF_BITS + 1
    ensures Covered(c, ts[1..]) && Shaped(d)
    ensures ReadDc(d, BitsBefore(c, ts, tail)) == (diff, BitsBefore(c, ts[1..], tail))
  {
    hide BitsBefore, LookupDecode, Peek, Drop, Extend, Extra, NBits, Paired;
    FirstHasCode(c, ts);
    TokenIsRead(c, d, ts, tail);
    if diff == 0 {
      NoBits();
      NothingDropped(Drop(BitsBefore(c, ts, tail), LookupDecode(d, BitsBefore(c, ts, tail)).length));
    } else {
      ExtendsBack(diff);
    }
  }

  /** A block comes back exactly. */
  lemma BlockIsRead(c: Tables, dct: DTable, act: DTable, comp: Component, last: int, z: Block, tail: Bits)
    requires comp.dcTbl < |c.dc| && comp.acTbl < |c.ac| && Paired(c.dc[comp.dcTbl], dct) && Paired(c.ac[comp.acTbl], act)
    requires Representable(z) && Codable(z[0] - last, z) && Covered(c, BlockTokens(comp, last, z))
    ensures Shaped(dct) && Shaped(act)
    ensures ReadBlock(dct, act, last, BitsBefore(c, BlockTokens(comp, last, z), tail), Cleared()) == (z, z[0], tail)
  {
    hide BitsBefore, ReadAc, ReadDc, AcTokens, Paired, Codable, DcToken, Covered, AcCodable;
    var ts := BlockTokens(comp, last, z);
    assert ts[0] == DcToken(comp.dcTbl, z[0] - last) && ts[1..] == AcTokens(comp.acTbl, z, 1, 0);
    CodableDc(z[0] - last, z);
    DcIsRead(c, dct, ts, comp.dcTbl, z[0] - last, tail);
    AcIsRead(c, act, comp.acTbl, z, 1, 0, Cleared()[0 := z[0]], tail);
    assert z[0 := z[0]] == z;
  }

  /** What the decoder makes of a segment, given which component each block belongs to. */
  ghost function ReadItems(d: DTables, comps: seq<Component>, last: seq<int>, bs: Bits, members: seq<nat>)
    : (r: (seq<Item>, seq<int>, Bits))
    requires |last| == |comps| && UsesTables(comps, d)
    requires AllShaped(d)
    requires forall i :: 0 <= i < |members| ==> members[i] < |comps|
    ensures |r.0| == |members| && |r.1| == |comps|
    decreases |members|
  {
    if members == [] then ([], last, bs)
    else
      var ci := members[0];
      var b := ReadBlock(DcTable(d, comps, ci), AcTable(d, comps, ci), last[ci], bs, Cleared());
      var s := ReadItems(d, comps, last[ci := b.1], b.2, members[1..]);
      ([Item(ci, b.0)] + s.0, s.1, s.2)
  }

  ghost function DcTable(d: DTables, comps: seq<Component>, ci: nat): (t: DTable)
    requires AllShaped(d) && UsesTables(comps, d) && ci < |comps|
    ensures Shaped(t)
  {
    d.dc[comps[ci].dcTbl]
  }

  ghost function AcTable(d: DTables, comps: seq<Component>, ci: nat): (t: DTable)
    requires AllShaped(d) && UsesTables(comps, d) && ci < |comps|
    ensures Shaped(t)
  {
    d.ac[comps[ci].acTbl]
  }

  ghost function Members(items: seq<Item>): (m: seq<nat>)
    ensures |m| == |items| && forall i :: 0 <= i < |m| ==> m[i] == items[i].ci
  {
    seq(|items|, i requires 0 <= i < |items| => items[i].ci)
  }

  lemma FittingShapes(c: Tables, d: DTables)
    requires Fitting(c, d)
    ensures AllShaped(d)
  {
    forall t | 0 <= t < |d.dc|
      ensures Shaped(d.dc[t])
    {
      assert Paired(c.dc[t], d.dc[t]);
    }
    forall t | 0 <= t < |d.ac|
      ensures Shaped(d.ac[t])
    {
      assert Paired(c.ac[t], d.ac[t]);
    }
  }

  /** All blocks come back, and the bits behind the last one are left unread. */
  lemma {:induction false} ItemsAreRead(c: Tables, d: DTables, comps: seq<Component>, last: seq<int>, items: seq<Item>,
                                        tail: Bits)
    requires Fitting(c, d) && UsesTables(comps, d) && InScan(comps, last, items)
    requires ScanCodable(comps, last, items) && Covered(c, ScanTokens(comps, last, items))
    requires AllShaped(d)
    ensures ReadItems(d, comps, last, BitsBefore(c, ScanTokens(comps, last, items), tail), Members(items))
         == (items, LastAfter(last, items), tail)
    decreases |items|
  {
    hide Covered, BitsBefore, ReadBlock, BlockTokens, Paired, Codable, Shaped, Representable, Cleared, ScanTokens,
         ScanCodable;
    ScanUnfolds(comps, last, items);
    if items == [] {
      NothingToRead(c, tail);
    } else {
      var ci, z := items[0].ci, items[0].z;
      var ts := BlockTokens(comps[ci], last[ci], z);
      var us := ScanTokens(comps, last[ci := z[0]], items[1..]);
      BitsBeforeConcat(c, ts, us, tail);
      CoveredIsWritable(c, us);
      BlockIsRead(c, d.dc[comps[ci].dcTbl], d.ac[comps[ci].acTbl], comps[ci], last[ci], z, BitsBefore(c, us, tail));
      ItemsAreRead(c, d, comps, last[ci := z[0]], items[1..], tail);
      assert Members(items)[1..] == Members(items[1..]);
      assert [Item(ci, z)] + items[1..] == items;
    }
  }

  lemma CoveredIsWritable(c: Tables, ts: seq<Token>)
    requires Covered(c, ts)
    ensures AllWritable(c, ts)
  {
  }

  lemma NothingToRead(c: Tables, tail: Bits)
    ensures Covered(c, []) && BitsBefore(c, [], tail) == tail
  {
  }
}
