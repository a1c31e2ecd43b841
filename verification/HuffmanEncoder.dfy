/** The sequential Huffman encoder of jchuff.c, with the pass that gathers symbol statistics. */
module HuffmanEncoder {
  import opened Powers
  import opened BitStrings
  import opened ByteStrings
  import opened Coefficients
  import opened MarkedBytes
  import opened BitWriting
  import opened HuffmanCodes
  import opened HuffmanBuilders
  import opened HuffmanSymbols
  import opened HuffmanBlocks
  import opened HuffmanScans
  import opened RestartIntervals
  import opened RestartMarkers
  import opened HuffmanRestarts

  /** What every encoding table satisfies, whatever symbols it has codes for. */
  predicate TableOk(t: CTable) {
    && |t.ehufco| == |t.ehufsi| == 256
    && forall s :: 0 <= s < 256 ==> t.ehufsi[s] <= MAX_LEN && t.ehufco[s] < Pow2(t.ehufsi[s])
  }

  predicate TablesOk(c: Tables) {
    && (forall i :: 0 <= i < |c.dc| ==> TableOk(c.dc[i]))
    && (forall i :: 0 <= i < |c.ac| ==> TableOk(c.ac[i]))
  }

  predicate ComponentOk(c: Tables, comp: Component) {
    comp.dcTbl < |c.dc| && comp.acTbl < |c.ac|
  }

  lemma PairedIsOk(c: CTable, d: HuffmanDecoding.DTable)
    requires Paired(c, d)
    ensures TableOk(c)
  {
  }

  /** The extra bits are the low bits of the value, or of the value minus one when it is negative. */
  lemma ExtraIsMasked(x: int)
    ensures (if x < 0 then x - 1 else x) % Pow2(NBits(Abs(x))) == Extra(x)
  {
    hide NBits, Pow2;
    var n := NBits(Abs(x));
    NBitsLimit(Abs(x), n);
    Wrapped(x, Pow2(n));
    Wrapped(x - 1, Pow2(n));
  }

  lemma Wrapped(v: int, m: nat)
    requires 0 < m
    ensures 0 <= v < m ==> v % m == v
    ensures 0 <= v + m < m ==> v % m == v + m
  {
  }

  lemma CombinedFits(code: nat, size: nat, extra: nat, n: nat)
    requires code < Pow2(size) && extra < Pow2(n)
    ensures code * Pow2(n) + extra < Pow2(size + n)
  {
    hide Pow2;
    Pow2Add(size, n);
    MulMonotone(code + 1, Pow2(size), Pow2(n));
    MulOneMore(code, Pow2(n));
  }

  lemma {:induction false} BitsOfSnoc(c: Tables, ts: seq<Token>, t: Token)
    requires AllWritable(c, ts) && Writable(c, t)
    ensures AllWritable(c, ts + [t]) && BitsOf(c, ts + [t]) == BitsOf(c, ts) + TokenBits(c, t)
  {
    hide Writable, TokenBits;
    if ts == [] {
      assert [t][1..] == [] && [] + [t] == [t] && TokenBits(c, t) + [] == TokenBits(c, t) == [] + TokenBits(c, t);
    } else {
      assert (ts + [t])[0] == ts[0] && (ts + [t])[1..] == ts[1..] + [t];
      BitsOfSnoc(c, ts[1..], t);
      Regroup(TokenBits(c, ts[0]), BitsOf(c, ts[1..]), TokenBits(c, t));
    }
  }

  /** One token of a longer list has been written. */
  lemma TokenWritten(c: Tables, done: seq<Token>, t: Token, rest: seq<Token>, start: Bits)
    requires AllWritable(c, done) && Writable(c, t)
    ensures AllWritable(c, done + [t])
    ensures start + BitsOf(c, done) + TokenBits(c, t) == start + BitsOf(c, done + [t])
    ensures done + ([t] + rest) == done + [t] + rest
  {
    hide Writable, TokenBits, BitsOf;
    BitsOfSnoc(c, done, t);
    Regroup(start, BitsOf(c, done), TokenBits(c, t));
    Regroup(done, [t], rest);
  }

  lemma TokenIs(c: Tables, t: Token)
    requires Writable(c, t)
    ensures TokenBits(c, t) == SymbolBits(TableOf(c, t), t.symbol) + WordBits(t.extra, t.symbol % 16)
  {
  }

  lemma DcWritable(c: Tables, tbl: nat, diff: int)
    requires TablesOk(c) && tbl < |c.dc| && NBits(Abs(diff)) <= MAX_COEF_BITS + 1
    ensures TableOk(c.dc[tbl]) && Writable(c, DcToken(tbl, diff))
  {
    hide NBits, Extra, Pow2;
    ExtraFits(diff);
  }

  lemma AcWritable(c: Tables, tbl: nat, r: nat, x: int)
    requires TablesOk(c) && tbl < |c.ac| && r <= 15 && x != 0 && NBits(Abs(x)) <= MAX_COEF_BITS
    ensures TableOk(c.ac[tbl]) && Writable(c, CoefToken(tbl, r, x))
    ensures CoefToken(tbl, r, x).symbol % 16 == NBits(Abs(x))
  {
    hide NBits, Extra, Pow2;
    ExtraFits(x);
  }

  lemma MarkWritable(c: Tables, tbl: nat)
    requires TablesOk(c) && tbl < |c.ac|
    ensures TableOk(c.ac[tbl]) && Writable(c, Token(false, tbl, 0, 0)) && Writable(c, Token(false, tbl, 0xF0, 0))
  {
    PowerZero();
  }

  predicate ComponentsOk(c: Tables, comps: seq<Component>) {
    forall i :: 0 <= i < |comps| ==> ComponentOk(c, comps[i])
  }

  /** `bits` are exactly those of `items`, coded from the start of the scan. */
  ghost predicate Written(c: Tables, comps: seq<Component>, items: seq<Item>, last: seq<int>, bits: Bits) {
    var zero := ZeroPredictors(|comps|);
    && InScan(comps, zero, items) && ScanCodable(comps, zero, items) && last == LastAfter(zero, items)
    && AllWritable(c, ScanTokens(comps, zero, items)) && bits == BitsOf(c, ScanTokens(comps, zero, items))
  }

  lemma NothingCoded(comps: seq<Component>, last: seq<int>)
    requires |last| == |comps|
    ensures InScan(comps, last, []) && ScanCodable(comps, last, []) && LastAfter(last, []) == last
  {
  }

  lemma PrefixInScan(comps: seq<Component>, last: seq<int>, items: seq<Item>, n: nat)
    requires InScan(comps, last, items) && n <= |items|
    ensures InScan(comps, last, items[..n]) && InScan(comps, last, items[n..])
  {
  }

  lemma CodableSplit(comps: seq<Component>, last: seq<int>, items: seq<Item>, n: nat)
    requires InScan(comps, last, items) && n <= |items|
    ensures InScan(comps, last, items[..n])
    ensures ScanCodable(comps, last, items) ==> ScanCodable(comps, last, items[..n])
  {
    hide InScan, ScanCodable, ScanTokens, LastAfter;
    PrefixInScan(comps, last, items, n);
    ScanConcat(comps, last, items[..n], items[n..]);
    assert items[..n] + items[n..] == items;
  }

  /** One block more is written. */
  lemma BlockWritten(c: Tables, comps: seq<Component>, items: seq<Item>, last: seq<int>, item: Item, bits: Bits)
    requires |last| == |comps| && item.ci < |comps| && Representable(item.z) && Codable(item.z[0] - last[item.ci], item.z)
    requires AllWritable(c, BlockTokens(comps[item.ci], last[item.ci], item.z))
    requires exists before :: Written(c, comps, items, last, before)
                && bits == before + BitsOf(c, BlockTokens(comps[item.ci], last[item.ci], item.z))
    ensures Written(c, comps, items + [item], last[item.ci := item.z[0]], bits)
  {
    hide BlockTokens, Codable, Representable, BitsOf, AllWritable, ScanTokens, ScanCodable, LastAfter;
    var zero := ZeroPredictors(|comps|);
    OneMoreInScan(comps, zero, items, item);
    ScanSnoc(comps, zero, items, item);
    BitsOfConcat(c, ScanTokens(comps, zero, items), BlockTokens(comps[item.ci], last[item.ci], item.z));
  }

  lemma WrittenLength(c: Tables, comps: seq<Component>, items: seq<Item>, last: seq<int>, bits: Bits)
    requires Written(c, comps, items, last, bits)
    ensures |last| == |comps|
  {
  }

  /** The bytes of a segment whose last bits have been flushed. */
  lemma SegmentFlushed(c: Tables, comps: seq<Component>, seg: seq<Mcu>, last: seq<int>, bits: Bits, raw: seq<Byte>,
                       padding: nat)
    requires Written(c, comps, Flat(seg), last, bits) && padding < 8 && ByteBits(raw) == bits + OneBits(padding)
    ensures SegmentBytes(c, comps, seg, raw)
  {
  }

  lemma NothingWritten(c: Tables, comps: seq<Component>)
    ensures Written(c, comps, [], ZeroPredictors(|comps|), [])
  {
  }

  lemma OneMoreInScan(comps: seq<Component>, last: seq<int>, items: seq<Item>, item: Item)
    requires InScan(comps, last, items) && item.ci < |comps| && Representable(item.z)
    ensures InScan(comps, last, items + [item])
  {
  }

  lemma {:induction false} BitsOfConcat(c: Tables, ts: seq<Token>, us: seq<Token>)
    requires AllWritable(c, ts) && AllWritable(c, us)
    ensures AllWritable(c, ts + us) && BitsOf(c, ts + us) == BitsOf(c, ts) + BitsOf(c, us)
  {
    hide Writable, TokenBits;
    if ts == [] {
      assert ts + us == us && [] + BitsOf(c, us) == BitsOf(c, us);
    } else {
      assert (ts + us)[0] == ts[0] && (ts + us)[1..] == ts[1..] + us;
      BitsOfConcat(c, ts[1..], us);
      Regroup(TokenBits(c, ts[0]), BitsOf(c, ts[1..]), BitsOf(c, us));
    }
  }

  class HuffmanEncoder {
    const tables: Tables
    const comps: seq<Component>
    const restartInterval: nat
    const writer: BitWriter
    var lastDcVal: seq<int>
    var restartsToGo: nat          // MCUs left in this restart interval
    var nextRestartNum: nat        // next restart number to write (0-7)
    ghost var mcus: seq<Mcu>       // what has been encoded
    ghost var done: seq<seq<Mcu>>  // its finished segments, and their bytes
    ghost var raws: seq<seq<Byte>>
    ghost var items: seq<Item>     // the blocks encoded since the last restart

    /**
     The bits are those of the blocks since the last restart, the predictors those behind the last block;
     in front are the finished segments, stuffed and each with its marker.
     */
    ghost predicate Coding()
      reads this, writer
    {
      && writer.Valid() && TablesOk(tables) && ComponentsOk(tables, comps)
      && Written(tables, comps, items, lastDcVal, writer.bits)
      && AllBytes(tables, comps, done, raws) && |raws| == |done| && writer.closed == Sections(raws)
    }

    /** The MCUs are cut as the restart interval says. */
    ghost predicate Paced()
      reads this
    {
      && Cut(restartInterval, mcus) == done + [Current()] && items == Flat(Current())
      && (restartInterval > 0 ==>
            restartsToGo == restartInterval - |Current()| && nextRestartNum == |done| % 8)
    }

    /** The MCUs since the last restart. */
    ghost function Current(): seq<Mcu>
      reads this
    {
      var segs := Cut(restartInterval, mcus);
      segs[|segs| - 1]
    }

    ghost predicate Valid()
      reads this, writer
    {
      Coding() && Paced()
    }

    /** The predictors that the next MCU starts with. */
    ghost function Predictors(): seq<int>
      reads this
    {
      if restartInterval > 0 && restartsToGo == 0 then ZeroPredictors(|comps|) else lastDcVal
    }

    constructor (tables: Tables, comps: seq<Component>, restartInterval: nat)
      requires TablesOk(tables) && ComponentsOk(tables, comps)
      ensures Valid() && fresh(writer) && this.tables == tables && this.comps == comps && mcus == []
      ensures this.restartInterval == restartInterval
    {
      this.tables, this.comps, this.restartInterval := tables, comps, restartInterval;
      writer := new BitWriter();
      lastDcVal := ZeroPredictors(|comps|);
      restartsToGo, nextRestartNum := restartInterval, 0;
      mcus, done, raws, items := [], [], [], [];
      new;
      hide BitWriter.Valid;
    }

    /** emit_restart: the segment is flushed and its marker written; the predictors start again from 0. */
    method EmitRestart(restartNum: nat, ghost seg: seq<Mcu>)
      requires Coding() && items == Flat(seg) && restartNum == |done| % 8
      modifies `lastDcVal, `items, `done, `raws, writer
      ensures Coding() && items == [] && done == old(done) + [seg] && lastDcVal == ZeroPredictors(|comps|)
    {
      hide BitWriter.Valid, TablesOk, ComponentsOk, ByteBits, BitsOf, AllWritable, Stuff, ScanTokens, AllBytes,
           ScanCodable, SegmentBytes, Sections, Flat, InScan;
      var padding := writer.FlushBits();
      ghost var raw := writer.raw;
      SegmentFlushed(tables, comps, seg, lastDcVal, old(writer.bits), raw, padding);
      AllBytesSnoc(tables, comps, done, raws, seg, raw);
      SectionsSnoc(raws, raw);
      writer.EmitMarker((RST0 + restartNum) as Byte);
      lastDcVal := ZeroPredictors(|comps|);
      done, raws, items := done + [seg], raws + [raw], [];
      NothingWritten(tables, comps);
    }

    /** encode_mcu_huff: the blocks of one MCU; fails exactly when one of them is out of range. */
    method EncodeMcu(mcu: Mcu) returns (ok: bool)
      requires Valid() && InScan(comps, lastDcVal, mcu)
      modifies this, writer
      ensures ok <==> ScanCodable(comps, old(Predictors()), mcu)
      ensures ok ==> Valid() && mcus == old(mcus) + [mcu]
    {
      hide BitWriter.Valid, TablesOk, ComponentsOk, Written, ScanCodable, Codable, LastAfter, ScanTokens, Representable,
        BlockTokens, Cut, AllBytes, Sections, Flat;
      ghost var current := Current();
      if restartInterval > 0 {
        if restartsToGo == 0 {
          EmitRestart(nextRestartNum, current);
        }
      }
      ok := EncodeBlocks(mcu);
      if ok {
        CutSnoc(restartInterval, mcus, mcu, old(done), current);
        FlatPush(current, mcu);
        if restartInterval > 0 {
          if restartsToGo == 0 {
            restartsToGo := restartInterval;
            nextRestartNum := (nextRestartNum + 1) % 8;
          }
          restartsToGo := restartsToGo - 1;
        }
        mcus := mcus + [mcu];
      }
    }

    /** The blocks of an MCU, in a segment that has been begun. */
    method EncodeBlocks(mcu: Mcu) returns (ok: bool)
      requires Coding() && InScan(comps, lastDcVal, mcu)
      modifies `lastDcVal, `items, writer
      ensures ok <==> ScanCodable(comps, old(lastDcVal), mcu)
      ensures ok ==> Coding() && items == old(items) + mcu
    {
      hide BitWriter.Valid, TablesOk, ComponentsOk, Written, ScanCodable, Codable, LastAfter, ScanTokens, Representable,
        BlockTokens, AllBytes, Sections;
      ghost var start := lastDcVal;
      NothingCoded(comps, start);
      for blkn := 0 to |mcu|
        invariant Coding() && items == old(items) + mcu[..blkn]
        invariant lastDcVal == LastAfter(start, mcu[..blkn]) && ScanCodable(comps, start, mcu[..blkn])
      {
        assert mcu[..blkn + 1] == mcu[..blkn] + [mcu[blkn]];
        PrefixInScan(comps, start, mcu, blkn + 1);
        ScanSnoc(comps, start, mcu[..blkn], mcu[blkn]);
        ok := EncodeItem(mcu[blkn]);
        if !ok {
          CodableSplit(comps, start, mcu, blkn + 1);
          return;
        }
        Regroup(old(items), mcu[..blkn], [mcu[blkn]]);
      }
      assert mcu[..|mcu|] == mcu;
      ok := true;
    }

    /** One block of the MCU, and the predictor of its component. */
    method EncodeItem(item: Item) returns (ok: bool)
      requires Coding() && item.ci < |comps| && Representable(item.z)
      modifies `lastDcVal, `items, writer
      ensures |old(lastDcVal)| == |comps| && (ok <==> Codable(item.z[0] - old(lastDcVal)[item.ci], item.z))
      ensures ok ==> Coding() && items == old(items) + [item] && lastDcVal == old(lastDcVal)[item.ci := item.z[0]]
    {
      hide BitWriter.Valid, TablesOk, BlockTokens, Codable, Representable, BitsOf, AllWritable;
      WrittenLength(tables, comps, items, lastDcVal, writer.bits);
      hide Written;
      ok := EncodeOneBlock(item.z, lastDcVal[item.ci], comps[item.ci]);
      if ok {
        BlockWritten(tables, comps, items, lastDcVal, item, writer.bits);
        lastDcVal := lastDcVal[item.ci := item.z[0]];
        items := items + [item];
      }
    }

    /** finish_pass_huff: the destination holds the stuffed bytes of all segments, with the markers between them. */
    method FinishPass() returns (ghost all: seq<seq<Byte>>)
      requires Valid()
      modifies writer
      ensures AllBytes(tables, comps, Cut(restartInterval, mcus), all) && writer.out == Output(all)
    {
      hide ScanCodable, ScanTokens, BitsOf, AllWritable, ByteBits, LastAfter, Cut, AllBytes, SegmentBytes, Sections,
           Output, Flat, Stuff, InScan;
      var padding := writer.FlushBits();
      SegmentFlushed(tables, comps, Current(), lastDcVal, old(writer.bits), writer.raw, padding);
      AllBytesSnoc(tables, comps, done, raws, Current(), writer.raw);
      OutputSnoc(raws, writer.raw);
      all := raws + [writer.raw];
    }

    /** PUT_CODE: the code of a symbol and the low `nbits` bits of temp in one go. */
    method PutCode(t: CTable, s: nat, temp0: int, nbits: nat)
      requires writer.Valid() && TableOk(t) && s < 256 && nbits <= 15
      modifies writer
      ensures writer.closed == old(writer.closed) && writer.Valid()
      ensures writer.bits == old(writer.bits) + (SymbolBits(t, s) + WordBits(temp0 % Pow2(nbits), nbits))
    {
      hide WordBits, Pow2, BitWriter.Valid;
      var temp: nat := temp0 % Pow2(nbits);
      CombinedFits(t.ehufco[s], t.ehufsi[s], temp, nbits);
      WordAppend(t.ehufco[s], temp, t.ehufsi[s], nbits);
      writer.PutBits(t.ehufco[s] * Pow2(nbits) + temp, t.ehufsi[s] + nbits);
    }

    /** A symbol without extra bits. */
    method PutSymbol(t: CTable, s: nat)
      requires writer.Valid() && TableOk(t) && s < 256 && s % 16 == 0
      modifies writer
      ensures writer.closed == old(writer.closed) && writer.Valid()
      ensures writer.bits == old(writer.bits) + (SymbolBits(t, s) + WordBits(0, s % 16))
    {
      hide WordBits, Pow2, BitWriter.Valid;
      NoWordBits(0);
      assert SymbolBits(t, s) + [] == SymbolBits(t, s);
      writer.PutBits(t.ehufco[s], t.ehufsi[s]);
    }

    /** encode_one_block: fails exactly on values that are out of range. */
    method EncodeOneBlock(z: Block, last: int, comp: Component) returns (ok: bool)
      requires writer.Valid() && TablesOk(tables) && ComponentOk(tables, comp)
      modifies writer
      ensures writer.closed == old(writer.closed) && writer.Valid() && (ok <==> Codable(z[0] - last, z))
      ensures ok ==> AllWritable(tables, BlockTokens(comp, last, z))
      ensures ok ==> writer.bits == old(writer.bits) + BitsOf(tables, BlockTokens(comp, last, z))
    {
      hide BitWriter.Valid, NBits, Extra, AcTokens, BitsOf, TokenBits, TableOk, Pow2, AllWritable, Writable, TablesOk;
      var temp := z[0] - last;
      var nbits := NBits(Abs(temp));
      if nbits > MAX_COEF_BITS + 1 {
        return false;
      }
      ghost var t := DcToken(comp.dcTbl, temp);
      DcWritable(tables, comp.dcTbl, temp);
      ExtraIsMasked(temp);
      TokenIs(tables, t);
      PutCode(tables.dc[comp.dcTbl], nbits, if temp < 0 then temp - 1 else temp, nbits);
      FirstToken(tables, t, old(writer.bits));
      ghost var done;
      ok, done := EncodeAc(z, comp.acTbl, [t], old(writer.bits), [t] + AcTokens(comp.acTbl, z, 1, 0));
    }

    /**
     The AC coefficients; r counts zeros in units of 16. `done` are the tokens already written, of
     `all` the block has.
     */
    method EncodeAc(z: Block, tbl: nat, ghost done0: seq<Token>, ghost start: Bits, ghost all: seq<Token>)
      returns (ok: bool, ghost done: seq<Token>)
      requires writer.Valid() && TablesOk(tables) && tbl < |tables.ac| && done0 + AcTokens(tbl, z, 1, 0) == all
      requires AllWritable(tables, done0) && writer.bits == start + BitsOf(tables, done0)
      modifies writer
      ensures writer.closed == old(writer.closed) && writer.Valid() && (ok <==> AcCodable(z, 1))
      ensures ok ==> AllWritable(tables, all) && writer.bits == start + BitsOf(tables, all)
    {
      hide BitWriter.Valid, NBits, Extra, AcTokens, BitsOf, AllWritable, Writable, TablesOk;
      var r := 0;
      ghost var run := 0;
      done := done0;
      for k := 1 to BLOCK_SIZE
        invariant writer.closed == old(writer.closed) && writer.Valid() && r == 16 * run
        invariant forall i :: 1 <= i < k ==> NBits(Abs(z[i])) <= MAX_COEF_BITS
        invariant AllWritable(tables, done) && done + AcTokens(tbl, z, k, run) == all
        invariant writer.bits == start + BitsOf(tables, done)
      {
        if z[k] == 0 {
          AcStep(tbl, z, k, run);
          NoBits();
          r := r + 16;
          run := run + 1;
        } else {
          ok, r, done := EncodeCoefficient(z, tbl, k, r, done, start, all);
          if !ok {
            return;
          }
          run := 0;
        }
      }
      AcStep(tbl, z, BLOCK_SIZE, run);
      if r > 0 {
        ghost var t := Token(false, tbl, 0, 0);
        MarkWritable(tables, tbl);
        TokenIs(tables, t);
        PutSymbol(tables.ac[tbl], 0);
        TokenWritten(tables, done, t, [], start);
        done := done + [t];
      }
      assert done + [] == done;
      ok := true;
    }

    /** A nonzero coefficient behind a run of zeros. */
    method EncodeCoefficient(z: Block, tbl: nat, k: nat, r0: nat, ghost done0: seq<Token>, ghost start: Bits,
                             ghost all: seq<Token>)
      returns (ok: bool, r: nat, ghost done: seq<Token>)
      requires writer.Valid() && TablesOk(tables) && tbl < |tables.ac| && k < BLOCK_SIZE && z[k] != 0 && r0 % 16 == 0
      requires done0 + AcTokens(tbl, z, k, r0 / 16) == all
      requires AllWritable(tables, done0) && writer.bits == start + BitsOf(tables, done0)
      modifies writer
      ensures writer.closed == old(writer.closed) && writer.Valid() && (ok <==> NBits(Abs(z[k])) <= MAX_COEF_BITS)
      ensures ok ==> r == 0 && AllWritable(tables, done) && done + AcTokens(tbl, z, k + 1, 0) == all
      ensures ok ==> writer.bits == start + BitsOf(tables, done)
    {
      hide BitWriter.Valid, NBits, Extra, AcTokens, BitsOf, AllWritable, Writable, TablesOk, TokenBits, Pow2;
      var temp := z[k];
      var nbits := NBits(Abs(temp));
      r, done := r0, done0;
      if nbits > MAX_COEF_BITS {
        return false, r, done;
      }
      r, done := EncodeRuns(z, tbl, k, r, done, start, all);
      ghost var t := CoefToken(tbl, r / 16, temp);
      AcWritable(tables, tbl, r / 16, temp);
      TokenIs(tables, t);
      AcStep(tbl, z, k, r / 16);
      ExtraIsMasked(temp);
      PutCode(tables.ac[tbl], r + nbits, if temp < 0 then temp - 1 else temp, nbits);
      TokenWritten(tables, done, t, AcTokens(tbl, z, k + 1, 0), start);
      done := done + [t];
      return true, 0, done;
    }

    /** A run longer than 15 zeros needs run-length-16 codes first. */
    method EncodeRuns(z: Block, tbl: nat, k: nat, r0: nat, ghost done0: seq<Token>, ghost start: Bits,
                      ghost all: seq<Token>)
      returns (r: nat, ghost done: seq<Token>)
      requires writer.Valid() && TablesOk(tables) && tbl < |tables.ac| && k < BLOCK_SIZE && z[k] != 0 && r0 % 16 == 0
      requires done0 + AcTokens(tbl, z, k, r0 / 16) == all
      requires AllWritable(tables, done0) && writer.bits == start + BitsOf(tables, done0)
      modifies writer
      ensures writer.closed == old(writer.closed) && writer.Valid() && r % 16 == 0 && r < 16 * 16
      ensures AllWritable(tables, done) && done + AcTokens(tbl, z, k, r / 16) == all
      ensures writer.bits == start + BitsOf(tables, done)
    {
      hide BitWriter.Valid, NBits, Extra, AcTokens, BitsOf, AllWritable, Writable, TablesOk, TokenBits, Pow2;
      r, done := r0, done0;
      ghost var t := Token(false, tbl, 0xF0, 0);
      MarkWritable(tables, tbl);
      TokenIs(tables, t);
      while r >= 16 * 16
        invariant writer.closed == old(writer.closed) && writer.Valid() && r % 16 == 0
        invariant AllWritable(tables, done) && done + AcTokens(tbl, z, k, r / 16) == all
        invariant writer.bits == start + BitsOf(tables, done)
      {
        AcStep(tbl, z, k, r / 16);
        r := r - 16 * 16;
        PutSymbol(tables.ac[tbl], 0xF0);
        TokenWritten(tables, done, t, AcTokens(tbl, z, k, r / 16), start);
        done := done + [t];
      }
    }
  }

  lemma FirstToken(c: Tables, t: Token, start: Bits)
    requires Writable(c, t)
    ensures AllWritable(c, [t]) && start + TokenBits(c, t) == start + BitsOf(c, [t])
  {
    hide Writable, TokenBits;
    assert [t][1..] == [] && TokenBits(c, t) + [] == TokenBits(c, t);
  }
}
