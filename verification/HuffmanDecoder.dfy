/** The sequential Huffman decoder of jdhuff.c, fetching bits as it needs them. */
module HuffmanDecoder {
  import opened Powers
  import opened BitStrings
  import opened ByteStrings
  import opened Coefficients
  import opened DataSource
  import MarkedBytes
  import opened BitReading
  import opened HuffmanCodes
  import opened HuffmanDecoding
  import opened HuffmanBlocks
  import opened HuffmanScans
  import opened RestartMarkers

  /** What jpeg_make_d_derived_tbl has made of some table, with symbols up to `limit`. */
  ghost predicate DerivedFrom(t: DTable, sizes: seq<nat>, codes: seq<nat>, limit: nat) {
    && CodeTable(sizes, codes, t.huffval) && SerialOk(t, sizes, codes) && LookupOk(t, sizes, codes)
    && forall p :: 0 <= p < |sizes| ==> t.huffval[p] <= limit
  }

  ghost predicate Derived(t: DTable, limit: nat) {
    exists sizes, codes :: DerivedFrom(t, sizes, codes, limit)
  }

  /** The code whose share the bits lie in, or the number of codes when they begin none. */
  ghost predicate Shared(sizes: seq<nat>, bs: Bits, p: nat)
    requires Lengths(sizes)
  {
    if p < |sizes| then InShare(sizes, p, bs) else p == |sizes| && Start(sizes, p) <= Peek(bs, MAX_LEN)
  }

  lemma FindShared(sizes: seq<nat>, bs: Bits) returns (p: nat)
    requires Lengths(sizes)
    ensures p <= |sizes| && Shared(sizes, bs, p)
  {
    if Peek(bs, MAX_LEN) < Start(sizes, |sizes|) {
      p := FindShare(sizes, bs, |sizes|);
    } else {
      p := |sizes|;
    }
  }

  /** The walk goes on before the length of the code is reached, and to the sentinel when there is none. */
  lemma WalkGoesOn(t: DTable, sizes: seq<nat>, codes: seq<nat>, bs: Bits, p: nat, l: nat)
    requires CodeTable(sizes, codes, t.huffval) && SerialOk(t, sizes, codes) && 1 <= l <= MAX_LEN
    requires p <= |sizes| && Shared(sizes, bs, p) && (p < |sizes| ==> l < sizes[p])
    ensures Peek(bs, l) > t.maxcode[l]
  {
    hide Peek, Pow2, Start, IsCode;
    TooShort(sizes, codes, t.huffval, t, p, bs, l);
  }

  /** The walk stops at the code, or at the sentinel. */
  lemma WalkStops(t: DTable, sizes: seq<nat>, codes: seq<nat>, bs: Bits, p: nat)
    requires CodeTable(sizes, codes, t.huffval) && SerialOk(t, sizes, codes)
    requires p <= |sizes| && Shared(sizes, bs, p)
    ensures p < |sizes| ==> Peek(bs, sizes[p]) <= t.maxcode[sizes[p]]
    ensures p < |sizes| ==> Peek(bs, sizes[p]) + t.valoffset[sizes[p]] == p
    ensures Peek(bs, MAX_LEN + 1) <= t.maxcode[MAX_LEN + 1]
  {
    hide Peek, Pow2, Start, IsCode;
    if p < |sizes| {
      ReadsCode(sizes, codes, t.huffval, p, bs);
    }
    PeekBound(bs, MAX_LEN + 1);
    DoublePower(MAX_LEN);
    Pow2Values();
  }

  lemma WalkResult(t: DTable, sizes: seq<nat>, codes: seq<nat>, bs: Bits, p: nat, l: nat)
    requires CodeTable(sizes, codes, t.huffval) && SerialOk(t, sizes, codes) && 1 <= l <= MAX_LEN + 1
    requires p <= |sizes| && Shared(sizes, bs, p) && (p < |sizes| ==> l <= sizes[p])
    ensures SerialDecode(t, bs, l) == if p < |sizes| then Symbol(t.huffval[p], sizes[p]) else Symbol(0, MAX_LEN + 1)
  {
    hide Peek, Pow2, Start, IsCode, SerialDecode;
    if p < |sizes| {
      SerialFinds(sizes, codes, t, p, bs, l);
    } else {
      SerialMisses(sizes, codes, t, bs, l);
    }
  }

  /** A lookahead entry either names a code of at most 8 bits or says 9; then no short code fits. */
  lemma LookupEntry(t: DTable, sizes: seq<nat>, codes: seq<nat>, limit: nat, bs: Bits, p: nat)
    requires DerivedFrom(t, sizes, codes, limit) && p <= |sizes| && Shared(sizes, bs, p)
    ensures Peek(bs, LOOKAHEAD) < |t.lookup|
    ensures var e := t.lookup[Peek(bs, LOOKAHEAD)];
            if p < |sizes| && sizes[p] <= LOOKAHEAD
            then e / 0x100 == sizes[p] && e % 0x100 == t.huffval[p]
            else e / 0x100 == LOOKAHEAD + 1
  {
    hide Peek, Pow2, Start, IsCode, Begins;
    var look := Peek(bs, LOOKAHEAD);
    PeekBound(bs, LOOKAHEAD);
    LookRange();
    forall q | 0 <= q < |sizes|
      ensures Begins(sizes, codes, q, look) <==> sizes[q] <= LOOKAHEAD && q == p
    {
      BeginsIsShare(sizes, codes, t.huffval, q, bs);
      if p < |sizes| {
        OnlyShare(sizes, p, bs);
      } else {
        NoShare(sizes, bs);
      }
    }
  }

  /** What is decoded is a listed symbol, or 0. */
  lemma DecodedSymbol(t: DTable, sizes: seq<nat>, codes: seq<nat>, limit: nat, bs: Bits, p: nat)
    requires DerivedFrom(t, sizes, codes, limit) && p <= |sizes| && Shared(sizes, bs, p)
    ensures LookupDecode(t, bs)
         == if p < |sizes| then Symbol(t.huffval[p], sizes[p]) else Symbol(0, MAX_LEN + 1)
    ensures LookupDecode(t, bs).value <= limit
  {
    hide Peek, Pow2, Start, IsCode, SerialDecode, LookupDecode, Shared;
    PathsAgree(sizes, codes, t, bs);
    WalkResult(t, sizes, codes, bs, p, 1);
  }

  lemma NextPeek(bs: Bits, l: nat, all: Bits, at: nat)
    requires bs == Drop(all, at)
    ensures Peek(bs, l + 1) == 2 * Peek(bs, l) + Peek(Drop(all, at + l), 1)
  {
    DropDrop(all, at, l);
    DropAt(bs, l, 0);
  }

  class HuffmanDecoder {
    const tables: DTables
    const comps: seq<Component>
    const restartInterval: nat
    var reader: BitReader          // the segment being read, and what follows it in the source
    var lastDcVal: seq<int>
    var restartsToGo: nat          // MCUs left in this restart interval
    var nextRestartNum: nat        // next restart number expected (0-7)

    ghost predicate Valid()
      reads this, reader
    {
      && reader.Sound() && |lastDcVal| == |comps| && AllDerived(tables) && UsesTables(comps, tables)
      && nextRestartNum < 8
    }

    constructor (tables: DTables, comps: seq<Component>, restartInterval: nat, src: seq<Byte>)
      ensures this.tables == tables && this.comps == comps && this.restartInterval == restartInterval
      ensures fresh(reader) && Fresh(src)
      ensures restartsToGo == restartInterval && nextRestartNum == 0
    {
      this.tables, this.comps, this.restartInterval := tables, comps, restartInterval;
      reader := new BitReader(src);
      lastDcVal := ZeroPredictors(|comps|);
      restartsToGo, nextRestartNum := restartInterval, 0;
    }

    /** Nothing of this source has been read, and the predictors are 0. */
    ghost predicate Fresh(src: seq<Byte>)
      reads this, reader
    {
      && reader.src == src && reader.Sound() && !reader.insufficient && reader.at == 0
      && reader.all == Unread(src, Input(0, 0)) && lastDcVal == ZeroPredictors(|comps|)
    }

    /** A restart marker has to be read before the next MCU. */
    predicate RestartDue()
      reads `restartsToGo
    {
      restartInterval > 0 && restartsToGo == 0
    }

    /**
     process_restart: reads on to the next marker. If it is the one expected, everything is as at the
     beginning of a scan that starts behind the marker, whatever has become of the data in front of it.
     */
    method ProcessRestart() returns (ok: bool)
      requires Valid()
      modifies `reader, `lastDcVal, `restartsToGo, `nextRestartNum, reader
      ensures var end := SegmentEnd(old(reader.src), Input(0, 0));
              && (ok <==> end.marker as int == RST0 + old(nextRestartNum))
              && (ok ==> end.pos <= |old(reader.src)| && fresh(reader) && Valid() && Fresh(old(reader.src)[end.pos..]))
              && (ok ==> restartsToGo == restartInterval && nextRestartNum == (old(nextRestartNum) + 1) % 8)
    {
      hide SegmentEnd, SameBits, Regular, Unread, AllDerived, UsesTables;
      SoundIsValid(reader);
      EndIsNext(reader.src, Input(reader.pos, reader.marker));
      EndInSource(reader.src, 0);
      reader.bitsLeft := 0;
      if reader.marker == 0 {
        var next := NextMarker(reader.src, reader.pos);
        reader.pos, reader.marker := next.pos, next.marker;
      }
      if reader.marker as int != RST0 + nextRestartNum {
        return false;
      }
      nextRestartNum := (nextRestartNum + 1) % 8;
      lastDcVal := ZeroPredictors(|comps|);
      restartsToGo := restartInterval;
      reader := new BitReader(reader.src[reader.pos..]);
      ok := true;
    }

    /** jpeg_huff_decode: bit by bit from `minBits` on. */
    method SerialWalk(t: DTable, minBits: nat, ghost sizes: seq<nat>, ghost codes: seq<nat>, ghost p: nat)
      returns (v: nat)
      requires reader.Sound() && CodeTable(sizes, codes, t.huffval) && SerialOk(t, sizes, codes)
      requires 1 <= minBits <= LOOKAHEAD + 1
      requires p <= |sizes| && Shared(sizes, Drop(reader.all, reader.at), p) && (p < |sizes| ==> minBits <= sizes[p])
      modifies reader
      ensures reader.Sound()
      ensures v == if p < |sizes| then t.huffval[p] else 0
      ensures reader.at == old(reader.at) + if p < |sizes| then sizes[p] else MAX_LEN + 1
    {
      hide Peek, Pow2, Start, InShare, Shared, IsCode, BitReader.Valid;
      ghost var bs := Drop(reader.all, reader.at);
      WalkStops(t, sizes, codes, bs, p);
      var l := minBits;
      SoundIsValid(reader);
      reader.Check(l);
      var code := reader.GetBits(l);
      while code > t.maxcode[l]
        invariant 1 <= l <= MAX_LEN + 1 && (p < |sizes| ==> l <= sizes[p])
        invariant reader.Sound() && reader.at == old(reader.at) + l && code == Peek(bs, l)
        decreases MAX_LEN + 1 - l
      {
        NextPeek(bs, l, reader.all, old(reader.at));
        reader.Check(1);
        var bit := reader.GetBits(1);
        code := 2 * code + bit;
        l := l + 1;
      }
      if l < MAX_LEN + 1 && (p < |sizes| ==> l < sizes[p]) {
        WalkGoesOn(t, sizes, codes, bs, p, l);
      }
      if l > MAX_LEN {
        v := 0;
      } else {
        v := t.huffval[code + t.valoffset[l]];
      }
    }

    /** HUFF_DECODE: the lookahead table when 8 bits are at hand, bit by bit otherwise. */
    method HuffDecode(t: DTable, ghost limit: nat) returns (v: nat)
      requires reader.Sound() && Derived(t, limit)
      modifies reader
      ensures reader.Sound() && Shaped(t)
      ensures var sym := LookupDecode(t, Drop(reader.all, old(reader.at)));
              v == sym.value <= limit && reader.at == old(reader.at) + sym.length
    {
      hide Peek, Pow2, Start, InShare, Shared, IsCode, BitReader.Valid, Drop, LookupDecode, Begins;
      ghost var sizes, codes :| DerivedFrom(t, sizes, codes, limit);
      ghost var bs := Drop(reader.all, reader.at);
      ghost var p := FindShared(sizes, bs);
      DecodedSymbol(t, sizes, codes, limit, bs, p);
      LookupEntry(t, sizes, codes, limit, bs, p);
      SoundIsValid(reader);
      if reader.bitsLeft < LOOKAHEAD {
        reader.Fill(0);
        if reader.bitsLeft < LOOKAHEAD {
          v := SerialWalk(t, 1, sizes, codes, p);
          return;
        }
      }
      var look := reader.PeekBits(LOOKAHEAD);
      var nb := t.lookup[look] / 0x100;
      if nb <= LOOKAHEAD {
        reader.DropBits(nb);
        v := t.lookup[look] % 0x100;
      } else {
        v := SerialWalk(t, nb, sizes, codes, p);
      }
    }

    /** Section F.2.2.1: the DC difference. */
    method DecodeDc(t: DTable) returns (diff: int)
      requires reader.Sound() && Derived(t, MAX_DC_SYMBOL)
      modifies reader
      ensures reader.Sound() && Shaped(t)
      ensures ReadDc(t, Drop(reader.all, old(reader.at))) == (diff, Drop(reader.all, reader.at))
    {
      hide Peek, Pow2, BitReader.Valid, Drop, LookupDecode, Extend, Derived;
      ghost var at := reader.at;
      var s := HuffDecode(t, MAX_DC_SYMBOL);
      DropDrop(reader.all, at, reader.at - at);
      diff := 0;
      if s != 0 {
        SoundIsValid(reader);
        ghost var before := reader.at;
        reader.Check(s);
        var r := reader.GetBits(s);
        DropDrop(reader.all, before, s);
        diff := Extend(r, s);
      }
    }

    /** Section F.2.2.2: the AC coefficients of a block whose storage was cleared. */
    method DecodeAc(t: DTable, block: array<int>)
      requires reader.Sound() && Derived(t, MAX_AC_SYMBOL) && block.Length == BLOCK_SIZE
      modifies reader, block
      ensures reader.Sound() && Shaped(t)
      ensures ReadAc(t, Drop(reader.all, old(reader.at)), old(block[..]), 1) == (block[..], Drop(reader.all, reader.at))
    {
      hide Peek, Pow2, BitReader.Valid, Drop, LookupDecode, Extend, Derived, Jcoef, Place, ReadAc;
      DerivedIsShaped(t, MAX_AC_SYMBOL);
      ghost var result := ReadAc(t, Drop(reader.all, reader.at), block[..], 1);
      var k := 1;
      while k < BLOCK_SIZE
        invariant reader.Sound() && 1 <= k
        invariant result == ReadAc(t, Drop(reader.all, reader.at), block[..], k)
        decreases BLOCK_SIZE - k
      {
        ghost var at, y := reader.at, block[..];
        var s := HuffDecode(t, MAX_AC_SYMBOL);
        AcUnfolds(t, Drop(reader.all, at), reader.at - at, y, k);
        DropDrop(reader.all, at, reader.at - at);
        var r := s / 16;
        s := s % 16;
        if s != 0 {
          k := k + r;
          SoundIsValid(reader);
          ghost var before := reader.at;
          reader.Check(s);
          r := reader.GetBits(s);
          DropDrop(reader.all, before, s);
          var v := Extend(r, s);
          block[Place(k)] := Jcoef(v);
        } else {
          if r != 15 {
            return;
          }
          k := k + 15;
        }
        k := k + 1;
      }
      AcDone(t, Drop(reader.all, reader.at), block[..], k);
    }

    /** One block of an MCU, into storage that was cleared. */
    method DecodeBlock(ci: nat, block: array<int>)
      requires Valid() && ci < |comps| && block.Length == BLOCK_SIZE
      modifies `lastDcVal, reader, block
      ensures Valid() && AllShaped(tables) && lastDcVal == old(lastDcVal)[ci := lastDcVal[ci]]
      ensures ReadBlock(DcTable(tables, comps, ci), AcTable(tables, comps, ci), old(lastDcVal)[ci],
                        Drop(reader.all, old(reader.at)), old(block[..]))
           == (block[..], lastDcVal[ci], Drop(reader.all, reader.at))
    {
      hide BitReader.Valid, BitReader.Sound, Drop, ReadAc, ReadDc, Jcoef, AllDerived, Shaped, Derived;
      DerivedAreShaped(tables, comps, ci);
      var s := DecodeDc(tables.dc[comps[ci].dcTbl]);
      s := s + lastDcVal[ci];
      lastDcVal := lastDcVal[ci := s];
      block[0] := Jcoef(s);
      DecodeAc(tables.ac[comps[ci].acTbl], block);
    }

    /** decode_mcu_slow: the coefficients are written over what the blocks hold. */
    method DecodeMcuSlow(members: seq<nat>, blocks: seq<array<int>>)
      requires Valid() && |blocks| == |members| && Storage(blocks) && AllShaped(tables)
      requires forall i :: 0 <= i < |members| ==> members[i] < |comps|
      modifies `lastDcVal, reader, blocks
      ensures Valid()
      ensures ReadOverItems(tables, comps, old(lastDcVal), Drop(reader.all, old(reader.at)), members, old(BlocksIn(blocks)))
           == (ItemsIn(members, blocks), lastDcVal, Drop(reader.all, reader.at))
    {
      hide BitReader.Valid, BitReader.Sound, Drop, ReadBlock, AllDerived, AllShaped, ReadOverItems, UsesTables, Remaining,
        DcTable, AcTable;
      ghost var ys, items := BlocksIn(blocks), [];
      ghost var whole := ReadOverItems(tables, comps, lastDcVal, Drop(reader.all, reader.at), members, ys);
      AllRemains(tables, comps, lastDcVal, Drop(reader.all, reader.at), members, ys);
      for blkn := 0 to |members|
        invariant Valid()
        invariant forall i :: blkn <= i < |blocks| ==> blocks[i][..] == ys[i]
        invariant |items| == blkn && forall i :: 0 <= i < blkn ==> items[i] == Item(members[i], blocks[i][..])
        invariant Remaining(tables, comps, whole, items, lastDcVal, Drop(reader.all, reader.at), members, ys)
      {
        RemainingStep(tables, comps, whole, items, lastDcVal, Drop(reader.all, reader.at), members, ys);
        DecodeBlock(members[blkn], blocks[blkn]);
        items := items + [Item(members[blkn], blocks[blkn][..])];
      }
      NothingRemains(tables, comps, whole, items, lastDcVal, Drop(reader.all, reader.at), members, ys);
      assert items == ItemsIn(members, blocks);
    }
  }

  /** The blocks of an MCU, each decoded into a block that holds something already. */
  ghost function ReadOverItems(d: DTables, comps: seq<Component>, last: seq<int>, bs: Bits, members: seq<nat>,
                               ys: seq<Block>): (r: (seq<Item>, seq<int>, Bits))
    requires |last| == |comps| && UsesTables(comps, d) && AllShaped(d) && |ys| == |members|
    requires forall i :: 0 <= i < |members| ==> members[i] < |comps|
    ensures |r.0| == |members| && |r.1| == |comps|
    decreases |members|
  {
    if members == [] then ([], last, bs)
    else
      var ci := members[0];
      var b := ReadBlock(DcTable(d, comps, ci), AcTable(d, comps, ci), last[ci], bs, ys[0]);
      var s := ReadOverItems(d, comps, last[ci := b.1], b.2, members[1..], ys[1..]);
      ([Item(ci, b.0)] + s.0, s.1, s.2)
  }

  /** What a block held does not matter for the predictors, nor for the bits that are taken. */
  lemma {:induction false} OverMovesAlike(d: DTables, comps: seq<Component>, last: seq<int>, bs: Bits, members: seq<nat>,
                                          ys: seq<Block>)
    requires |last| == |comps| && UsesTables(comps, d) && AllShaped(d) && |ys| == |members|
    requires forall i :: 0 <= i < |members| ==> members[i] < |comps|
    ensures var r, s := ReadOverItems(d, comps, last, bs, members, ys), ReadItems(d, comps, last, bs, members);
            r.1 == s.1 && r.2 == s.2
    decreases |members|
  {
    hide ReadBlock, UsesTables, AllShaped, DcTable, AcTable, Cleared;
    if members != [] {
      var ci := members[0];
      var dct, act := DcTable(d, comps, ci), AcTable(d, comps, ci);
      ShapedTables(d, comps, ci);
      BlockMovesAlike(dct, act, last[ci], bs, ys[0]);
      var b := ReadBlock(dct, act, last[ci], bs, ys[0]);
      OverMovesAlike(d, comps, last[ci := b.1], b.2, members[1..], ys[1..]);
    }
  }

  lemma ShapedTables(d: DTables, comps: seq<Component>, ci: nat)
    requires UsesTables(comps, d) && AllShaped(d) && ci < |comps|
    ensures Shaped(DcTable(d, comps, ci)) && Shaped(AcTable(d, comps, ci))
  {
    hide Shaped;
  }

  lemma BlockMovesAlike(dct: DTable, act: DTable, last: int, bs: Bits, y: Block)
    requires Shaped(dct) && Shaped(act)
    ensures var r, s := ReadBlock(dct, act, last, bs, y), ReadBlock(dct, act, last, bs, Cleared());
            r.1 == s.1 && r.2 == s.2
  {
    hide ReadAc, ReadDc, Jcoef;
    var (diff, rest) := ReadDc(dct, bs);
    AcMovesAlike(act, rest, y[0 := Jcoef(last + diff)], Cleared()[0 := Jcoef(last + diff)], 1);
  }

  lemma {:induction false} AcMovesAlike(d: DTable, bs: Bits, x: Block, y: Block, k: nat)
    requires Shaped(d)
    ensures ReadAc(d, bs, x, k).1 == ReadAc(d, bs, y, k).1
    decreases BLOCK_SIZE - k
  {
    hide LookupDecode, Extend, Jcoef, Drop, Peek, Place;
    if k < BLOCK_SIZE {
      var sym := LookupDecode(d, bs);
      var rest := Drop(bs, sym.length);
      var r, s := sym.value / 16, sym.value % 16;
      if s != 0 {
        var q, v := Place(k + r), Jcoef(Extend(Peek(rest, s), s));
        AcMovesAlike(d, Drop(rest, s), x[q := v], y[q := v], k + r + 1);
      } else if r == 15 {
        AcMovesAlike(d, rest, x, y, k + 16);
      }
    }
  }

  /** Each block is cleared, or holds what is to be stored in it. */
  ghost predicate Prepared(ys: seq<Block>, items: seq<Item>) {
    |items| == |ys| && forall i :: 0 <= i < |ys| ==> ys[i] == Cleared() || ys[i] == items[i].z
  }

  /** Over such blocks the result is the same. */
  lemma {:induction false} OverPrepared(d: DTables, comps: seq<Component>, last: seq<int>, bs: Bits, members: seq<nat>,
                                        ys: seq<Block>)
    requires |last| == |comps| && UsesTables(comps, d) && AllShaped(d) && |ys| == |members|
    requires forall i :: 0 <= i < |members| ==> members[i] < |comps|
    requires Prepared(ys, ReadItems(d, comps, last, bs, members).0)
    ensures ReadOverItems(d, comps, last, bs, members, ys) == ReadItems(d, comps, last, bs, members)
    decreases |members|
  {
    hide ReadBlock, UsesTables, AllShaped, DcTable, AcTable, Cleared;
    if members != [] {
      var ci := members[0];
      var dct, act := DcTable(d, comps, ci), AcTable(d, comps, ci);
      ShapedTables(d, comps, ci);
      var b := ReadBlock(dct, act, last[ci], bs, Cleared());
      var s := ReadItems(d, comps, last[ci := b.1], b.2, members[1..]);
      assert ReadItems(d, comps, last, bs, members).0 == [Item(ci, b.0)] + s.0;
      assert forall i :: 0 <= i < |s.0| ==> ([Item(ci, b.0)] + s.0)[i + 1] == s.0[i];
      WrittenTwice(dct, act, last[ci], bs, ys[0]);
      OverPrepared(d, comps, last[ci := b.1], b.2, members[1..], ys[1..]);
    }
  }

  /** `items` have been read, and the rest of the MCU is still to be read from `bs`. */
  ghost predicate Remaining(d: DTables, comps: seq<Component>, whole: (seq<Item>, seq<int>, Bits), items: seq<Item>,
                            last: seq<int>, bs: Bits, members: seq<nat>, ys: seq<Block>)
    requires AllShaped(d) && UsesTables(comps, d) && |last| == |comps| && |items| <= |members| == |ys|
    requires forall i :: 0 <= i < |members| ==> members[i] < |comps|
  {
    var s := ReadOverItems(d, comps, last, bs, members[|items|..], ys[|items|..]);
    whole == (items + s.0, s.1, s.2)
  }

  lemma AllRemains(d: DTables, comps: seq<Component>, last: seq<int>, bs: Bits, members: seq<nat>, ys: seq<Block>)
    requires AllShaped(d) && UsesTables(comps, d) && |last| == |comps| && |members| == |ys|
    requires forall i :: 0 <= i < |members| ==> members[i] < |comps|
    ensures Remaining(d, comps, ReadOverItems(d, comps, last, bs, members, ys), [], last, bs, members, ys)
  {
    hide ReadOverItems;
    var s := ReadOverItems(d, comps, last, bs, members, ys);
    assert members[0..] == members && ys[0..] == ys && [] + s.0 == s.0;
  }

  /** The next block: what it is read to, and what remains then. */
  lemma RemainingStep(d: DTables, comps: seq<Component>, whole: (seq<Item>, seq<int>, Bits), items: seq<Item>,
                      last: seq<int>, bs: Bits, members: seq<nat>, ys: seq<Block>)
    requires AllShaped(d) && UsesTables(comps, d) && |last| == |comps| && |items| < |members| == |ys|
    requires forall i :: 0 <= i < |members| ==> members[i] < |comps|
    requires Remaining(d, comps, whole, items, last, bs, members, ys)
    ensures var ci := members[|items|];
            var b := ReadBlock(DcTable(d, comps, ci), AcTable(d, comps, ci), last[ci], bs, ys[|items|]);
            Remaining(d, comps, whole, items + [Item(ci, b.0)], last[ci := b.1], b.2, members, ys)
  {
    hide ReadBlock, AllShaped, UsesTables;
    var rest, more := members[|items|..], ys[|items|..];
    var ci := members[|items|];
    var b := ReadBlock(DcTable(d, comps, ci), AcTable(d, comps, ci), last[ci], bs, more[0]);
    assert rest[1..] == members[|items| + 1..] && more[1..] == ys[|items| + 1..];
    MarkedBytes.Regroup(items, [Item(ci, b.0)], ReadOverItems(d, comps, last[ci := b.1], b.2, rest[1..], more[1..]).0);
  }

  lemma NothingRemains(d: DTables, comps: seq<Component>, whole: (seq<Item>, seq<int>, Bits), items: seq<Item>,
                       last: seq<int>, bs: Bits, members: seq<nat>, ys: seq<Block>)
    requires AllShaped(d) && UsesTables(comps, d) && |last| == |comps| && |items| == |members| == |ys|
    requires forall i :: 0 <= i < |members| ==> members[i] < |comps|
    requires Remaining(d, comps, whole, items, last, bs, members, ys)
    ensures whole == (items, last, bs)
  {
    assert members[|items|..] == [] && items + [] == items;
  }

  /** A block that holds its result already is decoded to the same result. */
  lemma WrittenTwice(dct: DTable, act: DTable, last: int, bs: Bits, y: Block)
    requires Shaped(dct) && Shaped(act)
    ensures y == Cleared() || y == ReadBlock(dct, act, last, bs, Cleared()).0 ==>
              ReadBlock(dct, act, last, bs, y) == ReadBlock(dct, act, last, bs, Cleared())
  {
    hide ReadAc, ReadDc, Jcoef;
    var (diff, rest) := ReadDc(dct, bs);
    var z := Cleared()[0 := Jcoef(last + diff)];
    if y == ReadAc(act, rest, z, 1).0 {
      FirstStays(act, rest, z, 1);
      ReadOver(act, rest, z, y[0 := Jcoef(last + diff)], 1);
    }
  }

  lemma {:induction false} FirstStays(d: DTable, bs: Bits, y: Block, k: nat)
    requires Shaped(d) && 1 <= k
    ensures ReadAc(d, bs, y, k).0[0] == y[0]
    decreases BLOCK_SIZE - k
  {
    hide LookupDecode, Extend, Jcoef, Drop, Peek;
    if k < BLOCK_SIZE {
      var sym := LookupDecode(d, bs);
      var rest := Drop(bs, sym.length);
      var r, s := sym.value / 16, sym.value % 16;
      if s != 0 {
        FirstStays(d, Drop(rest, s), y[Place(k + r) := Jcoef(Extend(Peek(rest, s), s))], k + r + 1);
      } else if r == 15 {
        FirstStays(d, rest, y, k + 16);
      }
    }
  }

  /** Only positions that are not written, or not yet written, show what the block held before. */
  lemma {:induction false} ReadOver(d: DTable, bs: Bits, y: Block, x: Block, k: nat)
    requires Shaped(d) && forall i :: 0 <= i < BLOCK_SIZE ==> x[i] == y[i] || x[i] == ReadAc(d, bs, y, k).0[i]
    ensures ReadAc(d, bs, x, k) == ReadAc(d, bs, y, k)
    decreases BLOCK_SIZE - k
  {
    hide LookupDecode, Extend, Jcoef, Drop, Peek, Place;
    if k >= BLOCK_SIZE {
      assert x == y;
    } else {
      var sym := LookupDecode(d, bs);
      var rest := Drop(bs, sym.length);
      var r, s := sym.value / 16, sym.value % 16;
      if s != 0 {
        var q, v := Place(k + r), Jcoef(Extend(Peek(rest, s), s));
        ReadOver(d, Drop(rest, s), y[q := v], x[q := v], k + r + 1);
      } else if r == 15 {
        ReadOver(d, rest, y, x, k + 16);
      } else {
        assert x == y;
      }
    }
  }

  ghost predicate AllDerived(d: DTables) {
    && (forall t :: 0 <= t < |d.dc| ==> Derived(d.dc[t], MAX_DC_SYMBOL))
    && (forall t :: 0 <= t < |d.ac| ==> Derived(d.ac[t], MAX_AC_SYMBOL))
  }

  lemma AllAreShaped(d: DTables)
    requires AllDerived(d)
    ensures AllShaped(d)
  {
    hide Derived, Shaped;
    forall t | 0 <= t < |d.dc|
      ensures Shaped(d.dc[t])
    {
      DerivedIsShaped(d.dc[t], MAX_DC_SYMBOL);
    }
    forall t | 0 <= t < |d.ac|
      ensures Shaped(d.ac[t])
    {
      DerivedIsShaped(d.ac[t], MAX_AC_SYMBOL);
    }
  }

  lemma DerivedAreShaped(d: DTables, comps: seq<Component>, ci: nat)
    requires AllDerived(d) && UsesTables(comps, d) && ci < |comps|
    ensures AllShaped(d)
    ensures Derived(d.dc[comps[ci].dcTbl], MAX_DC_SYMBOL) && Derived(d.ac[comps[ci].acTbl], MAX_AC_SYMBOL)
  {
    AllAreShaped(d);
  }

  /** Storage for the blocks of an MCU: no two share it. */
  ghost predicate Storage(blocks: seq<array<int>>) {
    && (forall i :: 0 <= i < |blocks| ==> blocks[i].Length == BLOCK_SIZE)
    && (forall i, j :: 0 <= i < j < |blocks| ==> blocks[i] != blocks[j])
  }

  ghost function BlocksIn(blocks: seq<array<int>>): (ys: seq<Block>)
    requires forall i :: 0 <= i < |blocks| ==> blocks[i].Length == BLOCK_SIZE
    reads blocks
    ensures |ys| == |blocks| && forall i :: 0 <= i < |ys| ==> ys[i] == blocks[i][..]
  {
    seq(|blocks|, i requires 0 <= i < |blocks| reads blocks => blocks[i][..])
  }

  ghost function ItemsIn(members: seq<nat>, blocks: seq<array<int>>): (items: seq<Item>)
    requires |blocks| == |members| && forall i :: 0 <= i < |blocks| ==> blocks[i].Length == BLOCK_SIZE
    reads blocks
    ensures |items| == |members|
    ensures forall i :: 0 <= i < |items| ==> items[i] == Item(members[i], blocks[i][..])
  {
    seq(|members|, i requires 0 <= i < |members| reads blocks => Item(members[i], blocks[i][..]))
  }

  const MAX_DC_SYMBOL := 15
  const MAX_AC_SYMBOL := 255

  lemma DerivedIsShaped(t: DTable, limit: nat)
    requires Derived(t, limit)
    ensures Shaped(t)
  {
  }

  /** What follows a symbol of run r and size s. */
  function AcNext(t: DTable, rest: Bits, y: Block, k: nat, r: nat, s: nat): (Block, Bits)
    requires Shaped(t) && k < BLOCK_SIZE
  {
    if s != 0 then ReadAc(t, Drop(rest, s), y[Place(k + r) := Jcoef(Extend(Peek(rest, s), s))], k + r + 1)
    else if r != 15 then (y, rest)
    else ReadAc(t, rest, y, k + 16)
  }

  /** One symbol of the AC coefficients, n bits long. */
  lemma AcUnfolds(t: DTable, bs: Bits, n: nat, y: Block, k: nat)
    requires Shaped(t) && k < BLOCK_SIZE && LookupDecode(t, bs).length == n
    ensures var v := LookupDecode(t, bs).value;
            ReadAc(t, bs, y, k) == AcNext(t, Drop(bs, n), y, k, v / 16, v % 16)
  {
    hide Peek, LookupDecode, Drop, Extend, Jcoef;
  }

  lemma AcDone(t: DTable, bs: Bits, y: Block, k: nat)
    requires Shaped(t) && BLOCK_SIZE <= k
    ensures ReadAc(t, bs, y, k) == (y, bs)
  {
  }

  lemma SoundIsValid(r: BitReader)
    requires r.Sound()
    ensures r.Valid()
  {
  }
}
