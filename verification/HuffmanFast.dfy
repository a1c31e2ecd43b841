/** The fast MCU path of jdhuff.c: six bytes at a time, without a check for the end of the buffer. */
module HuffmanFast {
  import opened Powers
  import opened BitStrings
  import opened ByteStrings
  import opened Coefficients
  import opened DataSource
  import opened MarkedBytes
  import opened BitWriting
  import opened BitReading
  import opened HuffmanCodes
  import opened HuffmanDecoding
  import opened HuffmanBlocks
  import opened HuffmanScans
  import opened RestartMarkers
  import opened HuffmanDecoder

  /** The most bits a symbol and its extra bits take. */
  const SYMBOL_BITS := 31
  /** The most bits a block takes, and the bytes that must be in the buffer for it. */
  const BLOCK_BITS := BLOCK_SIZE * SYMBOL_BITS
  const BUFSIZE := BLOCK_SIZE * 8

  /** What GET_BYTE makes of the bytes at pos: the data byte, where it goes on, and the marker it reports. */
  function FastByte(src: seq<Byte>, pos: nat): (Byte, nat, Byte)
    requires pos + 1 < |src|
  {
    if src[pos] != 0xFF then (src[pos], pos + 1, 0)
    else if src[pos + 1] == 0 then (0xFF, pos + 2, 0)
    else (0, pos, src[pos + 1])
  }

  /** GET_BYTE and the checked path take the same data byte, and both or neither report a marker. */
  predicate ByteAgrees(src: seq<Byte>, pos: nat)
    requires pos + 1 < |src|
  {
    var (c, p, m) := FastByte(src, pos);
    var (d, i) := NextData(src, Input(pos, 0));
    c == d && (m == 0 <==> i.marker == 0) && (m == 0 ==> p == i.pos)
  }

  /** They part exactly on fill bytes in front of a stuffed zero. */
  lemma AgreesUnlessFilled(src: seq<Byte>, pos: nat)
    requires pos + 1 < |src|
    ensures ByteAgrees(src, pos) <==>
              !(src[pos] == 0xFF && src[pos + 1] == 0xFF && SourceByte(src, SkipFill(src, pos + 1)) == 0)
  {
    if src[pos] == 0xFF && src[pos + 1] != 0xFF {
      assert SkipFill(src, pos + 1) == pos + 1;
    }
  }

  /** The shortest such source: the checked path reads a data byte 0xFF, GET_BYTE reports marker 0xFF. */
  lemma FilledZero(tail: seq<Byte>)
    ensures var src: seq<Byte> := [0xFF, 0xFF, 0] + tail;
            && NextData(src, Input(0, 0)) == (0xFF, Input(3, 0)) && FastByte(src, 0) == (0, 0, 0xFF)
            && !ByteAgrees(src, 0) && !Regular(src, 0)
  {
    var src: seq<Byte> := [0xFF, 0xFF, 0] + tail;
    assert SkipFill(src, 2) == 2 && SkipFill(src, 1) == 2;
  }

  /** The data as GET_BYTE takes it: up to the first 0xFF that is not followed by 0. */
  ghost function FastUnread(src: seq<Byte>, pos: nat): Bits
    decreases |src| - pos
  {
    if pos + 1 >= |src| then []
    else
      var (c, p, m) := FastByte(src, pos);
      if m != 0 then [] else WordBits(c as int, 8) + FastUnread(src, p)
  }

  /** The same bits in front. */
  ghost predicate SameFirst(a: Bits, b: Bits, n: nat) {
    forall i: nat :: i < n ==> BitAt(a, i) == BitAt(b, i)
  }

  lemma {:induction false} PeekFirst(a: Bits, b: Bits, m: nat, n: nat)
    requires SameFirst(a, b, n) && m <= n
    ensures Peek(a, m) == Peek(b, m)
    decreases m
  {
    if m > 0 {
      PeekFirst(a, b, m - 1, n);
    }
  }

  /** Bits held in front of others. */
  lemma HeldFirst(held: Bits, rest: Bits, bs: Bits)
    requires SameBits(held + rest, bs)
    ensures SameFirst(held, bs, |held|)
  {
    forall i: nat | i < |held|
      ensures BitAt(held, i) == BitAt(bs, i)
    {
      assert (held + rest)[i] == held[i];
      assert BitAt(held + rest, i) == BitAt(bs, i);
    }
  }

  class FastReader {
    const src: seq<Byte>
    var pos: nat
    var marker: Byte
    var getBuffer: nat
    var bitsLeft: int
    ghost const all: Bits   // the bits of the segment
    ghost const seen: Bits  // what is to be read, as GET_BYTE takes it
    ghost var at: nat
    ghost const pos0: nat
    ghost const at0: nat
    ghost const blocks: nat

    ghost function Held(): Bits
      requires 0 <= bitsLeft
      reads this
    {
      WordBits(getBuffer, bitsLeft)
    }

    ghost function Stream(): Bits
      requires 0 <= bitsLeft
      reads this
    {
      Held() + Unread(src, Input(pos, marker))
    }

    /**
     The bits held are good as long as no marker was hit, and always those that GET_BYTE takes; and each bit
     held or taken cost a quarter byte at most.
     */
    ghost predicate Valid()
      reads this
    {
      && 0 <= bitsLeft <= 64 && getBuffer < Pow2(64)
      && pos0 <= pos && at0 <= at && 4 * (pos - pos0) <= at - at0 + bitsLeft
      && 0 < blocks && pos0 + BUFSIZE * blocks <= |src|
      && (marker != 0 ==> pos + 1 < |src| && src[pos] == 0xFF && src[pos + 1] != 0)
      && (marker == 0 ==> at <= |all| && Stream() == Drop(all, at))
      && (Regular(src, pos) ==> SameBits(Stream(), Drop(all, at)))
      && (Regular(src, pos0) ==> Regular(src, pos))
      && SameBits(Held() + FastUnread(src, pos), Drop(seen, at - at0))
      && SegmentEnd(src, Input(pos, 0)) == SegmentEnd(src, Input(0, 0))
    }

    /** BITREAD_LOAD_STATE */
    constructor (r: BitReader, blocks: nat)
      requires r.Valid() && r.marker == 0 && !r.insufficient
      requires 0 < blocks && r.pos + BUFSIZE * blocks <= |r.src|
      ensures Valid() && src == r.src && all == r.all && this.blocks == blocks && seen == FastStream(r)
      ensures marker == 0 && at == r.at && at0 == at && pos0 == r.pos
    {
      src, pos, marker, getBuffer, bitsLeft := r.src, r.pos, 0, r.getBuffer, r.bitsLeft;
      all, at, pos0, at0, this.blocks := r.all, r.at, r.pos, r.at, blocks;
      seen := FastStream(r);
      new;
      assert Stream() == r.Stream();
      assert Drop(seen, 0) == seen;
    }

    /** GET_BYTE */
    method GetByte()
      requires Valid() && bitsLeft <= 56 && at - at0 <= BLOCK_BITS * blocks
      modifies `pos, `marker, `getBuffer, `bitsLeft
      ensures Valid() && bitsLeft == old(bitsLeft) + 8 && old(pos) + 1 < |src|
      ensures var (c, p, m) := FastByte(src, old(pos));
              pos == p && Held() == old(Held()) + WordBits(c as int, 8) && marker == if m != 0 then m else old(marker)
      ensures Good() ==> old(Good())
    {
      hide WordBits, Pow2, SameBits, Drop, Unread, Regular, SkipFill, FastUnread;
      Enough(pos, pos0, at, at0, bitsLeft, blocks, |src|);
      PlainData(src, pos);
      var c0 := src[pos];
      var c1 := src[pos + 1];
      if c0 != 0xFF {
        LoadData(c0, 1);
      } else if c1 == 0 {
        LoadData(c0, 2);
      } else {
        LoadZeros(c1);
      }
    }

    /** A data byte that takes n bytes of the source. */
    method LoadData(c: Byte, n: nat)
      requires Valid() && bitsLeft <= 56 && marker == 0 && n <= 2 && pos + 1 < |src|
      requires NextData(src, Input(pos, 0)) == (c, Input(pos + n, 0)) && FastByte(src, pos) == (c, pos + n, 0)
      modifies `pos, `getBuffer, `bitsLeft
      ensures Valid() && bitsLeft == old(bitsLeft) + 8 && pos == old(pos) + n
      ensures Held() == old(Held()) + WordBits(c as int, 8)
    {
      hide WordBits, Pow2, SameBits, Drop, Shifted, NextData, Regular, FastByte;
      ghost var held := Held();
      Pow2Values();
      if Regular(src, pos) {
        StaysRegular(src, pos);
      }
      EndIsNext(src, Input(pos, 0));
      ShiftedBits(getBuffer, bitsLeft, c as int, 8);
      Regroup(held, WordBits(c as int, 8), Unread(src, Input(pos + n, 0)));
      Regroup(held, WordBits(c as int, 8), FastUnread(src, pos + n));
      pos := pos + n;
      getBuffer := Shifted(getBuffer, 8, c as int);
      bitsLeft := bitsLeft + 8;
      SameAsItself(Stream());
    }

    /** A marker: the two bytes are given back, and zeros are loaded in their place. */
    method LoadZeros(c1: Byte)
      requires Valid() && bitsLeft <= 56 && pos + 1 < |src| && src[pos] == 0xFF && src[pos + 1] == c1 != 0
      modifies `marker, `getBuffer, `bitsLeft
      ensures Valid() && bitsLeft == old(bitsLeft) + 8 && marker == c1
      ensures Held() == old(Held()) + WordBits(0, 8)
    {
      hide WordBits, Pow2, SameBits, Drop, Shifted, NextData;
      ghost var held := Held();
      PowerZero();
      ShiftedBits(getBuffer, bitsLeft, 0, 8);
      ZerosBehind(held, 8);
      assert held + [] == held && held + WordBits(0, 8) + [] == held + WordBits(0, 8);
      marker := c1;
      getBuffer := Shifted(getBuffer, 8, 0);
      bitsLeft := bitsLeft + 8;
      if Regular(src, pos) {
        SameAsBoth(held + WordBits(0, 8), held, Drop(all, at));
      }
      SameAsBoth(held + WordBits(0, 8), held, Drop(seen, at - at0));
    }

    /** FILL_BIT_BUFFER_FAST */
    method Fill()
      requires Valid() && at - at0 <= BLOCK_BITS * blocks
      modifies `pos, `marker, `getBuffer, `bitsLeft
      ensures Valid() && bitsLeft >= 17
      ensures Good() ==> old(Good())
    {
      hide SameBits, Stream, Held, Regular, Good, FastUnread, FastByte;
      if bitsLeft <= 16 {
        ghost var left := bitsLeft;
        for i := 0 to 6
          invariant Valid() && bitsLeft == left + 8 * i && (Good() ==> old(Good()))
        {
          GetByte();
        }
      }
    }

    /** What is read is right: always without a marker, and beyond one in a regular source. */
    ghost predicate Good()
      reads `marker, `pos
    {
      marker == 0 || Regular(src, pos)
    }

    /** The bits of the segment are what is read while that is good; those that GET_BYTE takes always are. */
    ghost predicate Reads(segment: bool)
      reads `marker, `pos
    {
      segment ==> Good()
    }

    /** The segment, or what GET_BYTE takes it for, from a bit on. */
    ghost function From(segment: bool, n: nat): Bits
      requires at0 <= n
    {
      if segment then Drop(all, n) else Drop(seen, n - at0)
    }

    lemma FromDrop(segment: bool, n: nat, m: nat)
      requires at0 <= n
      ensures Drop(From(segment, n), m) == From(segment, n + m)
    {
      if segment {
        DropDrop(all, n, m);
      } else {
        DropDrop(seen, n - at0, m);
      }
    }

    /** The bits at hand are those that come next. */
    lemma HeldIsNext(segment: bool)
      requires Valid() && Reads(segment)
      ensures SameFirst(Held(), From(segment, at), bitsLeft)
    {
      hide SameBits, SameFirst, Regular, FastUnread, Drop, WordBits;
      if segment {
        if marker == 0 {
          SameAsItself(Stream());
        }
        HeldFirst(Held(), Unread(src, Input(pos, marker)), Drop(all, at));
      } else {
        HeldFirst(Held(), FastUnread(src, pos), Drop(seen, at - at0));
      }
    }

    /** HUFF_DECODE_FAST */
    method HuffDecode(t: DTable, ghost limit: nat) returns (v: nat)
      requires Valid() && at - at0 <= BLOCK_BITS * blocks && Derived(t, limit)
      modifies this
      ensures Valid() && (Good() ==> old(Good())) && Shaped(t)
      ensures v <= limit && 0 <= at - old(at) <= MAX_LEN + 1 && (v != 0 ==> at - old(at) <= MAX_LEN)
      ensures forall w :: Reads(w) ==>
                var sym := LookupDecode(t, From(w, old(at)));
                v == sym.value && at == old(at) + sym.length
    {
      hide Held, Stream, Peek, Pow2, Start, InShare, Shared, IsCode, Drop, LookupDecode, SerialDecode, Begins, Regular,
           SameBits, SameFirst, Good, From, FastUnread;
      Fill();
      ghost var sizes, codes :| DerivedFrom(t, sizes, codes, limit);
      ghost var bs := Held();
      ghost var p := FindShared(sizes, bs);
      DecodedSymbol(t, sizes, codes, limit, bs, p);
      LookupEntry(t, sizes, codes, limit, bs, p);
      forall w | Reads(w)
        ensures LookupDecode(t, bs) == LookupDecode(t, From(w, at))
      {
        HeldIsNext(w);
        LookupFirst(t, bs, From(w, at), bitsLeft);
      }
      var look := PeekBits(LOOKAHEAD);
      v := t.lookup[look];
      var nb := v / 0x100;
      v := v % 0x100;
      if nb > LOOKAHEAD {
        v := Walk(t, sizes, codes, p);
      } else {
        DropBits(nb);
      }
    }

    /** The equivalent of jpeg_huff_decode, from 9 bits on. */
    method Walk(t: DTable, ghost sizes: seq<nat>, ghost codes: seq<nat>, ghost p: nat) returns (v: nat)
      requires Valid() && bitsLeft >= 17 && CodeTable(sizes, codes, t.huffval) && SerialOk(t, sizes, codes)
      requires p <= |sizes| && Shared(sizes, Held(), p) && (p < |sizes| ==> LOOKAHEAD < sizes[p])
      modifies `bitsLeft, `at
      ensures Valid()
      ensures v == if p < |sizes| then t.huffval[p] else 0
      ensures at == old(at) + if p < |sizes| then sizes[p] else MAX_LEN + 1
    {
      hide Held, Stream, Peek, Pow2, Start, InShare, Shared, IsCode, Drop, Regular, SameBits, FastUnread;
      ghost var bs := Held();
      WalkStops(t, sizes, codes, bs, p);
      var nb := LOOKAHEAD + 1;
      v := PeekBits(nb);
      DropBits(nb);
      while v > t.maxcode[nb]
        invariant LOOKAHEAD < nb <= MAX_LEN + 1 && (p < |sizes| ==> nb <= sizes[p])
        invariant Valid() && bitsLeft + nb >= 17 && at == old(at) + nb && v == Peek(bs, nb) && Held() == Drop(bs, nb)
        decreases MAX_LEN + 1 - nb
      {
        NothingDropped(bs);
        NextPeek(bs, nb, bs, 0);
        DropDrop(bs, nb, 1);
        var bit := PeekBits(1);
        DropBits(1);
        v := 2 * v + bit;
        nb := nb + 1;
      }
      if nb < MAX_LEN + 1 && (p < |sizes| ==> nb < sizes[p]) {
        WalkGoesOn(t, sizes, codes, bs, p, nb);
      }
      if nb > MAX_LEN {
        v := 0;
      } else {
        v := t.huffval[(v + t.valoffset[nb]) % 0x100];
      }
    }

    /** Extra bits behind a symbol. */
    method GetBits(nbits: nat) returns (v: nat)
      requires Valid() && nbits <= 15 && at - at0 <= BLOCK_BITS * blocks
      modifies this
      ensures Valid() && (Good() ==> old(Good())) && at == old(at) + nbits
      ensures forall w :: Reads(w) ==> v == Peek(From(w, old(at)), nbits)
    {
      hide Held, Stream, Peek, Drop, Regular, SameBits, SameFirst, Pow2, Good, From, FastUnread;
      Fill();
      forall w | Reads(w)
        ensures Peek(Held(), nbits) == Peek(From(w, at), nbits)
      {
        HeldIsNext(w);
        PeekFirst(Held(), From(w, at), nbits, bitsLeft);
      }
      v := PeekBits(nbits);
      DropBits(nbits);
    }

    method DecodeDc(t: DTable) returns (diff: int)
      requires Valid() && at - at0 + MAX_LEN <= BLOCK_BITS * blocks && Derived(t, MAX_DC_SYMBOL)
      modifies this
      ensures Valid() && (Good() ==> old(Good())) && Shaped(t) && 0 <= at - old(at) <= SYMBOL_BITS
      ensures forall w :: Reads(w) ==> ReadDc(t, From(w, old(at))) == (diff, From(w, at))
    {
      hide Held, Stream, Peek, Drop, Regular, SameBits, Pow2, LookupDecode, Derived, Extend, Valid, From, Good;
      ghost var start := at;
      AtFrom();
      var s := HuffDecode(t, MAX_DC_SYMBOL);
      ghost var middle := at;
      FromDrop(true, start, middle - start);
      FromDrop(false, start, middle - start);
      diff := 0;
      if s != 0 {
        var r := GetBits(s);
        FromDrop(true, middle, s);
        FromDrop(false, middle, s);
        diff := Extend(r, s);
      }
    }

    lemma AtFrom()
      requires Valid()
      ensures at0 <= at
    {
    }

    /** The AC coefficients of a block. */
    method DecodeAc(t: DTable, block: array<int>)
      requires Valid() && at - at0 + (BLOCK_SIZE - 1) * SYMBOL_BITS <= BLOCK_BITS * blocks
      requires Derived(t, MAX_AC_SYMBOL) && block.Length == BLOCK_SIZE
      modifies this, block
      ensures Valid() && (Good() ==> old(Good())) && Shaped(t) && 0 <= at - old(at) <= (BLOCK_SIZE - 1) * SYMBOL_BITS
      ensures forall w :: Reads(w) ==> ReadAc(t, From(w, old(at)), old(block[..]), 1) == (block[..], From(w, at))
    {
      hide Held, Stream, Peek, Drop, Regular, SameBits, Pow2, LookupDecode, Derived, Extend, Valid, Jcoef, Place, ReadAc,
           Good, From;
      DerivedIsShaped(t, MAX_AC_SYMBOL);
      AtFrom();
      ghost var n := 1;
      var k := 1;
      while k < BLOCK_SIZE
        invariant Valid() && 1 <= n <= k && n <= BLOCK_SIZE && (Good() ==> old(Good()))
        invariant 0 <= at - old(at) <= (n - 1) * SYMBOL_BITS
        invariant forall w :: Reads(w) ==>
                    ReadAc(t, From(w, old(at)), old(block[..]), 1) == ReadAc(t, From(w, at), block[..], k)
        decreases BLOCK_SIZE - k
      {
        ghost var start, y := at, block[..];
        var s := HuffDecode(t, MAX_AC_SYMBOL);
        ghost var middle := at;
        forall w | Reads(w)
          ensures ReadAc(t, From(w, start), y, k) == AcNext(t, From(w, middle), y, k, s / 16, s % 16)
        {
          AcUnfolds(t, From(w, start), middle - start, y, k);
          FromDrop(w, start, middle - start);
        }
        var r := s / 16;
        s := s % 16;
        if s != 0 {
          k := k + r;
          FromDrop(true, at, s);
          FromDrop(false, at, s);
          r := GetBits(s);
          var v := Extend(r, s);
          block[Place(k)] := Jcoef(v);
        } else {
          if r != 15 {
            return;
          }
          k := k + 15;
        }
        k := k + 1;
        n := n + 1;
      }
      AcDone(t, From(true, at), block[..], k);
      AcDone(t, From(false, at), block[..], k);
    }

    /** One block; returns the new predictor. */
    method DecodeBlock(dct: DTable, act: DTable, last: int, block: array<int>) returns (v: int)
      requires Valid() && at - at0 + BLOCK_BITS <= BLOCK_BITS * blocks
      requires Derived(dct, MAX_DC_SYMBOL) && Derived(act, MAX_AC_SYMBOL) && block.Length == BLOCK_SIZE
      modifies this, block
      ensures Valid() && (Good() ==> old(Good())) && Shaped(dct) && Shaped(act) && 0 <= at - old(at) <= BLOCK_BITS
      ensures forall w :: Reads(w) ==>
                ReadBlock(dct, act, last, From(w, old(at)), old(block[..])) == (block[..], v, From(w, at))
    {
      hide Drop, Regular, Derived, Valid, Jcoef, ReadAc, ReadDc, Good, Shaped, From;
      AtFrom();
      var diff := DecodeDc(dct);
      v := diff + last;
      block[0] := Jcoef(v);
      DecodeAc(act, block);
    }

    /** BITREAD_SAVE_STATE */
    method Store(r: BitReader)
      requires Valid() && marker == 0 && r.src == src && r.all == all && r.marker == 0 && !r.insufficient
      requires Regular(src, 0) ==> Regular(src, pos0)
      modifies r
      ensures r.Sound() && r.at == at
    {
      hide Regular;
      r.pos, r.getBuffer, r.bitsLeft := pos, getBuffer, bitsLeft;
      r.at := at;
      assert r.Stream() == Stream();
    }

    /** What was read from the first bit on. */
    lemma FromHere()
      requires Valid()
      ensures Reads(false) && (marker == 0 || Regular(src, pos0) ==> Reads(true))
      ensures at0 <= at && From(true, at) == Drop(all, at)
      ensures From(true, at0) == Drop(all, at0) && From(false, at0) == seen
    {
      hide Drop;
      NothingDropped(seen);
    }

    /** PEEK_BITS, from the bits at hand. */
    method PeekBits(nbits: nat) returns (v: nat)
      requires Valid() && nbits <= bitsLeft
      ensures v == Peek(Held(), nbits)
    {
      hide WordBits, Pow2, ShiftRight, SameBits, Unread, Peek, FastUnread;
      TopBits(getBuffer, nbits, bitsLeft - nbits, []);
      assert Held() + [] == Held();
      v := ShiftRight(getBuffer, bitsLeft - nbits) % Pow2(nbits);
    }

    /** DROP_BITS */
    method DropBits(nbits: nat)
      requires Valid() && nbits <= bitsLeft
      modifies `bitsLeft, `at
      ensures Valid() && bitsLeft == old(bitsLeft) - nbits && at == old(at) + nbits
      ensures Held() == Drop(old(Held()), nbits)
    {
      hide WordBits, Pow2, ShiftRight, SameBits, Unread, Peek, Regular, Drop, FastUnread;
      TopBits(getBuffer, nbits, bitsLeft - nbits, Unread(src, Input(pos, marker)));
      TopBits(getBuffer, nbits, bitsLeft - nbits, FastUnread(src, pos));
      TopBits(getBuffer, nbits, bitsLeft - nbits, []);
      assert Held() + [] == Held() && WordBits(getBuffer, bitsLeft - nbits) + [] == WordBits(getBuffer, bitsLeft - nbits);
      DropRoom(all, at, nbits);
      if Regular(src, pos) {
        SameDrop(Stream(), Drop(all, at), nbits);
      }
      SameDrop(Held() + FastUnread(src, pos), Drop(seen, at - at0), nbits);
      DropDrop(all, at, nbits);
      DropDrop(seen, at - at0, nbits);
      bitsLeft := bitsLeft - nbits;
      at := at + nbits;
    }
  }

  /** The bits that the fast path takes to be next. */
  ghost function FastStream(r: BitReader): Bits
    requires 0 <= r.bitsLeft
    reads r
  {
    WordBits(r.getBuffer, r.bitsLeft) + FastUnread(r.src, r.pos)
  }

  /** A symbol is decoded from the next 17 bits. */
  lemma LookupFirst(t: DTable, a: Bits, b: Bits, n: nat)
    requires Shaped(t) && SameFirst(a, b, n) && MAX_LEN + 1 <= n
    ensures LookupDecode(t, a) == LookupDecode(t, b)
  {
    hide SameFirst, SerialDecode, Peek;
    PeekFirst(a, b, LOOKAHEAD, n);
    SerialFirst(t, a, b, LOOKAHEAD + 1, n);
  }

  lemma {:induction false} SerialFirst(t: DTable, a: Bits, b: Bits, l: nat, n: nat)
    requires Shaped(t) && SameFirst(a, b, n) && 1 <= l <= MAX_LEN + 1 <= n
    ensures SerialDecode(t, a, l) == SerialDecode(t, b, l)
    decreases MAX_LEN + 1 - l
  {
    hide SameFirst, Peek;
    PeekFirst(a, b, l, n);
    if l <= MAX_LEN {
      SerialFirst(t, a, b, l + 1, n);
    }
  }

  lemma PlainData(src: seq<Byte>, pos: nat)
    requires pos + 1 < |src|
    ensures src[pos] != 0xFF ==> NextData(src, Input(pos, 0)) == (src[pos], Input(pos + 1, 0))
    ensures src[pos] == 0xFF && src[pos + 1] == 0 ==> NextData(src, Input(pos, 0)) == (0xFF, Input(pos + 2, 0))
  {
  }

  /** The two bytes that GET_BYTE looks at are in the buffer. */
  lemma Enough(pos: nat, pos0: nat, at: nat, at0: nat, left: int, blocks: nat, n: nat)
    requires 4 * (pos - pos0) <= at - at0 + left && left <= 56 && at - at0 <= BLOCK_BITS * blocks
    requires 0 < blocks && pos0 + BUFSIZE * blocks <= n
    ensures pos + 2 <= n
  {
  }

  /** The block loop of decode_mcu_fast, on copies of the decoder's state. */
  method DecodeBlocks(f: FastReader, tables: DTables, comps: seq<Component>, state0: seq<int>, members: seq<nat>,
                      blocks: seq<array<int>>)
    returns (state: seq<int>)
    requires f.Valid() && f.at == f.at0 && f.blocks == |members|
    requires |state0| == |comps| && AllDerived(tables) && UsesTables(comps, tables)
    requires |blocks| == |members| && Storage(blocks)
    requires forall i :: 0 <= i < |members| ==> members[i] < |comps|
    modifies f, blocks
    ensures f.Valid() && AllShaped(tables) && |state| == |comps|
    ensures forall w :: f.Reads(w) ==>
              ReadOverItems(tables, comps, state0, f.From(w, f.at0), members, old(BlocksIn(blocks)))
              == (ItemsIn(members, blocks), state, f.From(w, f.at))
  {
    hide Drop, ReadBlock, AllDerived, AllShaped, ReadOverItems, FastReader.Valid, FastReader.Good,
         FastReader.From, UsesTables, Remaining, DcTable, AcTable;
    AllAreShaped(tables);
    state := state0;
    ghost var ys, items := BlocksIn(blocks), [];
    ghost var whole := (w: bool) => ReadOverItems(tables, comps, state0, f.From(w, f.at0), members, ys);
    AllRemains(tables, comps, state, f.From(true, f.at), members, ys);
    AllRemains(tables, comps, state, f.From(false, f.at), members, ys);
    for blkn := 0 to |members|
      invariant f.Valid() && |state| == |comps| && 0 <= f.at - f.at0 <= BLOCK_BITS * blkn
      invariant forall i :: blkn <= i < |blocks| ==> blocks[i][..] == ys[i]
      invariant |items| == blkn && forall i :: 0 <= i < blkn ==> items[i] == Item(members[i], blocks[i][..])
      invariant forall w :: f.Reads(w) ==> Remaining(tables, comps, whole(w), items, state, f.From(w, f.at), members, ys)
    {
      forall w | f.Reads(w)
        ensures var ci := members[|items|];
                var b := ReadBlock(DcTable(tables, comps, ci), AcTable(tables, comps, ci), state[ci], f.From(w, f.at),
                                   ys[|items|]);
                Remaining(tables, comps, whole(w), items + [Item(ci, b.0)], state[ci := b.1], b.2, members, ys)
      {
        RemainingStep(tables, comps, whole(w), items, state, f.From(w, f.at), members, ys);
      }
      state := DecodeItem(f, tables, comps, state, members[blkn], blocks[blkn]);
      items := items + [Item(members[blkn], blocks[blkn][..])];
    }
    forall w | f.Reads(w)
      ensures whole(w) == (items, state, f.From(w, f.at))
    {
      NothingRemains(tables, comps, whole(w), items, state, f.From(w, f.at), members, ys);
    }
    assert items == ItemsIn(members, blocks);
  }

  /** One block, and the predictor of its component. */
  method DecodeItem(f: FastReader, tables: DTables, comps: seq<Component>, last: seq<int>, ci: nat, block: array<int>)
    returns (state: seq<int>)
    requires f.Valid() && 0 <= f.at - f.at0 && f.at - f.at0 + BLOCK_BITS <= BLOCK_BITS * f.blocks
    requires |last| == |comps| && AllDerived(tables) && UsesTables(comps, tables) && ci < |comps|
    requires block.Length == BLOCK_SIZE
    modifies f, block
    ensures f.Valid() && (f.Good() ==> old(f.Good())) && AllShaped(tables) && 0 <= f.at - old(f.at) <= BLOCK_BITS
    ensures |state| == |comps| && state == last[ci := state[ci]]
    ensures forall w :: f.Reads(w) ==>
              ReadBlock(DcTable(tables, comps, ci), AcTable(tables, comps, ci), last[ci], f.From(w, old(f.at)),
                        old(block[..]))
              == (block[..], state[ci], f.From(w, f.at))
  {
    hide Drop, ReadBlock, AllDerived, AllShaped, FastReader.Valid, FastReader.Good, FastReader.From, Derived, Shaped;
    DerivedAreShaped(tables, comps, ci);
    var s := f.DecodeBlock(tables.dc[comps[ci].dcTbl], tables.ac[comps[ci].acTbl], last[ci], block);
    state := last[ci := s];
  }

  /**
   decode_mcu_fast. When it returns true, everything is as decode_mcu_slow would have left it. When it returns
   false the decoder has not moved, but the blocks hold what decoding makes of the bits that GET_BYTE takes.
   */
  method DecodeMcuFast(d: HuffmanDecoder, members: seq<nat>, blocks: seq<array<int>>) returns (ok: bool)
    requires d.Valid() && d.reader.marker == 0 && !d.reader.insufficient
    requires members != [] && d.reader.pos + BUFSIZE * |members| <= |d.reader.src|
    requires |blocks| == |members| && Storage(blocks)
    requires forall i :: 0 <= i < |members| ==> members[i] < |d.comps|
    modifies d`lastDcVal, d.reader, blocks
    ensures d.Valid() && AllShaped(d.tables) && old(0 <= d.reader.bitsLeft)
    ensures !ok ==> d.lastDcVal == old(d.lastDcVal) && d.reader.at == old(d.reader.at) && !d.reader.insufficient
    ensures var s := ReadOverItems(d.tables, d.comps, old(d.lastDcVal), Drop(d.reader.all, old(d.reader.at)), members,
                                   old(BlocksIn(blocks)));
            && (ok ==> s == (ItemsIn(members, blocks), d.lastDcVal, Drop(d.reader.all, d.reader.at)))
            && (!ok && Regular(d.reader.src, 0) ==> s.0 == ItemsIn(members, blocks))
    ensures ReadOverItems(d.tables, d.comps, old(d.lastDcVal), old(FastStream(d.reader)), members,
                          old(BlocksIn(blocks))).0
         == ItemsIn(members, blocks)
  {
    hide BitReader.Valid, BitReader.Sound, Drop, ReadBlock, AllDerived, AllShaped, ReadOverItems, Regular,
         FastReader.Valid, FastReader.Good, FastReader.From, FastReader.Reads, UsesTables, FastStream, BlocksIn,
         ItemsIn;
    SoundIsValid(d.reader);
    d.reader.RegularHere();
    ReaderHolds(d.reader);
    var f := new FastReader(d.reader, |members|);
    var state := DecodeBlocks(f, d.tables, d.comps, d.lastDcVal, members, blocks);
    f.FromHere();
    ok := f.marker == 0;
    if ok {
      f.Store(d.reader);
      d.lastDcVal := state;
    }
  }

  lemma ReaderHolds(r: BitReader)
    requires r.Valid()
    ensures 0 <= r.bitsLeft
  {
  }

  /** What an MCU holds when a first attempt at it, on the bits that GET_BYTE takes, has been given up. */
  ghost function GivenUp(d: HuffmanDecoder, members: seq<nat>): (ys: seq<Block>)
    requires d.Valid() && AllShaped(d.tables) && 0 <= d.reader.bitsLeft
    requires forall i :: 0 <= i < |members| ==> members[i] < |d.comps|
    reads d, d.reader
    ensures |ys| == |members|
  {
    BlocksOf(ReadItems(d.tables, d.comps, d.lastDcVal, FastStream(d.reader), members).0)
  }

  ghost function BlocksOf(items: seq<Item>): (ys: seq<Block>)
    ensures |ys| == |items|
  {
    seq(|items|, i requires 0 <= i < |items| => items[i].z)
  }

  /** A fast attempt needs enough bytes in the buffer, and no marker hit. */
  predicate FastFits(r: BitReader, n: nat)
    reads r
  {
    r.marker == 0 && r.pos + BUFSIZE * n <= |r.src|
  }

  /**
   The blocks of an MCU: the fast path if it is to be used, the slow one otherwise or when the fast one meets
   a marker. Nothing is decoded once the data was insufficient. Predictors and unread bits are as specified
   for every source. So are the blocks, except when the fast path is given up: then the coefficients are
   written over what it left.
   */
  method DecodeData(d: HuffmanDecoder, members: seq<nat>, blocks: seq<array<int>>, fast: bool)
    returns (ghost givenUp: bool)
    requires d.Valid() && AllShaped(d.tables) && members != [] && |blocks| == |members| && Storage(blocks)
    requires forall i :: 0 <= i < |members| ==> members[i] < |d.comps|
    requires forall i :: 0 <= i < |blocks| ==> blocks[i][..] == Cleared()
    requires fast ==> FastFits(d.reader, |members|)
    modifies d`lastDcVal, d.reader, blocks
    ensures d.Valid() && old(0 <= d.reader.bitsLeft) && (givenUp ==> fast)
    ensures old(d.reader.insufficient) ==>
              && d.lastDcVal == old(d.lastDcVal) && d.reader.at == old(d.reader.at)
              && ItemsIn(members, blocks) == old(ItemsIn(members, blocks))
    ensures var bs := Drop(d.reader.all, old(d.reader.at));
            var s := ReadItems(d.tables, d.comps, old(d.lastDcVal), bs, members);
            !old(d.reader.insufficient) ==>
              && d.lastDcVal == s.1 && Drop(d.reader.all, d.reader.at) == s.2
              && (!givenUp || Regular(d.reader.src, 0) ==> ItemsIn(members, blocks) == s.0)
              && (givenUp ==>
                    ItemsIn(members, blocks)
                    == ReadOverItems(d.tables, d.comps, old(d.lastDcVal), bs, members, old(GivenUp(d, members))).0)
  {
    hide BitReader.Valid, BitReader.Sound, Drop, AllDerived, AllShaped, ReadItems, ReadOverItems, Regular, UsesTables,
         Cleared, FastStream;
    givenUp := false;
    SoundIsValid(d.reader);
    ReaderHolds(d.reader);
    if !d.reader.insufficient {
      ghost var ys, last, bs := BlocksIn(blocks), d.lastDcVal, Drop(d.reader.all, d.reader.at);
      OverCleared(d.tables, d.comps, last, bs, members, ys);
      OverCleared(d.tables, d.comps, last, FastStream(d.reader), members, ys);
      var usefast := fast;
      if usefast {
        ghost var attempt := GivenUp(d, members);
        usefast := DecodeMcuFast(d, members, blocks);
        givenUp := !usefast;
        if givenUp {
          assert BlocksIn(blocks) == attempt;
          OverMovesAlike(d.tables, d.comps, last, bs, members, attempt);
          if Regular(d.reader.src, 0) {
            OverPrepared(d.tables, d.comps, last, bs, members, attempt);
          }
        }
      }
      if !usefast {
        d.DecodeMcuSlow(members, blocks);
      }
    }
  }

  /**
   decode_mcu. When a restart is due and the next marker is not the one expected, it fails. Otherwise the
   blocks are decoded from behind that marker with predictors 0; or else from the bits that come next, and
   only without a restart interval on the fast path.
   */
  method DecodeMcu(d: HuffmanDecoder, members: seq<nat>, blocks: seq<array<int>>) returns (ok: bool, ghost givenUp: bool)
    requires d.Valid() && AllShaped(d.tables) && members != [] && |blocks| == |members| && Storage(blocks)
    requires forall i :: 0 <= i < |members| ==> members[i] < |d.comps|
    requires forall i :: 0 <= i < |blocks| ==> blocks[i][..] == Cleared()
    modifies d, d.reader, blocks
    ensures old(0 <= d.reader.bitsLeft)
    ensures ok <==> !old(d.RestartDue()) || FirstMarker(old(d.reader.src)).marker as int == RST0 + old(d.nextRestartNum)
    ensures ok ==> d.Valid() && (d.reader == old(d.reader) || fresh(d.reader))
    ensures givenUp ==> d.restartInterval == 0 && old(FastFits(d.reader, |members|))
    // behind a marker
    ensures ok && old(d.RestartDue()) ==>
              && FirstMarker(old(d.reader.src)).pos <= |old(d.reader.src)|
              && d.reader.src == old(d.reader.src)[FirstMarker(old(d.reader.src)).pos..]
              && d.reader.all == Unread(d.reader.src, Input(0, 0))
              && ReadItems(d.tables, d.comps, ZeroPredictors(|d.comps|), d.reader.all, members)
                 == (ItemsIn(members, blocks), d.lastDcVal, Drop(d.reader.all, d.reader.at))
              && d.restartsToGo == d.restartInterval - 1 && d.nextRestartNum == (old(d.nextRestartNum) + 1) % 8
    // within a segment
    ensures !old(d.RestartDue()) ==>
              && d.reader == old(d.reader) && d.nextRestartNum == old(d.nextRestartNum)
              && d.restartsToGo == old(d.restartsToGo) - (if d.restartInterval > 0 then 1 else 0)
    ensures !old(d.RestartDue()) && old(d.reader.insufficient) ==>
              && d.lastDcVal == old(d.lastDcVal) && d.reader.at == old(d.reader.at)
              && ItemsIn(members, blocks) == old(ItemsIn(members, blocks))
    ensures var bs := Drop(old(d.reader.all), old(d.reader.at));
            var s := ReadItems(d.tables, d.comps, old(d.lastDcVal), bs, members);
            !old(d.RestartDue()) && !old(d.reader.insufficient) ==>
              && d.lastDcVal == s.1 && Drop(d.reader.all, d.reader.at) == s.2
              && (!givenUp || Regular(d.reader.src, 0) ==> ItemsIn(members, blocks) == s.0)
              && (givenUp ==>
                    ItemsIn(members, blocks)
                    == ReadOverItems(d.tables, d.comps, old(d.lastDcVal), bs, members, old(GivenUp(d, members))).0)
  {
    hide BitReader.Valid, BitReader.Sound, Drop, AllDerived, AllShaped, ReadItems, ReadOverItems, Regular, UsesTables,
         Cleared, FastStream, Unread, SegmentEnd, ItemsIn, GivenUp;
    SoundIsValid(d.reader);
    ReaderHolds(d.reader);
    givenUp := false;
    var usefast := true;
    if d.restartInterval > 0 {
      if d.restartsToGo == 0 {
        ok := d.ProcessRestart();
        if !ok {
          return;
        }
        NothingDropped(d.reader.all);
      }
      usefast := false;
    }
    if d.reader.pos + BUFSIZE * |members| > |d.reader.src| || d.reader.marker != 0 {
      usefast := false;
    }
    givenUp := DecodeData(d, members, blocks, usefast);
    if d.restartInterval > 0 {
      d.restartsToGo := d.restartsToGo - 1;
    }
    ok := true;
  }

  /** Over cleared blocks decoding is as specified. */
  lemma OverCleared(d: DTables, comps: seq<Component>, last: seq<int>, bs: Bits, members: seq<nat>, ys: seq<Block>)
    requires |last| == |comps| && UsesTables(comps, d) && AllShaped(d) && |ys| == |members|
    requires forall i :: 0 <= i < |members| ==> members[i] < |comps|
    requires forall i :: 0 <= i < |ys| ==> ys[i] == Cleared()
    ensures ReadOverItems(d, comps, last, bs, members, ys) == ReadItems(d, comps, last, bs, members)
  {
    hide ReadItems, ReadOverItems, UsesTables, AllShaped;
    OverPrepared(d, comps, last, bs, members, ys);
  }
}
