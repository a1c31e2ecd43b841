/** The bit buffer of the Huffman decoder and its refilling (jdhuff.h, jpeg_fill_bit_buffer). */
module BitReading {
  import opened Powers
  import opened BitStrings
  import opened ByteStrings
  import opened DataSource
  import opened RestartMarkers
  import opened MarkedBytes
  import opened BitWriting

  const MIN_GET_BITS := 57

  /** The data bits up to the next marker. */
  ghost function Unread(src: seq<Byte>, i: Input): Bits
    decreases if i.marker != 0 then 0 else SourceLeft(src, i.pos)
  {
    if i.marker != 0 then []
    else
      var (data, next) := NextData(src, i);
      if next.marker != 0 then []
      else
        NextIsLater(src, i);
        WordBits(data as int, 8) + Unread(src, next)
  }

  /** In a segment the unread bits are those of the bytes still to come. */
  lemma {:induction false} UnreadSegment(src: seq<Byte>, u: seq<Byte>, i: Input, k: nat)
    requires Segment(src, u) && k <= |u| && InputAt(u, i, k)
    ensures Unread(src, i) == ByteBits(u[k..])
    decreases |u| - k
  {
    hide Segment, NextData, WordBits, ByteBits;
    NextDataIs(src, u, i, k);
    if k < |u| {
      UnreadSegment(src, u, NextData(src, i).1, k + 1);
      assert u[k..] == [u[k]] + u[k + 1..];
      ByteBitsConcat([u[k]], u[k + 1..]);
      OneByte(u[k]);
    } else {
      NoByteBits();
      assert u[k..] == [];
    }
  }

  lemma OneByte(b: Byte)
    ensures ByteBits([b]) == WordBits(b as int, 8)
  {
    ByteBitsSnoc([], b);
    assert [] + [b] == [b] && ByteBits([]) + WordBits(b as int, 8) == WordBits(b as int, 8);
  }

  /**
   From `pos` on, no fill bytes stand in front of a stuffed zero: the first 0xFF that is not followed
   by 0 leads to a marker.
   */
  ghost predicate Regular(src: seq<Byte>, pos: nat)
    decreases |src| - pos
  {
    if pos + 1 >= |src| then true
    else if src[pos] != 0xFF then Regular(src, pos + 1)
    else if src[pos + 1] == 0 then Regular(src, pos + 2)
    else NextData(src, Input(pos, 0)).1.marker != 0
  }

  lemma StaysRegular(src: seq<Byte>, pos: nat)
    requires Regular(src, pos) && NextData(src, Input(pos, 0)).1.marker == 0
    ensures Regular(src, NextData(src, Input(pos, 0)).1.pos)
  {
    assert pos + 1 < |src| && src[pos] == 0xFF && src[pos + 1] == 0 ==> SkipFill(src, pos + 1) == pos + 1;
  }

  /** Stuffed bytes and a marker behind them are regular. */
  lemma {:induction false} SegmentIsRegular(src: seq<Byte>, u: seq<Byte>, k: nat)
    requires Segment(src, u) && k <= |u|
    ensures Regular(src, |Stuff(u[..k])|)
    decreases |u| - k
  {
    hide Stuff;
    if k < |u| {
      var head := Stuff(u[..k]);
      var last := if u[k] == 0xFF then [0xFF, 0] else [u[k]];
      SegmentIsRegular(src, u, k + 1);
      assert u[..k + 1] == u[..k] + [u[k]];
      StuffSnoc(u[..k], u[k]);
      StuffPrefix(u, k + 1);
      assert head + last <= src && src[|head|] == last[0];
      assert u[k] == 0xFF ==> src[|head| + 1] == last[1];
    } else {
      EndIsRegular(src, u);
      assert u[..k] == u;
    }
  }

  lemma EndIsRegular(src: seq<Byte>, u: seq<Byte>)
    requires Segment(src, u)
    ensures Regular(src, |Stuff(u)|)
  {
    hide Stuff;
  }

  /** The same bits, zeros without end behind both. */
  ghost predicate SameBits(a: Bits, b: Bits) {
    forall i: nat :: BitAt(a, i) == BitAt(b, i)
  }

  lemma {:induction false} SamePeek(a: Bits, b: Bits, n: nat)
    requires SameBits(a, b)
    ensures Peek(a, n) == Peek(b, n)
  {
    if n > 0 {
      SamePeek(a, b, n - 1);
    }
  }

  lemma SameDrop(a: Bits, b: Bits, n: nat)
    requires SameBits(a, b)
    ensures SameBits(Drop(a, n), Drop(b, n))
  {
    forall i: nat
      ensures BitAt(Drop(a, n), i) == BitAt(Drop(b, n), i)
    {
      DropAt(a, n, i);
      DropAt(b, n, i);
    }
  }

  lemma DropAt(a: Bits, n: nat, i: nat)
    ensures BitAt(Drop(a, n), i) == BitAt(a, n + i)
  {
  }

  lemma DropDrop(a: Bits, m: nat, n: nat)
    ensures Drop(Drop(a, m), n) == Drop(a, m + n)
  {
  }

  lemma DropRoom(a: Bits, m: nat, n: nat)
    ensures m <= |a| && n <= |Drop(a, m)| ==> m + n <= |a|
  {
  }

  /** Zeros put in for missing data change nothing. */
  lemma ZerosBehind(a: Bits, n: nat)
    ensures SameBits(a + WordBits(0, n), a)
  {
    hide WordBits;
    ZeroWord(n);
  }

  lemma {:induction false} ZeroWord(n: nat)
    ensures forall i :: 0 <= i < n ==> !WordBits(0, n)[i]
  {
    if n > 0 {
      ZeroWord(n - 1);
    }
  }

  /** The first n of the bits held are those that a shift brings down. */
  lemma TopBits(w: nat, n: nat, left: nat, rest: Bits)
    ensures Peek(WordBits(w, n + left) + rest, n) == ShiftRight(w, left) % Pow2(n)
    ensures Drop(WordBits(w, n + left) + rest, n) == WordBits(w, left) + rest
  {
    hide WordBits, Pow2, ShiftRight, Peek, Drop;
    WordSplit(w, n, left);
    var x := ShiftRight(w, left);
    WrappedBits(x, n, n);
    ModBound(x, Pow2(n));
    Regroup(WordBits(x, n), WordBits(w, left), rest);
    PeekWord(x % Pow2(n), n, WordBits(w, left) + rest);
  }

  class BitReader {
    const src: seq<Byte>
    var pos: nat            // next byte to read
    var marker: Byte        // unread_marker: the marker that was hit, 0 while there is none
    var getBuffer: nat      // current bit-extraction buffer; bits above the valid ones are stale
    var bitsLeft: int       // number of unused bits in it
    var insufficient: bool  // the data ended before the bits that were asked for
    ghost const all: Bits   // the bits of the segment
    ghost var at: nat       // how many of them have been taken

    ghost function Stream(): Bits
      requires 0 <= bitsLeft
      reads this
    {
      WordBits(getBuffer, bitsLeft) + Unread(src, Input(pos, marker))
    }

    /**
     What is buffered and unread is what follows the bits taken so far; made-up zeros are part of it
     only once the data was insufficient.
     */
    ghost predicate Valid()
      reads this
    {
      && 0 <= bitsLeft <= 64 && getBuffer < Pow2(64)
      && SameBits(Stream(), Drop(all, at))
      && (insufficient || (at <= |all| && Stream() == Drop(all, at)))
      && (marker == 0 && Regular(src, 0) ==> Regular(src, pos))
      && SegmentEnd(src, Input(pos, marker)) == SegmentEnd(src, Input(0, 0))
    }

    /** The data is found insufficient only by reading past its end. */
    ghost predicate Sound()
      reads this
    {
      Valid() && (insufficient ==> |all| < at)
    }

    constructor (src: seq<Byte>)
      ensures Sound() && this.src == src && all == Unread(src, Input(0, 0)) && at == 0 && !insufficient
    {
      this.src := src;
      pos, marker, getBuffer, bitsLeft, insufficient := 0, 0, 0, 0, false;
      all, at := Unread(src, Input(0, 0)), 0;
      new;
      NoWordBits(0);
      assert Stream() == all == Drop(all, 0);
    }

    lemma RegularHere()
      requires Valid()
      ensures marker == 0 && Regular(src, 0) ==> Regular(src, pos)
    {
    }

    /** The next byte; a stuffed zero and fill bytes are discarded, a marker is remembered. */
    method GetByte() returns (c: Byte)
      requires marker == 0
      modifies `pos, `marker
      ensures NextData(src, Input(old(pos), 0)) == (if marker == 0 then c else 0, Input(pos, marker))
    {
      c := SourceByte(src, pos);
      pos := pos + 1;
      if c == 0xFF {
        c, pos := SwallowFill(src, pos);
        if c == 0 {
          c := 0xFF;
        } else {
          marker := c;
        }
      }
    }

    /** Loads a data byte behind the bits held. */
    method LoadByte(c: Byte)
      requires 0 <= bitsLeft < MIN_GET_BITS && getBuffer < Pow2(64)
      modifies `getBuffer, `bitsLeft
      ensures bitsLeft == old(bitsLeft) + 8 && getBuffer < Pow2(64)
      ensures WordBits(getBuffer, bitsLeft) == WordBits(old(getBuffer), old(bitsLeft)) + WordBits(c as int, 8)
    {
      hide WordBits, Pow2, Shifted;
      Pow2Values();
      ShiftedBits(getBuffer, bitsLeft, c as int, 8);
      getBuffer := Shifted(getBuffer, 8, c as int);
      bitsLeft := bitsLeft + 8;
    }

    /** Makes up bits after the end of the data. */
    method FillWithZeros()
      requires Valid() && bitsLeft < MIN_GET_BITS && marker != 0
      modifies `getBuffer, `bitsLeft, `insufficient
      ensures Valid() && bitsLeft == MIN_GET_BITS && insufficient
    {
      insufficient := true;
      hide WordBits, Pow2, Shifted, SameBits;
      var n := MIN_GET_BITS - bitsLeft;
      ShiftedBits(getBuffer, bitsLeft, 0, n);
      ghost var held := WordBits(getBuffer, bitsLeft);
      ZerosBehind(held, n);
      assert held + [] == held && held + WordBits(0, n) + [] == held + WordBits(0, n);
      getBuffer := Shifted(getBuffer, n, 0);
      bitsLeft := MIN_GET_BITS;
      SameAsBoth(held + WordBits(0, n), held, Drop(all, at));
    }

    /** jpeg_fill_bit_buffer: at least `nbits` bits, zeros among them when a marker ends the data. */
    method Fill(nbits: nat)
      requires Valid() && nbits <= MIN_GET_BITS
      modifies `pos, `marker, `getBuffer, `bitsLeft, `insufficient
      ensures Valid() && bitsLeft >= nbits
      ensures insufficient ==> old(insufficient) || |all| < at + nbits
    {
      hide WordBits, Pow2, SameBits, NextData, Regular, SegmentEnd;
      if marker == 0 {
        while bitsLeft < MIN_GET_BITS
          invariant 0 <= bitsLeft <= 64 && getBuffer < Pow2(64) && marker == 0
          invariant Stream() == old(Stream()) && insufficient == old(insufficient)
          invariant Regular(src, 0) ==> Regular(src, pos)
          invariant SegmentEnd(src, Input(pos, 0)) == SegmentEnd(src, Input(0, 0))
          decreases MIN_GET_BITS - bitsLeft
        {
          ghost var held, i := WordBits(getBuffer, bitsLeft), Input(pos, 0);
          var c := GetByte();
          EndIsNext(src, i);
          if marker != 0 {
            break;
          }
          if Regular(src, i.pos) {
            StaysRegular(src, i.pos);
          }
          LoadByte(c);
          Regroup(held, WordBits(c as int, 8), Unread(src, Input(pos, marker)));
        }
      }
      if marker != 0 {
        if nbits > bitsLeft {
          FillWithZeros();
        }
      }
    }

    /** CHECK_BIT_BUFFER */
    method Check(nbits: nat)
      requires Valid() && nbits <= MIN_GET_BITS
      modifies `pos, `marker, `getBuffer, `bitsLeft, `insufficient
      ensures Valid() && bitsLeft >= nbits
      ensures insufficient ==> old(insufficient) || |all| < at + nbits
    {
      if bitsLeft < nbits {
        Fill(nbits);
      }
    }

    /** PEEK_BITS */
    method PeekBits(nbits: nat) returns (v: nat)
      requires Valid() && nbits <= bitsLeft
      ensures v == Peek(Drop(all, at), nbits)
    {
      hide WordBits, Pow2, ShiftRight, SameBits, Unread, Peek;
      TopBits(getBuffer, nbits, bitsLeft - nbits, Unread(src, Input(pos, marker)));
      SamePeek(Stream(), Drop(all, at), nbits);
      v := ShiftRight(getBuffer, bitsLeft - nbits) % Pow2(nbits);
    }

    /** DROP_BITS */
    method DropBits(nbits: nat)
      requires Valid() && nbits <= bitsLeft
      modifies `bitsLeft, `at
      ensures Valid() && bitsLeft == old(bitsLeft) - nbits && at == old(at) + nbits
    {
      hide WordBits, Pow2, ShiftRight, SameBits, Unread, Peek;
      TopBits(getBuffer, nbits, bitsLeft - nbits, Unread(src, Input(pos, marker)));
      SameDrop(Stream(), Drop(all, at), nbits);
      DropDrop(all, at, nbits);
      bitsLeft := bitsLeft - nbits;
      at := at + nbits;
    }

    /** GET_BITS */
    method GetBits(nbits: nat) returns (v: nat)
      requires Valid() && nbits <= bitsLeft
      modifies `bitsLeft, `at
      ensures Valid() && bitsLeft == old(bitsLeft) - nbits && at == old(at) + nbits
      ensures v == Peek(Drop(all, old(at)), nbits)
    {
      v := PeekBits(nbits);
      DropBits(nbits);
    }
  }

  lemma SameAsItself(a: Bits)
    ensures SameBits(a, a)
  {
  }

  lemma SameAsBoth(a: Bits, b: Bits, c: Bits)
    requires SameBits(a, b) && SameBits(b, c)
    ensures SameBits(a, c)
  {
  }
}
