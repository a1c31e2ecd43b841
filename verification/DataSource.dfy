/** The data source of an entropy-coded segment: stuffed bytes, fill bytes and the marker that ends it. */
module DataSource {
  import opened ByteStrings

  const EOI: Byte := 0xD9

  /** Past its end the data source supplies end-of-image markers. */
  function SourceByte(src: seq<Byte>, pos: nat): Byte {
    if pos < |src| then src[pos]
    else if (pos - |src|) % 2 == 0 then 0xFF
    else EOI
  }

  /** The first position at or after `pos` that does not hold 0xFF. */
  function SkipFill(src: seq<Byte>, pos: nat): (p: nat)
    ensures pos <= p && SourceByte(src, p) != 0xFF
    decreases if pos < |src| then |src| - pos + 1 else if SourceByte(src, pos) == 0xFF then 1 else 0
  {
    if SourceByte(src, pos) == 0xFF then SkipFill(src, pos + 1) else pos
  }

  /** Where reading stands, and the marker that was hit (0 while there is none). */
  datatype Input = Input(pos: nat, marker: Byte)

  /** The next data byte: stuffed zeros are dropped, zeros are supplied after a marker. */
  function NextData(src: seq<Byte>, i: Input): (Byte, Input) {
    if i.marker != 0 then (0, i)
    else if SourceByte(src, i.pos) != 0xFF then (SourceByte(src, i.pos), Input(i.pos + 1, 0))
    else
      var p := SkipFill(src, i.pos + 1);
      if SourceByte(src, p) == 0 then (0xFF, Input(p + 1, 0))
      else (0, Input(p + 1, SourceByte(src, p)))
  }

  /** `src` is the stuffed form of `u`, then a marker, reached after any number of fill bytes. */
  ghost predicate Segment(src: seq<Byte>, u: seq<Byte>)
  {
    var p := |Stuff(u)|;
    && Stuff(u) <= src
    && SourceByte(src, p) == 0xFF
    && SourceByte(src, SkipFill(src, p + 1)) != 0
  }

  /** `k` data bytes have been taken from the source. */
  ghost predicate InputAt(u: seq<Byte>, i: Input, k: nat)
  {
    if k <= |u| then i == Input(|Stuff(u[..k])|, 0) else i.marker != 0
  }

  lemma {:induction false} StuffPrefix(u: seq<Byte>, k: nat)
    requires k <= |u|
    ensures Stuff(u[..k]) <= Stuff(u)
    decreases |u|
  {
    if k < |u| {
      var t := u[..|u| - 1];
      assert u == t + [u[|u| - 1]] && u[..k] == t[..k];
      StuffPrefix(t, k);
      StuffSnoc(t, u[|u| - 1]);
    } else {
      assert u[..k] == u;
    }
  }

  /** Reading undoes the stuffing and continues with zeros behind the last byte. */
  lemma NextDataIs(src: seq<Byte>, u: seq<Byte>, i: Input, k: nat)
    requires Segment(src, u) && InputAt(u, i, k)
    ensures NextData(src, i).0 == ByteAt(u, k)
    ensures InputAt(u, NextData(src, i).1, k + 1)
  {
    if k < |u| {
      var head := Stuff(u[..k]);
      var last := if u[k] == 0xFF then [0xFF, 0] else [u[k]];
      assert u[..k + 1] == u[..k] + [u[k]];
      StuffSnoc(u[..k], u[k]);
      StuffPrefix(u, k + 1);
      assert head + last <= src;
      assert src[|head|] == last[0];
      if u[k] == 0xFF {
        assert src[|head| + 1] == last[1];
      }
    } else if k == |u| {
      assert u[..k] == u;
    }
  }

  /** What follows the data in the source: nothing, or a marker after any fill bytes. */
  predicate MarkerTail(tail: seq<Byte>) {
    tail == [] || (|tail| >= 2 && tail[0] == 0xFF && tail[1] != 0 && MarkerAfterFill(tail[1..]))
  }

  predicate MarkerAfterFill(tail: seq<Byte>) {
    tail != [] ==> tail[0] != 0 && (tail[0] == 0xFF ==> MarkerAfterFill(tail[1..]))
  }

  lemma {:induction false} FillEndsAtMarker(src: seq<Byte>, pos: nat)
    requires pos <= |src| && MarkerAfterFill(src[pos..])
    ensures SourceByte(src, SkipFill(src, pos)) != 0
    decreases |src| - pos
  {
    if pos < |src| {
      assert src[pos..][0] == src[pos] && src[pos..][1..] == src[pos + 1..];
      if src[pos] == 0xFF {
        FillEndsAtMarker(src, pos + 1);
      }
    } else {
      assert SkipFill(src, pos) == if SourceByte(src, pos) == 0xFF then pos + 1 else pos;
    }
  }

  /** A stuffed byte string with nothing or a marker behind it is a segment. */
  lemma StuffedIsSegment(u: seq<Byte>, tail: seq<Byte>)
    requires MarkerTail(tail)
    ensures Segment(Stuff(u) + tail, u)
  {
    var src, p := Stuff(u) + tail, |Stuff(u)|;
    if tail == [] {
      assert SkipFill(src, p + 1) == p + 1;
    } else {
      assert src[p + 1..] == tail[1..];
      FillEndsAtMarker(src, p + 1);
    }
  }
}
