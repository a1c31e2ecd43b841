/** Markers between segments: where the next one is, how next_marker finds it, and output with restart markers. */
module RestartMarkers {
  import opened ByteStrings
  import opened DataSource
  import opened MarkedBytes

  /** Bytes left in the source, counting the markers it supplies past its end. */
  function SourceLeft(src: seq<Byte>, pos: nat): nat {
    if pos < |src| then |src| - pos + 1 else if SourceByte(src, pos) == 0xFF then 0 else 1
  }

  lemma NextIsLater(src: seq<Byte>, i: Input)
    requires i.marker == 0 && NextData(src, i).1.marker == 0
    ensures SourceLeft(src, NextData(src, i).1.pos) < SourceLeft(src, i.pos)
  {
  }

  /** Where the next marker has been read. */
  ghost function SegmentEnd(src: seq<Byte>, i: Input): (end: Input)
    ensures end.marker != 0
    decreases if i.marker != 0 then 0 else SourceLeft(src, i.pos)
  {
    if i.marker != 0 then i
    else
      var next := NextData(src, i).1;
      if next.marker != 0 then next
      else
        NextIsLater(src, i);
        SegmentEnd(src, next)
  }

  lemma EndIsNext(src: seq<Byte>, i: Input)
    ensures SegmentEnd(src, i) == if i.marker != 0 then i else SegmentEnd(src, NextData(src, i).1)
  {
  }

  /** Only made-up markers lie outside the source, and they are not restart markers. */
  lemma {:induction false} EndInSource(src: seq<Byte>, pos: nat)
    ensures var end := SegmentEnd(src, Input(pos, 0)); end.marker == EOI || end.pos <= |src|
    decreases SourceLeft(src, pos)
  {
    hide SkipFill;
    var next := NextData(src, Input(pos, 0)).1;
    if next.marker == 0 {
      NextIsLater(src, Input(pos, 0));
      EndInSource(src, next.pos);
    }
  }

  lemma AtByte(u: seq<Byte>, i: Input, k: nat)
    requires k <= |u| && InputAt(u, i, k)
    ensures i == Input(|Stuff(u[..k])|, 0)
  {
  }

  /** Behind the last byte of a segment the marker is next. */
  lemma EndsHere(src: seq<Byte>, u: seq<Byte>, marker: Byte)
    requires Segment(src, u)
    requires |Stuff(u)| + 1 < |src| && src[|Stuff(u)| + 1] == marker && marker != 0 && marker != 0xFF
    ensures SegmentEnd(src, Input(|Stuff(u)|, 0)) == Input(|Stuff(u)| + 2, marker)
  {
    hide Stuff;
    assert SkipFill(src, |Stuff(u)| + 1) == |Stuff(u)| + 1;
  }

  /** A segment ends behind its marker. */
  lemma {:induction false} EndOfSegment(src: seq<Byte>, u: seq<Byte>, i: Input, k: nat, marker: Byte)
    requires Segment(src, u) && k <= |u| && InputAt(u, i, k)
    requires |Stuff(u)| + 1 < |src| && src[|Stuff(u)| + 1] == marker && marker != 0 && marker != 0xFF
    ensures SegmentEnd(src, i) == Input(|Stuff(u)| + 2, marker)
    decreases |u| - k
  {
    hide NextData, InputAt, SegmentEnd;
    EndIsNext(src, i);
    NextDataIs(src, u, i, k);
    AtByte(u, i, k);
    if k < |u| {
      EndOfSegment(src, u, NextData(src, i).1, k + 1, marker);
    } else {
      assert u[..k] == u;
      EndsHere(src, u, marker);
    }
  }

  /** The next marker, and what follows it. */
  ghost function FirstMarker(src: seq<Byte>): Input {
    SegmentEnd(src, Input(0, 0))
  }

  /** What the source holds behind its next marker. */
  ghost function Behind(src: seq<Byte>): seq<Byte> {
    if FirstMarker(src).pos <= |src| then src[FirstMarker(src).pos..] else []
  }

  // ------------------------------------------------------------------------------ next_marker

  /** A bound on the 0xFF bytes from pos on. */
  function FillLeft(src: seq<Byte>, pos: nat): nat {
    if pos < |src| then |src| - pos + 1 else if SourceByte(src, pos) == 0xFF then 1 else 0
  }

  lemma SkipFillStep(src: seq<Byte>, pos: nat)
    ensures SkipFill(src, pos) == if SourceByte(src, pos) == 0xFF then SkipFill(src, pos + 1) else pos
    ensures SourceByte(src, pos) == 0xFF ==> FillLeft(src, pos + 1) < FillLeft(src, pos)
  {
  }

  /** Skips bytes that are not 0xFF, and the 0xFF behind them. */
  method SkipToMark(src: seq<Byte>, start: nat) returns (pos: nat)
    ensures start < pos && SourceByte(src, pos - 1) == 0xFF && SourceLeft(src, pos - 1) <= SourceLeft(src, start)
    ensures SegmentEnd(src, Input(pos - 1, 0)) == SegmentEnd(src, Input(start, 0))
  {
    hide SegmentEnd, SkipFill;
    var c := SourceByte(src, start);
    pos := start + 1;
    while c != 0xFF
      invariant start < pos && c == SourceByte(src, pos - 1)
      invariant SegmentEnd(src, Input(pos - 1, 0)) == SegmentEnd(src, Input(start, 0))
      invariant SourceLeft(src, pos - 1) <= SourceLeft(src, start)
      decreases SourceLeft(src, pos - 1)
    {
      EndIsNext(src, Input(pos - 1, 0));
      c := SourceByte(src, pos);
      pos := pos + 1;
    }
  }

  /** Swallows duplicate 0xFF bytes; returns the byte behind them. */
  method SwallowFill(src: seq<Byte>, start: nat) returns (c: Byte, pos: nat)
    ensures pos == SkipFill(src, start) + 1 && c == SourceByte(src, pos - 1) != 0xFF
  {
    hide SkipFill, SourceByte, FillLeft;
    c := SourceByte(src, start);
    pos := start + 1;
    SkipFillStep(src, pos - 1);
    while c == 0xFF
      invariant 0 < pos && c == SourceByte(src, pos - 1) && SkipFill(src, pos - 1) == SkipFill(src, start)
      decreases FillLeft(src, pos - 1)
    {
      SkipFillStep(src, pos - 1);
      c := SourceByte(src, pos);
      pos := pos + 1;
    }
    SkipFillStep(src, pos - 1);
  }

  /** next_marker: skips what is left of the data, stuffed zeros and fill bytes as well. */
  method NextMarker(src: seq<Byte>, start: nat) returns (end: Input)
    ensures end == SegmentEnd(src, Input(start, 0))
  {
    hide SegmentEnd, SkipFill;
    var c: Byte := 0;
    var pos := start;
    while c == 0
      invariant SegmentEnd(src, Input(pos, c)) == SegmentEnd(src, Input(start, 0))
      decreases if c == 0 then SourceLeft(src, pos) + 1 else 0
    {
      pos := SkipToMark(src, pos);
      EndIsNext(src, Input(pos - 1, 0));
      c, pos := SwallowFill(src, pos);
    }
    EndIsNext(src, Input(pos, c));
    end := Input(pos, c);
  }

  // ------------------------------------------------------------------------- what is written

  const RST0 := 0xD0

  /** The marker behind segment k. */
  function RestartMarker(k: nat): (m: seq<Byte>)
    ensures |m| == 2
  {
    [0xFF, (RST0 + k % 8) as Byte]
  }

  /** Stuffed segments, each with its marker behind it. */
  ghost function Sections(raws: seq<seq<Byte>>): seq<Byte> {
    if raws == [] then []
    else
      var n := |raws| - 1;
      Sections(raws[..n]) + Stuff(raws[n]) + RestartMarker(n)
  }

  lemma NoSections(raws: seq<seq<Byte>>)
    ensures Sections(raws[..0]) == []
  {
  }

  lemma SectionsSnoc(raws: seq<seq<Byte>>, raw: seq<Byte>)
    ensures Sections(raws + [raw]) == Sections(raws) + Stuff(raw) + RestartMarker(|raws|)
  {
    assert (raws + [raw])[..|raws|] == raws;
  }

  /** What the destination holds in the end: no marker follows the last segment. */
  ghost function Output(raws: seq<seq<Byte>>): seq<Byte>
    requires raws != []
  {
    Sections(raws[..|raws| - 1]) + Stuff(raws[|raws| - 1])
  }

  lemma OutputSnoc(raws: seq<seq<Byte>>, raw: seq<Byte>)
    ensures Output(raws + [raw]) == Sections(raws) + Stuff(raw)
  {
    assert (raws + [raw])[..|raws|] == raws;
  }

  /** The output from segment k on. */
  ghost function OutputFrom(raws: seq<seq<Byte>>, k: nat): seq<Byte>
    requires k < |raws|
    decreases |raws| - k
  {
    if k + 1 == |raws| then Stuff(raws[k]) else Stuff(raws[k]) + RestartMarker(k) + OutputFrom(raws, k + 1)
  }

  lemma {:induction false} OutputInFull(raws: seq<seq<Byte>>, k: nat)
    requires k < |raws|
    ensures Sections(raws[..k]) + OutputFrom(raws, k) == Output(raws)
    decreases |raws| - k
  {
    hide Stuff;
    if k + 1 < |raws| {
      OutputInFull(raws, k + 1);
      assert raws[..k + 1] == raws[..k] + [raws[k]];
      SectionsSnoc(raws[..k], raws[k]);
      Regroup(Sections(raws[..k]), Stuff(raws[k]), RestartMarker(k));
      Regroup(Sections(raws[..k]), Stuff(raws[k]) + RestartMarker(k), OutputFrom(raws, k + 1));
    }
  }

  lemma WholeOutput(raws: seq<seq<Byte>>)
    requires raws != []
    ensures OutputFrom(raws, 0) == Output(raws)
  {
    hide Output, OutputFrom, Sections;
    OutputInFull(raws, 0);
    NoSections(raws);
    assert [] + OutputFrom(raws, 0) == OutputFrom(raws, 0);
  }

  lemma RestartIsMarker(k: nat, rest: seq<Byte>)
    ensures MarkerTail(RestartMarker(k) + rest)
  {
    var tail := RestartMarker(k) + rest;
    assert tail[1..][0] == tail[1];
  }

  lemma AtTheStart(u: seq<Byte>)
    ensures InputAt(u, Input(0, 0), 0)
  {
    assert u[..0] == [] && Stuff([]) == [];
  }

  /** What remains of the output begins with a segment, and its marker ends it. */
  lemma SegmentInOutput(raws: seq<seq<Byte>>, tail: seq<Byte>, k: nat, src: seq<Byte>)
    requires k < |raws| && src == OutputFrom(raws, k) + tail && MarkerTail(tail)
    ensures Segment(src, raws[k])
    ensures k + 1 < |raws| ==>
              && |Stuff(raws[k])| + 2 <= |src| && src[|Stuff(raws[k])| + 2..] == OutputFrom(raws, k + 1) + tail
              && FirstMarker(src) == Input(|Stuff(raws[k])| + 2, (RST0 + k % 8) as Byte)
  {
    hide Stuff, Segment, SegmentEnd, MarkerTail;
    var u := raws[k];
    if k + 1 == |raws| {
      StuffedIsSegment(u, tail);
    } else {
      var rest := OutputFrom(raws, k + 1) + tail;
      assert src == Stuff(u) + (RestartMarker(k) + rest);
      RestartIsMarker(k, rest);
      StuffedIsSegment(u, RestartMarker(k) + rest);
      AtTheStart(u);
      EndOfSegment(src, u, Input(0, 0), 0, (RST0 + k % 8) as Byte);
    }
  }
}
