/** Decoding what the encoder wrote: the two register layouts describe the same interval. */
module ArithRoundTrip {
  import opened Powers
  import opened ByteStrings
  import opened DataSource
  import opened ProbabilityTable
  import opened IntervalCoding
  import opened CodePoints
  import opened ArithDecoder

  /** The decoder's registers describe interval `v` and the part of the code read so far. */
  ghost predicate Matches(r: Registers, u: seq<Byte>, v: Interval)
  {
    && r.a == v.size
    && r.ct == Slack(v.shifts)
    && r.c == CodeAt(u, BytesFor(v.shifts)) - v.low * Pow2(Slack(v.shifts))
    && InputAt(u, r.input, BytesFor(v.shifts))
  }

  lemma ShiftedMatches(src: seq<Byte>, r: Registers, u: seq<Byte>, v: Interval)
    requires Segment(src, u) && 0 < v.size && Matches(r, u, v)
    ensures Ok(r) && Matches(Shifted(src, r), u, Doubled(v))
  {
    hide NextData, InputAt, Segment, ByteAt, Pow2, CodeAt;
    var k := BytesFor(v.shifts);
    if Slack(v.shifts) == 0 {
      NextDataIs(src, u, r.input, k);
      NextByte(u, k);
      assert BytesFor(v.shifts + 1) == k + 1 && Slack(v.shifts + 1) == 7;
      SmallPowers();
    } else {
      assert BytesFor(v.shifts + 1) == k && Slack(v.shifts) == Slack(v.shifts + 1) + 1;
      DoublePower(Slack(v.shifts + 1));
      MulAssoc(v.low, 2, Pow2(Slack(v.shifts + 1)));
    }
  }

  lemma {:induction false} FilledMatches(src: seq<Byte>, r: Registers, u: seq<Byte>, v: Interval)
    requires Segment(src, u) && 0 < v.size && Matches(r, u, v)
    ensures Ok(r) && Matches(Filled(src, r), u, Renormalized(v))
    decreases 0x8000 - v.size
  {
    hide Matches, Segment, Shifted;
    MatchesOk(r, u, v);
    if v.size < 0x8000 {
      ShiftedMatches(src, r, u, v);
      FilledMatches(src, Shifted(src, r), u, Doubled(v));
    }
  }

  lemma MatchesOk(r: Registers, u: seq<Byte>, v: Interval)
    requires 0 < v.size && Matches(r, u, v)
    ensures Ok(r) && r.a == v.size
  {
  }

  /** The first two bytes fill the registers for the unit interval. */
  lemma ResetMatches(src: seq<Byte>, u: seq<Byte>)
    requires Segment(src, u)
    ensures Matches(Filled(src, RESET), u, UNIT)
  {
    hide NextData, Segment;
    NextDataIs(src, u, Input(0, 0), 0);
    var r := Shifted(src, RESET);
    NextDataIs(src, u, r.input, 1);
    assert Filled(src, RESET) == Shifted(src, r);
    assert Pow2(0) == 1;
    assert CodeAt(u, 1) == ByteAt(u, 0) as int;
  }

  /** After its next renormalization the decoder is where the model is. */
  ghost predicate Follows(src: seq<Byte>, r: Registers, u: seq<Byte>, m: Normal)
  {
    && Ok(r)
    && Matches(Filled(src, r), u, m.interval)
    && r.stats == m.stats
  }

  /** The comparison in the decoder picks the part the encoder took. */
  lemma NarrowedMatches(r: Registers, u: seq<Byte>, m: Normal, d: Decision)
    requires Ok(r) && r.a >= 0x8000
    requires Matches(r, u, m.interval) && r.stats == m.stats
    requires var sv := Stat(m.stats, d.bin);
             Inside(u, Part(m.interval, EstimateOf(sv).qe, TakesUpper(m.interval.size, sv, d.bit)))
    ensures var sv := Stat(m.stats, d.bin);
            var (bit, s) := Narrowed(r, d.bin);
            && bit == d.bit
            && Matches(s, u, Part(m.interval, EstimateOf(sv).qe, TakesUpper(m.interval.size, sv, d.bit)))
            && s.stats == NextStats(m.stats, d.bin, m.interval.size, d.bit)
  {
    hide Stat, EstimateOf, Mps, AfterLps, AfterMps, InputAt, CodeAt, Slack, BytesFor;
    var v := m.interval;
    var sv := Stat(m.stats, d.bin);
    var rest := v.size - EstimateOf(sv).qe;
    var unit := Pow2(Slack(v.shifts));
    assert (v.low + rest) * unit == v.low * unit + rest * unit;
    assert r.c >= rest * unit <==> TakesUpper(v.size, sv, d.bit);
  }

  lemma DecodedFollows(src: seq<Byte>, r: Registers, u: seq<Byte>, m: Normal, d: Decision)
    requires Segment(src, u) && Follows(src, r, u, m) && Inside(u, Step(m, d).interval)
    ensures Decoded(src, r, d.bin).0 == d.bit
    ensures Follows(src, Decoded(src, r, d.bin).1, u, Step(m, d))
  {
    hide Matches, Narrowed, Inside, Segment, Filled, Stat, EstimateOf, TakesUpper;
    var sv := Stat(m.stats, d.bin);
    var part := Part(m.interval, EstimateOf(sv).qe, TakesUpper(m.interval.size, sv, d.bit));
    InsideRenormalized(u, part);
    NarrowedMatches(Filled(src, r), u, m, d);
    FilledMatches(src, Decoded(src, r, d.bin).1, u, part);
  }
}

/** The decoder as a reader of decisions, and end-to-end runs of both coders. */
module ArithSession {
  import opened ByteStrings
  import opened DataSource
  import opened IntervalCoding
  import opened CodePoints
  import opened ArithDecoder
  import opened ArithRoundTrip
  import ArithEncoder

  type Reader = r: Registers | Ok(r) witness RESET

  function Next(src: seq<Byte>, r: Reader, bin: Bin): (bool, Reader) {
    Decoded(src, r, bin)
  }

  /** A source, the data bytes in its segment, and the decisions they were written for. */
  datatype Transmission = Transmission(src: seq<Byte>, u: seq<Byte>, all: seq<Decision>)

  ghost predicate Transmitted(tx: Transmission) {
    Segment(tx.src, tx.u) && Inside(tx.u, Run(tx.all).interval)
  }

  /** The decisions already read when `ds` are the ones to come. */
  ghost function Past(tx: Transmission, ds: seq<Decision>): seq<Decision> {
    if |ds| <= |tx.all| then tx.all[..|tx.all| - |ds|] else []
  }

  /** The decoder has read everything up to `ds`, and its registers say so. */
  ghost predicate Coming(tx: Transmission, r: Reader, ds: seq<Decision>)
  {
    Transmitted(tx) && tx.all == Past(tx, ds) + ds && Follows(tx.src, r, tx.u, Run(Past(tx, ds)))
  }

  lemma {:induction false} PrefixInside(u: seq<Byte>, past: seq<Decision>, ds: seq<Decision>)
    requires Inside(u, Run(past + ds).interval)
    ensures Inside(u, Run(past).interval)
    decreases |ds|
  {
    hide Inside, Run, Step;
    if ds == [] {
      assert past + ds == past;
    } else {
      var init, last := ds[..|ds| - 1], ds[|ds| - 1];
      assert past + ds == past + init + [last];
      RunSnoc(past + init, last);
      InsideBefore(u, Run(past + init), last);
      PrefixInside(u, past, init);
    }
  }

  /** A decision asked for in its own context is read back. */
  lemma Reads(tx: Transmission, r: Reader, d: Decision, rest: seq<Decision>)
    requires Coming(tx, r, [d] + rest)
    ensures Next(tx.src, r, d.bin).0 == d.bit
    ensures Coming(tx, Next(tx.src, r, d.bin).1, rest)
  {
    hide Segment, Inside, Follows, Run, Decoded, Step;
    var past := Past(tx, [d] + rest);
    assert tx.all == past + [d] + rest;
    assert Past(tx, rest) == past + [d];
    RunSnoc(past, d);
    PrefixInside(tx.u, past + [d], rest);
    DecodedFollows(tx.src, r, tx.u, Run(past), d);
  }

  /** A freshly reset decoder is at the start of every segment the encoder finished. */
  lemma StartsReading(tx: Transmission)
    requires Transmitted(tx)
    ensures Coming(tx, RESET, tx.all)
  {
    hide Inside;
    ResetMatches(tx.src, tx.u);
    assert Past(tx, tx.all) == [];
    assert [] + tx.all == tx.all;
  }

  /** At every point the decoder's statistics bins are those the encoder had there. */
  lemma SameStatistics(tx: Transmission, r: Reader, ds: seq<Decision>)
    requires Coming(tx, r, ds)
    ensures tx.all == Past(tx, ds) + ds && r.stats == Run(Past(tx, ds)).stats
  {
  }

  /** The decisions of a coder whose contexts depend on the bits before. */
  function DecisionsFor(ctx: seq<bool> -> Bin, bits: seq<bool>): (ds: seq<Decision>)
    ensures |ds| == |bits|
  {
    if bits == [] then []
    else
      var before := bits[..|bits| - 1];
      DecisionsFor(ctx, before) + [Decision(ctx(before), bits[|bits| - 1])]
  }

  /** Codes bits in contexts chosen from the bits before them and ends the segment. */
  method EncodeBits(ctx: seq<bool> -> Bin, bits: seq<bool>) returns (out: seq<Byte>)
    ensures exists u :: out == Stuff(u) && Inside(u, Run(DecisionsFor(ctx, bits)).interval)
  {
    hide Inside, Run, Stuff, ArithEncoder.Encoder.Valid;
    var coder := new ArithEncoder.Encoder();
    for i := 0 to |bits|
      invariant fresh(coder) && coder.Valid() && coder.closed == []
      invariant coder.log == DecisionsFor(ctx, bits[..i])
    {
      assert bits[..i + 1][..i] == bits[..i];
      coder.Encode(ctx(bits[..i]), bits[i]);
    }
    assert bits[..|bits|] == bits;
    coder.FinishPass();
    assert [] + Stuff(coder.emitted) == Stuff(coder.emitted);
    out := coder.out;
  }

  /**
   The whole path through both coders: whatever the bits, and whatever rule derives contexts
   from earlier bits, the decoder returns them from the encoder's bytes.
   */
  method RoundTrip(ctx: seq<bool> -> Bin, bits: seq<bool>, tail: seq<Byte>) returns (decoded: seq<bool>)
    requires MarkerTail(tail)
    ensures decoded == bits
  {
    hide Inside, Run, Stuff, Coming, Decoded, DecisionsFor, Segment;
    var out := EncodeBits(ctx, bits);
    ghost var ds := DecisionsFor(ctx, bits);
    ghost var u :| out == Stuff(u) && Inside(u, Run(ds).interval);
    ghost var tx := Transmission(out + tail, u, ds);
    StuffedIsSegment(u, tail);
    StartsReading(tx);
    assert ds[0..] == ds;

    var decoder := new Decoder(out + tail);
    decoded := [];
    while |decoded| < |bits|
      invariant |decoded| <= |bits| && decoded == bits[..|decoded|]
      invariant fresh(decoder) && Ok(decoder.View())
      invariant decoder.src == tx.src && Coming(tx, decoder.View(), ds[|decoded|..])
    {
      var i := |decoded|;
      DecisionAt(ctx, bits, i);
      assert ds[i..] == [ds[i]] + ds[i + 1..];
      Reads(tx, decoder.View(), ds[i], ds[i + 1..]);
      var bit := decoder.Decode(ctx(decoded));
      decoded := decoded + [bit];
    }
  }

  lemma {:induction false} DecisionAt(ctx: seq<bool> -> Bin, bits: seq<bool>, i: nat)
    requires i < |bits|
    ensures DecisionsFor(ctx, bits)[i] == Decision(ctx(bits[..i]), bits[i])
  {
    var before := bits[..|bits| - 1];
    if i < |before| {
      DecisionAt(ctx, before, i);
      assert before[..i] == bits[..i];
    }
  }
}
