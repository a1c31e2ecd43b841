/** Restart intervals: the MCUs of a scan are cut into segments, each coded on its own, with markers between them. */
module HuffmanRestarts {
  import opened ByteStrings
  import opened Coefficients
  import opened MarkedBytes
  import opened BitWriting
  import opened HuffmanBlocks
  import opened HuffmanScans
  import opened RestartIntervals

  type Mcu = seq<Item>

  lemma PartsInScan(comps: seq<Component>, last: seq<int>, x: seq<Item>, y: seq<Item>)
    requires InScan(comps, last, x + y)
    ensures InScan(comps, last, x) && InScan(comps, last, y)
  {
    forall i | 0 <= i < |x|
      ensures x[i].ci < |comps| && Representable(x[i].z)
    {
      assert (x + y)[i] == x[i];
    }
    forall i | 0 <= i < |y|
      ensures y[i].ci < |comps| && Representable(y[i].z)
    {
      assert (x + y)[|x| + i] == y[i];
    }
  }

  // ---------------------------------------------------------------------------- segments

  /** All blocks of the segments belong to the scan. */
  ghost predicate AllInScan(comps: seq<Component>, segs: seq<seq<Mcu>>) {
    forall k :: 0 <= k < |segs| ==> InScan(comps, ZeroPredictors(|comps|), Flat(segs[k]))
  }

  lemma {:induction false} CutInScan(comps: seq<Component>, interval: nat, mcus: seq<Mcu>)
    requires InScan(comps, ZeroPredictors(|comps|), Flat(mcus))
    ensures AllInScan(comps, Cut(interval, mcus))
    decreases |mcus|
  {
    hide InScan, Flat;
    if interval > 0 && |mcus| > interval {
      assert mcus == mcus[..interval] + mcus[interval..];
      FlatConcat(mcus[..interval], mcus[interval..]);
      PartsInScan(comps, ZeroPredictors(|comps|), Flat(mcus[..interval]), Flat(mcus[interval..]));
      CutInScan(comps, interval, mcus[interval..]);
    }
  }

  /** The tokens of all segments; the predictors start from 0 in each. */
  ghost function SegmentTokens(comps: seq<Component>, segs: seq<seq<Mcu>>): seq<Token>
    requires AllInScan(comps, segs)
  {
    if segs == [] then []
    else
      var n := |segs| - 1;
      SegmentTokens(comps, segs[..n]) + ScanTokens(comps, ZeroPredictors(|comps|), Flat(segs[n]))
  }

  ghost predicate SegmentsCodable(comps: seq<Component>, segs: seq<seq<Mcu>>)
    requires AllInScan(comps, segs)
  {
    forall k :: 0 <= k < |segs| ==> ScanCodable(comps, ZeroPredictors(|comps|), Flat(segs[k]))
  }

  /** The tokens of a scan with restarts. */
  ghost function RestartTokens(comps: seq<Component>, interval: nat, mcus: seq<Mcu>): seq<Token>
    requires InScan(comps, ZeroPredictors(|comps|), Flat(mcus))
  {
    CutInScan(comps, interval, mcus);
    SegmentTokens(comps, Cut(interval, mcus))
  }

  /** Every value that is coded in a scan with restarts is in range. */
  ghost predicate RestartCodable(comps: seq<Component>, interval: nat, mcus: seq<Mcu>)
    requires InScan(comps, ZeroPredictors(|comps|), Flat(mcus))
  {
    CutInScan(comps, interval, mcus);
    SegmentsCodable(comps, Cut(interval, mcus))
  }

  /** The predictors behind a segment, which a restart takes back to 0. */
  ghost function NextPredictors(comps: seq<Component>, interval: nat, current: seq<Mcu>): seq<int>
    requires InScan(comps, ZeroPredictors(|comps|), Flat(current))
  {
    var zero := ZeroPredictors(|comps|);
    if interval > 0 && |current| == interval then zero else LastAfter(zero, Flat(current))
  }

  /** A scan is codable when its beginning is and the next MCU, coded from the predictors there. */
  lemma CodableSnoc(comps: seq<Component>, interval: nat, mcus: seq<Mcu>, m: Mcu, done: seq<seq<Mcu>>,
                    current: seq<Mcu>)
    requires Cut(interval, mcus) == done + [current] && InScan(comps, ZeroPredictors(|comps|), Flat(mcus + [m]))
    ensures InScan(comps, ZeroPredictors(|comps|), Flat(mcus)) && InScan(comps, ZeroPredictors(|comps|), m)
    ensures InScan(comps, ZeroPredictors(|comps|), Flat(current))
    ensures |NextPredictors(comps, interval, current)| == |comps|
    ensures RestartCodable(comps, interval, mcus + [m])
       <==> RestartCodable(comps, interval, mcus) && ScanCodable(comps, NextPredictors(comps, interval, current), m)
  {
    hide InScan, Flat, ScanCodable, Cut, AllInScan, SegmentsCodable, SegmentTokens;
    var zero := ZeroPredictors(|comps|);
    FlatPush(mcus, m);
    FlatPush(current, m);
    PartsInScan(comps, zero, Flat(mcus), m);
    CutInScan(comps, interval, mcus);
    LastCodable(comps, done, current);
    CutSnoc(interval, mcus, m, done, current);
    PredictorsBehind(comps, interval, current);
    ScanConcat(comps, zero, Flat(current), m);
    LastCodable(comps, done, current + [m]);
    LastCodable(comps, done + [current], [m]);
  }

  lemma PredictorsBehind(comps: seq<Component>, interval: nat, current: seq<Mcu>)
    requires InScan(comps, ZeroPredictors(|comps|), Flat(current))
    ensures |NextPredictors(comps, interval, current)| == |comps|
  {
  }

  lemma LastCodable(comps: seq<Component>, segs: seq<seq<Mcu>>, seg: seq<Mcu>)
    ensures AllInScan(comps, segs + [seg])
       <==> AllInScan(comps, segs) && InScan(comps, ZeroPredictors(|comps|), Flat(seg))
    ensures AllInScan(comps, segs + [seg]) ==>
              (SegmentsCodable(comps, segs + [seg])
               <==> SegmentsCodable(comps, segs) && ScanCodable(comps, ZeroPredictors(|comps|), Flat(seg)))
  {
    hide InScan, ScanCodable;
    var all := segs + [seg];
    assert all[|segs|] == seg && forall k :: 0 <= k < |segs| ==> all[k] == segs[k];
  }

  /** A scan whose beginning is not codable is not codable. */
  lemma {:induction false} PrefixCodable(comps: seq<Component>, interval: nat, mcus: seq<Mcu>, n: nat)
    requires n <= |mcus| && InScan(comps, ZeroPredictors(|comps|), Flat(mcus))
    ensures InScan(comps, ZeroPredictors(|comps|), Flat(mcus[..n]))
    ensures RestartCodable(comps, interval, mcus) ==> RestartCodable(comps, interval, mcus[..n])
    decreases |mcus|
  {
    hide InScan, Flat, RestartCodable, Cut;
    if n < |mcus| {
      var all, m := mcus[..|mcus| - 1], mcus[|mcus| - 1];
      assert mcus == all + [m] && mcus[..n] == all[..n];
      var segs := Cut(interval, all);
      assert segs == segs[..|segs| - 1] + [segs[|segs| - 1]];
      CodableSnoc(comps, interval, all, m, segs[..|segs| - 1], segs[|segs| - 1]);
      PrefixCodable(comps, interval, all, n);
    } else {
      assert mcus[..n] == mcus;
    }
  }

  // ---------------------------------------------------------------------------- the destination

  /** These bytes are the bits of the segment's blocks, padded with ones. */
  ghost predicate SegmentBytes(c: Tables, comps: seq<Component>, seg: seq<Mcu>, raw: seq<Byte>) {
    var zero := ZeroPredictors(|comps|);
    && InScan(comps, zero, Flat(seg)) && ScanCodable(comps, zero, Flat(seg))
    && AllWritable(c, ScanTokens(comps, zero, Flat(seg)))
    && exists padding: nat :: padding < 8
         && ByteBits(raw) == BitsOf(c, ScanTokens(comps, zero, Flat(seg))) + OneBits(padding)
  }

  ghost predicate AllBytes(c: Tables, comps: seq<Component>, segs: seq<seq<Mcu>>, raws: seq<seq<Byte>>) {
    |raws| == |segs| && forall k :: 0 <= k < |segs| ==> SegmentBytes(c, comps, segs[k], raws[k])
  }

  lemma AllBytesSnoc(c: Tables, comps: seq<Component>, segs: seq<seq<Mcu>>, raws: seq<seq<Byte>>, seg: seq<Mcu>,
                     raw: seq<Byte>)
    requires AllBytes(c, comps, segs, raws) && SegmentBytes(c, comps, seg, raw)
    ensures AllBytes(c, comps, segs + [seg], raws + [raw])
  {
    hide SegmentBytes;
  }

  lemma SegmentTokensSnoc(comps: seq<Component>, segs: seq<seq<Mcu>>, seg: seq<Mcu>)
    requires AllInScan(comps, segs) && InScan(comps, ZeroPredictors(|comps|), Flat(seg))
    ensures AllInScan(comps, segs + [seg])
    ensures SegmentTokens(comps, segs + [seg])
         == SegmentTokens(comps, segs) + ScanTokens(comps, ZeroPredictors(|comps|), Flat(seg))
  {
    hide InScan;
    assert (segs + [seg])[..|segs|] == segs;
  }
}
