/** Restart intervals: the MCUs of a scan are cut into segments of equal length. */
module RestartIntervals {
  import opened MarkedBytes

  ghost function Flat<T>(parts: seq<seq<T>>): seq<T> {
    if parts == [] then [] else parts[0] + Flat(parts[1..])
  }

  lemma {:induction false} FlatConcat<T>(x: seq<seq<T>>, y: seq<seq<T>>)
    ensures Flat(x + y) == Flat(x) + Flat(y)
  {
    if x == [] {
      assert x + y == y;
    } else {
      assert (x + y)[0] == x[0] && (x + y)[1..] == x[1..] + y;
      FlatConcat(x[1..], y);
      Regroup(x[0], Flat(x[1..]), Flat(y));
    }
  }

  lemma FlatFirst<T>(parts: seq<seq<T>>)
    ensures Flat(parts) == if parts == [] then [] else parts[0] + Flat(parts[1..])
    ensures |parts| == 1 ==> Flat(parts) == parts[0]
  {
    assert |parts| == 1 ==> parts[1..] == [];
  }

  lemma FlatPush<T>(parts: seq<seq<T>>, p: seq<T>)
    ensures Flat(parts + [p]) == Flat(parts) + p && Flat([p]) == p && Flat<T>([]) == []
  {
    hide Flat;
    FlatConcat(parts, [p]);
    FlatFirst([p]);
    FlatFirst<T>([]);
  }

  /** The MCUs between two markers; all of them in one segment when there is no restart interval. */
  ghost function Cut<T>(interval: nat, mcus: seq<T>): (segs: seq<seq<T>>)
    ensures segs != []
    decreases |mcus|
  {
    if interval == 0 || |mcus| <= interval then [mcus]
    else [mcus[..interval]] + Cut(interval, mcus[interval..])
  }

  /** Every segment but the last holds as many MCUs as the interval says, and the last one at least one. */
  lemma {:induction false} CutEvenly<T>(interval: nat, mcus: seq<T>, k: nat)
    requires interval > 0 && mcus != [] && k < |Cut(interval, mcus)|
    ensures 0 < |Cut(interval, mcus)[k]| <= interval
    ensures k < |Cut(interval, mcus)| - 1 ==> |Cut(interval, mcus)[k]| == interval
    decreases |mcus|
  {
    if |mcus| > interval && k > 0 {
      CutEvenly(interval, mcus[interval..], k - 1);
    }
  }

  /** The segments hold all MCUs, in their order. */
  lemma {:induction false} CutJoins<T>(interval: nat, mcus: seq<T>)
    ensures Flat(Cut(interval, mcus)) == mcus
    decreases |mcus|
  {
    if interval == 0 || |mcus| <= interval {
      assert [mcus][1..] == [];
    } else {
      CutJoins(interval, mcus[interval..]);
      assert ([mcus[..interval]] + Cut(interval, mcus[interval..]))[1..] == Cut(interval, mcus[interval..]);
    }
  }

  /** One MCU more: it begins a segment when the last one is full. */
  lemma {:induction false} CutSnoc<T>(interval: nat, mcus: seq<T>, m: T, done: seq<seq<T>>, current: seq<T>)
    requires Cut(interval, mcus) == done + [current]
    ensures interval > 0 ==> |current| <= interval
    ensures Cut(interval, mcus + [m])
         == if interval > 0 && |current| == interval then done + [current] + [[m]] else done + [current + [m]]
    decreases |mcus|
  {
    assert (done + [current])[|done|] == current;
    if interval == 0 || |mcus| <= interval {
      assert done == [] && current == mcus;
      if 0 < interval == |mcus| {
        assert (mcus + [m])[..interval] == mcus && (mcus + [m])[interval..] == [m];
      }
    } else {
      var rest := mcus[interval..];
      assert (mcus + [m])[..interval] == mcus[..interval] && (mcus + [m])[interval..] == rest + [m];
      assert Cut(interval, rest) == (done + [current])[1..] == done[1..] + [current];
      CutSnoc(interval, rest, m, done[1..], current);
    }
  }

  lemma SegmentSize<T>(interval: nat, mcus: seq<T>, k: nat)
    requires mcus != [] && k < |Cut(interval, mcus)|
    ensures interval > 0 ==> |Cut(interval, mcus)[k]| <= interval
    ensures |Cut(interval, mcus)| > 1 ==> interval > 0
  {
    if interval > 0 {
      CutEvenly(interval, mcus, k);
    }
  }

  /** When a segment is used up, the next one begins with the next MCU. */
  lemma SegmentsGoOn<T>(interval: nat, mcus: seq<T>, segs: seq<seq<T>>, n: nat, k: nat)
    requires segs == Cut(interval, mcus) && k < |segs| && n < |mcus| && mcus[n..] == Flat(segs[k + 1..])
    ensures interval > 0 && k + 1 < |segs| && |segs[k]| == interval && segs[k + 1] != []
    ensures mcus[n..] == segs[k + 1] + Flat(segs[k + 2..])
  {
    hide Cut;
    var later := segs[k + 1..];
    assert mcus[n..] != [];
    FlatFirst(later);
    SegmentSize(interval, mcus, k);
    CutEvenly(interval, mcus, k);
    CutEvenly(interval, mcus, k + 1);
    assert later[0] == segs[k + 1] && later[1..] == segs[k + 2..];
  }

  /** Where decoding stands: in segment k, with the MCUs `rest` of it ahead. */
  datatype Position<T> = InSegment(k: nat, rest: seq<T>)

  /** With these MCUs ahead, the counters of restarts are right. */
  ghost predicate Located<T>(interval: nat, segs: seq<seq<T>>, ahead: seq<T>, p: Position<T>, toGo: nat, num: nat) {
    && p.k < |segs| && |p.rest| <= |segs[p.k]| && ahead == p.rest + Flat(segs[p.k + 1..])
    && num == p.k % 8 && (interval > 0 ==> toGo == interval - (|segs[p.k]| - |p.rest|))
  }

  lemma AtFirstMcu<T>(interval: nat, mcus: seq<T>)
    ensures Located(interval, Cut(interval, mcus), mcus, InSegment(0, Cut(interval, mcus)[0]), interval, 0)
  {
    hide Cut;
    CutJoins(interval, mcus);
    FlatFirst(Cut(interval, mcus));
  }

  /** An MCU inside a segment: no restart is due before it. */
  lemma McuInside<T>(interval: nat, mcus: seq<T>, n: nat, p: Position<T>, toGo: nat, num: nat)
    requires n < |mcus| && p.rest != [] && Located(interval, Cut(interval, mcus), mcus[n..], p, toGo, num)
    ensures interval > 0 ==> toGo > 0
    ensures p.rest[0] == mcus[n]
    ensures Located(interval, Cut(interval, mcus), mcus[n + 1..], InSegment(p.k, p.rest[1..]),
                    if interval > 0 then toGo - 1 else toGo, num)
  {
    hide Cut;
    SegmentSize(interval, mcus, p.k);
    assert mcus[n..][0] == mcus[n] && mcus[n..][1..] == mcus[n + 1..];
  }

  /** An MCU behind the end of a segment: a restart is due, and then it is the first of the next segment. */
  lemma McuBehind<T>(interval: nat, mcus: seq<T>, n: nat, p: Position<T>, toGo: nat, num: nat)
    requires n < |mcus| && p.rest == [] && Located(interval, Cut(interval, mcus), mcus[n..], p, toGo, num)
    ensures interval > 0 && toGo == 0 && p.k + 1 < |Cut(interval, mcus)| && Cut(interval, mcus)[p.k + 1] != []
    ensures Located(interval, Cut(interval, mcus), mcus[n..], InSegment(p.k + 1, Cut(interval, mcus)[p.k + 1]), interval,
                    (num + 1) % 8)
  {
    hide Cut;
    var segs := Cut(interval, mcus);
    assert [] + Flat(segs[p.k + 1..]) == Flat(segs[p.k + 1..]);
    SegmentsGoOn(interval, mcus, segs, n, p.k);
  }

  /** With nothing ahead the last segment is used up. */
  lemma NothingAhead<T>(interval: nat, mcus: seq<T>, p: Position<T>, toGo: nat, num: nat)
    requires Located(interval, Cut(interval, mcus), mcus[|mcus|..], p, toGo, num)
    ensures p.rest == [] && p.k == |Cut(interval, mcus)| - 1
  {
    hide Cut;
    var segs := Cut(interval, mcus);
    FlatFirst(segs[p.k + 1..]);
    if p.k + 1 < |segs| {
      OneWhenEmpty(interval, mcus);
      SegmentSize(interval, mcus, p.k + 1);
      CutEvenly(interval, mcus, p.k + 1);
    }
  }

  lemma OneWhenEmpty<T>(interval: nat, mcus: seq<T>)
    ensures mcus == [] ==> |Cut(interval, mcus)| == 1
  {
  }
}
