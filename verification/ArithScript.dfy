/** A progressive image sent with a whole scan script, one arithmetic-coded segment per scan. */
module ArithScript {
  import opened Coefficients
  import opened ByteStrings
  import opened IntervalCoding
  import opened CodePoints
  import opened ArithDecoder
  import opened DataSource
  import opened ArithRoundTrip
  import opened ArithSession
  import opened ArithScans
  import opened ArithImages
  import opened ArithRestarts
  import opened ScanScript

  /** A scan, the order in which it visits blocks, and the bytes it was coded into. */
  datatype SentScan = SentScan(scan: Scan, visits: seq<Visit>, src: seq<Byte>)

  function ScansOf(sent: seq<SentScan>): (scans: seq<Scan>)
    ensures |scans| == |sent|
  {
    seq(|sent|, i requires 0 <= i < |sent| => sent[i].scan)
  }

  /** The segment holds the scan's decisions, as the encoder writes them after start_pass. */
  ghost predicate Coded(f: Frame, z: Image, e: SentScan)
  {
    var routine := RoutineFor(true, e.scan);
    && Sound(routine, e.scan) && AllInImage(f, z, e.visits)
    && exists u :: Segment(e.src, u) && Inside(u, Run(ScanDecisions(f, routine, e.scan, ResetStates(|f.comps|), z, e.visits)).interval)
  }

  ghost predicate CodedAll(f: Frame, z: Image, content: set<Visit>, sent: seq<SentScan>)
  {
    forall i :: 0 <= i < |sent| ==>
      Coded(f, z, sent[i]) && WalkOk(RoutineFor(true, sent[i].scan), sent[i].scan, sent[i].visits, content)
  }

  /** The DC differences of a scan that starts from reset predictors are within the limit. */
  ghost predicate ScanInLimit(f: Frame, z: Image, e: SentScan)
    requires Sound(RoutineFor(true, e.scan), e.scan) && AllInImage(f, z, e.visits)
  {
    InLimit(f, RoutineFor(true, e.scan), e.scan, ResetStates(|f.comps|), z, e.visits)
  }

  ghost predicate AllInLimit(f: Frame, z: Image, content: set<Visit>, sent: seq<SentScan>)
    requires CodedAll(f, z, content, sent)
  {
    forall i :: 0 <= i < |sent| ==> assert Coded(f, z, sent[i]); ScanInLimit(f, z, sent[i])
  }

  /** Every scan stays inside the image. */
  ghost predicate Playable(f: Frame, sent: seq<SentScan>, y: Image)
  {
    forall i :: 0 <= i < |sent| ==>
      Sound(RoutineFor(true, sent[i].scan), sent[i].scan) && AllInImage(f, y, sent[i].visits)
  }

  /** The decoder's image after all scans, each read by a reset decoder, and whether none failed. */
  ghost function DecodeScans(f: Frame, sent: seq<SentScan>, y: Image): (d: (Image, bool))
    requires Playable(f, sent, y)
    ensures SameShape(y, d.0)
    decreases |sent|
  {
    if sent == [] then (y, true)
    else
      var (mid, ok) := DecodeScans(f, sent[..|sent| - 1], y);
      if !ok then (mid, false)
      else
        var e := sent[|sent| - 1];
        ShapeKeepsVisits(f, y, mid, e.visits);
        var d := ReadScan(e.src, RESET, f, RoutineFor(true, e.scan), e.scan, ResetStates(|f.comps|), mid, e.visits);
        (d.image, d.done)
  }

  lemma ShapeKeepsVisits(f: Frame, x: Image, y: Image, visits: seq<Visit>)
    requires AllInImage(f, x, visits) && SameShape(x, y)
    ensures AllInImage(f, y, visits)
  {
    forall n | 0 <= n < |visits|
      ensures InImage(f, y, visits[n])
    {
      assert InImage(f, x, visits[n]);
    }
  }

  ghost function BitsOf(content: set<Visit>, bits: seq<Block>): map<Visit, Block>
    requires forall v :: v in content ==> v.comp < |bits|
  {
    map v | v in content :: bits[v.comp]
  }

  /** A script without errors selects routines whose scan parameters are in range. */
  lemma ErrorFreeFits(n: nat, scan: Scan, scanno: nat, tr: Tracker)
    requires Tracks(n, tr) && ScanError(n, true, scan, scanno, tr) == NoError
    ensures Fits(RoutineFor(true, scan), scan)
    ensures forall c: nat :: c in scan.comps ==> c < n && BandAllowed(scan, tr.bits[c])
  {
    hide BandAllowed;
    forall c: nat | c in scan.comps
      ensures c < n && BandAllowed(scan, tr.bits[c])
    {
      var i :| 0 <= i < |scan.comps| && scan.comps[i] == c;
      assert ComponentAllows(scan, tr.bits[scan.comps[i]]);
    }
  }

  /** A walk touches exactly the content blocks of the scan's components. */
  lemma WalkMovesBits(n: nat, scan: Scan, visits: seq<Visit>, content: set<Visit>, tr: Tracker, routine: Routine)
    requires Tracks(n, tr) && WalkOk(routine, scan, visits, content)
    requires forall v :: v in content ==> v.comp < n
    ensures BitsAfterVisits(scan, BitsOf(content, tr.bits), visits)
         == BitsOf(content, AfterScan(n, scan, tr).bits)
  {
    hide BitsAfter;
    forall v | v in content
      ensures v in visits <==> v.comp in scan.comps
    {
    }
  }

  /** The components exist, the image has their shape, and the decoder's starts out zero. */
  ghost predicate Setting(f: Frame, z: Image, y: Image, content: set<Visit>) {
    && |z| == |f.comps| && SixteenBit(z) && SameShape(z, y)
    && (forall v :: v in content ==> InImage(f, z, v))
    && (forall c, i, k :: 0 <= c < |y| && 0 <= i < |y[c]| && 0 <= k < BLOCK_SIZE ==> y[c][i][k] == 0)
  }

  lemma NothingSentYet(f: Frame, z: Image, y: Image, content: set<Visit>)
    requires Setting(f, z, y, content)
    ensures Progress(z, y, BitsOf(content, NothingYet(|f.comps|).bits))
  {
    hide SixteenBit;
    forall v | v in content
      ensures HoldsBits(z[v.comp][v.index], y[v.comp][v.index], UnsentBlock())
    {
      assert InImage(f, z, v);
    }
  }

  ghost predicate ErrorFree(f: Frame, sent: seq<SentScan>)
  {
    forall i :: 0 <= i < |sent| ==>
      ScanError(|f.comps|, true, sent[i].scan, i + 1, TrackerAfter(|f.comps|, ScansOf(sent[..i]))) == NoError
  }

  /** One more scan: it is decoded if it is within the limit, and then the image holds what the bit positions say. */
  lemma ScanAdvances(f: Frame, z: Image, mid: Image, content: set<Visit>, e: SentScan, tr: Tracker, scanno: nat)
    requires |z| == |f.comps| && SixteenBit(z) && Tracks(|f.comps|, tr)
    requires forall v :: v in content ==> v.comp < |f.comps|
    requires Progress(z, mid, BitsOf(content, tr.bits))
    requires ScanError(|f.comps|, true, e.scan, scanno, tr) == NoError
    requires Coded(f, z, e) && WalkOk(RoutineFor(true, e.scan), e.scan, e.visits, content)
    requires AllInImage(f, mid, e.visits)
    ensures var d := ReadScan(e.src, RESET, f, RoutineFor(true, e.scan), e.scan, ResetStates(|f.comps|), mid, e.visits);
            && (d.done <==> ScanInLimit(f, z, e))
            && (d.done ==> Progress(z, d.image, BitsOf(content, AfterScan(|f.comps|, e.scan, tr).bits)))
  {
    hide ScanError, SixteenBit, Segment, Inside, Run, Fits, BandAllowed, Coming, AfterScan, ScanDecisions, ReadScan,
         Progress, InLimit;
    var routine, n := RoutineFor(true, e.scan), |f.comps|;
    ErrorFreeFits(n, e.scan, scanno, tr);
    FitsIsSound(routine, e.scan);
    var ds := ScanDecisions(f, routine, e.scan, ResetStates(n), z, e.visits);
    var u :| Segment(e.src, u) && Inside(u, Run(ds).interval);
    var tx := Transmission(e.src, u, ds);
    StartsReading(tx);
    assert ds + [] == ds;
    var bits := BitsOf(content, tr.bits);
    SameResetStates(n);
    ScanIsRead(tx, RESET, f, routine, e.scan, ResetStates(n), ResetStates(n), z, mid, bits, e.visits, []);
    WalkMovesBits(n, e.scan, e.visits, content, tr, routine);
  }

  lemma SameResetStates(n: nat)
    ensures StatesAgree(ResetStates(n), ResetStates(n))
  {
  }

  lemma FitsIsSound(routine: Routine, scan: Scan)
    requires Fits(routine, scan)
    ensures Sound(routine, scan)
  {
  }

  lemma LastScan(f: Frame, z: Image, y: Image, content: set<Visit>, sent: seq<SentScan>)
    requires sent != [] && ErrorFree(f, sent) && CodedAll(f, z, content, sent) && Playable(f, sent, y)
    ensures var init, e := sent[..|sent| - 1], sent[|sent| - 1];
            && ErrorFree(f, init) && CodedAll(f, z, content, init) && Playable(f, init, y)
            && ScansOf(sent)[..|sent| - 1] == ScansOf(init)
            && ScanError(|f.comps|, true, e.scan, |sent|, TrackerAfter(|f.comps|, ScansOf(init))) == NoError
            && Coded(f, z, e) && WalkOk(RoutineFor(true, e.scan), e.scan, e.visits, content)
            && AllInImage(f, y, e.visits)
            && (AllInLimit(f, z, content, sent) <==> AllInLimit(f, z, content, init) && ScanInLimit(f, z, e))
  {
    hide ScanError, WalkOk, TrackerAfter, Sound, AllInImage, Segment, Inside, Run, InLimit, ScanDecisions;
    var init := sent[..|sent| - 1];
    assert forall i :: 0 <= i < |init| ==> init[i] == sent[i] && init[..i] == sent[..i];
    assert forall i :: 0 <= i < |sent| ==> sent[i] == if i < |init| then init[i] else sent[|sent| - 1];
  }

  lemma {:induction false} ScansAdvance(f: Frame, z: Image, y: Image, content: set<Visit>, sent: seq<SentScan>)
    requires Setting(f, z, y, content) && ErrorFree(f, sent) && CodedAll(f, z, content, sent)
    requires Playable(f, sent, y)
    ensures var d := DecodeScans(f, sent, y);
            && (d.1 <==> AllInLimit(f, z, content, sent))
            && (d.1 ==> Progress(z, d.0, BitsOf(content, TrackerAfter(|f.comps|, ScansOf(sent)).bits)))
    decreases |sent|
  {
    hide ScanError, SixteenBit, Coded, WalkOk, Progress, ReadScan, AfterScan, ErrorFree, CodedAll, Playable, AllInImage,
         AllInLimit, ScanInLimit;
    assert forall v :: v in content ==> InImage(f, z, v);
    if sent == [] {
      NothingSentYet(f, z, y, content);
      NothingInLimit(f, z, content);
    } else {
      var init, e := sent[..|sent| - 1], sent[|sent| - 1];
      LastScan(f, z, y, content, sent);
      ScansAdvance(f, z, y, content, init);
      var (mid, ok) := DecodeScans(f, init, y);
      if ok {
        ShapeKeepsVisits(f, y, mid, e.visits);
        ScanAdvances(f, z, mid, content, e, TrackerAfter(|f.comps|, ScansOf(init)), |sent|);
      }
    }
  }

  lemma NothingInLimit(f: Frame, z: Image, content: set<Visit>)
    ensures CodedAll(f, z, content, []) && AllInLimit(f, z, content, [])
  {
  }

  /**
   Progressive round trip. When validate_script accepts a progressive script, its scans decode without error
   if and only if every DC difference is within the limit, and then restore each AC coefficient to sign(x) * ((|x| >> b) << b) and each DC to (x >> b) << b, where b
   is the last bit position the script sends for it; unsent coefficients stay zero.
   */
  lemma ProgressiveRoundTrip(f: Frame, z: Image, y: Image, content: set<Visit>, sent: seq<SentScan>)
    requires Setting(f, z, y, content) && CodedAll(f, z, content, sent) && Playable(f, sent, y)
    requires ValidScript(|f.comps|, ScansOf(sent)) && IsProgressive(ScansOf(sent))
    ensures DecodeScans(f, sent, y).1 <==> AllInLimit(f, z, content, sent)
    ensures var image := DecodeScans(f, sent, y).0;
            var bits := TrackerAfter(|f.comps|, ScansOf(sent)).bits;
            DecodeScans(f, sent, y).1 ==> forall v :: v in content ==>
              && v.comp < |image| && v.index < |image[v.comp]|
              && bits[v.comp][0] >= 0
              && forall k :: 0 <= k < BLOCK_SIZE ==>
                   image[v.comp][v.index][k] == Sent(z[v.comp][v.index][k], k, bits[v.comp][k])
  {
    hide ScanError, SixteenBit, Coded, WalkOk, ReadScan, AfterScan, CodedAll, Playable, AllInImage, DecodeScans, Sent,
         AllInLimit;
    var scans := ScansOf(sent);
    forall i | 0 <= i < |sent|
      ensures ScanError(|f.comps|, true, sent[i].scan, i + 1, TrackerAfter(|f.comps|, ScansOf(sent[..i]))) == NoError
    {
      assert ErrorAt(|f.comps|, scans, i) == NoError;
      assert scans[..i] == ScansOf(sent[..i]);
    }
    ScansAdvance(f, z, y, content, sent);
    assert forall v :: v in content ==> InImage(f, z, v);
  }

  /** A script that sends everything down to bit 0 restores the image exactly. */
  lemma CompleteRoundTrip(f: Frame, z: Image, y: Image, content: set<Visit>, sent: seq<SentScan>)
    requires Setting(f, z, y, content) && CodedAll(f, z, content, sent) && Playable(f, sent, y)
    requires ValidScript(|f.comps|, ScansOf(sent)) && IsProgressive(ScansOf(sent))
    requires forall c, k :: 0 <= c < |f.comps| && 0 <= k < BLOCK_SIZE ==>
               TrackerAfter(|f.comps|, ScansOf(sent)).bits[c][k] == 0
    requires AllInLimit(f, z, content, sent)
    ensures DecodeScans(f, sent, y).1
    ensures var image := DecodeScans(f, sent, y).0;
            forall v :: v in content ==>
              v.comp < |image| && v.index < |image[v.comp]| && image[v.comp][v.index] == z[v.comp][v.index]
  {
    hide ScanError, SixteenBit, Coded, WalkOk, ReadScan, AfterScan, CodedAll, Playable, AllInImage, DecodeScans, Sent,
         AllInLimit, ValidScript, TrackerAfter;
    ProgressiveRoundTrip(f, z, y, content, sent);
    var image := DecodeScans(f, sent, y).0;
    forall v | v in content
      ensures v.comp < |image| && v.index < |image[v.comp]| && image[v.comp][v.index] == z[v.comp][v.index]
    {
      assert InImage(f, z, v);
      forall k | 0 <= k < BLOCK_SIZE
        ensures image[v.comp][v.index][k] == z[v.comp][v.index][k]
      {
        ExactWhenComplete(z[v.comp][v.index][k], k);
      }
    }
  }
}
