/** Progressive scripts put together piece by piece, each component at one bit position for all its AC coefficients. */
module SearchedScripts {
  import opened Coefficients
  import opened ArithScans
  import opened ScanScript

  /** Where the script has brought each component: the DC coefficient, and all AC coefficients alike. */
  ghost predicate Levels(n: nat, tr: Tracker, dc: seq<int>, ac: seq<int>) {
    && Tracks(n, tr) && |dc| == |ac| == n
    && forall c :: 0 <= c < n ==> Uniform(tr.bits[c], dc[c], ac[c])
  }

  ghost predicate Uniform(bits: Block, dc: int, ac: int) {
    forall k :: 0 <= k < BLOCK_SIZE ==> bits[k] == if k == 0 then dc else ac
  }

  /** The scans so far are in order. */
  ghost predicate InOrder(n: nat, scans: seq<Scan>) {
    scans != [] && IsProgressive(scans) && forall i :: 0 <= i < |scans| ==> ErrorAt(n, scans, i) == NoError
  }

  /** The scans so far are in order and have brought the components to these positions. */
  ghost predicate Reaches(n: nat, scans: seq<Scan>, dc: seq<int>, ac: seq<int>) {
    InOrder(n, scans) && Levels(n, TrackerAfter(n, scans), dc, ac)
  }

  /** One scan more. */
  lemma OneMore(n: nat, scans: seq<Scan>, scan: Scan)
    requires InOrder(n, scans) && ScanError(n, true, scan, |scans| + 1, TrackerAfter(n, scans)) == NoError
    ensures InOrder(n, scans + [scan])
    ensures TrackerAfter(n, scans + [scan]) == AfterScan(n, scan, TrackerAfter(n, scans))
  {
    hide ScanError, AfterScan;
    var all := scans + [scan];
    assert all[..|scans|] == scans;
    forall i | 0 <= i < |all|
      ensures ErrorAt(n, all, i) == NoError
    {
      assert i < |scans| ==> ErrorAt(n, scans, i) == NoError && all[..i] == scans[..i];
    }
  }

  /** A script begins with the DC coefficients of some components. */
  lemma BeginDc(n: nat, comps: seq<int>)
    requires 1 <= |comps| <= MAX_COMPS_IN_SCAN && ComponentsOk(n, Scan(comps, 0, 0, 0, 0))
    ensures Reaches(n, [Scan(comps, 0, 0, 0, 0)],
                    seq(n, c requires 0 <= c < n => if c in comps then 0 else -1), seq(n, _ => -1))
  {
    var scan := Scan(comps, 0, 0, 0, 0);
    TrackerStart(n, [scan]);
    TrackerStep(n, [scan], 0);
    assert [scan][..1] == [scan];
    var tr := AfterScan(n, scan, NothingYet(n));
    assert TrackerAfter(n, [scan]) == tr;
    assert forall c :: 0 <= c < n ==> Uniform(tr.bits[c], if c in comps then 0 else -1, -1);
  }

  /** Then come the DC coefficients of others. */
  lemma AddDc(n: nat, scans: seq<Scan>, comps: seq<int>, dc: seq<int>, ac: seq<int>, dc1: seq<int>)
    requires Reaches(n, scans, dc, ac) && 1 <= |comps| <= MAX_COMPS_IN_SCAN && ComponentsOk(n, Scan(comps, 0, 0, 0, 0))
    requires forall i :: 0 <= i < |comps| ==> dc[comps[i]] == -1
    requires |dc1| == n && forall c :: 0 <= c < n ==> dc1[c] == if c in comps then 0 else dc[c]
    ensures Reaches(n, scans + [Scan(comps, 0, 0, 0, 0)], dc1, ac)
  {
    var scan := Scan(comps, 0, 0, 0, 0);
    var tr := TrackerAfter(n, scans);
    forall i | 0 <= i < |comps|
      ensures ComponentAllows(scan, tr.bits[comps[i]])
    {
      assert Uniform(tr.bits[comps[i]], dc[comps[i]], ac[comps[i]]);
    }
    OneMore(n, scans, scan);
    forall c | 0 <= c < n
      ensures Uniform(AfterScan(n, scan, tr).bits[c], dc1[c], ac[c])
    {
      assert Uniform(tr.bits[c], dc[c], ac[c]);
    }
  }

  /** One component takes part in an AC scan. */
  lemma AcScan(n: nat, scans: seq<Scan>, c: nat, scan: Scan)
    requires InOrder(n, scans) && c < n && scan.comps == [c] && BandOk(scan) && scan.ss > 0
    requires ComponentAllows(scan, TrackerAfter(n, scans).bits[c])
    ensures InOrder(n, scans + [scan])
    ensures TrackerAfter(n, scans + [scan]).bits == TrackerAfter(n, scans).bits[c := BitsAfter(scan, TrackerAfter(n, scans).bits[c])]
  {
    hide ComponentAllows, BitsAfter;
    OneMore(n, scans, scan);
  }

  /** The whole band at once, from nothing or from one bit above. */
  lemma AddWhole(n: nat, scans: seq<Scan>, c: nat, ah: int, al: int, dc: seq<int>, ac: seq<int>)
    requires Reaches(n, scans, dc, ac) && c < n && dc[c] >= 0 && 0 <= al < MAX_AH_AL
    requires if ac[c] < 0 then ah == 0 else ah == ac[c] && ah == al + 1
    ensures Reaches(n, scans + [Scan([c], 1, 63, ah, al)], dc, ac[c := al])
  {
    var scan := Scan([c], 1, 63, ah, al);
    var tr := TrackerAfter(n, scans);
    assert Uniform(tr.bits[c], dc[c], ac[c]);
    AcScan(n, scans, c, scan);
    forall i | 0 <= i < n
      ensures Uniform(TrackerAfter(n, scans + [scan]).bits[i], dc[i], ac[c := al][i])
    {
      assert Uniform(tr.bits[i], dc[i], ac[i]);
    }
  }

  /** The band in two parts. */
  lemma AddSplit(n: nat, scans: seq<Scan>, c: nat, k: nat, al: int, dc: seq<int>, ac: seq<int>)
    requires Reaches(n, scans, dc, ac) && c < n && dc[c] >= 0 && ac[c] < 0 && 0 <= al <= MAX_AH_AL && 1 <= k < 63
    ensures Reaches(n, scans + [Scan([c], 1, k, 0, al), Scan([c], k + 1, 63, 0, al)], dc, ac[c := al])
  {
    hide ScanError, AfterScan;
    var low, high := Scan([c], 1, k, 0, al), Scan([c], k + 1, 63, 0, al);
    var tr := TrackerAfter(n, scans);
    assert Uniform(tr.bits[c], dc[c], ac[c]);
    AcScan(n, scans, c, low);
    AcScan(n, scans + [low], c, high);
    var all := scans + [low] + [high];
    assert all == scans + [low, high];
    forall i | 0 <= i < n
      ensures Uniform(TrackerAfter(n, all).bits[i], dc[i], ac[c := al][i])
    {
      assert Uniform(tr.bits[i], dc[i], ac[i]);
    }
  }

  /** Scripts that send every component down to bit 0 are valid. */
  lemma CompleteIsValid(n: nat, scans: seq<Scan>, dc: seq<int>, ac: seq<int>)
    requires Reaches(n, scans, dc, ac) && (forall c :: 0 <= c < n ==> dc[c] == 0 && ac[c] == 0)
    ensures ValidScript(n, scans)
    ensures forall c, k :: 0 <= c < n && 0 <= k < BLOCK_SIZE ==> TrackerAfter(n, scans).bits[c][k] == 0
  {
    hide ErrorAt, TrackerAfter;
    assert forall c :: 0 <= c < n ==> Uniform(TrackerAfter(n, scans).bits[c], dc[c], ac[c]);
  }
}
