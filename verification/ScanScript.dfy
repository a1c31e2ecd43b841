/** The scan script validator of jcmaster.c (validate_script, scan search off, 8-bit samples). */
module ScanScript {
  import opened Coefficients
  import opened ArithScans

  const MAX_COMPS_IN_SCAN := 4
  const MAX_AH_AL := 10

  datatype ScriptError =
    | NoError
    | ComponentCount(count: int)
    | BadScanScript(scanno: nat)
    | BadProgScript(scanno: nat)
    | MissingData

  datatype Verdict = Accepted(progressive: bool) | Rejected(error: ScriptError)

  /** last_bitpos and component_sent. */
  datatype Tracker = Tracker(bits: seq<Block>, sent: seq<bool>)

  function UnsentBlock(): Block {
    seq(BLOCK_SIZE, _ => -1)
  }

  function NothingYet(n: nat): Tracker {
    Tracker(seq(n, _ => UnsentBlock()), seq(n, _ => false))
  }

  predicate ComponentsOk(n: nat, scan: Scan) {
    && (forall i :: 0 <= i < |scan.comps| ==> 0 <= scan.comps[i] < n)
    && (forall i :: 1 <= i < |scan.comps| ==> scan.comps[i - 1] < scan.comps[i])
  }

  predicate BandOk(scan: Scan) {
    && 0 <= scan.ss <= scan.se < BLOCK_SIZE
    && 0 <= scan.ah <= MAX_AH_AL && 0 <= scan.al <= MAX_AH_AL
    && (if scan.ss == 0 then scan.se == 0 else |scan.comps| == 1)
  }

  /** AC scans follow a DC scan, and bit positions follow on from each other. */
  predicate ComponentAllows(scan: Scan, bits: Block)
    requires BandOk(scan)
  {
    (scan.ss != 0 ==> bits[0] >= 0) && BandAllowed(scan, bits)
  }

  predicate Tracks(n: nat, tr: Tracker) {
    |tr.bits| == |tr.sent| == n
  }

  function ScanError(n: nat, progressive: bool, scan: Scan, scanno: nat, tr: Tracker): ScriptError
    requires Tracks(n, tr)
  {
    if !(1 <= |scan.comps| <= MAX_COMPS_IN_SCAN) then ComponentCount(|scan.comps|)
    else if !ComponentsOk(n, scan) then BadScanScript(scanno)
    else if progressive then
      if BandOk(scan) && forall i :: 0 <= i < |scan.comps| ==> ComponentAllows(scan, tr.bits[scan.comps[i]])
      then NoError else BadProgScript(scanno)
    else if scan.ss != 0 || scan.se != BLOCK_SIZE - 1 || scan.ah != 0 || scan.al != 0 then BadProgScript(scanno)
    else if exists i :: 0 <= i < |scan.comps| && tr.sent[scan.comps[i]] then BadScanScript(scanno)
    else NoError
  }

  function AfterScan(n: nat, scan: Scan, tr: Tracker): (t: Tracker)
    requires Tracks(n, tr)
    ensures Tracks(n, t)
  {
    Tracker(
      seq(n, c requires 0 <= c < n => if c in scan.comps then BitsAfter(scan, tr.bits[c]) else tr.bits[c]),
      seq(n, c requires 0 <= c < n => c in scan.comps || tr.sent[c]))
  }

  function TrackerAfter(n: nat, scans: seq<Scan>): (t: Tracker)
    ensures Tracks(n, t)
  {
    if scans == [] then NothingYet(n)
    else AfterScan(n, scans[|scans| - 1], TrackerAfter(n, scans[..|scans| - 1]))
  }

  /** The first scan decides the mode. */
  predicate IsProgressive(scans: seq<Scan>)
    requires scans != []
  {
    scans[0].ss != 0 || scans[0].se != BLOCK_SIZE - 1
  }

  /** The error of scan number i + 1, given that the scans before it were in order. */
  function ErrorAt(n: nat, scans: seq<Scan>, i: nat): ScriptError
    requires i < |scans|
  {
    ScanError(n, IsProgressive(scans), scans[i], i + 1, TrackerAfter(n, scans[..i]))
  }

  predicate EverythingSent(n: nat, progressive: bool, tr: Tracker)
    requires Tracks(n, tr)
  {
    forall c :: 0 <= c < n ==> if progressive then tr.bits[c][0] >= 0 else tr.sent[c]
  }

  /** A script is valid when every scan is, and each component's DC got sent. */
  predicate ValidScript(n: nat, scans: seq<Scan>) {
    && scans != []
    && (forall i :: 0 <= i < |scans| ==> ErrorAt(n, scans, i) == NoError)
    && EverythingSent(n, IsProgressive(scans), TrackerAfter(n, scans))
  }

  method ValidateScript(n: nat, scans: seq<Scan>) returns (verdict: Verdict)
    ensures verdict.Accepted? <==> ValidScript(n, scans)
    ensures verdict.Accepted? ==> verdict.progressive == IsProgressive(scans)
    ensures verdict.Rejected? && scans != [] && verdict.error != MissingData ==>
              exists i :: 0 <= i < |scans| && verdict.error == ErrorAt(n, scans, i) &&
                          forall j :: 0 <= j < i ==> ErrorAt(n, scans, j) == NoError
  {
    hide TrackerAfter, ScanError, EverythingSent;
    if scans == [] {
      return Rejected(BadScanScript(0));
    }
    var progressive := scans[0].ss != 0 || scans[0].se != BLOCK_SIZE - 1;
    var lastBitpos := new int[n, BLOCK_SIZE]((c, k) => -1);
    var componentSent := new bool[n](_ => false);
    TrackerStart(n, scans);
    ghost var tr := TrackerAfter(n, scans[..0]);
    for scanno := 0 to |scans|
      invariant tr == TrackerAfter(n, scans[..scanno])
      invariant Recorded(n, progressive, lastBitpos, componentSent, tr)
      invariant forall i :: 0 <= i < scanno ==> ErrorAt(n, scans, i) == NoError
      modifies lastBitpos, componentSent
    {
      var error := CheckScan(n, progressive, scans[scanno], scanno + 1, lastBitpos, componentSent, tr);
      if error != NoError {
        assert error == ErrorAt(n, scans, scanno);
        return Rejected(error);
      }
      TrackerStep(n, scans, scanno);
      tr := AfterScan(n, scans[scanno], tr);
    }
    assert scans[..|scans|] == scans;
    var sent := CheckSent(n, progressive, lastBitpos, componentSent, tr);
    return if sent then Accepted(progressive) else Rejected(MissingData);
  }

  lemma TrackerStart(n: nat, scans: seq<Scan>)
    ensures TrackerAfter(n, scans[..0]) == NothingYet(n)
  {
  }

  lemma TrackerStep(n: nat, scans: seq<Scan>, i: nat)
    requires i < |scans|
    ensures TrackerAfter(n, scans[..i + 1]) == AfterScan(n, scans[i], TrackerAfter(n, scans[..i]))
  {
    assert scans[..i + 1][..i] == scans[..i];
  }

  /** Row c of last_bitpos. */
  ghost predicate RowIs(lastBitpos: array2<int>, c: nat, bits: Block)
    requires c < lastBitpos.Length0 && lastBitpos.Length1 == BLOCK_SIZE
    reads lastBitpos
  {
    forall k :: 0 <= k < BLOCK_SIZE ==> lastBitpos[c, k] == bits[k]
  }

  /** The array that the mode uses holds what the tracker says. */
  ghost predicate Recorded(n: nat, progressive: bool, lastBitpos: array2<int>, componentSent: array<bool>, tr: Tracker)
    reads lastBitpos, componentSent
  {
    && Tracks(n, tr)
    && lastBitpos.Length0 == componentSent.Length == n && lastBitpos.Length1 == BLOCK_SIZE
    && if progressive then forall c :: 0 <= c < n ==> RowIs(lastBitpos, c, tr.bits[c])
       else componentSent[..] == tr.sent
  }

  /** Checks one component against its bit positions and moves them on. */
  method CheckComponent(scan: Scan, c: nat, lastBitpos: array2<int>, ghost bits: Block) returns (ok: bool)
    requires BandOk(scan) && c < lastBitpos.Length0 && lastBitpos.Length1 == BLOCK_SIZE
    requires RowIs(lastBitpos, c, bits)
    modifies lastBitpos
    ensures ok == ComponentAllows(scan, bits)
    ensures ok ==> RowIs(lastBitpos, c, BitsAfter(scan, bits))
    ensures forall d: nat, b: Block :: d < lastBitpos.Length0 && d != c && old(RowIs(lastBitpos, d, b)) ==>
              RowIs(lastBitpos, d, b)
  {
    if scan.ss != 0 && lastBitpos[c, 0] < 0 {
      return false;
    }
    for coefi := scan.ss to scan.se + 1
      invariant forall d, k :: 0 <= d < lastBitpos.Length0 && 0 <= k < BLOCK_SIZE ==>
        lastBitpos[d, k] == if d == c && scan.ss <= k < coefi then scan.al else old(lastBitpos[d, k])
      invariant forall k :: scan.ss <= k < coefi ==>
        if bits[k] < 0 then scan.ah == 0 else scan.ah == bits[k] && scan.al == scan.ah - 1
    {
      if lastBitpos[c, coefi] < 0 {
        if scan.ah != 0 {
          return false;
        }
      } else {
        if scan.ah != lastBitpos[c, coefi] || scan.al != scan.ah - 1 {
          return false;
        }
      }
      lastBitpos[c, coefi] := scan.al;
    }
    ok := true;
  }

  /** Components must exist and appear in ascending order. */
  method CheckComponents(n: nat, scan: Scan) returns (ok: bool)
    ensures ok == ComponentsOk(n, scan)
  {
    for ci := 0 to |scan.comps|
      invariant forall i :: 0 <= i < ci ==> 0 <= scan.comps[i] < n
      invariant forall i :: 1 <= i < ci ==> scan.comps[i - 1] < scan.comps[i]
    {
      var thisi := scan.comps[ci];
      if thisi < 0 || thisi >= n {
        return false;
      }
      if ci > 0 && thisi <= scan.comps[ci - 1] {
        return false;
      }
    }
    ok := true;
  }

  lemma {:induction false} Ascending(n: nat, scan: Scan, i: nat, j: nat)
    requires ComponentsOk(n, scan) && i < j < |scan.comps|
    ensures scan.comps[i] < scan.comps[j]
  {
    if i + 1 < j {
      Ascending(n, scan, i, j - 1);
    }
  }

  lemma FreshComponent(n: nat, scan: Scan, j: nat)
    requires ComponentsOk(n, scan) && j < |scan.comps|
    ensures scan.comps[j] !in scan.comps[..j]
  {
    forall i | 0 <= i < j
      ensures scan.comps[i] != scan.comps[j]
    {
      Ascending(n, scan, i, j);
    }
  }

  /** Bit positions after the first `ci` components of a scan. */
  ghost function BitsUpTo(scan: Scan, bits: seq<Block>, c: nat, ci: nat): Block
    requires c < |bits| && ci <= |scan.comps|
  {
    if c in scan.comps[..ci] then BitsAfter(scan, bits[c]) else bits[c]
  }

  lemma BitsStep(n: nat, scan: Scan, bits: seq<Block>, c: nat, ci: nat)
    requires ComponentsOk(n, scan) && c < |bits| == n && ci < |scan.comps|
    ensures BitsUpTo(scan, bits, c, ci + 1)
         == if c == scan.comps[ci] then BitsAfter(scan, bits[c]) else BitsUpTo(scan, bits, c, ci)
    ensures c == scan.comps[ci] ==> BitsUpTo(scan, bits, c, ci) == bits[c]
  {
    hide BitsAfter;
    assert scan.comps[..ci + 1] == scan.comps[..ci] + [scan.comps[ci]];
    FreshComponent(n, scan, ci);
  }

  method CheckAllowed(n: nat, scan: Scan, lastBitpos: array2<int>, ghost bits: seq<Block>) returns (ok: bool)
    requires ComponentsOk(n, scan) && BandOk(scan)
    requires |bits| == lastBitpos.Length0 == n && lastBitpos.Length1 == BLOCK_SIZE
    requires forall c :: 0 <= c < n ==> RowIs(lastBitpos, c, bits[c])
    modifies lastBitpos
    ensures ok == forall i :: 0 <= i < |scan.comps| ==> ComponentAllows(scan, bits[scan.comps[i]])
    ensures ok ==> forall c :: 0 <= c < n ==>
              RowIs(lastBitpos, c, if c in scan.comps then BitsAfter(scan, bits[c]) else bits[c])
  {
    hide ComponentAllows, BitsAfter, RowIs, BandOk, BitsUpTo;
    assert forall c :: 0 <= c < n ==> BitsUpTo(scan, bits, c, 0) == bits[c] by { NoBitsYet(scan, bits); }
    for ci := 0 to |scan.comps|
      invariant forall c :: 0 <= c < n ==> RowIs(lastBitpos, c, BitsUpTo(scan, bits, c, ci))
      invariant forall i :: 0 <= i < ci ==> ComponentAllows(scan, bits[scan.comps[i]])
    {
      BitsStep(n, scan, bits, scan.comps[ci], ci);
      var allowed := CheckComponent(scan, scan.comps[ci], lastBitpos, bits[scan.comps[ci]]);
      if !allowed {
        return false;
      }
      ghost var next := ci + 1;
      forall c | 0 <= c < n
        ensures RowIs(lastBitpos, c, BitsUpTo(scan, bits, c, next))
      {
        BitsStep(n, scan, bits, c, ci);
      }
    }
    AllBitsDone(scan, bits);
    ok := true;
  }

  lemma NoBitsYet(scan: Scan, bits: seq<Block>)
    ensures forall c :: 0 <= c < |bits| ==> BitsUpTo(scan, bits, c, 0) == bits[c]
  {
  }

  lemma AllBitsDone(scan: Scan, bits: seq<Block>)
    ensures forall c :: 0 <= c < |bits| ==>
              BitsUpTo(scan, bits, c, |scan.comps|) == if c in scan.comps then BitsAfter(scan, bits[c]) else bits[c]
  {
    hide BitsAfter;
    assert scan.comps[..|scan.comps|] == scan.comps;
  }

  method CheckProgressive(n: nat, scan: Scan, lastBitpos: array2<int>, ghost bits: seq<Block>) returns (ok: bool)
    requires ComponentsOk(n, scan) && |bits| == lastBitpos.Length0 == n && lastBitpos.Length1 == BLOCK_SIZE
    requires forall c :: 0 <= c < n ==> RowIs(lastBitpos, c, bits[c])
    modifies lastBitpos
    ensures ok == (BandOk(scan) &&
                   forall i :: 0 <= i < |scan.comps| ==> ComponentAllows(scan, bits[scan.comps[i]]))
    ensures ok ==> forall c :: 0 <= c < n ==>
              RowIs(lastBitpos, c, if c in scan.comps then BitsAfter(scan, bits[c]) else bits[c])
  {
    hide ComponentAllows, BitsAfter, RowIs, ComponentsOk;
    if scan.ss < 0 || scan.ss >= BLOCK_SIZE || scan.se < scan.ss || scan.se >= BLOCK_SIZE ||
       scan.ah < 0 || scan.ah > MAX_AH_AL || scan.al < 0 || scan.al > MAX_AH_AL {
      return false;
    }
    if scan.ss == 0 {
      if scan.se != 0 {
        return false;
      }
    } else if |scan.comps| != 1 {
      return false;
    }
    ok := CheckAllowed(n, scan, lastBitpos, bits);
  }

  /** Sequential scans may send each component once. */
  method CheckUnsent(n: nat, scan: Scan, componentSent: array<bool>) returns (ok: bool)
    requires ComponentsOk(n, scan) && componentSent.Length == n
    modifies componentSent
    ensures ok == !exists i :: 0 <= i < |scan.comps| && old(componentSent[..])[scan.comps[i]]
    ensures ok ==> forall c :: 0 <= c < n ==> componentSent[c] == (c in scan.comps || old(componentSent[c]))
  {
    for ci := 0 to |scan.comps|
      invariant forall c :: 0 <= c < n ==> componentSent[c] == (c in scan.comps[..ci] || old(componentSent[c]))
      invariant forall i :: 0 <= i < ci ==> !old(componentSent[scan.comps[i]])
    {
      var thisi := scan.comps[ci];
      FreshComponent(n, scan, ci);
      if componentSent[thisi] {
        return false;
      }
      componentSent[thisi] := true;
      assert scan.comps[..ci + 1] == scan.comps[..ci] + [thisi];
    }
    assert scan.comps[..|scan.comps|] == scan.comps;
    ok := true;
  }

  method CheckScan(n: nat, progressive: bool, scan: Scan, scanno: nat, lastBitpos: array2<int>,
                   componentSent: array<bool>, ghost tr: Tracker)
    returns (error: ScriptError)
    requires Recorded(n, progressive, lastBitpos, componentSent, tr)
    modifies lastBitpos, componentSent
    ensures error == ScanError(n, progressive, scan, scanno, tr)
    ensures error == NoError ==> Recorded(n, progressive, lastBitpos, componentSent, AfterScan(n, scan, tr))
  {
    hide ComponentAllows, BitsAfter, RowIs, BandOk;
    var ncomps := |scan.comps|;
    if ncomps <= 0 || ncomps > MAX_COMPS_IN_SCAN {
      return ComponentCount(ncomps);
    }
    var ordered := CheckComponents(n, scan);
    if !ordered {
      return BadScanScript(scanno);
    }
    if progressive {
      var allowed := CheckProgressive(n, scan, lastBitpos, tr.bits);
      return if allowed then NoError else BadProgScript(scanno);
    } else {
      if scan.ss != 0 || scan.se != BLOCK_SIZE - 1 || scan.ah != 0 || scan.al != 0 {
        return BadProgScript(scanno);
      }
      var unsent := CheckUnsent(n, scan, componentSent);
      return if unsent then NoError else BadScanScript(scanno);
    }
  }

  method CheckSent(n: nat, progressive: bool, lastBitpos: array2<int>, componentSent: array<bool>, ghost tr: Tracker)
    returns (ok: bool)
    requires Recorded(n, progressive, lastBitpos, componentSent, tr)
    ensures ok == EverythingSent(n, progressive, tr)
  {
    for ci := 0 to n
      invariant forall c :: 0 <= c < ci ==> if progressive then tr.bits[c][0] >= 0 else tr.sent[c]
    {
      if progressive {
        assert RowIs(lastBitpos, ci, tr.bits[ci]);
        if lastBitpos[ci, 0] < 0 {
          return false;
        }
      } else if !componentSent[ci] {
        return false;
      }
    }
    ok := true;
  }
}
