/** jpeg_make_c_derived_tbl and jpeg_make_d_derived_tbl. */
module HuffmanBuilders {
  import opened Powers
  import opened BitStrings
  import opened HuffmanCodes
  import opened HuffmanDecoding

  /** HUFFVAL is an array of 256 byte values. */
  type Values = v: seq<nat> | |v| == 256 && forall i :: 0 <= i < 256 ==> v[i] < 256
    witness seq(256, _ => 0)

  /** The encoding table: code and length of each symbol; length 0 marks a symbol without code. */
  datatype CTable = CTable(ehufco: seq<nat>, ehufsi: seq<nat>)

  datatype CResult = CDerived(table: CTable) | CBadTable

  datatype DResult = DDerived(table: DTable) | DBadTable

  /** Symbols in range, and none listed twice. */
  ghost predicate ValuesOk(huffval: Values, n: nat, maxsymbol: nat) {
    && n <= 256
    && (forall p :: 0 <= p < n ==> huffval[p] <= maxsymbol)
    && (forall p, q :: 0 <= p < q < n ==> huffval[p] != huffval[q])
  }

  /** Each listed symbol has its code, and no other symbol has one. */
  ghost predicate Encodes(t: CTable, sizes: seq<nat>, codes: seq<nat>, huffval: Values, n: nat)
    requires |codes| == |sizes| && n <= |sizes| <= 256
  {
    && |t.ehufco| == |t.ehufsi| == 256
    && (forall p :: 0 <= p < n ==> t.ehufco[huffval[p]] == codes[p] && t.ehufsi[huffval[p]] == sizes[p])
    && (forall s :: 0 <= s < 256 && (forall p :: 0 <= p < n ==> huffval[p] != s) ==> t.ehufsi[s] == 0 && t.ehufco[s] == 0)
  }

  /** jpeg_make_c_derived_tbl: what it accepts, and the table it makes. */
  method MakeCTable(bits: Counts, huffval: Values, isDC: bool) returns (r: CResult, ghost codes: seq<nat>)
    ensures r.CDerived? <==> Accepted(Sizes(bits)) && ValuesOk(huffval, |Sizes(bits)|, if isDC then 15 else 255)
    ensures r.CDerived? ==>
              && CodeTable(Sizes(bits), codes, huffval)
              && Encodes(r.table, Sizes(bits), codes, huffval, |Sizes(bits)|)
  {
    hide Start, IsCode;
    codes := [];
    var ok, huffsize := MakeSizes(bits);
    if !ok {
      return CBadTable, codes;
    }
    var huffcode;
    ok, huffcode := MakeCodes(huffsize);
    codes := huffcode;
    if !ok {
      return CBadTable, codes;
    }
    var table;
    ok, table := MakeEncoding(huffsize, huffcode, huffval, if isDC then 15 else 255);
    r := if ok then CDerived(table) else CBadTable;
  }

  /** Figure C.3: code and length indexed by symbol; refuses symbols out of range or listed twice. */
  method MakeEncoding(huffsize: seq<nat>, huffcode: seq<nat>, huffval: Values, maxsymbol: nat)
    returns (ok: bool, table: CTable)
    requires |huffcode| == |huffsize| <= 256 && maxsymbol < 256
    requires forall p :: 0 <= p < |huffsize| ==> 0 < huffsize[p]
    ensures ok <==> ValuesOk(huffval, |huffsize|, maxsymbol)
    ensures ok ==> Encodes(table, huffsize, huffcode, huffval, |huffsize|)
  {
    var ehufco: seq<nat> := seq(256, _ => 0);
    var ehufsi: seq<nat> := seq(256, _ => 0);
    for p := 0 to |huffsize|
      invariant Encodes(CTable(ehufco, ehufsi), huffsize, huffcode, huffval, p)
      invariant ValuesOk(huffval, p, maxsymbol)
    {
      var i := huffval[p];
      if i > maxsymbol || ehufsi[i] != 0 {
        return false, CTable(ehufco, ehufsi);
      }
      ehufco := ehufco[i := huffcode[p]];
      ehufsi := ehufsi[i := huffsize[p]];
    }
    return true, CTable(ehufco, ehufsi);
  }

  /** Codes of the same length follow on from each other. */
  lemma {:induction false} Consecutive(sizes: seq<nat>, codes: seq<nat>, p: nat, q: nat)
    requires Lengths(sizes) && |codes| == |sizes| && forall i :: 0 <= i < |sizes| ==> IsCode(sizes, i, codes[i])
    requires p <= q < |sizes| && sizes[p] == sizes[q]
    ensures codes[q] == codes[p] + (q - p)
    decreases q
  {
    if p < q {
      Consecutive(sizes, codes, p, q - 1);
      assert IsCode(sizes, q - 1, codes[q - 1]) && IsCode(sizes, q, codes[q]);
      NextOfLength(codes[q - 1], codes[q], Pow2(MAX_LEN - sizes[q]));
    }
  }

  lemma NextOfLength(x: nat, y: nat, k: nat)
    requires 0 < k && y * k == x * k + k
    ensures y == x + 1
  {
    assert (x + 1) * k == x * k + k && (x + 2) * k == (x + 1) * k + k;
    if y < x + 1 {
      MulMonotone(y, x, k);
    } else if x + 1 < y {
      MulMonotone(x + 2, y, k);
    }
  }

  /** Where the codes of length l lie among all codes. */
  lemma SizesAt(bits: Counts, l: nat)
    requires 1 <= l <= MAX_LEN
    ensures var f := |SizesUpTo(bits, l - 1)|;
            && |SizesUpTo(bits, l)| == f + bits[l] <= |Sizes(bits)|
            && forall p :: 0 <= p < |Sizes(bits)| ==> (f <= p < f + bits[l] <==> Sizes(bits)[p] == l)
  {
    SizesPrefix(bits, l, MAX_LEN);
    SizesPrefix(bits, l - 1, MAX_LEN);
  }

  lemma {:induction false} SizesPrefix(bits: Counts, l: nat, m: nat)
    requires l <= m <= MAX_LEN
    ensures |SizesUpTo(bits, l)| <= |SizesUpTo(bits, m)|
    ensures forall p :: 0 <= p < |SizesUpTo(bits, m)| ==>
              (p < |SizesUpTo(bits, l)| <==> SizesUpTo(bits, m)[p] <= l)
    ensures forall p :: 0 <= p < |SizesUpTo(bits, l)| ==> SizesUpTo(bits, m)[p] == SizesUpTo(bits, l)[p]
    decreases m
  {
    if l < m {
      SizesPrefix(bits, l, m - 1);
    }
  }

  /** Figure F.15, finished for the first p codes and lengths up to l. */
  ghost predicate SerialUpTo(maxcode: seq<int>, valoffset: seq<int>, sizes: seq<nat>, codes: seq<nat>, l: nat)
    requires |codes| == |sizes| && |maxcode| == |valoffset| == MAX_LEN + 2 && l <= MAX_LEN
  {
    && (forall p :: 0 <= p < |sizes| && 1 <= sizes[p] <= l ==>
          && codes[p] <= maxcode[sizes[p]]
          && codes[p] + valoffset[sizes[p]] == p)
    && (forall k :: 1 <= k <= l ==>
          maxcode[k] == -1 || exists p :: 0 <= p < |sizes| && sizes[p] == k && maxcode[k] == codes[p])
  }

  method MakeSerial(bits: Counts, huffcode: seq<nat>) returns (maxcode: seq<int>, valoffset: seq<int>)
    requires |huffcode| == |Sizes(bits)| && forall p :: 0 <= p < |huffcode| ==> IsCode(Sizes(bits), p, huffcode[p])
    ensures |maxcode| == |valoffset| == MAX_LEN + 2 && maxcode[MAX_LEN + 1] == SENTINEL
    ensures SerialUpTo(maxcode, valoffset, Sizes(bits), huffcode, MAX_LEN)
  {
    hide IsCode, Start, SizesUpTo;
    ghost var sizes := Sizes(bits);
    maxcode, valoffset := seq(MAX_LEN + 2, _ => 0), seq(MAX_LEN + 2, _ => 0);
    var p := 0;
    NoSizes(bits);
    for l := 1 to MAX_LEN + 1
      invariant |maxcode| == |valoffset| == MAX_LEN + 2
      invariant p == |SizesUpTo(bits, l - 1)|
      invariant SerialUpTo(maxcode, valoffset, sizes, huffcode, l - 1)
    {
      SizesAt(bits, l);
      if bits[l] != 0 {
        valoffset := valoffset[l := p - huffcode[p]];
        ghost var f := p;
        p := p + bits[l];
        forall q | f <= q < p
          ensures huffcode[q] == huffcode[f] + (q - f)
        {
          Consecutive(sizes, huffcode, f, q);
        }
        maxcode := maxcode[l := huffcode[p - 1]];
        assert sizes[p - 1] == l;
      } else {
        maxcode := maxcode[l := -1];
      }
    }
    valoffset := valoffset[MAX_LEN + 1 := 0];
    maxcode := maxcode[MAX_LEN + 1 := SENTINEL];
  }

  lemma NoSizes(bits: Counts)
    ensures |SizesUpTo(bits, 0)| == 0
  {
  }

  /** The lookaheads that begin with code p: a range of its own. */
  lemma BeginsRange(sizes: seq<nat>, codes: seq<nat>, p: nat)
    requires Accepted(sizes) && |codes| == |sizes| && p < |sizes| && sizes[p] <= LOOKAHEAD && IsCode(sizes, p, codes[p])
    ensures (codes[p] + 1) * Pow2(LOOKAHEAD - sizes[p]) <= 0x100
  {
    var m := LOOKAHEAD - sizes[p];
    Pow2Add(m, 8);
    Pow2Values();
    StartMonotone(sizes, p + 1, |sizes|);
    RangeEnd(codes[p], Pow2(m), Start(sizes, p));
  }

  lemma RangeEnd(c: nat, m: nat, start: nat)
    requires c * (m * 0x100) == start && start + m * 0x100 < 0x1_0000
    ensures (c + 1) * m <= 0x100
  {
    assert c * (m * 0x100) == c * m * 0x100;
    assert (c + 1) * m == c * m + m;
  }

  lemma BeginsOnce(sizes: seq<nat>, codes: seq<nat>, p: nat, q: nat, look: nat)
    requires Lengths(sizes) && |codes| == |sizes| && p < q < |sizes|
    requires IsCode(sizes, p, codes[p]) && IsCode(sizes, q, codes[q])
    ensures !(Begins(sizes, codes, p, look) && Begins(sizes, codes, q, look))
  {
    if sizes[p] <= LOOKAHEAD && sizes[q] <= LOOKAHEAD {
      var m, n := LOOKAHEAD - sizes[p], LOOKAHEAD - sizes[q];
      Pow2Add(m, 8);
      Pow2Add(n, 8);
      Pow2Values();
      StartMonotone(sizes, p + 1, q);
      RangesApart(codes[p], Pow2(m), Start(sizes, p), codes[q], Pow2(n), Start(sizes, q));
    }
  }

  lemma RangesApart(c: nat, m: nat, start: nat, d: nat, n: nat, later: nat)
    requires c * (m * 0x100) == start && d * (n * 0x100) == later && start + m * 0x100 <= later
    ensures (c + 1) * m <= d * n
  {
    assert c * (m * 0x100) == c * m * 0x100 && d * (n * 0x100) == d * n * 0x100;
    assert (c + 1) * m == c * m + m;
  }

  /** The lookahead table with the entries of the first n codes filled in. */
  ghost predicate LookupUpTo(lookup: seq<nat>, sizes: seq<nat>, codes: seq<nat>, huffval: Values, n: nat)
    requires |codes| == |sizes| <= 256 && n <= |sizes|
  {
    && |lookup| == 0x100
    && (forall p, look :: 0 <= p < n && 0 <= look < 0x100 && Begins(sizes, codes, p, look) ==>
          lookup[look] == sizes[p] * 0x100 + huffval[p])
    && (forall look :: 0 <= look < 0x100 && (forall p :: 0 <= p < n ==> !Begins(sizes, codes, p, look)) ==>
          lookup[look] == (LOOKAHEAD + 1) * 0x100)
  }

  lemma EntriesFilled(before: seq<nat>, after: seq<nat>, sizes: seq<nat>, codes: seq<nat>, huffval: Values, p: nat,
                      first: nat, last: nat)
    requires CodeTable(sizes, codes, huffval) && p < |sizes| && sizes[p] <= LOOKAHEAD
    requires LookupUpTo(before, sizes, codes, huffval, p) && |after| == 0x100
    requires first == codes[p] * Pow2(LOOKAHEAD - sizes[p]) && last == (codes[p] + 1) * Pow2(LOOKAHEAD - sizes[p])
    requires forall look :: 0 <= look < 0x100 ==>
               after[look] == if first <= look < last then sizes[p] * 0x100 + huffval[p] else before[look]
    ensures LookupUpTo(after, sizes, codes, huffval, p + 1)
  {
    hide Start, IsCode, Pow2;
    assert forall look :: 0 <= look < 0x100 ==> (first <= look < last <==> Begins(sizes, codes, p, look));
    forall q, look | 0 <= q < p + 1 && 0 <= look < 0x100 && Begins(sizes, codes, q, look)
      ensures after[look] == sizes[q] * 0x100 + huffval[q]
    {
      if q < p {
        BeginsOnce(sizes, codes, q, p, look);
      }
    }
    forall look | 0 <= look < 0x100 && forall q :: 0 <= q < p + 1 ==> !Begins(sizes, codes, q, look)
      ensures after[look] == (LOOKAHEAD + 1) * 0x100
    {
      assert !Begins(sizes, codes, p, look);
    }
  }

  lemma NotBegun(lookup: seq<nat>, sizes: seq<nat>, codes: seq<nat>, huffval: Values, n: nat)
    requires |codes| == |sizes| <= 256 && n <= |sizes|
    requires LookupUpTo(lookup, sizes, codes, huffval, n)
    requires forall p :: n <= p < |sizes| ==> sizes[p] > LOOKAHEAD
    ensures LookupUpTo(lookup, sizes, codes, huffval, |sizes|)
  {
  }

  /** The lookahead table. */
  method MakeLookup(bits: Counts, huffcode: seq<nat>, huffval: Values) returns (lookup: seq<nat>)
    requires CodeTable(Sizes(bits), huffcode, huffval)
    ensures LookupUpTo(lookup, Sizes(bits), huffcode, huffval, |huffcode|)
  {
    hide CodeTable, SizesUpTo, LookupUpTo;
    ghost var sizes := Sizes(bits);
    lookup := seq(0x100, _ => (LOOKAHEAD + 1) * 0x100);
    var p := 0;
    NoSizes(bits);
    CodeCount(sizes, huffcode, huffval);
    EmptyLookup(lookup, sizes, huffcode, huffval);
    for l := 1 to LOOKAHEAD + 1
      invariant p == |SizesUpTo(bits, l - 1)| <= |sizes|
      invariant LookupUpTo(lookup, sizes, huffcode, huffval, p)
    {
      SizesAt(bits, l);
      ghost var f := p;
      for i := 0 to bits[l]
        invariant p == f + i <= |sizes|
        invariant LookupUpTo(lookup, sizes, huffcode, huffval, p)
      {
        lookup := FillCode(lookup, bits, huffcode, huffval, p, l);
        p := p + 1;
      }
    }
    SizesPrefix(bits, LOOKAHEAD, MAX_LEN);
    NotBegun(lookup, sizes, huffcode, huffval, p);
  }

  /** One code of length l: the length is known from the loop, not from a list. */
  method FillCode(lookup0: seq<nat>, bits: Counts, huffcode: seq<nat>, huffval: Values, p: nat, l: nat)
    returns (lookup: seq<nat>)
    requires CodeTable(Sizes(bits), huffcode, huffval) && p < |huffcode| && l <= LOOKAHEAD && Sizes(bits)[p] == l
    requires LookupUpTo(lookup0, Sizes(bits), huffcode, huffval, p)
    ensures LookupUpTo(lookup, Sizes(bits), huffcode, huffval, p + 1)
  {
    hide Start, IsCode, Pow2, SizesUpTo;
    ghost var sizes := Sizes(bits);
    BeginsRange(sizes, huffcode, p);
    lookup := lookup0;
    var ctr := Pow2(LOOKAHEAD - l);
    DoubleProduct(huffcode[p], ctr);
    var lookbits := huffcode[p] * ctr;
    ghost var first, last := lookbits, lookbits + ctr;
    while ctr > 0
      invariant |lookup| == 0x100 && first <= lookbits && lookbits + ctr == last <= 0x100
      invariant forall look :: 0 <= look < 0x100 ==>
        lookup[look] == if first <= look < lookbits then l * 0x100 + huffval[p] else lookup0[look]
    {
      lookup := lookup[lookbits := l * 0x100 + huffval[p]];
      lookbits := lookbits + 1;
      ctr := ctr - 1;
    }
    EntriesFilled(lookup0, lookup, sizes, huffcode, huffval, p, first, last);
  }

  lemma CodeCount(sizes: seq<nat>, codes: seq<nat>, huffval: seq<nat>)
    requires CodeTable(sizes, codes, huffval)
    ensures |codes| == |sizes| <= 256
  {
  }

  lemma EmptyLookup(lookup: seq<nat>, sizes: seq<nat>, codes: seq<nat>, huffval: Values)
    requires |codes| == |sizes| <= 256 && |lookup| == 0x100
    requires forall look :: 0 <= look < 0x100 ==> lookup[look] == (LOOKAHEAD + 1) * 0x100
    ensures LookupUpTo(lookup, sizes, codes, huffval, 0)
  {
  }

  /** What a DC table may list. */
  ghost predicate SmallSymbols(huffval: Values, n: nat)
    requires n <= 256
  {
    forall p :: 0 <= p < n ==> huffval[p] <= 15
  }

  /** jpeg_make_d_derived_tbl: it accepts the same counts as the encoder's builder, and decodes them. */
  method MakeDTable(bits: Counts, huffval: Values, isDC: bool) returns (r: DResult, ghost codes: seq<nat>)
    ensures r.DDerived? <==> (Accepted(Sizes(bits)) && (isDC ==> SmallSymbols(huffval, |Sizes(bits)|)))
    ensures r.DDerived? ==>
              && CodeTable(Sizes(bits), codes, huffval) && r.table.huffval == huffval
              && SerialOk(r.table, Sizes(bits), codes) && LookupOk(r.table, Sizes(bits), codes)
  {
    hide Start, IsCode, SizesUpTo, Begins;
    codes := [];
    var ok, huffsize := MakeSizes(bits);
    if !ok {
      return DBadTable, codes;
    }
    var huffcode;
    ok, huffcode := MakeCodes(huffsize);
    codes := huffcode;
    if !ok {
      return DBadTable, codes;
    }
    var maxcode, valoffset := MakeSerial(bits, huffcode);
    var lookup := MakeLookup(bits, huffcode, huffval);
    if isDC {
      for i := 0 to |huffsize|
        invariant forall p :: 0 <= p < i ==> huffval[p] <= 15
      {
        if huffval[i] > 15 {
          return DBadTable, codes;
        }
      }
    }
    r := DDerived(DTable(maxcode, valoffset, lookup, huffval));
  }
}
