/** One symbol through the derived tables: what the encoder's table writes, the decoder's table reads. */
module HuffmanSymbols {
  import opened Powers
  import opened BitStrings
  import opened HuffmanCodes
  import opened HuffmanDecoding
  import opened HuffmanBuilders

  /** Code p as bits. */
  ghost function CodeBits(sizes: seq<nat>, codes: seq<nat>, p: nat): Bits
    requires |codes| == |sizes| && p < |sizes|
  {
    WordBits(codes[p], sizes[p])
  }

  lemma CodeRange(c: nat, k: nat, n: nat, start: nat)
    requires 0 < k && c * k == start && start + k < n * k
    ensures c + 1 < n
  {
    assert (c + 1) * k == c * k + k;
    if n <= c + 1 {
      MulMonotone(n, c + 1, k);
    }
  }

  /** No code is all ones. */
  lemma NotAllOnes(sizes: seq<nat>, codes: seq<nat>, huffval: seq<nat>, p: nat)
    requires CodeTable(sizes, codes, huffval) && p < |sizes|
    ensures codes[p] + 1 < Pow2(sizes[p])
  {
    Pow2Add(sizes[p], MAX_LEN - sizes[p]);
    Pow2Values();
    StartMonotone(sizes, p + 1, |sizes|);
    assert IsCode(sizes, p, codes[p]);
    CodeRange(codes[p], Pow2(MAX_LEN - sizes[p]), Pow2(sizes[p]), Start(sizes, p));
  }

  /** Whatever follows a code, the next bits lie in its share. */
  lemma CodeInShare(sizes: seq<nat>, codes: seq<nat>, huffval: seq<nat>, p: nat, rest: Bits)
    requires CodeTable(sizes, codes, huffval) && p < |sizes|
    ensures InShare(sizes, p, CodeBits(sizes, codes, p) + rest)
  {
    hide Peek, Pow2;
    var bs := CodeBits(sizes, codes, p) + rest;
    NotAllOnes(sizes, codes, huffval, p);
    PeekWord(codes[p], sizes[p], rest);
    PeekPrefix(bs, sizes[p], MAX_LEN);
    assert IsCode(sizes, p, codes[p]);
    DoubleProduct(codes[p], Pow2(MAX_LEN - sizes[p]));
  }

  /** Decoding the code of a symbol followed by any bits gives the symbol and leaves those bits. */
  lemma CodeIsRead(sizes: seq<nat>, codes: seq<nat>, t: DTable, p: nat, rest: Bits)
    requires CodeTable(sizes, codes, t.huffval) && SerialOk(t, sizes, codes) && LookupOk(t, sizes, codes)
    requires p < |sizes|
    ensures LookupDecode(t, CodeBits(sizes, codes, p) + rest) == Symbol(t.huffval[p], sizes[p])
    ensures Drop(CodeBits(sizes, codes, p) + rest, sizes[p]) == rest
  {
    hide Peek, Pow2, Start, InShare, IsCode, SerialDecode, LookupDecode;
    NotAllOnes(sizes, codes, t.huffval, p);
    PeekWord(codes[p], sizes[p], rest);
    CodeInShare(sizes, codes, t.huffval, p, rest);
    SerialFinds(sizes, codes, t, p, CodeBits(sizes, codes, p) + rest, 1);
    PathsAgree(sizes, codes, t, CodeBits(sizes, codes, p) + rest);
  }

  /** No code begins another. */
  lemma PrefixFree(sizes: seq<nat>, codes: seq<nat>, huffval: seq<nat>, p: nat, q: nat)
    requires CodeTable(sizes, codes, huffval) && p < |sizes| && q < |sizes| && p != q
    ensures !(CodeBits(sizes, codes, p) <= CodeBits(sizes, codes, q))
  {
    hide InShare, Start, IsCode;
    var x, y := CodeBits(sizes, codes, p), CodeBits(sizes, codes, q);
    if x <= y {
      CodeInShare(sizes, codes, huffval, p, y[|x|..]);
      CodeInShare(sizes, codes, huffval, q, []);
      assert x + y[|x|..] == y && y + [] == y;
      OnlyShare(sizes, p, y);
    }
  }

  /** The canonical codes are determined by the lengths. */
  lemma SameCodes(sizes: seq<nat>, c: seq<nat>, d: seq<nat>, u: seq<nat>, v: seq<nat>)
    requires CodeTable(sizes, c, u) && CodeTable(sizes, d, v)
    ensures c == d
  {
    forall p | 0 <= p < |sizes|
      ensures c[p] == d[p]
    {
      assert IsCode(sizes, p, c[p]) && IsCode(sizes, p, d[p]);
      Cancel(c[p], d[p], Pow2(MAX_LEN - sizes[p]));
    }
  }

  /** What the encoder emits for a symbol: the low ehufsi bits of ehufco. */
  function SymbolBits(c: CTable, s: nat): Bits
    requires |c.ehufco| == |c.ehufsi| == 256 && s < 256
  {
    WordBits(c.ehufco[s], c.ehufsi[s])
  }

  /** The shapes that decoding relies on. */
  ghost predicate Usable(c: CTable, d: DTable) {
    && |c.ehufco| == |c.ehufsi| == 256
    && (forall s :: 0 <= s < 256 ==> c.ehufsi[s] <= MAX_LEN && c.ehufco[s] < Pow2(c.ehufsi[s]))
    && |d.maxcode| == |d.valoffset| == MAX_LEN + 2 && d.maxcode[MAX_LEN + 1] == SENTINEL && |d.lookup| == 0x100
  }

  /** Each symbol with a code is decoded from that code, whatever follows. */
  ghost predicate Paired(c: CTable, d: DTable) {
    && Usable(c, d)
    && forall s, rest ::
         0 <= s < 256 && c.ehufsi[s] > 0 ==> LookupDecode(d, SymbolBits(c, s) + rest) == Symbol(s, c.ehufsi[s])
  }

  lemma SymbolIsRead(c: CTable, d: DTable, s: nat, rest: Bits)
    requires Paired(c, d) && s < 256 && c.ehufsi[s] > 0
    ensures LookupDecode(d, SymbolBits(c, s) + rest) == Symbol(s, c.ehufsi[s])
    ensures Drop(SymbolBits(c, s) + rest, c.ehufsi[s]) == rest
  {
    PeekWord(c.ehufco[s], c.ehufsi[s], rest);
  }

  /** The two builders, given the same BITS and HUFFVAL, make tables that fit together. */
  lemma BuildersPair(bits: Counts, huffval: Values, c: CTable, d: DTable, ccodes: seq<nat>, dcodes: seq<nat>)
    requires CodeTable(Sizes(bits), ccodes, huffval)
    requires ValuesOk(huffval, |Sizes(bits)|, 255) && Encodes(c, Sizes(bits), ccodes, huffval, |Sizes(bits)|)
    requires CodeTable(Sizes(bits), dcodes, huffval) && d.huffval == huffval
    requires SerialOk(d, Sizes(bits), dcodes) && LookupOk(d, Sizes(bits), dcodes)
    ensures Paired(c, d)
  {
    hide SizesUpTo, Start, IsCode, SerialDecode, LookupDecode, Peek, Pow2;
    var sizes := Sizes(bits);
    SameCodes(sizes, ccodes, dcodes, huffval, huffval);
    forall s | 0 <= s < 256
      ensures c.ehufsi[s] <= MAX_LEN && c.ehufco[s] < Pow2(c.ehufsi[s])
      ensures c.ehufsi[s] > 0 ==>
        forall rest :: LookupDecode(d, SymbolBits(c, s) + rest) == Symbol(s, c.ehufsi[s])
    {
      if p :| 0 <= p < |sizes| && huffval[p] == s {
        NotAllOnes(sizes, ccodes, huffval, p);
        forall rest
          ensures LookupDecode(d, SymbolBits(c, s) + rest) == Symbol(s, c.ehufsi[s])
        {
          CodeIsRead(sizes, ccodes, d, p, rest);
        }
      }
    }
  }
}
