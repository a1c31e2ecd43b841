/** Prefix codes as sets of bit strings, and why they satisfy Kraft's inequality. */
module PrefixCodes {
  import opened Powers
  import opened HuffmanOptimality
  import opened HuffmanTable

  type Word = seq<bool>

  ghost predicate IsPrefix(x: Word, y: Word) {
    |x| <= |y| && y[..|x|] == x
  }

  /** No code word of a symbol in use is a prefix of another's. */
  ghost predicate PrefixFree(freq: seq<nat>, words: seq<Word>) {
    && |freq| == |words|
    && forall s, t :: 0 <= s < |freq| && 0 <= t < |freq| && s != t && freq[s] != 0 && freq[t] != 0 ==>
         !IsPrefix(words[s], words[t])
  }

  ghost function Lengths(words: seq<Word>): (len: seq<nat>)
    ensures |len| == |words|
  {
    seq(|words|, s requires 0 <= s < |words| => |words[s]|)
  }

  /** The symbols whose word starts with `bit`. */
  ghost function Half(freq: seq<nat>, words: seq<Word>, bit: bool): (f: seq<nat>)
    requires |freq| == |words|
    ensures |f| == |freq|
  {
    seq(|freq|, s requires 0 <= s < |freq| => if words[s] != [] && words[s][0] == bit then freq[s] else 0)
  }

  ghost function Tails(words: seq<Word>): (t: seq<Word>)
    ensures |t| == |words|
  {
    seq(|words|, s requires 0 <= s < |words| => if words[s] == [] then [] else words[s][1..])
  }

  lemma HalfIsPrefixFree(freq: seq<nat>, words: seq<Word>, bit: bool)
    requires PrefixFree(freq, words)
    ensures PrefixFree(Half(freq, words, bit), Tails(words))
  {
    var f, t := Half(freq, words, bit), Tails(words);
    forall x, y | 0 <= x < |f| && 0 <= y < |f| && x != y && f[x] != 0 && f[y] != 0
      ensures !IsPrefix(t[x], t[y])
    {
      assert words[x] == [bit] + t[x] && words[y] == [bit] + t[y];
      SamePrefix(bit, t[x], t[y]);
    }
  }

  lemma SamePrefix(bit: bool, x: Word, y: Word)
    ensures IsPrefix([bit] + x, [bit] + y) <==> IsPrefix(x, y)
  {
    var x', y' := [bit] + x, [bit] + y;
    if |x| <= |y| {
      assert y'[..|x'|] == [bit] + y[..|x|];
      assert x'[1..] == x && y'[..|x'|][1..] == y[..|x|];
    }
  }

  lemma {:induction false} SumOfSums(s: seq<int>, t: seq<int>, u: seq<int>)
    requires TermsAddUp(u, s, t)
    ensures Sum(u) == Sum(s) + Sum(t)
  {
    if s != [] {
      SumOfSums(s[..|s| - 1], t[..|t| - 1], u[..|u| - 1]);
    }
  }

  /** A single symbol with the empty word. */
  lemma EmptyWordAlone(freq: seq<nat>, words: seq<Word>, m: nat, s: nat)
    requires PrefixFree(freq, words) && s < |freq| && freq[s] != 0 && words[s] == []
    requires Within(freq, Lengths(words), m)
    ensures Sum(KraftTerms(freq, Lengths(words), m)) == Pow2(m)
  {
    var terms := KraftTerms(freq, Lengths(words), m);
    forall t | 0 <= t < |freq| && t != s
      ensures terms[t] == 0
    {
      assert IsPrefix(words[s], words[t]);
    }
    SumUpdate(terms, s, 0);
    SumOfZeros(terms[s := 0]);
  }

  ghost predicate TermsAddUp(u: seq<int>, s: seq<int>, t: seq<int>) {
    |s| == |t| == |u| && forall i :: 0 <= i < |s| ==> u[i] == s[i] + t[i]
  }

  /** The terms of the two halves, at half the precision. */
  lemma TermsOfHalves(freq: seq<nat>, words: seq<Word>, m: nat)
    requires |freq| == |words| && 0 < m && Within(freq, Lengths(words), m)
    requires forall s :: 0 <= s < |freq| && freq[s] != 0 ==> words[s] != []
    ensures Within(Half(freq, words, false), Lengths(Tails(words)), m - 1)
    ensures Within(Half(freq, words, true), Lengths(Tails(words)), m - 1)
    ensures TermsAddUp(KraftTerms(freq, Lengths(words), m),
                       KraftTerms(Half(freq, words, false), Lengths(Tails(words)), m - 1),
                       KraftTerms(Half(freq, words, true), Lengths(Tails(words)), m - 1))
  {
    hide Pow2;
  }

  /** Kraft's inequality. */
  lemma {:induction false} PrefixCodeIsKraft(freq: seq<nat>, words: seq<Word>, m: nat)
    requires PrefixFree(freq, words) && Within(freq, Lengths(words), m)
    ensures Kraft(freq, Lengths(words), m)
    decreases m
  {
    if s: nat :| s < |freq| && freq[s] != 0 && words[s] == [] {
      EmptyWordAlone(freq, words, m, s);
    } else if m == 0 {
      SumOfZeros(KraftTerms(freq, Lengths(words), m));
    } else {
      HalvesAddUp(freq, words, m);
    }
  }

  lemma {:induction false} HalvesAddUp(freq: seq<nat>, words: seq<Word>, m: nat)
    requires |freq| == |words| && PrefixFree(freq, words) && 0 < m && Within(freq, Lengths(words), m)
    requires forall s :: 0 <= s < |freq| && freq[s] != 0 ==> words[s] != []
    ensures Kraft(freq, Lengths(words), m)
    decreases m, 0
  {
    hide Half, Tails, Lengths, Sum, KraftTerms, Pow2, Within, PrefixFree;
    var f0, f1, t := Half(freq, words, false), Half(freq, words, true), Tails(words);
    HalfIsPrefixFree(freq, words, false);
    HalfIsPrefixFree(freq, words, true);
    TermsOfHalves(freq, words, m);
    PrefixCodeIsKraft(f0, t, m - 1);
    PrefixCodeIsKraft(f1, t, m - 1);
    SumOfSums(KraftTerms(f0, Lengths(t), m - 1), KraftTerms(f1, Lengths(t), m - 1), KraftTerms(freq, Lengths(words), m));
    DoublePower(m - 1);
  }

  lemma {:induction false} LongestWord(freq: seq<nat>, words: seq<Word>, n: nat) returns (m: nat)
    requires |freq| == |words| && n <= |freq|
    ensures forall s :: 0 <= s < n && freq[s] != 0 ==> |words[s]| <= m
  {
    if n == 0 {
      m := 0;
    } else {
      m := LongestWord(freq, words, n - 1);
      if |words[n - 1]| > m {
        m := |words[n - 1]|;
      }
    }
  }

  /**
   The code sizes of Huffman's procedure, before they are limited to 16 bits, spend no more bits on
   the counted symbols and the pseudo-symbol than any prefix code does.
   */
  lemma OptimalAmongPrefixCodes(orig: seq<nat>, size: seq<nat>, words: seq<Word>)
    requires CountsOk(orig) && |size| == |orig| && Cost(orig, size) == MergeCost(orig)
    requires PrefixFree(orig, words)
    ensures Cost(orig, size) <= Cost(orig, Lengths(words))
  {
    hide Cost, MergeCost, Kraft, Sum;
    var m := LongestWord(orig, words, |orig|);
    PrefixCodeIsKraft(orig, words, m);
    LowerBound(orig, Lengths(words), m);
  }
}
