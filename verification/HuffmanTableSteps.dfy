/** Facts on values behind tdefl_optimize_huffman_table: lists of used symbols, histograms of lengths,
    and handing the sizes out to the symbols. */
module HuffmanTableSteps {
  import opened Powers
  import opened MergeTree
  import opened HuffmanOptimality
  import opened HuffmanLimit
  import opened CanonicalCode
  import opened RadixSort
  import opened InflateTableRoom

  // ---------- Used symbols ----------

  ghost function UsedSyms(count: seq<nat>, k: nat): seq<SymFreq>
    requires k <= |count|
  {
    if k == 0 then [] else UsedSyms(count, k - 1) + (if count[k - 1] > 0 then [SymFreq(count[k - 1], k - 1)] else [])
  }

  /** Lists each used symbol once, with its count. */
  ghost predicate Lists(count: seq<nat>, syms: seq<SymFreq>, k: nat) {
    && k <= |count|
    && (forall p :: 0 <= p < |syms| ==> ListedRight(count, syms[p], k))
    && (forall p, q :: 0 <= p < q < |syms| ==> syms[p].symIndex != syms[q].symIndex)
    && (forall x: nat :: x < k && count[x] > 0 ==> Has(syms, 0, x))
  }

  ghost predicate ListedRight(count: seq<nat>, y: SymFreq, k: nat) {
    y.symIndex < k <= |count| && y.key == count[y.symIndex] > 0
  }

  lemma {:induction false} UsedSymsList(count: seq<nat>, k: nat)
    requires k <= |count|
    ensures Lists(count, UsedSyms(count, k), k) && |UsedSyms(count, k)| <= k
  {
    if k > 0 {
      UsedSymsList(count, k - 1);
      var before, syms := UsedSyms(count, k - 1), UsedSyms(count, k);
      forall p | 0 <= p < |syms|
        ensures ListedRight(count, syms[p], k)
      {
        assert p < |before| ==> ListedRight(count, before[p], k - 1);
      }
      forall p, q | 0 <= p < q < |syms|
        ensures syms[p].symIndex != syms[q].symIndex
      {
        assert ListedRight(count, before[p], k - 1);
      }
      forall x: nat | x < k && count[x] > 0
        ensures Has(syms, 0, x)
      {
        if x < k - 1 {
          assert Has(before, 0, x);
          var p :| 0 <= p < |before| && before[p].symIndex == x;
          assert syms[p] == before[p];
        } else {
          assert syms[|before|].symIndex == x;
        }
      }
    }
  }

  lemma ListedKeys(count: seq<nat>, syms: seq<SymFreq>, limit: nat)
    requires Lists(count, syms, |count|) && forall x :: 0 <= x < |count| ==> count[x] < limit
    ensures forall p :: 0 <= p < |syms| ==> 0 < syms[p].key < limit
  {
    forall p | 0 <= p < |syms|
      ensures 0 < syms[p].key < limit
    {
      assert ListedRight(count, syms[p], |count|);
    }
  }

  /** Sorting keeps the list. */
  lemma SortedLists(count: seq<nat>, s: seq<SymFreq>, t: seq<SymFreq>, from: seq<nat>)
    requires Lists(count, s, |count|) && Rearranges(s, t, from)
    ensures Lists(count, t, |count|)
  {
    forall p | 0 <= p < |t|
      ensures ListedRight(count, t[p], |count|)
    {
      assert ListedRight(count, s[from[p]], |count|);
    }
    forall p, q | 0 <= p < q < |t|
      ensures t[p].symIndex != t[q].symIndex
    {
      assert from[p] != from[q];
    }
    SameElements(s, t, from);
    forall x: nat | x < |count| && count[x] > 0
      ensures Has(t, 0, x)
    {
      assert Has(s, 0, x);
      var p :| 0 <= p < |s| && s[p].symIndex == x;
      assert s[p] in multiset(t);
    }
  }

  ghost function SumKeys(syms: seq<SymFreq>): nat {
    if syms == [] then 0 else SumKeys(syms[..|syms| - 1]) + syms[|syms| - 1].key
  }

  ghost function KeysOf(syms: seq<SymFreq>): (keys: seq<nat>)
    ensures |keys| == |syms| && forall p :: 0 <= p < |keys| ==> keys[p] == syms[p].key
  {
    seq(|syms|, p requires 0 <= p < |syms| => syms[p].key)
  }

  lemma {:induction false} SumKeysIsSum(syms: seq<SymFreq>)
    ensures Sum(KeysOf(syms)) == SumKeys(syms)
    decreases |syms|
  {
    if syms != [] {
      var n := |syms| - 1;
      SumKeysIsSum(syms[..n]);
      SumAppend(KeysOf(syms[..n]), syms[n].key);
      assert KeysOf(syms) == KeysOf(syms[..n]) + [syms[n].key];
    } else {
      assert KeysOf(syms) == [];
    }
  }

  lemma {:induction false} SumKeysWithout(s: seq<SymFreq>, k: nat)
    requires k < |s|
    ensures SumKeys(s) == SumKeys(Without(s, k)) + s[k].key
    decreases |s|
  {
    var n := |s| - 1;
    if k < n {
      SumKeysWithout(s[..n], k);
      var w := Without(s, k);
      assert w[..n - 1] == Without(s[..n], k) && w[n - 1] == s[n];
    } else {
      assert Without(s, k) == s[..n];
    }
  }

  lemma {:induction false} SameSum(s: seq<SymFreq>, t: seq<SymFreq>, from: seq<nat>)
    requires Rearranges(s, t, from)
    ensures SumKeys(t) == SumKeys(s)
    decreases |s|
  {
    if |s| > 0 {
      var n := |s| - 1;
      RemoveLast(s, t, from);
      SameSum(Without(s, from[n]), t[..n], Closed(from[..n], from[n]));
      SumKeysWithout(s, from[n]);
    }
  }

  lemma {:induction false} UsedSymsSum(count: seq<nat>, k: nat)
    requires k <= |count|
    ensures SumKeys(UsedSyms(count, k)) == Sum(count[..k])
  {
    if k > 0 {
      UsedSymsSum(count, k - 1);
      SumAppend(count[..k - 1], count[k - 1]);
      assert count[..k] == count[..k - 1] + [count[k - 1]];
      var before := UsedSyms(count, k - 1);
      if count[k - 1] > 0 {
        assert UsedSyms(count, k)[..|before|] == before;
      } else {
        assert UsedSyms(count, k) == before;
      }
    }
  }

  /** What the minimum-redundancy step is given. */
  lemma SortedIsMergeable(count: seq<nat>, t: seq<SymFreq>, from: seq<nat>)
    requires Sum(count) < KEY_LIMIT && Keys(UsedSyms(count, |count|)) && Sorted(UsedSyms(count, |count|), t, from)
    ensures Mergeable(KeysOf(t))
  {
    var s := UsedSyms(count, |count|);
    SortedRearranges(s, t, 2, from);
    SameSum(s, t, from);
    SumKeysIsSum(t);
    UsedSymsSum(count, |count|);
    assert count[..|count|] == count;
    forall p, q | 0 <= p <= q < |t|
      ensures KeysOf(t)[p] <= KeysOf(t)[q]
    {
      if p < q { SortedIsStable(s, t, from, p, q); }
    }
  }

  // ---------- Histograms of lengths ----------

  ghost function Occurrences(s: seq<nat>, v: nat): nat {
    if s == [] then 0 else Occurrences(s[..|s| - 1], v) + (if s[|s| - 1] == v then 1 else 0)
  }

  ghost function LengthHistogram(lengths: seq<nat>): (h: seq<int>)
    ensures |h| == MAX_SUPPORTED_HUFF_CODESIZE + 1 && forall v :: 0 <= v < |h| ==> h[v] == Occurrences(lengths, v)
  {
    seq(MAX_SUPPORTED_HUFF_CODESIZE + 1, v requires v >= 0 => Occurrences(lengths, v))
  }

  lemma HistogramStep(lengths: seq<nat>, x: nat)
    requires x <= MAX_SUPPORTED_HUFF_CODESIZE
    ensures var h := LengthHistogram(lengths); LengthHistogram(lengths + [x]) == h[x := h[x] + 1]
  {
    var l := lengths + [x];
    assert l[..|l| - 1] == lengths;
    forall v: nat
      ensures Occurrences(l, v) == Occurrences(lengths, v) + (if x == v then 1 else 0)
    {}
  }

  lemma {:induction false} CodesFront(h: seq<int>, lo: nat, hi: nat)
    requires lo < hi <= |h|
    ensures Codes(h, lo, hi) == h[lo] + Codes(h, lo + 1, hi)
    decreases hi
  {
    if lo + 1 < hi { CodesFront(h, lo, hi - 1); }
  }

  // ---------- Handing out the sizes ----------

  ghost predicate DistinctSymbols(syms: seq<SymFreq>, n: nat) {
    && (forall p :: 0 <= p < |syms| ==> syms[p].symIndex < n)
    && (forall p, q :: 0 <= p < q < |syms| ==> syms[p].symIndex != syms[q].symIndex)
  }

  ghost predicate Has(syms: seq<SymFreq>, j: nat, x: nat) {
    exists p :: j <= p < |syms| && syms[p].symIndex == x
  }

  /** The list from place j on has its sizes, never increasing and all between 1 and i; nothing else has one. */
  ghost predicate Distributed(syms: seq<SymFreq>, j: nat, sizes: seq<nat>, i: nat) {
    && DistinctSymbols(syms, |sizes|) && j <= |syms|
    && (forall p :: j <= p < |syms| ==> 1 <= sizes[syms[p].symIndex] <= i)
    && (forall p, q :: j <= p < q < |syms| ==> sizes[syms[q].symIndex] <= sizes[syms[p].symIndex])
    && (forall x: nat :: x < |sizes| && !Has(syms, j, x) ==> sizes[x] == 0)
  }

  lemma NothingDistributed(syms: seq<SymFreq>, sizes: seq<nat>)
    requires DistinctSymbols(syms, |sizes|) && forall x :: 0 <= x < |sizes| ==> sizes[x] == 0
    ensures Distributed(syms, |syms|, sizes, 0)
    ensures forall v :: 1 <= v ==> Count(sizes, v) == 0
  {
    forall v: nat | 1 <= v
      ensures Count(sizes, v) == 0
    {
      CountNone(sizes, |sizes|, v);
    }
  }

  lemma {:induction false} CountNone(sizes: seq<nat>, k: nat, v: nat)
    requires k <= |sizes| && forall x :: 0 <= x < k ==> sizes[x] != v
    ensures CountTo(sizes, k, v) == 0
  {
    if k > 0 { CountNone(sizes, k - 1, v); }
  }

  lemma DistributedAtLeast(syms: seq<SymFreq>, j: nat, sizes: seq<nat>, i: nat)
    requires i >= 1 && Distributed(syms, j, sizes, i - 1)
    ensures Distributed(syms, j, sizes, i)
  {}

  lemma {:induction false} CountUpdate(sizes: seq<nat>, k: nat, x: nat, i: nat, v: nat)
    requires k <= |sizes| && x < |sizes| && sizes[x] == 0 && v >= 1
    ensures CountTo(sizes[x := i], k, v) == CountTo(sizes, k, v) + (if x < k && i == v then 1 else 0)
  {
    if k > 0 { CountUpdate(sizes, k - 1, x, i, v); }
  }

  lemma DistributeStep(syms: seq<SymFreq>, j: nat, sizes: seq<nat>, i: nat)
    requires 1 <= j && 1 <= i && Distributed(syms, j, sizes, i)
    requires forall p :: j <= p < |syms| ==> sizes[syms[p].symIndex] <= i
    ensures var x := syms[j - 1].symIndex;
            && Distributed(syms, j - 1, sizes[x := i], i)
            && forall v :: 1 <= v ==> Count(sizes[x := i], v) == Count(sizes, v) + (if v == i then 1 else 0)
  {
    var x, j' := syms[j - 1].symIndex, j - 1;
    var sizes' := sizes[x := i];
    assert !Has(syms, j, x);
    forall y: nat | y < |sizes| && !Has(syms, j', y)
      ensures sizes'[y] == 0
    {
      assert syms[j'].symIndex == x;
      assert !Has(syms, j, y);
    }
    forall v: nat | 1 <= v
      ensures Count(sizes', v) == Count(sizes, v) + (if v == i then 1 else 0)
    {
      CountUpdate(sizes, |sizes|, x, i, v);
    }
  }

  // ---------- From lengths to a complete histogram ----------

  lemma {:induction false} KraftSumAppend(len: seq<nat>, x: nat, m: nat)
    requires x <= m && forall i :: 0 <= i < |len| ==> len[i] <= m
    ensures KraftSum(len + [x], m) == KraftSum(len, m) + Pow2(m - x)
  {
    if len == [] {
      assert ([x])[1..] == [];
    } else {
      KraftSumAppend(len[1..], x, m);
      assert (len + [x])[1..] == len[1..] + [x];
    }
  }

  lemma {:induction false} KraftSumRescale(len: seq<nat>, m: nat, k: nat, m': nat)
    requires m' == m + k && forall i :: 0 <= i < |len| ==> len[i] <= m
    ensures KraftSum(len, m') == KraftSum(len, m) * Pow2(k)
  {
    if len != [] {
      KraftSumRescale(len[1..], m, k, m');
      Pow2Add(m - len[0], k);
      assert m - len[0] + k == m' - len[0];
      MulDist(Pow2(m - len[0]), KraftSum(len[1..], m), Pow2(k));
    }
  }

  /** Being exactly one does not depend on the unit in which the sum is taken. */
  lemma KraftSumUnit(len: seq<nat>, m: nat, m': nat)
    requires m <= m' && forall i :: 0 <= i < |len| ==> len[i] <= m
    ensures KraftSum(len, m) == Pow2(m) <==> KraftSum(len, m') == Pow2(m')
  {
    var k: nat := m' - m;
    KraftSumRescale(len, m, k, m');
    Pow2Add(m, k);
    SameMultiple(KraftSum(len, m), Pow2(m), Pow2(k), KraftSum(len, m'), Pow2(m'));
  }

  lemma SameMultiple(a: nat, b: nat, u: nat, x: nat, y: nat)
    requires u > 0 && x == a * u && y == b * u
    ensures a == b <==> x == y
  {
    if x == y { MulCancel(a, b, u); }
  }

  lemma MulCancel(a: int, b: int, u: int)
    requires u > 0 && a * u == b * u
    ensures a == b
  {
    MulDist(b, 1, u);
    MulDist(a, 1, u);
    MulCancelLess(a, b, u);
    MulCancelLess(b, a, u);
  }

  lemma {:induction false} EmptyHistogram(k: nat)
    requires k <= MAX_SUPPORTED_HUFF_CODESIZE
    ensures Codes(LengthHistogram([]), 1, k + 1) == 0
    ensures Kraft(LengthHistogram([]), MAX_SUPPORTED_HUFF_CODESIZE, k) == 0
  {
    if k > 0 { EmptyHistogram(k - 1); }
  }

  /** The histogram has the code count of the list. */
  lemma {:induction false} HistogramCodes(lengths: seq<nat>, top: nat)
    requires top <= MAX_SUPPORTED_HUFF_CODESIZE && forall i :: 0 <= i < |lengths| ==> 1 <= lengths[i] <= top
    ensures Codes(LengthHistogram(lengths), 1, top + 1) == |lengths|
    decreases |lengths|
  {
    if lengths == [] {
      EmptyHistogram(top);
    } else {
      var n := |lengths| - 1;
      assert lengths == lengths[..n] + [lengths[n]];
      HistogramCodes(lengths[..n], top);
      HistogramStep(lengths[..n], lengths[n]);
      CodesAdd(LengthHistogram(lengths[..n]), 1, top + 1, lengths[n], 1);
    }
  }

  /** One more code of length x. */
  lemma OneMoreLength(h: seq<int>, h': seq<int>, top: nat, x: nat)
    requires 1 <= x <= top < |h| && h' == h[x := h[x] + 1]
    ensures Kraft(h', top, top) == Kraft(h, top, top) + Pow2(top - x)
  {
    KraftAdd(h, top, top, x, 1);
  }

  /** The histogram has the Kraft sum of the list. */
  lemma {:induction false} HistogramKraft(lengths: seq<nat>, top: nat)
    requires top == MAX_SUPPORTED_HUFF_CODESIZE && forall i :: 0 <= i < |lengths| ==> 1 <= lengths[i] <= top
    ensures Kraft(LengthHistogram(lengths), top, top) == KraftSum(lengths, top)
    decreases |lengths|
  {
    if lengths == [] {
      EmptyHistogram(top);
    } else {
      var n := |lengths| - 1;
      assert lengths == lengths[..n] + [lengths[n]];
      HistogramKraft(lengths[..n], top);
      HistogramStep(lengths[..n], lengths[n]);
      OneMoreLength(LengthHistogram(lengths[..n]), LengthHistogram(lengths), top, lengths[n]);
      KraftSumAppend(lengths[..n], lengths[n], top);
    }
  }

  lemma CompleteHistogram(lengths: seq<nat>)
    requires |lengths| >= 2 && forall i :: 0 <= i < |lengths| ==> 1 <= lengths[i] < |lengths| && lengths[i] <= MAX_SUPPORTED_HUFF_CODESIZE
    requires KraftSum(lengths, |lengths|) == Pow2(|lengths|)
    ensures Complete(LengthHistogram(lengths), |lengths|)
  {
    HistogramCodes(lengths, MAX_SUPPORTED_HUFF_CODESIZE);
    HistogramKraft(lengths, MAX_SUPPORTED_HUFF_CODESIZE);
    var n, top := |lengths|, MAX_SUPPORTED_HUFF_CODESIZE;
    if n <= top { KraftSumUnit(lengths, n, top); } else { KraftSumUnit(lengths, top, n); }
  }

  // ---------- From the histogram to an acceptable code ----------

  /** The running total of the inflater is twice the Kraft sum. */
  lemma {:induction false} FirstCodeIsKraft(sizes: seq<nat>, h: seq<int>, len: nat)
    requires len < |h| && forall i :: 1 <= i <= len ==> h[i] == Count(sizes, i)
    ensures FirstCode(sizes, len + 1) == 2 * Kraft(h, len, len)
    decreases len
  {
    if len > 0 {
      FirstCodeIsKraft(sizes, h, len - 1);
      KraftRescale(h, len - 1, len, len - 1);
      assert Pow2(1) == 2 && Pow2(0) == 1;
    }
  }

  lemma {:induction false} NoLongerCodes(sizes: seq<nat>, limit: nat, len: nat)
    requires limit < len && forall x :: 0 <= x < |sizes| ==> sizes[x] <= limit
    requires FirstCode(sizes, limit + 1) == Pow2(limit + 1)
    ensures FirstCode(sizes, len) == Pow2(len)
    decreases len
  {
    if limit + 1 < len {
      NoLongerCodes(sizes, limit, len - 1);
      CountNone(sizes, |sizes|, len - 1);
    }
  }

  lemma {:induction false} UsedIsCodes(sizes: seq<nat>, h: seq<int>, len: nat, limit: nat)
    requires limit < |h| && forall i :: 1 <= i <= limit ==> h[i] == Count(sizes, i)
    requires forall x :: 0 <= x < |sizes| ==> sizes[x] <= limit
    ensures UsedCodes(sizes, len) == Codes(h, 1, (if len <= limit then len else limit) + 1)
    decreases len
  {
    if len == 0 {
      UsedToZero(sizes, |sizes|);
    } else {
      UsedIsCodes(sizes, h, len - 1, limit);
      UsedToStep(sizes, |sizes|, len);
      if len > limit { CountNone(sizes, |sizes|, len); }
    }
  }

  lemma HistogramIsAcceptable(sizes: seq<nat>, h: seq<int>, n: nat, limit: nat)
    requires 1 <= limit <= MAX_BITS && limit < |h| && forall i :: 1 <= i <= limit ==> h[i] == Count(sizes, i)
    requires forall x :: 0 <= x < |sizes| ==> sizes[x] <= limit
    requires Codes(h, 1, limit + 1) == n && (n <= 1 || CompleteWithin(h, n, limit))
    ensures Acceptable(sizes)
  {
    if n <= 1 {
      UsedIsCodes(sizes, h, MAX_BITS, limit);
    } else {
      FirstCodeIsKraft(sizes, h, limit);
      NoLongerCodes(sizes, limit, MAX_BITS + 1);
      Pow2Values();
    }
  }

  lemma UsedKeys(count: seq<nat>)
    requires Sum(count) < KEY_LIMIT
    ensures Keys(UsedSyms(count, |count|))
  {
    forall x | 0 <= x < |count| ensures count[x] < KEY_LIMIT { SumAtLeast(count, x); }
    UsedSymsList(count, |count|);
    ListedKeys(count, UsedSyms(count, |count|), KEY_LIMIT);
  }

  // ---------- The outcome ----------

  /** A symbol has a size if and only if it occurs; a more frequent one never has a larger size. */
  ghost predicate Favours(count: seq<nat>, sizes: seq<nat>, limit: nat) {
    && |sizes| == |count|
    && (forall x :: 0 <= x < |count| ==> sizes[x] <= limit && (sizes[x] > 0 <==> count[x] > 0))
    && (forall x, y :: 0 <= x < |count| && 0 <= y < |count| && 0 < count[x] < count[y] ==> sizes[y] <= sizes[x])
  }

  lemma SizesFavour(count: seq<nat>, syms: seq<SymFreq>, sizes: seq<nat>, limit: nat)
    requires Lists(count, syms, |count|) && Ascending(KeysOf(syms)) && |sizes| == |count| && Distributed(syms, 0, sizes, limit)
    ensures Favours(count, sizes, limit)
  {
    forall x: nat | x < |count|
      ensures sizes[x] <= limit && (sizes[x] > 0 <==> count[x] > 0)
    {
      if Has(syms, 0, x) {
        var p :| 0 <= p < |syms| && syms[p].symIndex == x;
        assert ListedRight(count, syms[p], |count|);
      }
    }
    forall x: nat, y: nat | x < |count| && y < |count| && 0 < count[x] < count[y]
      ensures sizes[y] <= sizes[x]
    {
      assert Has(syms, 0, x) && Has(syms, 0, y);
      var p :| 0 <= p < |syms| && syms[p].symIndex == x;
      var q :| 0 <= q < |syms| && syms[q].symIndex == y;
      assert ListedRight(count, syms[p], |count|) && ListedRight(count, syms[q], |count|);
      assert KeysOf(syms)[p] == count[x] && KeysOf(syms)[q] == count[y];
    }
  }
}
