/** What code sizes cost for symbol counts, and the sizes of least cost: from lists of used symbols to all symbols. */
module SymbolCost {
  import opened Powers
  import opened MergeTree
  import opened PrefixCodeCost
  import opened HuffmanOptimality
  import opened CanonicalCode
  import opened RadixSort
  import opened HuffmanTableSteps

  // ---------- Cost and Kraft sum over the symbols that occur ----------

  /** The sum of v over the symbols below k that occur. */
  ghost function UsedSum(count: seq<nat>, v: seq<nat>, k: nat): nat
    requires k <= |count| == |v|
  {
    if k == 0 then 0 else UsedSum(count, v, k - 1) + (if count[k - 1] > 0 then v[k - 1] else 0)
  }

  ghost function Products(count: seq<nat>, sizes: seq<nat>): (v: seq<nat>)
    requires |sizes| == |count|
    ensures |v| == |count|
  {
    seq(|count|, x requires 0 <= x < |count| => count[x] * sizes[x])
  }

  ghost function Units(sizes: seq<nat>, m: nat): (v: seq<nat>)
    ensures |v| == |sizes|
  {
    seq(|sizes|, x requires 0 <= x < |sizes| => if sizes[x] <= m then Pow2(m - sizes[x]) else 0)
  }

  /** How many bits all symbols take, each as often as it occurs. */
  ghost function Total(count: seq<nat>, sizes: seq<nat>): nat
    requires |sizes| == |count|
  {
    UsedSum(count, Products(count, sizes), |count|)
  }

  /** Each symbol that occurs has a code of one to m bits, and a prefix code with these sizes exists. */
  ghost predicate Coded(count: seq<nat>, sizes: seq<nat>, m: nat) {
    |sizes| == |count| && (forall x :: 0 <= x < |count| && count[x] > 0 ==> 1 <= sizes[x] <= m)
    && UsedSum(count, Units(sizes, m), |count|) <= Pow2(m)
  }

  /** No prefix code takes fewer bits. */
  ghost predicate Least(count: seq<nat>, sizes: seq<nat>) {
    |sizes| == |count| && (exists m: nat :: Coded(count, sizes, m))
    && forall other: seq<nat>, m: nat :: Coded(count, other, m) ==> Total(count, sizes) <= Total(count, other)
  }

  ghost predicate HasLeast(count: seq<nat>) {
    exists best :: Least(count, best)
  }

  ghost predicate Within(count: seq<nat>, sizes: seq<nat>, limit: nat) {
    |sizes| == |count| && forall x :: 0 <= x < |count| && count[x] > 0 ==> sizes[x] <= limit
  }

  /** Of least cost, if any code of least cost keeps to the limit. */
  ghost predicate LeastIfWithin(count: seq<nat>, sizes: seq<nat>, limit: nat) {
    forall best :: Least(count, best) && Within(count, best, limit) ==> Least(count, sizes)
  }

  // ---------- The same over a list of the symbols ----------

  ghost predicate Indexed(s: seq<SymFreq>, n: nat) {
    forall p :: 0 <= p < |s| ==> s[p].symIndex < n
  }

  ghost function Revalued(s: seq<SymFreq>, v: seq<nat>): (r: seq<SymFreq>)
    requires Indexed(s, |v|)
    ensures |r| == |s| && forall p :: 0 <= p < |s| ==> r[p] == SymFreq(v[s[p].symIndex], s[p].symIndex)
  {
    seq(|s|, p requires 0 <= p < |s| => SymFreq(v[s[p].symIndex], s[p].symIndex))
  }

  ghost function SizesOf(s: seq<SymFreq>, sizes: seq<nat>): (r: seq<nat>)
    requires Indexed(s, |sizes|)
    ensures |r| == |s| && forall p :: 0 <= p < |s| ==> r[p] == sizes[s[p].symIndex]
  {
    seq(|s|, p requires 0 <= p < |s| => sizes[s[p].symIndex])
  }

  lemma RevaluedAppend(s: seq<SymFreq>, y: SymFreq, v: seq<nat>)
    requires Indexed(s, |v|) && y.symIndex < |v|
    ensures Indexed(s + [y], |v|) && SumKeys(Revalued(s + [y], v)) == SumKeys(Revalued(s, v)) + v[y.symIndex]
  {
    var r := Revalued(s + [y], v);
    assert r[..|s|] == Revalued(s, v) && r[|s|].key == v[y.symIndex];
  }

  lemma {:induction false} UsedSumOfList(count: seq<nat>, v: seq<nat>, k: nat)
    requires k <= |count| == |v|
    ensures Indexed(UsedSyms(count, k), |v|) && SumKeys(Revalued(UsedSyms(count, k), v)) == UsedSum(count, v, k)
  {
    if k > 0 {
      UsedSumOfList(count, v, k - 1);
      var before, s := UsedSyms(count, k - 1), UsedSyms(count, k);
      if count[k - 1] > 0 { RevaluedAppend(before, SymFreq(count[k - 1], k - 1), v); } else { assert s == before; }
    }
  }

  /** The list may be in any order. */
  lemma SumOfRearranged(count: seq<nat>, syms: seq<SymFreq>, from: seq<nat>, v: seq<nat>)
    requires |v| == |count| && Rearranges(UsedSyms(count, |count|), syms, from) && Indexed(syms, |v|)
    ensures SumKeys(Revalued(syms, v)) == UsedSum(count, v, |count|)
  {
    var used := UsedSyms(count, |count|);
    UsedSumOfList(count, v, |count|);
    assert Rearranges(Revalued(used, v), Revalued(syms, v), from);
    SameSum(Revalued(used, v), Revalued(syms, v), from);
  }

  lemma {:induction false} ListCost(count: seq<nat>, s: seq<SymFreq>, sizes: seq<nat>)
    requires |sizes| == |count| && forall p :: 0 <= p < |s| ==> ListedRight(count, s[p], |count|)
    ensures Indexed(s, |count|) && Cost(KeysOf(s), SizesOf(s, sizes)) == SumKeys(Revalued(s, Products(count, sizes)))
    decreases |s|
  {
    assert forall p :: 0 <= p < |s| ==> ListedRight(count, s[p], |count|);
    if s != [] {
      var n := |s| - 1;
      ListCost(count, s[..n], sizes);
      RemoveAtCost(KeysOf(s), SizesOf(s, sizes), n);
      assert RemoveAt(KeysOf(s), n) == KeysOf(s[..n]) && RemoveAt(SizesOf(s, sizes), n) == SizesOf(s[..n], sizes);
      assert Revalued(s, Products(count, sizes))[..n] == Revalued(s[..n], Products(count, sizes));
      assert ListedRight(count, s[n], |count|);
    }
  }

  lemma {:induction false} ListKraft(s: seq<SymFreq>, sizes: seq<nat>, m: nat)
    requires Indexed(s, |sizes|) && forall p :: 0 <= p < |s| ==> sizes[s[p].symIndex] <= m
    ensures KraftSum(SizesOf(s, sizes), m) == SumKeys(Revalued(s, Units(sizes, m)))
    decreases |s|
  {
    if s != [] {
      var n := |s| - 1;
      ListKraft(s[..n], sizes, m);
      KraftSumAppend(SizesOf(s[..n], sizes), sizes[s[n].symIndex], m);
      assert SizesOf(s, sizes) == SizesOf(s[..n], sizes) + [sizes[s[n].symIndex]];
      assert Revalued(s, Units(sizes, m))[..n] == Revalued(s[..n], Units(sizes, m));
    }
  }

  ghost function Marks(sizes: seq<nat>, size: nat): (v: seq<nat>)
    ensures |v| == |sizes|
  {
    seq(|sizes|, x requires 0 <= x < |sizes| => if sizes[x] == size then 1 else 0)
  }

  lemma {:induction false} ListOccurrences(s: seq<SymFreq>, sizes: seq<nat>, size: nat)
    requires Indexed(s, |sizes|)
    ensures Occurrences(SizesOf(s, sizes), size) == SumKeys(Revalued(s, Marks(sizes, size)))
    decreases |s|
  {
    if s != [] {
      var n := |s| - 1;
      ListOccurrences(s[..n], sizes, size);
      assert SizesOf(s, sizes)[..n] == SizesOf(s[..n], sizes);
      assert Revalued(s, Marks(sizes, size))[..n] == Revalued(s[..n], Marks(sizes, size));
    }
  }

  lemma {:induction false} CountOfMarks(count: seq<nat>, sizes: seq<nat>, size: nat, k: nat)
    requires k <= |count| == |sizes| && size >= 1 && forall x :: 0 <= x < |count| && count[x] == 0 ==> sizes[x] == 0
    ensures CountTo(sizes, k, size) == UsedSum(count, Marks(sizes, size), k)
  {
    if k > 0 { CountOfMarks(count, sizes, size, k - 1); }
  }

  /** The list of used symbols, in any order. */
  ghost predicate ListOf(count: seq<nat>, syms: seq<SymFreq>, from: seq<nat>) {
    Lists(count, syms, |count|) && Rearranges(UsedSyms(count, |count|), syms, from)
  }

  lemma ListIndexed(count: seq<nat>, syms: seq<SymFreq>, from: seq<nat>)
    requires ListOf(count, syms, from)
    ensures Indexed(syms, |count|)
  {
    forall p | 0 <= p < |syms| ensures syms[p].symIndex < |count| { assert ListedRight(count, syms[p], |count|); }
  }

  lemma TotalOfList(count: seq<nat>, syms: seq<SymFreq>, from: seq<nat>, sizes: seq<nat>)
    requires ListOf(count, syms, from) && |sizes| == |count|
    ensures Indexed(syms, |sizes|) && Cost(KeysOf(syms), SizesOf(syms, sizes)) == Total(count, sizes)
  {
    ListIndexed(count, syms, from);
    ListCost(count, syms, sizes);
    SumOfRearranged(count, syms, from, Products(count, sizes));
  }

  /** A prefix code for the symbols is one for the list, and the other way round. */
  lemma CodedList(count: seq<nat>, syms: seq<SymFreq>, from: seq<nat>, sizes: seq<nat>, m: nat)
    requires ListOf(count, syms, from) && |sizes| == |count|
    ensures Indexed(syms, |sizes|)
    ensures Coded(count, sizes, m) <==> Fits(SizesOf(syms, sizes), m) && forall p :: 0 <= p < |syms| ==> SizesOf(syms, sizes)[p] >= 1
  {
    ListIndexed(count, syms, from);
    var list := SizesOf(syms, sizes);
    SumOfRearranged(count, syms, from, Units(sizes, m));
    if forall p :: 0 <= p < |syms| ==> list[p] <= m {
      ListKraft(syms, sizes, m);
    }
    UsedAreListed(count, syms, from, sizes, m);
  }

  lemma UsedAreListed(count: seq<nat>, syms: seq<SymFreq>, from: seq<nat>, sizes: seq<nat>, m: nat)
    requires ListOf(count, syms, from) && |sizes| == |count| && Indexed(syms, |sizes|)
    ensures (forall x :: 0 <= x < |count| && count[x] > 0 ==> 1 <= sizes[x] <= m)
      <==> forall p :: 0 <= p < |syms| ==> 1 <= SizesOf(syms, sizes)[p] <= m
  {
    var list := SizesOf(syms, sizes);
    if forall p :: 0 <= p < |syms| ==> 1 <= list[p] <= m {
      forall x: nat | x < |count| && count[x] > 0
        ensures 1 <= sizes[x] <= m
      {
        assert Has(syms, 0, x);
        var p :| 0 <= p < |syms| && syms[p].symIndex == x;
        assert 1 <= list[p] <= m;
      }
    }
    if forall x :: 0 <= x < |count| && count[x] > 0 ==> 1 <= sizes[x] <= m {
      forall p | 0 <= p < |syms|
        ensures 1 <= list[p] <= m
      {
        assert ListedRight(count, syms[p], |count|);
      }
    }
  }

  // ---------- The sizes that the list of lengths gives ----------

  /** Each symbol of the list gets its length, and no other gets one. */
  ghost function Spread(syms: seq<SymFreq>, lengths: seq<nat>, n: nat, k: nat): (sizes: seq<nat>)
    requires Indexed(syms, n) && k <= |syms| == |lengths|
    ensures |sizes| == n
  {
    if k == 0 then seq(n, _ => 0) else Spread(syms, lengths, n, k - 1)[syms[k - 1].symIndex := lengths[k - 1]]
  }

  lemma {:induction false} SpreadKeeps(syms: seq<SymFreq>, lengths: seq<nat>, n: nat, k: nat)
    requires Indexed(syms, n) && k <= |syms| == |lengths|
    requires forall p, q :: 0 <= p < q < |syms| ==> syms[p].symIndex != syms[q].symIndex
    ensures forall p :: 0 <= p < k ==> Spread(syms, lengths, n, k)[syms[p].symIndex] == lengths[p]
  {
    if k > 0 { SpreadKeeps(syms, lengths, n, k - 1); }
  }

  /** What calculating the minimum redundancy gives for the list. */
  ghost predicate MinimumFor(syms: seq<SymFreq>, lengths: seq<nat>) {
    |lengths| == |syms| && (forall p :: 0 <= p < |lengths| ==> lengths[p] >= 1)
    && (|syms| == 1 ==> lengths[0] == 1)
    && (|syms| >= 2 ==> Fits(lengths, |lengths|) && Optimal(KeysOf(syms), lengths) && LeastDeep(KeysOf(syms), lengths))
  }

  /** The lengths fit the histogram, and the longest symbols come first. */
  ghost predicate MinimumLengthsFor(syms: seq<SymFreq>, lengths: seq<nat>) {
    MinimumFor(syms, lengths) && NonIncreasing(lengths, 0)
    && (forall p :: 0 <= p < |lengths| ==> 1 <= lengths[p] <= 30 && (|lengths| >= 2 ==> lengths[p] < |lengths|))
    && (|lengths| >= 2 ==> KraftSum(lengths, |lengths|) == Pow2(|lengths|))
  }

  lemma IsMinimum(syms: seq<SymFreq>, w: seq<nat>, lengths: seq<nat>)
    requires w == KeysOf(syms) && |lengths| == |w| && NonIncreasing(lengths, 0)
    requires |w| == 1 ==> lengths[0] == 1
    requires |w| >= 2 ==> forall p :: 0 <= p < |lengths| ==> 1 <= lengths[p] < |lengths|
    requires forall p :: 0 <= p < |lengths| ==> lengths[p] <= 30
    requires |w| >= 2 ==> KraftSum(lengths, |lengths|) == Pow2(|lengths|) && Optimal(w, lengths) && LeastDeep(w, lengths)
    ensures MinimumLengthsFor(syms, lengths)
  {}

  lemma OneLengthFits(lengths: seq<nat>)
    requires |lengths| <= 1 && forall p :: 0 <= p < |lengths| ==> lengths[p] == 1
    ensures Fits(lengths, 1)
  {
    if lengths != [] { assert lengths == [1] && lengths[1..] == []; }
  }

  /** The lengths cost no more than those of any prefix code. */
  lemma LengthsCost(count: seq<nat>, syms: seq<SymFreq>, from: seq<nat>, lengths: seq<nat>, other: seq<nat>, m: nat)
    requires ListOf(count, syms, from) && MinimumFor(syms, lengths) && Coded(count, other, m)
    ensures Cost(KeysOf(syms), lengths) <= Total(count, other)
  {
    TotalOfList(count, syms, from, other);
    CodedList(count, syms, from, other, m);
    var w, list := KeysOf(syms), SizesOf(syms, other);
    if |syms| == 1 {
      assert w[1..] == [] && lengths[1..] == [] && list[1..] == [];
      MulMono(1, list[0], w[0]);
    }
  }

  lemma LengthsLeast(count: seq<nat>, syms: seq<SymFreq>, from: seq<nat>, lengths: seq<nat>, sizes: seq<nat>)
    requires ListOf(count, syms, from) && MinimumFor(syms, lengths) && |sizes| == |count|
    requires Indexed(syms, |sizes|) && SizesOf(syms, sizes) == lengths
    ensures Least(count, sizes)
  {
    var m := if |lengths| >= 2 then |lengths| else 1;
    if |lengths| < 2 { OneLengthFits(lengths); }
    CodedList(count, syms, from, sizes, m);
    TotalOfList(count, syms, from, sizes);
    forall other: seq<nat>, m: nat | Coded(count, other, m)
      ensures Total(count, sizes) <= Total(count, other)
    {
      LengthsCost(count, syms, from, lengths, other, m);
    }
  }

  /** Some code is of least cost. */
  lemma LeastExists(count: seq<nat>, syms: seq<SymFreq>, from: seq<nat>, lengths: seq<nat>) returns (best: seq<nat>)
    requires ListOf(count, syms, from) && MinimumFor(syms, lengths)
    ensures Least(count, best) && Total(count, best) == Cost(KeysOf(syms), lengths)
  {
    ListIndexed(count, syms, from);
    best := Spread(syms, lengths, |count|, |syms|);
    SpreadKeeps(syms, lengths, |count|, |syms|);
    assert SizesOf(syms, best) == lengths;
    LengthsLeast(count, syms, from, lengths, best);
    TotalOfList(count, syms, from, best);
  }

  /** If a length is above the limit, so is one of every code of least cost. */
  lemma AllLeastAreLong(count: seq<nat>, syms: seq<SymFreq>, from: seq<nat>, lengths: seq<nat>, limit: nat, k: nat, best: seq<nat>)
    requires ListOf(count, syms, from) && MinimumFor(syms, lengths) && limit >= 1 && k < |lengths| && lengths[k] > limit
    requires Least(count, best)
    ensures !Within(count, best, limit)
  {
    var m: nat :| Coded(count, best, m);
    var least := LeastExists(count, syms, from, lengths);
    var m': nat :| Coded(count, least, m');
    assert Total(count, best) == Total(count, least);
    CodedList(count, syms, from, best, m);
    TotalOfList(count, syms, from, best);
    var list := SizesOf(syms, best);
    assert AsDeep(lengths, list);
    var i :| 0 <= i < |list| && list[i] >= lengths[k];
    assert ListedRight(count, syms[i], |count|);
  }

  // ---------- Handing the lengths out again ----------

  lemma {:induction false} OccursOnce(s: seq<nat>, v: nat, i: nat)
    requires i < |s| && s[i] == v
    ensures Occurrences(s, v) >= 1
    decreases |s|
  {
    if i < |s| - 1 { OccursOnce(s[..|s| - 1], v, i); }
  }

  lemma {:induction false} OccursNever(s: seq<nat>, v: nat)
    requires forall i :: 0 <= i < |s| ==> s[i] != v
    ensures Occurrences(s, v) == 0
    decreases |s|
  {
    if s != [] { OccursNever(s[..|s| - 1], v); }
  }

  /** In descending order, how often each size occurs says everything. */
  lemma {:induction false} SameDescending(a: seq<nat>, b: seq<nat>, limit: nat)
    requires |a| == |b| && NonIncreasing(a, 0) && NonIncreasing(b, 0)
    requires forall v :: 1 <= v <= limit ==> Occurrences(a, v) == Occurrences(b, v)
    requires forall i :: 0 <= i < |a| ==> 1 <= a[i] <= limit && 1 <= b[i] <= limit
    ensures a == b
    decreases |a|
  {
    if a != [] {
      var n := |a| - 1;
      LastOfDescending(a, b, limit);
      LastOfDescending(b, a, limit);
      forall v | 1 <= v <= limit ensures Occurrences(a[..n], v) == Occurrences(b[..n], v) {
        assert Occurrences(a, v) == Occurrences(b, v);
      }
      SameDescending(a[..n], b[..n], limit);
      assert a == a[..n] + [a[n]] && b == b[..n] + [b[n]];
    }
  }

  lemma LastOfDescending(a: seq<nat>, b: seq<nat>, limit: nat)
    requires |a| == |b| > 0 && NonIncreasing(b, 0) && 1 <= a[|a| - 1] <= limit
    requires forall v :: 1 <= v <= limit ==> Occurrences(a, v) == Occurrences(b, v)
    ensures a[|a| - 1] >= b[|b| - 1]
  {
    var v := a[|a| - 1];
    OccursOnce(a, v, |a| - 1);
    if v < b[|b| - 1] { OccursNever(b, v); }
  }

  /** The sizes handed out are the lengths, when the histogram is theirs. */
  lemma SizesAreLengths(count: seq<nat>, syms: seq<SymFreq>, from: seq<nat>, lengths: seq<nat>, sizes: seq<nat>, limit: nat)
    requires ListOf(count, syms, from) && |sizes| == |count| && |lengths| == |syms| && NonIncreasing(lengths, 0)
    requires Distributed(syms, 0, sizes, limit) && forall p :: 0 <= p < |lengths| ==> 1 <= lengths[p] <= limit
    requires forall v :: 1 <= v <= limit ==> Count(sizes, v) == Occurrences(lengths, v)
    ensures Indexed(syms, |sizes|) && SizesOf(syms, sizes) == lengths
  {
    DistributedList(syms, sizes, limit);
    UnusedHaveNone(count, syms, sizes, limit);
    forall v: nat | 1 <= v <= limit
      ensures Occurrences(SizesOf(syms, sizes), v) == Occurrences(lengths, v)
    {
      OccursAsCounted(count, syms, from, sizes, v);
    }
    SameDescending(SizesOf(syms, sizes), lengths, limit);
  }

  lemma DistributedList(syms: seq<SymFreq>, sizes: seq<nat>, limit: nat)
    requires Distributed(syms, 0, sizes, limit)
    ensures Indexed(syms, |sizes|) && NonIncreasing(SizesOf(syms, sizes), 0)
    ensures forall p :: 0 <= p < |syms| ==> 1 <= SizesOf(syms, sizes)[p] <= limit
  {
    var list := SizesOf(syms, sizes);
    forall p, q | 0 <= p <= q < |list|
      ensures list[q] <= list[p]
    {
      if p < q { assert sizes[syms[q].symIndex] <= sizes[syms[p].symIndex]; }
    }
  }

  lemma OccursAsCounted(count: seq<nat>, syms: seq<SymFreq>, from: seq<nat>, sizes: seq<nat>, v: nat)
    requires ListOf(count, syms, from) && |sizes| == |count| && v >= 1
    requires forall x :: 0 <= x < |count| && count[x] == 0 ==> sizes[x] == 0
    ensures Indexed(syms, |sizes|) && Occurrences(SizesOf(syms, sizes), v) == Count(sizes, v)
  {
    ListIndexed(count, syms, from);
    ListOccurrences(syms, sizes, v);
    SumOfRearranged(count, syms, from, Marks(sizes, v));
    CountOfMarks(count, sizes, v, |count|);
  }

  lemma UnusedHaveNone(count: seq<nat>, syms: seq<SymFreq>, sizes: seq<nat>, limit: nat)
    requires Lists(count, syms, |count|) && |sizes| == |count| && Distributed(syms, 0, sizes, limit)
    ensures forall x :: 0 <= x < |count| && count[x] == 0 ==> sizes[x] == 0
  {
    forall x: nat | x < |count| && count[x] == 0
      ensures sizes[x] == 0
    {
      forall p | 0 <= p < |syms| ensures syms[p].symIndex != x { assert ListedRight(count, syms[p], |count|); }
      assert !Has(syms, 0, x);
    }
  }

  /** Main result: handing out minimum-redundancy lengths that keep to the limit gives a code of least cost; and if they
      do not, no code of least cost does. */
  lemma LeastOrLong(count: seq<nat>, syms: seq<SymFreq>, from: seq<nat>, lengths: seq<nat>, sizes: seq<nat>, limit: nat)
    requires ListOf(count, syms, from) && MinimumFor(syms, lengths) && NonIncreasing(lengths, 0) && |sizes| == |count| && limit >= 1
    requires Distributed(syms, 0, sizes, limit)
    requires (forall p :: 0 <= p < |lengths| ==> lengths[p] <= limit)
             ==> forall v :: 1 <= v <= limit ==> Count(sizes, v) == Occurrences(lengths, v)
    ensures LeastIfWithin(count, sizes, limit) && HasLeast(count)
  {
    var some := LeastExists(count, syms, from, lengths);
    if k: nat :| k < |lengths| && lengths[k] > limit {
      forall best | Least(count, best)
        ensures !Within(count, best, limit)
      {
        AllLeastAreLong(count, syms, from, lengths, limit, k, best);
      }
    } else {
      SizesAreLengths(count, syms, from, lengths, sizes, limit);
      LengthsLeast(count, syms, from, lengths, sizes);
    }
  }
}
