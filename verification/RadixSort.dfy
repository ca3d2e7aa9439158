/** tdefl_radix_sort_syms of miniz.c: a least-significant-byte radix sort of 16-bit keys. */
module RadixSort {

  datatype SymFreq = SymFreq(key: nat, symIndex: nat)

  /** The byte of a 16-bit key that a pass looks at. */
  function Digit(key: nat, pass: nat): (d: nat)
    requires key < 0x1_0000
    ensures d < 256
  {
    if pass == 0 then key % 256 else key / 256
  }

  ghost predicate Keys(s: seq<SymFreq>) {
    forall i :: 0 <= i < |s| ==> s[i].key < 0x1_0000
  }

  ghost function CountDigit(s: seq<SymFreq>, pass: nat, k: nat, v: nat): nat
    requires Keys(s) && k <= |s|
  {
    if k == 0 then 0 else CountDigit(s, pass, k - 1, v) + (if Digit(s[k - 1].key, pass) == v then 1 else 0)
  }

  /** Where the bucket of digit v starts. */
  ghost function Start(s: seq<SymFreq>, pass: nat, v: nat): nat
    requires Keys(s)
  {
    if v == 0 then 0 else Start(s, pass, v - 1) + CountDigit(s, pass, |s|, v - 1)
  }

  // ---------- Buckets ----------

  lemma {:induction false} CountMonotone(s: seq<SymFreq>, pass: nat, a: nat, b: nat, v: nat)
    requires Keys(s) && a <= b <= |s|
    ensures CountDigit(s, pass, a, v) <= CountDigit(s, pass, b, v)
    decreases b
  {
    if a < b { CountMonotone(s, pass, a, b - 1, v); }
  }

  lemma {:induction false} StartMonotone(s: seq<SymFreq>, pass: nat, v: nat, v': nat)
    requires Keys(s) && v < v'
    ensures Start(s, pass, v) + CountDigit(s, pass, |s|, v) <= Start(s, pass, v')
    decreases v'
  {
    if v < v' - 1 { StartMonotone(s, pass, v, v' - 1); }
  }

  /** How many of the first k keys have a digit below v. */
  ghost function Below(s: seq<SymFreq>, pass: nat, k: nat, v: nat): nat
    requires Keys(s) && k <= |s|
  {
    if k == 0 then 0 else Below(s, pass, k - 1, v) + (if Digit(s[k - 1].key, pass) < v then 1 else 0)
  }

  lemma {:induction false} BelowStep(s: seq<SymFreq>, pass: nat, k: nat, v: nat)
    requires Keys(s) && k <= |s|
    ensures Below(s, pass, k, v + 1) == Below(s, pass, k, v) + CountDigit(s, pass, k, v)
    ensures Below(s, pass, k, 0) == 0 && Below(s, pass, k, v) <= k && Below(s, pass, k, 256) == k
    decreases k
  {
    if k > 0 { BelowStep(s, pass, k - 1, v); }
  }

  lemma {:induction false} StartIsBelow(s: seq<SymFreq>, pass: nat, v: nat)
    requires Keys(s)
    ensures Start(s, pass, v) == Below(s, pass, |s|, v) <= |s|
    decreases v
  {
    BelowStep(s, pass, |s|, v);
    if v > 0 {
      StartIsBelow(s, pass, v - 1);
      BelowStep(s, pass, |s|, v - 1);
    }
  }

  /** Every position belongs to a bucket. */
  lemma {:induction false} BucketOf(s: seq<SymFreq>, pass: nat, p: nat, top: nat) returns (v: nat)
    requires Keys(s) && p < Start(s, pass, top)
    ensures v < top && Start(s, pass, v) <= p < Start(s, pass, v) + CountDigit(s, pass, |s|, v)
    decreases top
  {
    if p < Start(s, pass, top - 1) { v := BucketOf(s, pass, p, top - 1); } else { v := top - 1; }
  }

  // ---------- One pass ----------

  /** t lists the elements of s, taken from the given places, by digit and among equals in their old order. */
  ghost predicate StablyOrdered(s: seq<SymFreq>, t: seq<SymFreq>, pass: nat, from: seq<nat>) {
    && Keys(s) && |t| == |s| && |from| == |s|
    && (forall p :: 0 <= p < |s| ==> from[p] < |s| && t[p] == s[from[p]])
    && (forall p, q :: 0 <= p < q < |s| ==> InOrder(s, pass, from[p], from[q]))
  }

  ghost predicate InOrder(s: seq<SymFreq>, pass: nat, i: nat, j: nat)
    requires Keys(s)
  {
    i < |s| && j < |s| &&
    (Digit(s[i].key, pass) < Digit(s[j].key, pass) || (Digit(s[i].key, pass) == Digit(s[j].key, pass) && i < j))
  }

  /** Position p holds element j, which is among the first i elements and has digit v. */
  ghost predicate Placed(s: seq<SymFreq>, t: seq<SymFreq>, pass: nat, from: seq<nat>, i: nat, v: nat, p: int)
    requires Keys(s)
  {
    && 0 <= p < |t| && p < |from|
    && from[p] < i <= |s| && t[p] == s[from[p]] && Digit(s[from[p]].key, pass) == v
  }

  ghost predicate Bucket(s: seq<SymFreq>, t: seq<SymFreq>, pass: nat, from: seq<nat>, i: nat, v: nat, end: nat)
    requires Keys(s)
  {
    && (forall p :: Start(s, pass, v) <= p < end ==> Placed(s, t, pass, from, i, v, p))
    && (forall p, q :: Start(s, pass, v) <= p < q < end && q < |from| ==> from[p] < from[q])
  }

  /** The elements before i are in their buckets, in order. */
  ghost predicate Filled(s: seq<SymFreq>, t: seq<SymFreq>, pass: nat, from: seq<nat>, i: nat, offsets: seq<nat>) {
    && Keys(s) && |t| == |s| && |from| == |s| && i <= |s| && |offsets| == 256
    && (forall v :: 0 <= v < 256 ==> offsets[v] == Start(s, pass, v) + CountDigit(s, pass, i, v))
    && (forall v :: 0 <= v < 256 ==> Bucket(s, t, pass, from, i, v, offsets[v]))
  }

  lemma OffsetInRange(s: seq<SymFreq>, pass: nat, i: nat)
    requires Keys(s) && i < |s|
    ensures var v := Digit(s[i].key, pass);
            Start(s, pass, v) + CountDigit(s, pass, i, v) < Start(s, pass, v) + CountDigit(s, pass, |s|, v) <= |s|
  {
    var v := Digit(s[i].key, pass);
    CountMonotone(s, pass, i + 1, |s|, v);
    StartIsBelow(s, pass, v + 1);
  }

  lemma OtherBucket(s: seq<SymFreq>, t: seq<SymFreq>, pass: nat, from: seq<nat>, i: nat, u: nat, end: nat, at: nat, x: SymFreq)
    requires Keys(s) && i < |s| && |t| == |s| == |from| && at < |t| && Bucket(s, t, pass, from, i, u, end)
    requires end <= at || at < Start(s, pass, u)
    ensures Bucket(s, t[at := x], pass, from[at := i], i + 1, u, end)
  {
    var t', from', i' := t[at := x], from[at := i], i + 1;
    forall p | Start(s, pass, u) <= p < end
      ensures Placed(s, t', pass, from', i', u, p)
    {
      assert Placed(s, t, pass, from, i, u, p);
    }
  }

  lemma SameBucket(s: seq<SymFreq>, t: seq<SymFreq>, pass: nat, from: seq<nat>, i: nat, end: nat)
    requires Keys(s) && i < |s| && |t| == |s| == |from| && end < |t|
    requires Bucket(s, t, pass, from, i, Digit(s[i].key, pass), end)
    ensures Bucket(s, t[end := s[i]], pass, from[end := i], i + 1, Digit(s[i].key, pass), end + 1)
  {
    var v, t', from', i' := Digit(s[i].key, pass), t[end := s[i]], from[end := i], i + 1;
    forall p | Start(s, pass, v) <= p < end + 1
      ensures Placed(s, t', pass, from', i', v, p)
    {
      if p < end { assert Placed(s, t, pass, from, i, v, p); }
    }
    forall p, q | Start(s, pass, v) <= p < q < end + 1
      ensures from'[p] < from'[q]
    {
      assert Placed(s, t, pass, from, i, v, p);
      if q < end { assert Placed(s, t, pass, from, i, v, q); }
    }
  }

  /** Where an element of one bucket goes, no other bucket is. */
  lemma BucketsApart(s: seq<SymFreq>, pass: nat, i: nat, u: nat)
    requires Keys(s) && i < |s| && u != Digit(s[i].key, pass)
    ensures var v := Digit(s[i].key, pass);
            var at := Start(s, pass, v) + CountDigit(s, pass, i, v);
            Start(s, pass, u) + CountDigit(s, pass, i, u) <= at || at < Start(s, pass, u)
  {
    var v := Digit(s[i].key, pass);
    OffsetInRange(s, pass, i);
    CountMonotone(s, pass, i, |s|, u);
    if u < v { StartMonotone(s, pass, u, v); } else { StartMonotone(s, pass, v, u); }
  }

  lemma FillStep(s: seq<SymFreq>, t: seq<SymFreq>, pass: nat, from: seq<nat>, i: nat, offsets: seq<nat>)
    requires Filled(s, t, pass, from, i, offsets) && i < |s|
    ensures var v := Digit(s[i].key, pass);
            && offsets[v] < |s|
            && Filled(s, t[offsets[v] := s[i]], pass, from[offsets[v] := i], i + 1, offsets[v := offsets[v] + 1])
  {
    var v := Digit(s[i].key, pass);
    var at := offsets[v];
    OffsetInRange(s, pass, i);
    var t', from', offsets', i' := t[at := s[i]], from[at := i], offsets[v := at + 1], i + 1;
    forall u | 0 <= u < 256
      ensures offsets'[u] == Start(s, pass, u) + CountDigit(s, pass, i', u)
      ensures Bucket(s, t', pass, from', i', u, offsets'[u])
    {
      assert Bucket(s, t, pass, from, i, u, offsets[u]);
      if u == v {
        SameBucket(s, t, pass, from, i, at);
      } else {
        BucketsApart(s, pass, i, u);
        OtherBucket(s, t, pass, from, i, u, offsets[u], at, s[i]);
      }
    }
  }

  lemma FilledPair(s: seq<SymFreq>, t: seq<SymFreq>, pass: nat, from: seq<nat>, offsets: seq<nat>, p: nat, q: nat)
    requires Filled(s, t, pass, from, |s|, offsets) && p <= q < |s|
    ensures from[q] < |s| && t[q] == s[from[q]]
    ensures p < q ==> InOrder(s, pass, from[p], from[q])
  {
    StartIsBelow(s, pass, 256);
    BelowStep(s, pass, |s|, 0);
    var u := BucketOf(s, pass, p, 256);
    var v := BucketOf(s, pass, q, 256);
    assert Bucket(s, t, pass, from, |s|, u, offsets[u]) && Bucket(s, t, pass, from, |s|, v, offsets[v]);
    assert Placed(s, t, pass, from, |s|, u, p) && Placed(s, t, pass, from, |s|, v, q);
    if v < u { StartMonotone(s, pass, v, u); }
  }

  lemma AllFilled(s: seq<SymFreq>, t: seq<SymFreq>, pass: nat, from: seq<nat>, offsets: seq<nat>)
    requires Filled(s, t, pass, from, |s|, offsets)
    ensures StablyOrdered(s, t, pass, from)
  {
    forall q | 0 <= q < |s|
      ensures from[q] < |s| && t[q] == s[from[q]]
    {
      FilledPair(s, t, pass, from, offsets, q, q);
    }
    forall p, q | 0 <= p < q < |s|
      ensures InOrder(s, pass, from[p], from[q])
    {
      FilledPair(s, t, pass, from, offsets, p, q);
    }
  }

  /** One pass of the sort: counts give offsets, and every element goes to the next place of its bucket. */
  method SortPass(cur: array<SymFreq>, next: array<SymFreq>, hist: seq<nat>, numSyms: nat, pass: nat) returns (ghost from: seq<nat>)
    requires cur != next && numSyms <= cur.Length && numSyms <= next.Length && Keys(cur[..numSyms])
    requires |hist| == 256 && forall v :: 0 <= v < 256 ==> hist[v] == CountDigit(cur[..numSyms], pass, numSyms, v)
    modifies next
    ensures StablyOrdered(cur[..numSyms], next[..numSyms], pass, from)
  {
    ghost var s := cur[..numSyms];
    var offsets := BucketOffsets(hist, s, pass);
    from := seq(numSyms, _ => 0);
    var i := 0;
    while i < numSyms
      invariant 0 <= i <= numSyms && cur[..numSyms] == s
      invariant Filled(s, next[..numSyms], pass, from, i, offsets[..])
      modifies next, offsets
    {
      from := PlaceNext(cur, next, offsets, numSyms, pass, i, s, from);
      i := i + 1;
    }
    AllFilled(s, next[..numSyms], pass, from, offsets[..]);
  }

  method PlaceNext(cur: array<SymFreq>, next: array<SymFreq>, offsets: array<nat>, numSyms: nat, pass: nat, i: nat,
                   ghost s: seq<SymFreq>, ghost from: seq<nat>) returns (ghost from': seq<nat>)
    requires cur != next && i < numSyms <= cur.Length && numSyms <= next.Length && offsets.Length == 256
    requires cur[..numSyms] == s && Filled(s, next[..numSyms], pass, from, i, offsets[..])
    modifies next, offsets
    ensures Filled(s, next[..numSyms], pass, from', i + 1, offsets[..])
  {
    assert s[i] == cur[i];
    var v := Digit(cur[i].key, pass);
    ghost var t, ofs := next[..numSyms], offsets[..];
    FillStep(s, t, pass, from, i, ofs);
    next[offsets[v]] := cur[i];
    from' := from[offsets[v] := i];
    offsets[v] := offsets[v] + 1;
    assert next[..numSyms] == t[ofs[v] := s[i]];
    assert offsets[..] == ofs[v := ofs[v] + 1];
  }

  method BucketOffsets(hist: seq<nat>, ghost s: seq<SymFreq>, pass: nat) returns (offsets: array<nat>)
    requires Keys(s) && |hist| == 256 && forall v :: 0 <= v < 256 ==> hist[v] == CountDigit(s, pass, |s|, v)
    ensures fresh(offsets) && offsets.Length == 256
    ensures forall v :: 0 <= v < 256 ==> offsets[v] == Start(s, pass, v)
  {
    offsets := new nat[256](_ => 0);
    var curOfs, i := 0, 0;
    while i < 256
      invariant 0 <= i <= 256 && curOfs == Start(s, pass, i)
      invariant forall v :: 0 <= v < i ==> offsets[v] == Start(s, pass, v)
    {
      offsets[i] := curOfs;
      curOfs := curOfs + hist[i];
      i := i + 1;
    }
  }

  // ---------- The whole sort ----------

  /** The part of the key that the first passes have sorted by. */
  function Rank(key: nat, passes: nat): nat {
    if passes == 0 then 0 else if passes == 1 then key % 256 else key
  }

  ghost predicate Before(s: seq<SymFreq>, passes: nat, i: nat, j: nat) {
    i < |s| && j < |s| && (Rank(s[i].key, passes) < Rank(s[j].key, passes) || (Rank(s[i].key, passes) == Rank(s[j].key, passes) && i < j))
  }

  /** t is s rearranged: element p of t is element from[p] of s, and the places are in increasing (rank, place) order. */
  ghost predicate SortedBy(s: seq<SymFreq>, t: seq<SymFreq>, passes: nat, from: seq<nat>) {
    && |t| == |s| == |from|
    && (forall p :: 0 <= p < |s| ==> from[p] < |s| && t[p] == s[from[p]])
    && (forall p, q :: 0 <= p < q < |s| ==> Before(s, passes, from[p], from[q]))
  }

  /** The stable ascending order by key. */
  ghost predicate Sorted(s: seq<SymFreq>, t: seq<SymFreq>, from: seq<nat>) {
    SortedBy(s, t, 2, from)
  }

  lemma KeysKept(s: seq<SymFreq>, t: seq<SymFreq>, passes: nat, from: seq<nat>)
    requires Keys(s) && SortedBy(s, t, passes, from)
    ensures Keys(t)
  {}

  ghost function Through(from: seq<nat>, from': seq<nat>): (c: seq<nat>)
    requires forall p :: 0 <= p < |from'| ==> from'[p] < |from|
    ensures |c| == |from'| && forall p :: 0 <= p < |c| ==> c[p] == from[from'[p]]
  {
    seq(|from'|, p requires 0 <= p < |from'| => from[from'[p]])
  }

  /** A stable pass by the next byte sorts by one byte more. */
  lemma NextPass(s: seq<SymFreq>, t: seq<SymFreq>, u: seq<SymFreq>, passes: nat, from: seq<nat>, from': seq<nat>)
    requires Keys(s) && passes < 2 && SortedBy(s, t, passes, from) && StablyOrdered(t, u, passes, from')
    ensures SortedBy(s, u, passes + 1, Through(from, from'))
  {
    var c, passes' := Through(from, from'), passes + 1;
    forall p, q | 0 <= p < q < |s|
      ensures Before(s, passes', c[p], c[q])
    {
      assert InOrder(t, passes, from'[p], from'[q]);
      RankStep(t[from'[p]].key, t[from'[q]].key, passes);
      if from'[p] < from'[q] { assert Before(s, passes, from[from'[p]], from[from'[q]]); }
    }
  }

  lemma RankStep(a: nat, b: nat, passes: nat)
    requires a < 0x1_0000 && b < 0x1_0000 && passes < 2
    ensures Digit(a, passes) < Digit(b, passes) ==> Rank(a, passes + 1) < Rank(b, passes + 1)
    ensures Digit(a, passes) == Digit(b, passes) ==>
      (Rank(a, passes) < Rank(b, passes) <==> Rank(a, passes + 1) < Rank(b, passes + 1))
      && (Rank(a, passes) == Rank(b, passes) <==> Rank(a, passes + 1) == Rank(b, passes + 1))
  {}

  lemma {:induction false} AllZeroDigits(s: seq<SymFreq>, pass: nat, k: nat)
    requires Keys(s) && k <= |s|
    ensures CountDigit(s, pass, k, 0) <= k
    ensures CountDigit(s, pass, k, 0) == k ==> forall i :: 0 <= i < k ==> Digit(s[i].key, pass) == 0
  {
    if k > 0 { AllZeroDigits(s, pass, k - 1); }
  }

  /** The second pass may be skipped when no key has a high byte. */
  lemma SkipPass(s: seq<SymFreq>, t: seq<SymFreq>, from: seq<nat>)
    requires Keys(s) && CountDigit(s, 1, |s|, 0) == |s| && SortedBy(s, t, 1, from)
    ensures Sorted(s, t, from)
  {
    AllZeroDigits(s, 1, |s|);
    forall p, q | 0 <= p < q < |s|
      ensures Before(s, 2, from[p], from[q])
    {
      assert Before(s, 1, from[p], from[q]);
    }
  }

  // ---------- Rearranging ----------

  ghost predicate Rearranges(s: seq<SymFreq>, t: seq<SymFreq>, from: seq<nat>) {
    && |t| == |s| == |from|
    && (forall p :: 0 <= p < |s| ==> from[p] < |s| && t[p] == s[from[p]])
    && (forall p, q :: 0 <= p < q < |s| ==> from[p] != from[q])
  }

  ghost function Without(s: seq<SymFreq>, k: nat): seq<SymFreq>
    requires k < |s|
  {
    s[..k] + s[k + 1..]
  }

  ghost function Closed(from: seq<nat>, k: nat): (c: seq<nat>)
    ensures |c| == |from| && forall p :: 0 <= p < |c| ==> c[p] == if from[p] > k then from[p] - 1 else from[p]
  {
    seq(|from|, p requires 0 <= p < |from| => if from[p] > k then from[p] - 1 else from[p])
  }

  /** Taking away the element that t ends with leaves a smaller rearrangement. */
  lemma RemoveLast(s: seq<SymFreq>, t: seq<SymFreq>, from: seq<nat>)
    requires Rearranges(s, t, from) && |s| > 0
    ensures var n := |s| - 1; Rearranges(Without(s, from[n]), t[..n], Closed(from[..n], from[n]))
  {
    var n := |s| - 1;
    var k, s', from' := from[n], Without(s, from[n]), Closed(from[..n], from[n]);
    forall p | 0 <= p < n
      ensures from'[p] < n && t[p] == s'[from'[p]]
    {
      assert from[p] != k;
    }
    forall p, q | 0 <= p < q < n
      ensures from'[p] != from'[q]
    {
      assert from[p] != k && from[q] != k && from[p] != from[q];
    }
  }

  lemma {:induction false} CountWithout(s: seq<SymFreq>, k: nat, pass: nat, v: nat, m: nat)
    requires Keys(s) && k < m <= |s|
    ensures CountDigit(s, pass, m, v) == CountDigit(Without(s, k), pass, m - 1, v) + (if Digit(s[k].key, pass) == v then 1 else 0)
    decreases m
  {
    var s' := Without(s, k);
    if m == k + 1 {
      CountAgree(s, s', pass, k, v);
    } else {
      CountWithout(s, k, pass, v, m - 1);
      assert s'[m - 2] == s[m - 1];
    }
  }

  lemma {:induction false} CountAgree(s: seq<SymFreq>, t: seq<SymFreq>, pass: nat, k: nat, v: nat)
    requires Keys(s) && Keys(t) && k <= |s| && k <= |t| && forall i :: 0 <= i < k ==> s[i] == t[i]
    ensures CountDigit(s, pass, k, v) == CountDigit(t, pass, k, v)
  {
    if k > 0 { CountAgree(s, t, pass, k - 1, v); }
  }

  /** A rearrangement has as many keys of every digit as before. */
  lemma {:induction false} SameCounts(s: seq<SymFreq>, t: seq<SymFreq>, from: seq<nat>, pass: nat, v: nat)
    requires Keys(s) && Keys(t) && Rearranges(s, t, from)
    ensures CountDigit(t, pass, |t|, v) == CountDigit(s, pass, |s|, v)
    decreases |s|
  {
    if |s| > 0 {
      var n := |s| - 1;
      var k, s', t' := from[n], Without(s, from[n]), t[..n];
      RemoveLast(s, t, from);
      KeysWithout(s, k);
      SameCounts(s', t', Closed(from[..n], k), pass, v);
      CountWithout(s, k, pass, v, |s|);
      CountWithout(t, n, pass, v, |t|);
      assert Without(t, n) == t';
    }
  }

  lemma KeysWithout(s: seq<SymFreq>, k: nat)
    requires Keys(s) && k < |s|
    ensures Keys(Without(s, k)) && |Without(s, k)| == |s| - 1
  {}

  lemma MultisetWithout(s: seq<SymFreq>, k: nat)
    requires k < |s|
    ensures multiset(s) == multiset(Without(s, k)) + multiset{s[k]}
  {
    assert s == s[..k] + [s[k]] + s[k + 1..];
  }

  lemma {:induction false} SameElements(s: seq<SymFreq>, t: seq<SymFreq>, from: seq<nat>)
    requires Rearranges(s, t, from)
    ensures multiset(t) == multiset(s)
    decreases |s|
  {
    if |s| > 0 {
      var n := |s| - 1;
      var k, t' := from[n], t[..n];
      RemoveLast(s, t, from);
      SameElements(Without(s, k), t', Closed(from[..n], k));
      MultisetWithout(s, k);
      MultisetWithout(t, n);
      assert Without(t, n) == t';
    }
  }

  lemma SortedRearranges(s: seq<SymFreq>, t: seq<SymFreq>, passes: nat, from: seq<nat>)
    requires SortedBy(s, t, passes, from)
    ensures Rearranges(s, t, from)
  {
    forall p, q | 0 <= p < q < |s|
      ensures from[p] != from[q]
    {
      assert Before(s, passes, from[p], from[q]);
    }
  }

  /** Main result on values: a sorted rearrangement has the same elements, ascending by key, equal keys in their old order. */
  lemma SortedIsStable(s: seq<SymFreq>, t: seq<SymFreq>, from: seq<nat>, p: nat, q: nat)
    requires Keys(s) && Sorted(s, t, from) && p < q < |s|
    ensures multiset(t) == multiset(s)
    ensures t[p].key <= t[q].key && (t[p].key == t[q].key ==> from[p] < from[q])
  {
    SortedRearranges(s, t, 2, from);
    SameElements(s, t, from);
    assert Before(s, 2, from[p], from[q]);
  }

  // ---------- The method ----------

  ghost predicate Histogram(s: seq<SymFreq>, hist: seq<nat>, pass: nat) {
    Keys(s) && |hist| == 256 && forall v :: 0 <= v < 256 ==> hist[v] == CountDigit(s, pass, |s|, v)
  }

  method CountDigits(syms: array<SymFreq>, numSyms: nat, pass: nat) returns (hist: seq<nat>)
    requires numSyms <= syms.Length && Keys(syms[..numSyms])
    ensures Histogram(syms[..numSyms], hist, pass)
  {
    ghost var s := syms[..numSyms];
    hist := seq(256, _ => 0);
    var i := 0;
    while i < numSyms
      invariant 0 <= i <= numSyms && |hist| == 256
      invariant forall v :: 0 <= v < 256 ==> hist[v] == CountDigit(s, pass, i, v)
    {
      assert s[i] == syms[i];
      var d := Digit(syms[i].key, pass);
      hist := hist[d := hist[d] + 1];
      i := i + 1;
    }
  }

  lemma HistogramKept(s: seq<SymFreq>, t: seq<SymFreq>, passes: nat, from: seq<nat>, hist: seq<nat>, pass: nat)
    requires Histogram(s, hist, pass) && SortedBy(s, t, passes, from)
    ensures Histogram(t, hist, pass)
  {
    SortedRearranges(s, t, passes, from);
    KeysKept(s, t, passes, from);
    forall v | 0 <= v < 256
      ensures hist[v] == CountDigit(t, pass, |t|, v)
    {
      SameCounts(s, t, from, pass, v);
    }
  }

  lemma SortedByNothing(s: seq<SymFreq>, from: seq<nat>)
    requires |from| == |s| && forall p :: 0 <= p < |s| ==> from[p] == p
    ensures SortedBy(s, s, 0, from)
  {}

  ghost predicate Histograms(s: seq<SymFreq>, hist: seq<seq<nat>>) {
    |hist| == 2 && forall pass :: 0 <= pass < 2 ==> Histogram(s, hist[pass], pass)
  }

  /** After the passes that are not skipped the order is complete. */
  lemma AllPasses(s: seq<SymFreq>, t: seq<SymFreq>, hist: seq<seq<nat>>, totalPasses: nat, from: seq<nat>)
    requires Histograms(s, hist) && SortedBy(s, t, totalPasses, from)
    requires totalPasses == if |s| == hist[1][0] then 1 else 2
    ensures Sorted(s, t, from)
  {
    if totalPasses == 1 { SkipPass(s, t, from); }
  }

  /** Sorts the first numSyms elements; the result is whichever of the two buffers was written last. */
  method RadixSortSyms(numSyms: nat, syms0: array<SymFreq>, syms1: array<SymFreq>) returns (curSyms: array<SymFreq>, ghost from: seq<nat>)
    requires syms0 != syms1 && numSyms <= syms0.Length && numSyms <= syms1.Length && Keys(syms0[..numSyms])
    modifies syms0, syms1
    ensures curSyms == syms0 || curSyms == syms1
    ensures Sorted(old(syms0[..numSyms]), curSyms[..numSyms], from)
  {
    ghost var s := syms0[..numSyms];
    var hist0 := CountDigits(syms0, numSyms, 0);
    var hist1 := CountDigits(syms0, numSyms, 1);
    from := seq(numSyms, p => p);
    SortedByNothing(s, from);
    curSyms, from := SortPasses(s, syms0, syms1, numSyms, [hist0, hist1], from);
  }

  method SortPasses(ghost s: seq<SymFreq>, syms0: array<SymFreq>, syms1: array<SymFreq>, numSyms: nat, hist: seq<seq<nat>>,
                    ghost start: seq<nat>) returns (curSyms: array<SymFreq>, ghost from: seq<nat>)
    requires syms0 != syms1 && numSyms <= syms0.Length && numSyms <= syms1.Length
    requires Histograms(s, hist) && SortedBy(s, syms0[..numSyms], 0, start)
    modifies syms0, syms1
    ensures curSyms == syms0 || curSyms == syms1
    ensures Sorted(s, curSyms[..numSyms], from)
  {
    var totalPasses := if numSyms == hist[1][0] then 1 else 2;
    var newSyms;
    curSyms, newSyms, from := syms0, syms1, start;
    var pass := 0;
    while pass < totalPasses
      invariant 0 <= pass <= totalPasses
      invariant (curSyms == syms0 && newSyms == syms1) || (curSyms == syms1 && newSyms == syms0)
      invariant SortedBy(s, curSyms[..numSyms], pass, from)
    {
      from := OnePass(s, curSyms, newSyms, numSyms, hist[pass], pass, from);
      curSyms, newSyms := newSyms, curSyms;
      pass := pass + 1;
    }
    AllPasses(s, curSyms[..numSyms], hist, totalPasses, from);
  }

  method OnePass(ghost s: seq<SymFreq>, cur: array<SymFreq>, next: array<SymFreq>, numSyms: nat, hist: seq<nat>, pass: nat,
                 ghost from: seq<nat>) returns (ghost from': seq<nat>)
    requires cur != next && numSyms <= cur.Length && numSyms <= next.Length
    requires pass < 2 && Histogram(s, hist, pass) && SortedBy(s, cur[..numSyms], pass, from)
    modifies next
    ensures SortedBy(s, next[..numSyms], pass + 1, from')
  {
    ghost var t := cur[..numSyms];
    HistogramKept(s, t, pass, from, hist, pass);
    ghost var from2 := SortPass(cur, next, hist, numSyms, pass);
    NextPass(s, t, next[..numSyms], pass, from, from2);
    from' := Through(from, from2);
  }
}
