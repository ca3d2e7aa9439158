/** Lower bounds on the weighted length of any code whose Kraft sum is at most one:
    the exchange argument behind minimum-redundancy codes. */
module PrefixCodeCost {
  import opened Powers
  import opened MergeTree

  ghost function Cost(w: seq<nat>, len: seq<nat>): nat
    requires |w| == |len|
  {
    if w == [] then 0 else w[0] * len[0] + Cost(w[1..], len[1..])
  }

  /** Lengths of some prefix code: at most m bits each and Kraft sum at most one. */
  ghost predicate Fits(len: seq<nat>, m: nat) {
    (forall i :: 0 <= i < |len| ==> len[i] <= m) && KraftSum(len, m) <= Pow2(m)
  }

  /** A subtree to be placed: its weight and its height, which is 0 for a single symbol. */
  datatype Item = Item(weight: nat, height: nat)

  /** Lighter, or as light and no taller. */
  ghost predicate Before(x: Item, y: Item) {
    x.weight < y.weight || (x.weight == y.weight && x.height <= y.height)
  }

  ghost function Merged(x: Item, y: Item): Item {
    Item(x.weight + y.weight, 1 + if x.height < y.height then y.height else x.height)
  }

  ghost function Weights(s: seq<Item>): (w: seq<nat>)
    ensures |w| == |s| && forall i :: 0 <= i < |w| ==> w[i] == s[i].weight
  {
    seq(|s|, i requires 0 <= i < |s| => s[i].weight)
  }

  /** Some symbol gets a code of at least D bits. */
  ghost predicate Reaches(s: seq<Item>, len: seq<nat>, D: nat)
    requires |s| == |len|
  {
    exists i :: 0 <= i < |s| && s[i].height + len[i] >= D
  }

  /** These lengths cost at least c, and if no more than that they reach down to D. */
  ghost predicate Bounded(s: seq<Item>, len: seq<nat>, c: nat, D: nat)
    requires |s| == |len|
  {
    c <= Cost(Weights(s), len) && (Cost(Weights(s), len) == c ==> Reaches(s, len, D))
  }

  /** No prefix code for these items costs less than c, and each one that costs c reaches down to D. */
  ghost predicate LowerBound(items: multiset<Item>, c: nat, D: nat) {
    forall s: seq<Item>, len: seq<nat>, m: nat :: CodeFor(items, s, len, m) ==> Bounded(s, len, c, D)
  }

  ghost predicate CodeFor(items: multiset<Item>, s: seq<Item>, len: seq<nat>, m: nat) {
    multiset(s) == items && |len| == |s| && Fits(len, m)
  }

  ghost function Single(z: Item): multiset<Item> {
    multiset{z}
  }

  lemma CancelSingle(a: multiset<Item>, b: multiset<Item>, x: Item)
    requires a + Single(x) == b + Single(x)
    ensures a == b
  {
    forall v: Item
      ensures a[v] == b[v]
    {
      assert (a + Single(x))[v] == a[v] + Single(x)[v];
      assert (b + Single(x))[v] == b[v] + Single(x)[v];
    }
  }

  lemma SwapSingles(a: multiset<Item>, x: Item, y: Item)
    ensures a + Single(x) + Single(y) == a + Single(y) + Single(x)
  {}

  function RemoveAt<T>(s: seq<T>, k: nat): seq<T>
    requires k < |s|
  {
    s[..k] + s[k + 1..]
  }

  lemma RemoveAtMultiset(s: seq<Item>, k: nat)
    requires k < |s|
    ensures multiset(s) == multiset(RemoveAt(s, k)) + Single(s[k])
  {
    assert s == s[..k] + [s[k]] + s[k + 1..];
  }

  lemma RemoveAtWeights(s: seq<Item>, k: nat)
    requires k < |s|
    ensures Weights(RemoveAt(s, k)) == RemoveAt(Weights(s), k)
  {}

  lemma {:induction false} RemoveAtCost(w: seq<nat>, len: seq<nat>, k: nat)
    requires |w| == |len| && k < |w|
    ensures Cost(w, len) == w[k] * len[k] + Cost(RemoveAt(w, k), RemoveAt(len, k))
  {
    if k == 0 {
      assert RemoveAt(w, 0) == w[1..] && RemoveAt(len, 0) == len[1..];
    } else {
      RemoveAtCost(w[1..], len[1..], k - 1);
      assert RemoveAt(w, k)[1..] == RemoveAt(w[1..], k - 1);
      assert RemoveAt(len, k)[1..] == RemoveAt(len[1..], k - 1);
    }
  }

  lemma {:induction false} RemoveAtKraft(len: seq<nat>, k: nat, m: nat)
    requires k < |len| && forall i :: 0 <= i < |len| ==> len[i] <= m
    ensures KraftSum(len, m) == Pow2(m - len[k]) + KraftSum(RemoveAt(len, k), m)
  {
    if k == 0 {
      assert RemoveAt(len, 0) == len[1..];
    } else {
      RemoveAtKraft(len[1..], k - 1, m);
      assert RemoveAt(len, k)[1..] == RemoveAt(len[1..], k - 1);
    }
  }

  lemma {:induction false} KraftRescale(len: seq<nat>, b: nat, m: nat)
    requires b <= m && forall i :: 0 <= i < |len| ==> len[i] <= b
    ensures KraftSum(len, m) == KraftSum(len, b) * Pow2(m - b)
  {
    if len != [] {
      KraftRescale(len[1..], b, m);
      Pow2Add(b - len[0], m - b);
      assert b - len[0] + (m - b) == m - len[0];
      MulDist(Pow2(b - len[0]), KraftSum(len[1..], b), Pow2(m - b));
    }
  }

  lemma {:induction false} UpdateCost(w: seq<nat>, len: seq<nat>, k: nat, v: nat)
    requires |w| == |len| && k < |w|
    ensures Cost(w, len[k := v]) + w[k] * len[k] == Cost(w, len) + w[k] * v
  {
    RemoveAtCost(w, len, k);
    RemoveAtCost(w, len[k := v], k);
    assert RemoveAt(len[k := v], k) == RemoveAt(len, k);
  }

  lemma {:induction false} UpdateKraft(len: seq<nat>, k: nat, v: nat, m: nat)
    requires k < |len| && v <= m && forall i :: 0 <= i < |len| ==> len[i] <= m
    ensures KraftSum(len[k := v], m) + Pow2(m - len[k]) == KraftSum(len, m) + Pow2(m - v)
  {
    RemoveAtKraft(len, k, m);
    RemoveAtKraft(len[k := v], k, m);
    assert RemoveAt(len[k := v], k) == RemoveAt(len, k);
  }

  /** Swapping does not cost more; and at the same cost it reaches no deeper. */
  ghost predicate NoWorse(s: seq<Item>, len: seq<nat>, len': seq<nat>, D: nat)
    requires |s| == |len| == |len'|
  {
    Cost(Weights(s), len') <= Cost(Weights(s), len)
    && (Cost(Weights(s), len') == Cost(Weights(s), len) && Reaches(s, len', D) ==> Reaches(s, len, D))
  }

  /** Giving the longer of two codes to the item that comes before. */
  lemma SwapLengths(s: seq<Item>, len: seq<nat>, m: nat, p: nat, i: nat, D: nat)
    requires |s| == |len| && p < |s| && i < |s| && Fits(len, m)
    requires Before(s[p], s[i]) && len[p] <= len[i]
    ensures var len' := len[p := len[i]][i := len[p]];
            Fits(len', m) && NoWorse(s, len, len', D)
  {
    var len' := len[p := len[i]][i := len[p]];
    if p != i && len[p] < len[i] {
      SwapCost(Weights(s), len, p, i);
      UpdateKraft(len, p, len[i], m);
      UpdateKraft(len[p := len[i]], i, len[p], m);
      if s[p].weight == s[i].weight { SwapReaches(s, len, len', p, i, D); }
    } else {
      assert len' == len;
    }
  }

  lemma SwapReaches(s: seq<Item>, len: seq<nat>, len': seq<nat>, p: nat, i: nat, D: nat)
    requires |s| == |len| && p < |s| && i < |s| && len[p] <= len[i] && len' == len[p := len[i]][i := len[p]]
    requires s[p].height <= s[i].height
    ensures Reaches(s, len', D) ==> Reaches(s, len, D)
  {
    if k :| 0 <= k < |s| && s[k].height + len'[k] >= D {
      assert s[i].height + len[i] >= s[k].height + len'[k] || (k != p && k != i && s[k].height + len[k] >= D);
    }
  }

  lemma SwapCost(w: seq<nat>, len: seq<nat>, p: nat, i: nat)
    requires |w| == |len| && p < |w| && i < |w| && p != i && w[p] <= w[i] && len[p] < len[i]
    ensures var len' := len[p := len[i]][i := len[p]];
            Cost(w, len') <= Cost(w, len) && (w[p] < w[i] ==> Cost(w, len') < Cost(w, len))
  {
    UpdateCost(w, len, p, len[i]);
    UpdateCost(w, len[p := len[i]], i, len[p]);
    CrossTerms(w[p], w[i], len[p], len[i]);
  }

  lemma CrossTerms(x: nat, y: nat, a: nat, b: nat)
    requires x <= y && a < b
    ensures x * b + y * a <= x * a + y * b
    ensures x < y ==> x * b + y * a < x * a + y * b
  {
    MulMono(x, y, b - a);
    assert x * (b - a) == x * b - x * a && y * (b - a) == y * b - y * a;
    if x < y {
      MulMono(x + 1, y, b - a);
      assert (x + 1) * (b - a) == x * (b - a) + (b - a);
    }
  }

  /** Index of a greatest element among those other than `skip`. */
  lemma Longest(len: seq<nat>, skip: int) returns (i: nat)
    requires |len| >= 2
    ensures i < |len| && i != skip && forall j :: 0 <= j < |len| && j != skip ==> len[j] <= len[i]
  {
    i := if skip == 0 then 1 else 0;
    var k := 0;
    while k < |len|
      invariant 0 <= k <= |len| && i < |len| && i != skip
      invariant forall j :: 0 <= j < k && j != skip ==> len[j] <= len[i]
    {
      if k != skip && len[k] > len[i] { i := k; }
      k := k + 1;
    }
  }

  /** If two codes are the longest, one bit can be saved on both: their parent has room. */
  lemma ParentHasRoom(rest: seq<nat>, a: nat, b: nat, m: nat)
    requires b <= a <= m && forall i :: 0 <= i < |rest| ==> rest[i] <= b
    requires Pow2(m - a) + Pow2(m - b) + KraftSum(rest, m) <= Pow2(m)
    ensures b >= 1 && Pow2(m - (b - 1)) + KraftSum(rest, m) <= Pow2(m)
  {
    var u := Pow2(m - b);
    KraftRescale(rest, b, m);
    Pow2Add(b, m - b);
    assert b + (m - b) == m;
    var k := KraftSum(rest, b);
    MulDist(k, 2, u);
    MulDist(k + 1, 1, u);
    assert (k + 1) * u < Pow2(b) * u;
    MulDist(Pow2(b) - 1, 1, u);
    MulCancelLess(k + 1, Pow2(b) - 1, u);
    assert b >= 1;
    MulMono(k + 2, Pow2(b), u);
    assert Pow2(m - (b - 1)) == 2 * u;
  }

  /** If the two lightest items carry the two longest codes, merging them saves their weight. */
  lemma MergeLongest(s: seq<Item>, len: seq<nat>, m: nat, p: nat, q: nat, rest: multiset<Item>, c: nat, D: nat)
    requires |s| == |len| && p < |s| && q < |s| && p != q && Fits(len, m)
    requires len[q] <= len[p] && forall i :: 0 <= i < |len| && i != p ==> len[i] <= len[q]
    requires multiset(s) == rest + Single(s[p]) + Single(s[q])
    requires LowerBound(rest + Single(Merged(s[p], s[q])), c, D) && (s[p].weight > 0 || D == 0)
    ensures Bounded(s, len, c + s[p].weight + s[q].weight, D)
  {
    var x, y := s[p], s[q];
    var s2, len2 := RemoveTwo(s, len, m, p, q, len[q], rest, D);
    var s3, len3 := MergedCode(s2, len2, m, len[p], len[q], x, y);
    assert Bounded(s3, len3, c, D);
    if Cost(Weights(s), len) == c + x.weight + y.weight {
      if D > 0 {
        MergedReaches(s2, len2, len[p], x, y, s3, len3, D);
        assert Reaches(s2, len2, D) || x.height + len[p] >= D || y.height + len[q] >= D;
      } else {
        assert s[p].height + len[p] >= D;
      }
    }
  }

  lemma MergedReaches(s2: seq<Item>, len2: seq<nat>, b: nat, x: Item, y: Item, s3: seq<Item>, len3: seq<nat>, D: nat)
    requires |s2| == |len2| && b >= 1 && s3 == [Merged(x, y)] + s2 && len3 == [b - 1] + len2 && Reaches(s3, len3, D)
    ensures Reaches(s2, len2, D) || x.height + b >= D || y.height + b >= D
  {
    var k :| 0 <= k < |s3| && s3[k].height + len3[k] >= D;
    if k > 0 { assert s2[k - 1].height + len2[k - 1] >= D; }
  }

  /** The two longest codes, of items x and y, replaced by their parent; nothing more is saved only if they are equally long. */
  lemma MergedCode(s2: seq<Item>, len2: seq<nat>, m: nat, a: nat, b: nat, x: Item, y: Item) returns (s3: seq<Item>, len3: seq<nat>)
    requires |s2| == |len2| && b <= a <= m && forall i :: 0 <= i < |len2| ==> len2[i] <= b
    requires Pow2(m - a) + Pow2(m - b) + KraftSum(len2, m) <= Pow2(m)
    ensures b >= 1 && s3 == [Merged(x, y)] + s2 && len3 == [b - 1] + len2
    ensures CodeFor(multiset(s2) + Single(Merged(x, y)), s3, len3, m)
    ensures var cost := x.weight * a + y.weight * b + Cost(Weights(s2), len2);
            Cost(Weights(s3), len3) + x.weight + y.weight <= cost
            && (x.weight > 0 && Cost(Weights(s3), len3) + x.weight + y.weight == cost ==> a == b)
  {
    ParentHasRoom(len2, a, b, m);
    s3, len3 := [Merged(x, y)] + s2, [b - 1] + len2;
    ParentCost(s2, len2, b, x, y);
    assert len3[1..] == len2;
    assert multiset(s3) == multiset(s2) + Single(Merged(x, y));
    SavedBits(x.weight, y.weight, a, b);
  }

  lemma ParentCost(s2: seq<Item>, len2: seq<nat>, b: nat, x: Item, y: Item)
    requires |s2| == |len2| && b >= 1
    ensures Cost(Weights([Merged(x, y)] + s2), [b - 1] + len2) == (x.weight + y.weight) * (b - 1) + Cost(Weights(s2), len2)
  {
    var s3, len3 := [Merged(x, y)] + s2, [b - 1] + len2;
    assert len3[1..] == len2 && Weights(s3)[1..] == Weights(s2);
  }

  /** The other items, and what the two removed ones contribute. */
  lemma RemoveTwo(s: seq<Item>, len: seq<nat>, m: nat, p: nat, q: nat, b: nat, rest: multiset<Item>, D: nat)
      returns (s2: seq<Item>, len2: seq<nat>)
    requires |s| == |len| && p < |s| && q < |s| && p != q && Fits(len, m)
    requires b <= m && forall i :: 0 <= i < |len| && i != p ==> len[i] <= b
    requires multiset(s) == rest + Single(s[p]) + Single(s[q])
    ensures |s2| == |len2|
    ensures Cost(Weights(s), len) == s[p].weight * len[p] + s[q].weight * len[q] + Cost(Weights(s2), len2)
    ensures forall i :: 0 <= i < |len2| ==> len2[i] <= b
    ensures KraftSum(len, m) == Pow2(m - len[p]) + Pow2(m - len[q]) + KraftSum(len2, m)
    ensures multiset(s2) == rest
    ensures Reaches(s2, len2, D) ==> Reaches(s, len, D)
  {
    var s1, len1 := RemoveAt(s, p), RemoveAt(len, p);
    var q1 := if q < p then q else q - 1;
    assert s1[q1] == s[q] && len1[q1] == len[q];
    s2, len2 := RemoveAt(s1, q1), RemoveAt(len1, q1);
    RemoveAtWeights(s, p);
    RemoveAtWeights(s1, q1);
    RemoveAtCost(Weights(s), len, p);
    RemoveAtCost(Weights(s1), len1, q1);
    RemoveAtKraft(len, p, m);
    RemoveAtKraft(len1, q1, m);
    RestOfTwo(s, s1, s2, p, q1, rest, s[q]);
    RemovedTwiceBelow(len, len1, len2, p, q1, b);
    RemovedReaches(s1, len1, q1, D);
    RemovedReaches(s, len, p, D);
  }

  lemma RestOfTwo(s: seq<Item>, s1: seq<Item>, s2: seq<Item>, p: nat, q: nat, rest: multiset<Item>, y: Item)
    requires p < |s| && s1 == RemoveAt(s, p) && q < |s1| && s2 == RemoveAt(s1, q) && s1[q] == y
    requires multiset(s) == rest + Single(s[p]) + Single(y)
    ensures multiset(s2) == rest
  {
    RemoveAtMultiset(s, p);
    RemoveAtMultiset(s1, q);
    SwapSingles(rest, s[p], y);
    CancelSingle(multiset(s1), rest + Single(y), s[p]);
    CancelSingle(multiset(s2), rest, y);
  }

  lemma RemovedReaches(s: seq<Item>, len: seq<nat>, k: nat, D: nat)
    requires |s| == |len| && k < |s|
    ensures Reaches(RemoveAt(s, k), RemoveAt(len, k), D) ==> Reaches(s, len, D)
  {
    var s1, len1 := RemoveAt(s, k), RemoveAt(len, k);
    if i :| 0 <= i < |s1| && s1[i].height + len1[i] >= D {
      var j := if i < k then i else i + 1;
      assert s[j] == s1[i] && len[j] == len1[i];
    }
  }

  lemma RemovedTwiceBelow(len: seq<nat>, len1: seq<nat>, len2: seq<nat>, p: nat, q: nat, b: nat)
    requires p < |len| && q < |len| - 1 && len1 == RemoveAt(len, p) && len2 == RemoveAt(len1, q)
    requires forall i :: 0 <= i < |len| && i != p ==> len[i] <= b
    ensures forall i :: 0 <= i < |len2| ==> len2[i] <= b
  {
    forall i | 0 <= i < |len2|
      ensures len2[i] <= b
    {
      var i1 := if i < q then i else i + 1;
      var k := if i1 < p then i1 else i1 + 1;
      assert len2[i] == len1[i1] == len[k];
    }
  }

  lemma SavedBits(x: nat, y: nat, a: nat, b: nat)
    requires 1 <= b <= a
    ensures (x + y) * (b - 1) + x + y <= x * a + y * b
    ensures x > 0 && a > b ==> (x + y) * (b - 1) + x + y < x * a + y * b
  {
    MulMono(b, a, x);
    if a > b {
      MulMono(b + 1, a, x);
      MulDist(b, 1, x);
    }
    assert (x + y) * (b - 1) + x + y == x * b + y * b;
  }

  /** Whatever the code, it costs at least the two lightest weights more than the best code in which they are merged. */
  lemma MergeLightest(s: seq<Item>, len: seq<nat>, m: nat, p: nat, q: nat, rest: multiset<Item>, c: nat, D: nat)
    requires |s| == |len| && p < |s| && q < |s| && p != q && Fits(len, m)
    requires Before(s[p], s[q]) && forall i :: 0 <= i < |s| && i != p ==> Before(s[q], s[i])
    requires multiset(s) == rest + Single(s[p]) + Single(s[q])
    requires LowerBound(rest + Single(Merged(s[p], s[q])), c, D) && (s[p].weight > 0 || D == 0)
    ensures Bounded(s, len, c + s[p].weight + s[q].weight, D)
  {
    var i := Longest(len, -1);
    SwapLengths(s, len, m, p, i, D);
    var len1 := len[p := len[i]][i := len[p]];
    var j := Longest(len1, p);
    SwapLengths(s, len1, m, q, j, D);
    var len2 := len1[q := len1[j]][j := len1[q]];
    MergeLongest(s, len2, m, p, q, rest, c, D);
  }

  /** The merge step on multisets: x and y come before all other items. */
  lemma LowerBoundStep(rest: multiset<Item>, x: Item, y: Item, c: nat, D: nat)
    requires Before(x, y) && forall z :: z in rest ==> Before(y, z)
    requires LowerBound(rest + Single(Merged(x, y)), c, D) && (x.weight > 0 || D == 0)
    ensures LowerBound(rest + Single(x) + Single(y), c + x.weight + y.weight, D)
  {
    forall s: seq<Item>, len: seq<nat>, m: nat | CodeFor(rest + Single(x) + Single(y), s, len, m)
      ensures Bounded(s, len, c + x.weight + y.weight, D)
    {
      var p, q := TwoLightest(s, rest, x, y);
      MergeLightest(s, len, m, p, q, rest, c, D);
    }
  }

  /** Positions of the two lightest items. */
  lemma TwoLightest(s: seq<Item>, rest: multiset<Item>, x: Item, y: Item) returns (p: nat, q: nat)
    requires multiset(s) == rest + Single(x) + Single(y)
    requires Before(x, y) && forall z :: z in rest ==> Before(y, z)
    ensures p < |s| && q < |s| && p != q && s[p] == x && s[q] == y
    ensures forall i :: 0 <= i < |s| && i != p ==> Before(y, s[i])
  {
    p := IndexOf(s, x);
    RemoveAtMultiset(s, p);
    var s1 := RemoveAt(s, p);
    SwapSingles(rest, x, y);
    CancelSingle(multiset(s1), rest + Single(y), x);
    var q1 := IndexOf(s1, y);
    q := if q1 < p then q1 else q1 + 1;
    assert s[q] == s1[q1];
    forall i | 0 <= i < |s| && i != p
      ensures Before(y, s[i])
    {
      var i1 := if i < p then i else i - 1;
      assert s1[i1] == s[i];
      assert s[i] in multiset(s1);
    }
  }

  lemma IndexOf(s: seq<Item>, v: Item) returns (k: nat)
    requires v in multiset(s)
    ensures k < |s| && s[k] == v
  {
    assert v in s;
    k :| k < |s| && s[k] == v;
  }
}
