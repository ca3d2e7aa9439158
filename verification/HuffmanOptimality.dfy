/** What the two-queue merge of MergeTree achieves when the weights are sorted and their sum fits
    a key: least total length among all prefix codes, and no code longer than 30 bits. */
module HuffmanOptimality {
  import opened Powers
  import opened MergeTree
  import opened PrefixCodeCost

  ghost function Sum(s: seq<nat>): nat {
    if s == [] then 0 else s[0] + Sum(s[1..])
  }

  ghost predicate Ascending(s: seq<nat>) {
    forall i, j :: 0 <= i <= j < |s| ==> s[i] <= s[j]
  }

  /** len is the cheapest list of code lengths for the weights w. */
  ghost predicate Optimal(w: seq<nat>, len: seq<nat>) {
    && |w| == |len|
    && forall other: seq<nat>, m: nat :: |other| == |w| && Fits(other, m) ==> Cost(w, len) <= Cost(w, other)
  }

  lemma {:induction false} SumAppend(s: seq<nat>, x: nat)
    ensures Sum(s + [x]) == Sum(s) + x
  {
    if s == [] {
      assert ([x])[1..] == [];
    } else {
      SumAppend(s[1..], x);
      assert (s + [x])[1..] == s[1..] + [x];
    }
  }

  lemma {:induction false} SumAtLeast(s: seq<nat>, i: nat)
    requires i < |s|
    ensures s[i] <= Sum(s)
  {
    if i > 0 { SumAtLeast(s[1..], i - 1); }
  }

  // ---------- The sums do not wrap ----------

  /** Weights as the merge sees them: sorted, and their sum fits a key. */
  ghost predicate Mergeable(w: seq<nat>) {
    Ascending(w) && Sum(w) < KEY_LIMIT
  }

  /** A run in which the weight of every node is the exact sum of its two items. */
  ghost predicate ExactRun(w: seq<nat>, nodes: seq<nat>, ls: seq<nat>, rs: seq<nat>) {
    && |ls| == |rs| == |nodes| + 1 && |w| == |nodes| + 1
    && ls[0] == 0 && rs[0] == 0
    && forall s :: 0 <= s < |nodes| ==> ExactStep(w, nodes, ls, rs, s)
  }

  ghost predicate ExactStep(w: seq<nat>, nodes: seq<nat>, ls: seq<nat>, rs: seq<nat>, s: nat)
    requires |ls| == |rs| == |nodes| + 1 && s < |nodes|
  {
    && s + 2 <= |w| && ls[s] <= |w| && rs[s] <= s && ls[s] + rs[s] == 2 * s
    && var a := Pick(w, nodes[..s], ls[s], rs[s]);
       var b := Pick(w, nodes[..s], a.l, a.r);
       nodes[s] == a.value + b.value && ls[s + 1] == b.l && rs[s + 1] == b.r
  }

  ghost function ItemSum(w: seq<nat>, nodes: seq<nat>, l: nat, r: nat): nat
    requires l <= |w| && r <= |nodes|
  {
    Sum(w[l..]) + Sum(nodes[r..])
  }

  lemma PickSum(w: seq<nat>, nodes: seq<nat>, l: nat, r: nat)
    requires l <= |w| && r <= |nodes| && (l < |w| || r < |nodes|)
    ensures var f := Pick(w, nodes, l, r);
            ItemSum(w, nodes, l, r) == f.value + ItemSum(w, nodes, f.l, f.r)
  {
    var f := Pick(w, nodes, l, r);
    if f.r > r {
      assert nodes[r..][1..] == nodes[r + 1..];
    } else {
      assert w[l..][1..] == w[l + 1..];
    }
  }

  /** A merge keeps the total weight. */
  lemma MergeSum(w: seq<nat>, nodes: seq<nat>, l: nat, r: nat)
    requires l <= |w| && r <= |nodes| && l + r + 2 <= |w| + |nodes|
    ensures var a := Pick(w, nodes, l, r);
            var b := Pick(w, nodes, a.l, a.r);
            && a.value + b.value <= ItemSum(w, nodes, l, r)
            && ItemSum(w, nodes + [a.value + b.value], b.l, b.r) == ItemSum(w, nodes, l, r)
  {
    var a := Pick(w, nodes, l, r);
    var b := Pick(w, nodes, a.l, a.r);
    PickSum(w, nodes, l, r);
    PickSum(w, nodes, a.l, a.r);
    assert (nodes + [a.value + b.value])[b.r..] == nodes[b.r..] + [a.value + b.value];
    SumAppend(nodes[b.r..], a.value + b.value);
  }

  lemma {:induction false} ExactUpTo(w: seq<nat>, nodes: seq<nat>, ls: seq<nat>, rs: seq<nat>, s: nat)
    requires Run(w, nodes, ls, rs) && Sum(w) < KEY_LIMIT && s <= |nodes|
    ensures ls[s] <= |w| && rs[s] <= s && ItemSum(w, nodes[..s], ls[s], rs[s]) == Sum(w)
    ensures forall t :: 0 <= t < s ==> ExactStep(w, nodes, ls, rs, t)
    decreases s
  {
    if s == 0 {
      assert w[0..] == w && nodes[..0][0..] == [];
    } else {
      ExactUpTo(w, nodes, ls, rs, s - 1);
      assert Step(w, nodes, ls, rs, s - 1);
      MergeSum(w, nodes[..s - 1], ls[s - 1], rs[s - 1]);
      assert nodes[..s] == nodes[..s - 1] + [nodes[s - 1]];
    }
  }

  // ---------- The merge takes the lightest items ----------

  /** Leaves w[l..] and nodes[r..] are sorted and none is lighter than low;
      no node so far is heavier than twice low. */
  ghost predicate Ordered(w: seq<nat>, nodes: seq<nat>, l: nat, r: nat, low: nat) {
    && l <= |w| && r <= |nodes| && Ascending(w) && Ascending(nodes)
    && (l < |w| ==> low <= w[l]) && (r < |nodes| ==> low <= nodes[r])
    && (nodes != [] ==> nodes[|nodes| - 1] <= 2 * low)
  }

  /** A merge takes the two lightest items, in order, and keeps the order. */
  lemma MergeOrdered(w: seq<nat>, nodes: seq<nat>, l: nat, r: nat, low: nat)
    requires Ordered(w, nodes, l, r, low) && l + r + 2 <= |w| + |nodes|
    ensures var a := Pick(w, nodes, l, r);
            var b := Pick(w, nodes, a.l, a.r);
            && low <= a.value <= b.value
            && Ordered(w, nodes, b.l, b.r, b.value)
            && Ordered(w, nodes + [a.value + b.value], b.l, b.r, b.value)
  {
  }

  lemma {:induction false} RunOrdered(w: seq<nat>, nodes: seq<nat>, ls: seq<nat>, rs: seq<nat>, s: nat) returns (low: nat)
    requires ExactRun(w, nodes, ls, rs) && Ascending(w) && s <= |nodes|
    ensures Ordered(w, nodes[..s], ls[s], rs[s], low)
    ensures s > 0 ==> nodes[s - 1] <= 2 * low
    decreases s
  {
    if s == 0 {
      low := 0;
    } else {
      var before := RunOrdered(w, nodes, ls, rs, s - 1);
      assert ExactStep(w, nodes, ls, rs, s - 1);
      MergeOrdered(w, nodes[..s - 1], ls[s - 1], rs[s - 1], before);
      assert nodes[..s] == nodes[..s - 1] + [nodes[s - 1]];
      low := Pick(w, nodes[..s - 1], Pick(w, nodes[..s - 1], ls[s - 1], rs[s - 1]).l, Pick(w, nodes[..s - 1], ls[s - 1], rs[s - 1]).r).value;
    }
  }

  // ---------- The items of a merge, with their heights ----------

  ghost function Leaves(w: seq<nat>): (s: seq<Item>)
    ensures |s| == |w| && forall i :: 0 <= i < |s| ==> s[i] == Item(w[i], 0)
  {
    seq(|w|, i requires 0 <= i < |w| => Item(w[i], 0))
  }

  ghost function Trees(nodes: seq<nat>, hts: seq<nat>): (s: seq<Item>)
    requires |nodes| == |hts|
    ensures |s| == |nodes| && forall i :: 0 <= i < |s| ==> s[i] == Item(nodes[i], hts[i])
  {
    seq(|nodes|, i requires 0 <= i < |nodes| => Item(nodes[i], hts[i]))
  }

  /** What Pick takes. */
  ghost function Picked(w: seq<nat>, nodes: seq<nat>, hts: seq<nat>, l: nat, r: nat): Item
    requires l <= |w| && r <= |nodes| == |hts| && (l < |w| || r < |nodes|)
  {
    var f := Pick(w, nodes, l, r);
    if f.r > r then Item(nodes[r], hts[r]) else Item(w[l], 0)
  }

  /** Both items of a merge. */
  ghost function FirstItem(w: seq<nat>, nodes: seq<nat>, hts: seq<nat>, l: nat, r: nat): Item
    requires l <= |w| && r <= |nodes| == |hts| && l + r + 2 <= |w| + |nodes|
  {
    Picked(w, nodes, hts, l, r)
  }

  ghost function SecondItem(w: seq<nat>, nodes: seq<nat>, hts: seq<nat>, l: nat, r: nat): Item
    requires l <= |w| && r <= |nodes| == |hts| && l + r + 2 <= |w| + |nodes|
  {
    var a := Pick(w, nodes, l, r);
    Picked(w, nodes, hts, a.l, a.r)
  }

  /** Leaves and trees wait in order, none before low; no tree comes after one made of two items like low. */
  ghost predicate ItemsOrdered(w: seq<nat>, nodes: seq<nat>, hts: seq<nat>, l: nat, r: nat, low: Item) {
    && l <= |w| && r <= |nodes| == |hts| && Ascending(w) && TreesOrdered(nodes, hts)
    && (l < |w| ==> Before(low, Item(w[l], 0))) && (r < |nodes| ==> Before(low, Item(nodes[r], hts[r])))
    && (nodes != [] ==> Before(Item(nodes[|nodes| - 1], hts[|nodes| - 1]), Item(2 * low.weight, low.height + 1)))
  }

  ghost predicate TreesOrdered(nodes: seq<nat>, hts: seq<nat>) {
    |nodes| == |hts| && forall i, j :: 0 <= i <= j < |nodes| ==> Before(Item(nodes[i], hts[i]), Item(nodes[j], hts[j]))
  }

  /** One pick takes an item before all others. */
  lemma PickOrdered(w: seq<nat>, nodes: seq<nat>, hts: seq<nat>, l: nat, r: nat, low: Item)
    requires ItemsOrdered(w, nodes, hts, l, r, low) && (l < |w| || r < |nodes|)
    ensures var f, x := Pick(w, nodes, l, r), Picked(w, nodes, hts, l, r);
            f.value == x.weight && Before(low, x) && ItemsOrdered(w, nodes, hts, f.l, f.r, x)
  {
    var x := Picked(w, nodes, hts, l, r);
    var top := Item(2 * x.weight, x.height + 1);
    assert Before(Item(2 * low.weight, low.height + 1), top);
  }

  /** And the merged tree goes to the end. */
  lemma TreeAppended(w: seq<nat>, nodes: seq<nat>, hts: seq<nat>, l: nat, r: nat, low: Item, x: Item, y: Item)
    requires ItemsOrdered(w, nodes, hts, l, r, y) && Before(low, x) && Before(x, y)
    requires nodes != [] ==> Before(Item(nodes[|nodes| - 1], hts[|nodes| - 1]), Item(2 * low.weight, low.height + 1))
    ensures ItemsOrdered(w, nodes + [Merged(x, y).weight], hts + [Merged(x, y).height], l, r, y)
  {
    var z := Merged(x, y);
    var nodes', hts' := nodes + [z.weight], hts + [z.height];
    if nodes != [] {
      var last := Item(nodes[|nodes| - 1], hts[|nodes| - 1]);
      assert Before(last, z);
    }
    assert Before(y, z) && Before(z, Item(2 * y.weight, y.height + 1));
    forall i, j | 0 <= i <= j < |nodes'|
      ensures Before(Item(nodes'[i], hts'[i]), Item(nodes'[j], hts'[j]))
    {
      if i < j == |nodes| { assert Before(Item(nodes[i], hts[i]), Item(nodes[|nodes| - 1], hts[|nodes| - 1])); }
    }
  }

  lemma MergeItemsOrdered(w: seq<nat>, nodes: seq<nat>, hts: seq<nat>, l: nat, r: nat, low: Item)
    requires ItemsOrdered(w, nodes, hts, l, r, low) && l + r + 2 <= |w| + |nodes|
    ensures var a := Pick(w, nodes, l, r);
            var b := Pick(w, nodes, a.l, a.r);
            var x, y := FirstItem(w, nodes, hts, l, r), SecondItem(w, nodes, hts, l, r);
            && a.value == x.weight && b.value == y.weight && Before(x, y)
            && ItemsOrdered(w, nodes, hts, b.l, b.r, y)
            && ItemsOrdered(w, nodes + [Merged(x, y).weight], hts + [Merged(x, y).height], b.l, b.r, y)
  {
    var a := Pick(w, nodes, l, r);
    var b := Pick(w, nodes, a.l, a.r);
    var x, y := FirstItem(w, nodes, hts, l, r), SecondItem(w, nodes, hts, l, r);
    PickOrdered(w, nodes, hts, l, r, low);
    PickOrdered(w, nodes, hts, a.l, a.r, x);
    TreeAppended(w, nodes, hts, b.l, b.r, low, x, y);
  }

  /** hts[t] is the height of the tree made at stage t, for the first s stages. */
  ghost predicate Heights(w: seq<nat>, nodes: seq<nat>, ls: seq<nat>, rs: seq<nat>, hts: seq<nat>, s: nat) {
    ExactRun(w, nodes, ls, rs) && s <= |nodes| && |hts| == |nodes|
    && forall t :: 0 <= t < s ==> HeightAt(w, nodes, ls, rs, hts, t)
  }

  ghost predicate HeightAt(w: seq<nat>, nodes: seq<nat>, ls: seq<nat>, rs: seq<nat>, hts: seq<nat>, t: nat)
    requires |ls| == |rs| == |nodes| + 1 && t < |nodes| == |hts|
  {
    && ExactStep(w, nodes, ls, rs, t)
    && hts[t] == Merged(FirstItem(w, nodes[..t], hts[..t], ls[t], rs[t]), SecondItem(w, nodes[..t], hts[..t], ls[t], rs[t])).height
  }

  lemma {:induction false} MakeHeights(w: seq<nat>, nodes: seq<nat>, ls: seq<nat>, rs: seq<nat>, s: nat) returns (hts: seq<nat>)
    requires ExactRun(w, nodes, ls, rs) && s <= |nodes|
    ensures Heights(w, nodes, ls, rs, hts, s)
    decreases s
  {
    if s == 0 {
      hts := seq(|nodes|, _ => 0);
    } else {
      var before := MakeHeights(w, nodes, ls, rs, s - 1);
      var t := s - 1;
      assert ExactStep(w, nodes, ls, rs, t);
      var h := Merged(FirstItem(w, nodes[..t], before[..t], ls[t], rs[t]), SecondItem(w, nodes[..t], before[..t], ls[t], rs[t])).height;
      hts := before[t := h];
      forall u | 0 <= u < s
        ensures HeightAt(w, nodes, ls, rs, hts, u)
      {
        assert hts[..u] == before[..u];
        if u < t { assert HeightAt(w, nodes, ls, rs, before, u); }
      }
    }
  }

  lemma StageOrdered(w: seq<nat>, nodes: seq<nat>, ls: seq<nat>, rs: seq<nat>, hts: seq<nat>, t: nat, before: Item,
                     nodes': seq<nat>, hts': seq<nat>) returns (low: Item)
    requires Heights(w, nodes, ls, rs, hts, |nodes|) && t < |nodes| && nodes' == nodes[..t] && hts' == hts[..t]
    requires ItemsOrdered(w, nodes', hts', ls[t], rs[t], before)
    ensures ItemsOrdered(w, nodes[..t + 1], hts[..t + 1], ls[t + 1], rs[t + 1], low)
  {
    assert HeightAt(w, nodes, ls, rs, hts, t);
    MergeItemsOrdered(w, nodes', hts', ls[t], rs[t], before);
    assert nodes[..t + 1] == nodes' + [nodes[t]] && hts[..t + 1] == hts' + [hts[t]];
    low := SecondItem(w, nodes', hts', ls[t], rs[t]);
  }

  lemma {:induction false} RunItemsOrdered(w: seq<nat>, nodes: seq<nat>, ls: seq<nat>, rs: seq<nat>, hts: seq<nat>, s: nat)
      returns (low: Item)
    requires Heights(w, nodes, ls, rs, hts, |nodes|) && Ascending(w) && s <= |nodes|
    ensures ItemsOrdered(w, nodes[..s], hts[..s], ls[s], rs[s], low)
    decreases s
  {
    if s == 0 {
      low := Item(0, 0);
    } else {
      var t := s - 1;
      var before := RunItemsOrdered(w, nodes, ls, rs, hts, t);
      low := StageOrdered(w, nodes, ls, rs, hts, t, before, nodes[..t], hts[..t]);
    }
  }

  // ---------- Least total length, and least depth ----------

  ghost function Items(w: seq<nat>, nodes: seq<nat>, hts: seq<nat>, l: nat, r: nat): multiset<Item>
    requires l <= |w| && r <= |nodes| == |hts|
  {
    multiset(Leaves(w[l..])) + multiset(Trees(nodes[r..], hts[r..]))
  }

  lemma PickItems(w: seq<nat>, nodes: seq<nat>, hts: seq<nat>, l: nat, r: nat)
    requires l <= |w| && r <= |nodes| == |hts| && (l < |w| || r < |nodes|)
    ensures var f := Pick(w, nodes, l, r);
            Items(w, nodes, hts, l, r) == Items(w, nodes, hts, f.l, f.r) + Single(Picked(w, nodes, hts, l, r))
  {
    var f := Pick(w, nodes, l, r);
    if f.r > r {
      assert Trees(nodes[r..], hts[r..]) == [Item(nodes[r], hts[r])] + Trees(nodes[r + 1..], hts[r + 1..]);
    } else {
      assert Leaves(w[l..]) == [Item(w[l], 0)] + Leaves(w[l + 1..]);
    }
  }

  /** A merge replaces its two picks by their tree. */
  lemma MergeItems(w: seq<nat>, nodes: seq<nat>, hts: seq<nat>, l: nat, r: nat)
    requires l <= |w| && r <= |nodes| == |hts| && l + r + 2 <= |w| + |nodes|
    ensures var a := Pick(w, nodes, l, r);
            var b := Pick(w, nodes, a.l, a.r);
            var x, y := FirstItem(w, nodes, hts, l, r), SecondItem(w, nodes, hts, l, r);
            Items(w, nodes, hts, l, r) == Items(w, nodes, hts, b.l, b.r) + Single(x) + Single(y)
  {
    var a := Pick(w, nodes, l, r);
    var b := Pick(w, nodes, a.l, a.r);
    PickItems(w, nodes, hts, l, r);
    PickItems(w, nodes, hts, a.l, a.r);
    SwapSingles(Items(w, nodes, hts, b.l, b.r), FirstItem(w, nodes, hts, l, r), SecondItem(w, nodes, hts, l, r));
  }

  lemma AppendedItem(w: seq<nat>, nodes: seq<nat>, hts: seq<nat>, l: nat, r: nat, z: Item)
    requires l <= |w| && r <= |nodes| == |hts|
    ensures Items(w, nodes + [z.weight], hts + [z.height], l, r) == Items(w, nodes, hts, l, r) + Single(z)
  {
    var nodes', hts' := nodes + [z.weight], hts + [z.height];
    assert Trees(nodes'[r..], hts'[r..]) == Trees(nodes[r..], hts[r..]) + [z];
  }

  lemma AllAfter(w: seq<nat>, nodes: seq<nat>, hts: seq<nat>, l: nat, r: nat, low: Item)
    requires ItemsOrdered(w, nodes, hts, l, r, low)
    ensures forall z :: z in Items(w, nodes, hts, l, r) ==> Before(low, z)
  {
    forall z | z in Items(w, nodes, hts, l, r)
      ensures Before(low, z)
    {
      if z in Leaves(w[l..]) {
        var k :| 0 <= k < |w[l..]| && Leaves(w[l..])[k] == z;
        assert w[l] <= w[l + k];
      } else {
        var k :| 0 <= k < |nodes[r..]| && Trees(nodes[r..], hts[r..])[k] == z;
        assert Before(Item(nodes[r], hts[r]), Item(nodes[r + k], hts[r + k]));
      }
    }
  }

  /** No code for the items left by l and r costs less than c, and one that costs c reaches down to depth. */
  ghost predicate StageBound(w: seq<nat>, nodes: seq<nat>, hts: seq<nat>, l: nat, r: nat, c: nat, depth: nat) {
    l <= |w| && r <= |nodes| == |hts| && LowerBound(Items(w, nodes, hts, l, r), c, depth)
  }

  lemma StageBoundOf(w: seq<nat>, nodes: seq<nat>, hts: seq<nat>, l: nat, r: nat, items: multiset<Item>, c: nat, depth: nat)
    requires l <= |w| && r <= |nodes| == |hts| && items == Items(w, nodes, hts, l, r) && LowerBound(items, c, depth)
    ensures StageBound(w, nodes, hts, l, r, c, depth)
  {}

  lemma MergeLowerBound(w: seq<nat>, nodes: seq<nat>, hts: seq<nat>, l: nat, r: nat, low: Item, c: nat, total: nat, depth: nat)
    requires ItemsOrdered(w, nodes, hts, l, r, low) && l + r + 2 <= |w| + |nodes|
    requires FirstItem(w, nodes, hts, l, r).weight > 0 || depth == 0
    requires var a := Pick(w, nodes, l, r);
             var b := Pick(w, nodes, a.l, a.r);
             var z := Merged(FirstItem(w, nodes, hts, l, r), SecondItem(w, nodes, hts, l, r));
             StageBound(w, nodes + [z.weight], hts + [z.height], b.l, b.r, c, depth)
    requires total == c + FirstItem(w, nodes, hts, l, r).weight + SecondItem(w, nodes, hts, l, r).weight
    ensures StageBound(w, nodes, hts, l, r, total, depth)
  {
    var a := Pick(w, nodes, l, r);
    var b := Pick(w, nodes, a.l, a.r);
    var x, y := FirstItem(w, nodes, hts, l, r), SecondItem(w, nodes, hts, l, r);
    MergeItemsOrdered(w, nodes, hts, l, r, low);
    MergeItems(w, nodes, hts, l, r);
    AppendedItem(w, nodes, hts, b.l, b.r, Merged(x, y));
    AllAfter(w, nodes, hts, b.l, b.r, y);
    var rest := Items(w, nodes, hts, b.l, b.r);
    LowerBoundStep(rest, x, y, c, depth);
    StageBoundOf(w, nodes, hts, l, r, rest + Single(x) + Single(y), total, depth);
  }

  ghost predicate Positive(w: seq<nat>) {
    forall i :: 0 <= i < |w| ==> w[i] > 0
  }

  /** Stage s appends the tree of its two items. */
  lemma StageAppends(w: seq<nat>, nodes: seq<nat>, ls: seq<nat>, rs: seq<nat>, hts: seq<nat>, s: nat, low: Item)
    requires Heights(w, nodes, ls, rs, hts, |nodes|) && s < |nodes|
    requires ItemsOrdered(w, nodes[..s], hts[..s], ls[s], rs[s], low)
    ensures ls[s] + rs[s] + 2 <= |w| + s
    ensures var x, y := FirstItem(w, nodes[..s], hts[..s], ls[s], rs[s]), SecondItem(w, nodes[..s], hts[..s], ls[s], rs[s]);
            && nodes[..s + 1] == nodes[..s] + [Merged(x, y).weight] && hts[..s + 1] == hts[..s] + [Merged(x, y).height]
            && nodes[s] == x.weight + y.weight
  {
    assert HeightAt(w, nodes, ls, rs, hts, s);
    MergeItemsOrdered(w, nodes[..s], hts[..s], ls[s], rs[s], low);
  }

  lemma StageBoundStep(w: seq<nat>, nodes: seq<nat>, ls: seq<nat>, rs: seq<nat>, hts: seq<nat>, s: nat, c: nat, depth: nat)
    requires Heights(w, nodes, ls, rs, hts, |nodes|) && Ascending(w) && s < |nodes| && (depth == 0 || Positive(w))
    requires StageBound(w, nodes[..s + 1], hts[..s + 1], ls[s + 1], rs[s + 1], c, depth)
    ensures StageBound(w, nodes[..s], hts[..s], ls[s], rs[s], nodes[s] + c, depth)
  {
    var low := RunItemsOrdered(w, nodes, ls, rs, hts, s);
    StageAppends(w, nodes, ls, rs, hts, s, low);
    assert HeightAt(w, nodes, ls, rs, hts, s);
    if depth > 0 { PicksArePositive(w, nodes, ls, rs, hts, s); }
    MergeLowerBound(w, nodes[..s], hts[..s], ls[s], rs[s], low, c, nodes[s] + c, depth);
  }

  lemma PicksArePositive(w: seq<nat>, nodes: seq<nat>, ls: seq<nat>, rs: seq<nat>, hts: seq<nat>, s: nat)
    requires ExactRun(w, nodes, ls, rs) && Positive(w) && s < |nodes| == |hts| && ExactStep(w, nodes, ls, rs, s)
    ensures FirstItem(w, nodes[..s], hts[..s], ls[s], rs[s]).weight > 0
  {
    if s > 0 { NodesWeighTwo(w, nodes, ls, rs, s - 1); }
  }

  /** When one item is left, it is the whole tree. */
  lemma LastItem(w: seq<nat>, nodes: seq<nat>, hts: seq<nat>, l: nat, r: nat, depth: nat)
    requires |nodes| == |hts| && |w| == |nodes| + 1 && l <= |w| && r <= |nodes| && l + r == 2 * |nodes|
    requires depth == 0 || (nodes != [] && l == |w| && depth == hts[|nodes| - 1])
    ensures StageBound(w, nodes, hts, l, r, 0, depth)
  {
    var items := Items(w, nodes, hts, l, r);
    forall s: seq<Item>, len: seq<nat>, m: nat | CodeFor(items, s, len, m)
      ensures Bounded(s, len, 0, depth)
    {
      assert |s| == |multiset(s)| == |items| == |w| - l + |nodes| - r;
      assert s[0] in multiset(s);
      if depth > 0 {
        assert w[l..] == [] && Trees(nodes[r..], hts[r..]) == [Item(nodes[r], hts[r])];
        assert s[0].height == depth;
      }
      assert s[0].height + len[0] >= depth;
    }
  }

  /** Before stage s no code costs less than the weight of the nodes still to be made. */
  lemma {:induction false} RunLowerBound(w: seq<nat>, nodes: seq<nat>, ls: seq<nat>, rs: seq<nat>, hts: seq<nat>, s: nat, depth: nat)
    requires Heights(w, nodes, ls, rs, hts, |nodes|) && Ascending(w) && s <= |nodes|
    requires depth == 0 || (Positive(w) && nodes != [] && ls[|nodes|] == |w| && depth == hts[|nodes| - 1])
    ensures ls[s] <= |w| && rs[s] <= s && StageBound(w, nodes[..s], hts[..s], ls[s], rs[s], Sum(nodes[s..]), depth)
    decreases |nodes| - s
  {
    if s == |nodes| {
      var low := RunItemsOrdered(w, nodes, ls, rs, hts, s);
      assert nodes[s..] == [] && nodes[..s] == nodes && hts[..s] == hts;
      if s > 0 { assert HeightAt(w, nodes, ls, rs, hts, s - 1); }
      LastItem(w, nodes, hts, ls[s], rs[s], depth);
    } else {
      RunLowerBound(w, nodes, ls, rs, hts, s + 1, depth);
      assert nodes[s..][1..] == nodes[s + 1..];
      assert HeightAt(w, nodes, ls, rs, hts, s);
      StageBoundStep(w, nodes, ls, rs, hts, s, Sum(nodes[s + 1..]), depth);
    }
  }

  /** The weight of all inner nodes is a lower bound for every prefix code on w, and a code that attains it is as deep. */
  lemma EveryCodeCosts(w: seq<nat>, nodes: seq<nat>, ls: seq<nat>, rs: seq<nat>, hts: seq<nat>, depth: nat, other: seq<nat>, m: nat)
    requires Heights(w, nodes, ls, rs, hts, |nodes|) && Ascending(w)
    requires depth == 0 || (Positive(w) && nodes != [] && ls[|nodes|] == |w| && depth == hts[|nodes| - 1])
    requires |other| == |w| && Fits(other, m)
    ensures Sum(nodes) <= Cost(w, other)
    ensures Cost(w, other) == Sum(nodes) ==> exists i :: 0 <= i < |other| && other[i] >= depth
  {
    RunLowerBound(w, nodes, ls, rs, hts, 0, depth);
    assert w[0..] == w && nodes[..0][0..] == [] == hts[..0][0..] && nodes[0..] == nodes;
    assert multiset(Trees([], [])) == multiset{};
    assert CodeFor(Items(w, nodes[..0], hts[..0], 0, 0), Leaves(w), other, m);
    assert Bounded(Leaves(w), other, Sum(nodes), depth) && Weights(Leaves(w)) == w;
    if Cost(w, other) == Sum(nodes) {
      var i :| 0 <= i < |w| && Leaves(w)[i].height + other[i] >= depth;
      assert other[i] >= depth;
    }
  }

  // ---------- The lengths of phase three attain the bound ----------

  /** x copies of y bits, as repeated addition. */
  ghost function Times(x: nat, y: nat): nat {
    if y == 0 then 0 else Times(x, y - 1) + x
  }

  lemma {:induction false} TimesIsProduct(x: nat, y: nat)
    ensures Times(x, y) == x * y
  {
    if y > 0 {
      TimesIsProduct(x, y - 1);
      MulDist(y - 1, 1, x);
    }
  }

  lemma {:induction false} TimesAdd(a: nat, b: nat, y: nat)
    ensures Times(a + b, y) == Times(a, y) + Times(b, y)
  {
    if y > 0 { TimesAdd(a, b, y - 1); }
  }

  /** Weighted length of the first t items. */
  ghost function CostTo(w: seq<nat>, len: seq<nat>, t: nat): nat
    requires t <= |w| && t <= |len|
  {
    if t == 0 then 0 else CostTo(w, len, t - 1) + Times(w[t - 1], len[t - 1])
  }

  lemma {:induction false} CostToIsCost(w: seq<nat>, len: seq<nat>, t: nat)
    requires |w| == |len| && t <= |w|
    ensures Cost(w[..t], len[..t]) == CostTo(w, len, t)
  {
    if t > 0 {
      CostToIsCost(w, len, t - 1);
      RemoveAtCost(w[..t], len[..t], t - 1);
      TimesIsProduct(w[t - 1], len[t - 1]);
      assert RemoveAt(w[..t], t - 1) == w[..t - 1] && RemoveAt(len[..t], t - 1) == len[..t - 1];
    } else {
      assert w[..0] == [] && len[..0] == [];
    }
  }

  lemma CostToStep(w: seq<nat>, len: seq<nat>, t: nat, v: nat)
    requires t < |w| && t < |len| && len[t] == v
    ensures CostTo(w, len, t + 1) == CostTo(w, len, t) + Times(w[t], v)
  {}

  /** One pick f among the first k nodes takes a leaf or a node. */
  ghost predicate Takes(w: seq<nat>, nodes: seq<nat>, k: nat, l: nat, r: nat, f: Front) {
    || (f.l == l + 1 <= |w| && f.r == r <= k <= |nodes| && f.value == w[l])
    || (f.l == l <= |w| && f.r == r + 1 <= k <= |nodes| && f.value == nodes[r])
  }

  lemma PickTakes(w: seq<nat>, nodes: seq<nat>, k: nat, l: nat, r: nat)
    requires l <= |w| && r <= k <= |nodes| && (l < |w| || r < k)
    ensures Takes(w, nodes, k, l, r, Pick(w, nodes[..k], l, r))
  {}

  /** At length v for what is taken. */
  lemma PickCost(w: seq<nat>, nodes: seq<nat>, k: nat, len: seq<nat>, d: seq<nat>, l: nat, r: nat, f: Front, v: nat)
    requires |w| <= |len| && |nodes| <= |d| && Takes(w, nodes, k, l, r, f)
    requires l < f.l ==> len[l] == v
    requires r < f.r ==> d[r] == v
    ensures CostTo(w, len, f.l) + CostTo(nodes, d, f.r) == CostTo(w, len, l) + CostTo(nodes, d, r) + Times(f.value, v)
  {
    if r < f.r { CostToStep(nodes, d, r, v); } else { CostToStep(w, len, l, v); }
  }

  /** The two fronts of a step: b is past both items taken. */
  lemma StepFronts(w: seq<nat>, nodes: seq<nat>, ls: seq<nat>, rs: seq<nat>, s: nat) returns (a: Front, b: Front)
    requires |ls| == |rs| == |nodes| + 1 && s < |nodes| && ExactStep(w, nodes, ls, rs, s)
    ensures Takes(w, nodes, s, ls[s], rs[s], a) && Takes(w, nodes, s, a.l, a.r, b)
    ensures ls[s + 1] == b.l && rs[s + 1] == b.r && nodes[s] == a.value + b.value
  {
    a := Pick(w, nodes[..s], ls[s], rs[s]);
    PickTakes(w, nodes, s, ls[s], rs[s]);
    b := Pick(w, nodes[..s], a.l, a.r);
    PickTakes(w, nodes, s, a.l, a.r);
  }

  /** From l leaves and r nodes to l' and r', an item of weight x at length v is added. */
  ghost predicate Adds(w: seq<nat>, nodes: seq<nat>, len: seq<nat>, d: seq<nat>, l: nat, r: nat, l': nat, r': nat, x: nat, v: nat) {
    && l <= |w| && l' <= |w| <= |len| && r <= |nodes| && r' <= |nodes| <= |d|
    && CostTo(w, len, l') + CostTo(nodes, d, r') == CostTo(w, len, l) + CostTo(nodes, d, r) + Times(x, v)
  }

  /** A merge of two items at a common length v. */
  lemma MergeCost(w: seq<nat>, nodes: seq<nat>, k: nat, len: seq<nat>, d: seq<nat>, l: nat, r: nat, a: Front, b: Front, v: nat)
    requires |w| <= |len| && |nodes| <= |d| && Takes(w, nodes, k, l, r, a) && Takes(w, nodes, k, a.l, a.r, b)
    requires l < b.l ==> len[l] == v && len[b.l - 1] == v
    requires r < b.r ==> d[r] == v && d[b.r - 1] == v
    ensures Adds(w, nodes, len, d, l, r, b.l, b.r, a.value + b.value, v)
  {
    PickCost(w, nodes, k, len, d, l, r, a, v);
    PickCost(w, nodes, k, len, d, a.l, a.r, b, v);
    TimesAdd(a.value, b.value, v);
  }

  /** d holds the depths of the nodes and len those of the leaves, for the tree of the run. */
  ghost predicate TreeDepths(n: nat, d: seq<nat>, len: seq<nat>, p: seq<nat>, ls: seq<nat>, rs: seq<nat>) {
    && n >= 2 && |d| == n && |len| == n && Depths(d, p, n) && History(n, ls, rs)
    && Parents(p, rs, n - 1) && LeafLengths(len, d, ls, 0)
  }

  /** A leaf or a node taken at stage s lies one below node s. */
  lemma StageLengths(n: nat, d: seq<nat>, len: seq<nat>, p: seq<nat>, ls: seq<nat>, rs: seq<nat>, s: nat, k: nat)
    requires TreeDepths(n, d, len, p, ls, rs) && s < n - 1
    ensures ls[s + 1] <= n && rs[s + 1] <= n - 2
    ensures ls[s] <= k < ls[s + 1] ==> len[k] == d[s] + 1
    ensures rs[s] <= k < rs[s + 1] ==> d[k] == d[s] + 1
  {
    BoundsMonotone(n, ls, rs, s + 1, n - 1);
    assert ls[s] <= k < ls[s + 1] ==> TakenAt(ls, s, k);
    if rs[s] <= k < rs[s + 1] {
      assert TakenAt(rs, p[k], k);
      StageBetween(n, ls, rs, s, s + 1, p[k], k);
    }
  }

  /** The first and the last that are taken at a stage. */
  lemma StageEnds(n: nat, d: seq<nat>, len: seq<nat>, p: seq<nat>, ls: seq<nat>, rs: seq<nat>, s: nat)
    requires TreeDepths(n, d, len, p, ls, rs) && s < n - 1
    ensures ls[s + 1] <= n <= |len| && rs[s + 1] <= n - 2 < |d|
    ensures ls[s] < ls[s + 1] ==> len[ls[s]] == d[s] + 1 && len[ls[s + 1] - 1] == d[s] + 1
    ensures rs[s] < rs[s + 1] ==> d[rs[s]] == d[s] + 1 && d[rs[s + 1] - 1] == d[s] + 1
  {
    StageLengths(n, d, len, p, ls, rs, s, ls[s]);
    StageLengths(n, d, len, p, ls, rs, s, rs[s]);
    if ls[s] < ls[s + 1] { StageLengths(n, d, len, p, ls, rs, s, ls[s + 1] - 1); }
    if rs[s] < rs[s + 1] { StageLengths(n, d, len, p, ls, rs, s, rs[s + 1] - 1); }
  }

  lemma StageCost(w: seq<nat>, nodes: seq<nat>, ls: seq<nat>, rs: seq<nat>, d: seq<nat>, len: seq<nat>, p: seq<nat>, s: nat)
    requires |ls| == |rs| == |nodes| + 1 == |w| && s < |nodes| && ExactStep(w, nodes, ls, rs, s)
    requires TreeDepths(|w|, d, len, p, ls, rs)
    ensures ls[s] <= |w| && rs[s] <= s && ls[s + 1] <= |w| && rs[s + 1] <= s + 1
    ensures Adds(w, nodes, len, d, ls[s], rs[s], ls[s + 1], rs[s + 1], nodes[s], d[s] + 1)
  {
    StageEnds(|w|, d, len, p, ls, rs, s);
    var a, b := StepFronts(w, nodes, ls, rs, s);
    MergeCost(w, nodes, s, len, d, ls[s], rs[s], a, b, d[s] + 1);
  }

  /** Up to stage s: the items taken cost what their nodes do, plus one bit for each node. */
  lemma {:induction false} CostByStages(w: seq<nat>, nodes: seq<nat>, ls: seq<nat>, rs: seq<nat>,
                                        d: seq<nat>, len: seq<nat>, p: seq<nat>, s: nat)
    requires ExactRun(w, nodes, ls, rs) && TreeDepths(|w|, d, len, p, ls, rs) && s <= |nodes|
    ensures ls[s] <= |w| && rs[s] <= s
    ensures CostTo(w, len, ls[s]) + CostTo(nodes, d, rs[s]) == CostTo(nodes, d, s) + Sum(nodes[..s])
    decreases s
  {
    if s == 0 {
      assert nodes[..0] == [];
    } else {
      var t := s - 1;
      CostByStages(w, nodes, ls, rs, d, len, p, t);
      assert ExactStep(w, nodes, ls, rs, t);
      StageCost(w, nodes, ls, rs, d, len, p, t);
      SumAppend(nodes[..t], nodes[t]);
      assert nodes[..s] == nodes[..t] + [nodes[t]];
      CostToStep(nodes, d, t, d[t]);
    }
  }

  lemma TreeCost(w: seq<nat>, nodes: seq<nat>, ls: seq<nat>, rs: seq<nat>, d: seq<nat>, len: seq<nat>, p: seq<nat>)
    requires ExactRun(w, nodes, ls, rs) && TreeDepths(|w|, d, len, p, ls, rs)
    ensures Cost(w, len) == Sum(nodes)
  {
    var n := |w|;
    CostByStages(w, nodes, ls, rs, d, len, p, n - 1);
    CostToIsCost(w, len, n);
    assert w[..n] == w && len[..n] == len && nodes[..n - 1] == nodes;
    assert CostTo(nodes, d, n - 1) == CostTo(nodes, d, n - 2);
  }

  /** Main result: the lengths are the cheapest of any prefix code. */
  lemma TreeIsOptimal(w: seq<nat>, nodes: seq<nat>, ls: seq<nat>, rs: seq<nat>, d: seq<nat>, len: seq<nat>, p: seq<nat>)
    requires Run(w, nodes, ls, rs) && |w| == |nodes| + 1 && Mergeable(w) && TreeDepths(|w|, d, len, p, ls, rs)
    ensures Optimal(w, len)
  {
    ExactUpTo(w, nodes, ls, rs, |nodes|);
    TreeCost(w, nodes, ls, rs, d, len, p);
    var hts := MakeHeights(w, nodes, ls, rs, |nodes|);
    forall other: seq<nat>, m: nat | |other| == |w| && Fits(other, m)
      ensures Cost(w, len) <= Cost(w, other)
    {
      EveryCodeCosts(w, nodes, ls, rs, hts, 0, other, m);
    }
  }

  /** No code of least total length is less deep. */
  ghost predicate LeastDeep(w: seq<nat>, len: seq<nat>) {
    |w| == |len|
    && forall other: seq<nat>, m: nat :: |other| == |w| && Fits(other, m) && Cost(w, other) == Cost(w, len) ==> AsDeep(len, other)
  }

  /** No length in len is above all lengths in other. */
  ghost predicate AsDeep(len: seq<nat>, other: seq<nat>) {
    forall k :: 0 <= k < |len| ==> exists i :: 0 <= i < |other| && other[i] >= len[k]
  }

  /** A tree of height h lies at most as deep as the root is high, less h. */
  lemma {:induction false} DepthAndHeight(w: seq<nat>, nodes: seq<nat>, ls: seq<nat>, rs: seq<nat>, hts: seq<nat>,
                                          d: seq<nat>, len: seq<nat>, p: seq<nat>, j: nat)
    requires Heights(w, nodes, ls, rs, hts, |nodes|) && TreeDepths(|w|, d, len, p, ls, rs) && j < |nodes|
    ensures 1 <= hts[j] && d[j] + hts[j] <= hts[|nodes| - 1]
    decreases |nodes| - j
  {
    assert HeightAt(w, nodes, ls, rs, hts, j);
    if j < |nodes| - 1 {
      ParentIsLater(p, ls, rs, |w|, j);
      var k := p[j];
      assert TakenAt(rs, k, j);
      DepthAndHeight(w, nodes, ls, rs, hts, d, len, p, k);
      assert HeightAt(w, nodes, ls, rs, hts, k);
      assert hts[..k][j] == hts[j];
    }
  }

  /** Main result: and with positive weights none of the cheapest prefix codes is less deep. */
  lemma TreeIsLeastDeep(w: seq<nat>, nodes: seq<nat>, ls: seq<nat>, rs: seq<nat>, d: seq<nat>, len: seq<nat>, p: seq<nat>)
    requires Run(w, nodes, ls, rs) && |w| == |nodes| + 1 && Mergeable(w) && TreeDepths(|w|, d, len, p, ls, rs) && Positive(w)
    ensures LeastDeep(w, len)
  {
    ExactUpTo(w, nodes, ls, rs, |nodes|);
    TreeCost(w, nodes, ls, rs, d, len, p);
    var hts := MakeHeights(w, nodes, ls, rs, |nodes|);
    var depth := hts[|nodes| - 1];
    forall k | 0 <= k < |len| ensures len[k] <= depth {
      var s := LeafStage(|w|, ls, rs, k, |w| - 1);
      DepthAndHeight(w, nodes, ls, rs, hts, d, len, p, s);
    }
    forall other: seq<nat>, m: nat | |other| == |w| && Fits(other, m) && Cost(w, other) == Cost(w, len)
      ensures AsDeep(len, other)
    {
      EveryCodeCosts(w, nodes, ls, rs, hts, depth, other, m);
    }
  }

  // ---------- No code is longer than 30 bits ----------

  /** x grown by half, rounded up, t times. */
  ghost function Grown(x: nat, t: nat): nat
    decreases t
  {
    if t == 0 then x else Grown(x + (x + 1) / 2, t - 1)
  }

  lemma {:induction false} GrownMonotone(x: nat, y: nat, t: nat)
    requires x <= y
    ensures Grown(x, t) <= Grown(y, t)
    decreases t
  {
    if t > 0 { GrownMonotone(x + (x + 1) / 2, y + (y + 1) / 2, t - 1); }
  }

  lemma {:induction false} GrownLonger(x: nat, t: nat, t': nat)
    requires t <= t'
    ensures Grown(x, t) <= Grown(x, t')
    decreases t'
  {
    if t' > 0 {
      if t == 0 {
        GrownLonger(x + (x + 1) / 2, 0, t' - 1);
      } else {
        GrownLonger(x + (x + 1) / 2, t - 1, t' - 1);
      }
    }
  }

  /** A node weighs at least half as much again as each node below it: its sibling was not the lighter of its pair. */
  lemma ParentIsHeavier(w: seq<nat>, nodes: seq<nat>, ls: seq<nat>, rs: seq<nat>, j: nat, k: nat)
    requires ExactRun(w, nodes, ls, rs) && Ascending(w) && j < k < |nodes| && TakenAt(rs, k, j)
    ensures nodes[k] >= nodes[j] + (nodes[j] + 1) / 2
  {
    var low := RunOrdered(w, nodes, ls, rs, k);
    assert nodes[..k][j] <= nodes[..k][k - 1] <= 2 * low;
    assert ExactStep(w, nodes, ls, rs, k);
    MergeOrdered(w, nodes[..k], ls[k], rs[k], low);
    var a := Pick(w, nodes[..k], ls[k], rs[k]);
    var b := Pick(w, nodes[..k], a.l, a.r);
    assert a.value == nodes[j] || b.value == nodes[j];
  }

  /** A node at depth t pulls the root up t times. */
  lemma {:induction false} RootIsHeavy(w: seq<nat>, nodes: seq<nat>, ls: seq<nat>, rs: seq<nat>,
                                       d: seq<nat>, len: seq<nat>, p: seq<nat>, j: nat)
    requires ExactRun(w, nodes, ls, rs) && Ascending(w) && TreeDepths(|w|, d, len, p, ls, rs) && j < |nodes|
    ensures nodes[|nodes| - 1] >= Grown(nodes[j], d[j])
    decreases |nodes| - j
  {
    if j < |nodes| - 1 {
      ParentIsLater(p, ls, rs, |w|, j);
      assert TakenAt(rs, p[j], j);
      ParentIsHeavier(w, nodes, ls, rs, j, p[j]);
      RootIsHeavy(w, nodes, ls, rs, d, len, p, p[j]);
      GrownMonotone(nodes[j] + (nodes[j] + 1) / 2, nodes[p[j]], d[p[j]]);
    }
  }

  /** Growing twice at least doubles. */
  lemma {:induction false} GrownDoubles(x: nat, k: nat)
    ensures Grown(x, 2 * k) >= Pow2(k) * x
    decreases k
  {
    if k > 0 {
      var y := x + (x + 1) / 2;
      var z := y + (y + 1) / 2;
      GrownDoubles(z, k - 1);
      MulMono(2 * x, z, Pow2(k - 1));
      MulAssoc(Pow2(k - 1), 2, x);
    }
  }

  lemma {:induction false} NodesWeighTwo(w: seq<nat>, nodes: seq<nat>, ls: seq<nat>, rs: seq<nat>, j: nat)
    requires ExactRun(w, nodes, ls, rs) && j < |nodes| && forall i :: 0 <= i < |w| ==> w[i] > 0
    ensures forall i :: 0 <= i <= j ==> nodes[i] >= 2
    decreases j
  {
    if j > 0 { NodesWeighTwo(w, nodes, ls, rs, j - 1); }
    assert ExactStep(w, nodes, ls, rs, j);
  }

  lemma NodeWithinTotal(w: seq<nat>, nodes: seq<nat>, ls: seq<nat>, rs: seq<nat>)
    requires Run(w, nodes, ls, rs) && |w| == |nodes| + 1 >= 2 && Sum(w) < KEY_LIMIT
    ensures nodes[|nodes| - 1] < KEY_LIMIT
  {
    assert Step(w, nodes, ls, rs, |nodes| - 1);
  }

  /** Main result: with positive weights whose sum fits a key, no leaf lies deeper than 30. */
  lemma TreeIsShallow(w: seq<nat>, nodes: seq<nat>, ls: seq<nat>, rs: seq<nat>, d: seq<nat>, len: seq<nat>, p: seq<nat>, i: nat)
    requires Run(w, nodes, ls, rs) && |w| == |nodes| + 1 && Mergeable(w) && TreeDepths(|w|, d, len, p, ls, rs)
    requires i < |w| && forall i :: 0 <= i < |w| ==> w[i] > 0
    ensures len[i] <= 30
  {
    ExactUpTo(w, nodes, ls, rs, |nodes|);
    var s := LeafStage(|w|, ls, rs, i, |w| - 1);
    RootIsHeavy(w, nodes, ls, rs, d, len, p, s);
    NodesWeighTwo(w, nodes, ls, rs, s);
    GrownMonotone(2, nodes[s], d[s]);
    NodeWithinTotal(w, nodes, ls, rs);
    GrownDoubles(2, 15);
    Pow2Values();
    if d[s] >= 30 { GrownLonger(2, 30, d[s]); }
  }

  /** The stage that takes leaf i. */
  lemma {:induction false} LeafStage(n: nat, ls: seq<nat>, rs: seq<nat>, i: nat, t: nat) returns (s: nat)
    requires History(n, ls, rs) && t < n && i < ls[t]
    ensures s < t && TakenAt(ls, s, i)
    decreases t
  {
    if i < ls[t - 1] { s := LeafStage(n, ls, rs, i, t - 1); } else { s := t - 1; }
  }
}
