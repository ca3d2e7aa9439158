/** The tree that tdefl_calculate_minimum_redundancy of miniz.c builds, as mathematics:
    which items each merge takes, the parents and depths this gives, and the code lengths.  */
module MergeTree {
  import opened Powers

  const KEY_LIMIT := 0x1_0000 // keys are 16 bits wide

  // ---------- Phase one as a two-queue merge ----------

  /** The front of the two queues: leaves w[l..] and nodes nodes[r..s]. */
  datatype Front = Front(value: nat, l: nat, r: nat)

  /** Takes a node when no leaf is left or the front node is strictly lighter, otherwise a leaf. */
  ghost function Pick(w: seq<nat>, nodes: seq<nat>, l: nat, r: nat): (f: Front)
    requires l <= |w| && r <= |nodes| && (l < |w| || r < |nodes|)
    ensures f.l + f.r == l + r + 1 && f.l <= |w| && f.r <= |nodes| && l <= f.l && r <= f.r
  {
    if l == |w| || (r < |nodes| && nodes[r] < w[l]) then Front(nodes[r], l, r + 1) else Front(w[l], l + 1, r)
  }

  /** The run of the merge: ls[s] leaves and rs[s] nodes have been taken before node s is made. */
  ghost predicate Run(w: seq<nat>, nodes: seq<nat>, ls: seq<nat>, rs: seq<nat>) {
    && |ls| == |rs| == |nodes| + 1
    && ls[0] == 0 && rs[0] == 0
    && forall s :: 0 <= s < |nodes| ==> Step(w, nodes, ls, rs, s)
  }

  ghost predicate Step(w: seq<nat>, nodes: seq<nat>, ls: seq<nat>, rs: seq<nat>, s: nat)
    requires |ls| == |rs| == |nodes| + 1 && s < |nodes|
  {
    && s + 2 <= |w| && ls[s] <= |w| && rs[s] <= s && ls[s] + rs[s] == 2 * s
    && var a := Pick(w, nodes[..s], ls[s], rs[s]);
       var b := Pick(w, nodes[..s], a.l, a.r);
       nodes[s] == (a.value + b.value) % KEY_LIMIT && ls[s + 1] == b.l && rs[s + 1] == b.r
  }

  /** What the later phases need of a finished run. */
  ghost predicate History(n: nat, ls: seq<nat>, rs: seq<nat>) {
    && n >= 2 && |ls| == |rs| == n
    && ls[0] == 0 && rs[0] == 0 && ls[n - 1] == n && rs[n - 1] == n - 2
    && forall s :: 0 <= s < n - 1 ==> TakesTwo(ls, rs, s)
  }

  ghost predicate TakesTwo(ls: seq<nat>, rs: seq<nat>, s: nat)
    requires s + 1 < |ls| == |rs|
  {
    ls[s] <= ls[s + 1] && rs[s] <= rs[s + 1] <= s && ls[s + 1] + rs[s + 1] == 2 * (s + 1)
  }

  /** Item j was taken when node s was made. */
  ghost predicate TakenAt(bounds: seq<nat>, s: nat, j: int) {
    s + 1 < |bounds| && bounds[s] <= j < bounds[s + 1]
  }

  /** The first rs[t] entries of p are the parents of the nodes taken so far. */
  ghost predicate Parents(p: seq<nat>, rs: seq<nat>, t: nat)
    requires t < |rs|
  {
    && rs[t] <= |p|
    && forall j :: 0 <= j < rs[t] ==> p[j] < t && TakenAt(rs, p[j], j)
  }

  /** One more merge keeps the run a run. */
  lemma ExtendRun(w: seq<nat>, nodes: seq<nat>, ls: seq<nat>, rs: seq<nat>)
    requires Run(w, nodes, ls, rs)
    requires var s := |nodes|; s + 2 <= |w| && ls[s] <= |w| && rs[s] <= s && ls[s] + rs[s] == 2 * s
    ensures var s := |nodes|;
            var a := Pick(w, nodes, ls[s], rs[s]);
            var b := Pick(w, nodes, a.l, a.r);
            Run(w, nodes + [(a.value + b.value) % KEY_LIMIT], ls + [b.l], rs + [b.r])
  {
    var s := |nodes|;
    var a := Pick(w, nodes, ls[s], rs[s]);
    var b := Pick(w, nodes, a.l, a.r);
    var nodes', ls', rs' := nodes + [(a.value + b.value) % KEY_LIMIT], ls + [b.l], rs + [b.r];
    forall t | 0 <= t < |nodes'|
      ensures Step(w, nodes', ls', rs', t)
    {
      assert nodes'[..t] == nodes[..t];
      if t < s { assert Step(w, nodes, ls, rs, t); }
    }
  }

  lemma ExtendParents(p: seq<nat>, p': seq<nat>, rs: seq<nat>, root: nat)
    requires |rs| >= 1 && Parents(p, rs, |rs| - 1)
    requires rs[|rs| - 1] <= root <= |p'| && p'[..rs[|rs| - 1]] == p[..rs[|rs| - 1]]
    requires forall j :: rs[|rs| - 1] <= j < root ==> p'[j] == |rs| - 1
    ensures Parents(p', rs + [root], |rs|)
  {
    var t := |rs| - 1;
    forall j | 0 <= j < root
      ensures p'[j] < t + 1 && TakenAt(rs + [root], p'[j], j)
    {
      if j < rs[t] {
        assert p'[..rs[t]][j] == p[..rs[t]][j];
        assert TakenAt(rs, p[j], j);
      }
    }
  }

  lemma RunIsHistory(w: seq<nat>, nodes: seq<nat>, ls: seq<nat>, rs: seq<nat>)
    requires Run(w, nodes, ls, rs) && |w| == |nodes| + 1 >= 2
    ensures History(|w|, ls, rs)
  {
    forall s | 0 <= s < |nodes|
      ensures TakesTwo(ls, rs, s)
    {
      assert Step(w, nodes, ls, rs, s);
    }
    assert Step(w, nodes, ls, rs, |nodes| - 1) && TakesTwo(ls, rs, |nodes| - 1);
  }

  // ---------- Phase two: depths ----------

  /** d[j] is the depth of node j in the tree with parents p and root n - 2. */
  ghost predicate Depths(d: seq<nat>, p: seq<nat>, n: nat) {
    && n >= 2 && |d| >= n - 1 && |p| >= n - 1
    && d[n - 2] == 0
    && forall j {:trigger p[j]} :: 0 <= j < n - 2 ==> p[j] < n - 1 && d[j] == d[p[j]] + 1
  }

  lemma ParentIsLater(p: seq<nat>, ls: seq<nat>, rs: seq<nat>, n: nat, j: nat)
    requires History(n, ls, rs) && Parents(p, rs, n - 1) && j < n - 2
    ensures j < p[j] < n - 1
  {
    assert TakenAt(rs, p[j], j) && TakesTwo(ls, rs, p[j]);
  }

  // ---------- Phase three: code lengths ----------

  /** The Kraft sum of a list of code lengths, in units of 2^-m. */
  ghost function KraftSum(len: seq<nat>, m: nat): nat
    requires forall i :: 0 <= i < |len| ==> len[i] <= m
  {
    if len == [] then 0 else Pow2(m - len[0]) + KraftSum(len[1..], m)
  }

  lemma {:induction false} BoundsMonotone(n: nat, ls: seq<nat>, rs: seq<nat>, a: nat, b: nat)
    requires History(n, ls, rs) && a <= b < n
    ensures ls[a] <= ls[b] && rs[a] <= rs[b]
    decreases b
  {
    if a < b {
      BoundsMonotone(n, ls, rs, a, b - 1);
      assert TakesTwo(ls, rs, b - 1);
    }
  }

  /** Items taken in stages [lo, hi) are those between the bounds of lo and hi. */
  lemma StageBetween(n: nat, ls: seq<nat>, rs: seq<nat>, lo: nat, hi: nat, s: nat, j: int)
    requires History(n, ls, rs) && lo <= hi < n
    ensures TakenAt(ls, s, j) ==> (lo <= s < hi <==> ls[lo] <= j < ls[hi])
    ensures TakenAt(rs, s, j) ==> (lo <= s < hi <==> rs[lo] <= j < rs[hi])
  {
    if s + 1 < n {
      if s < lo { BoundsMonotone(n, ls, rs, s + 1, lo); } else { BoundsMonotone(n, ls, rs, lo, s); }
      if s < hi { BoundsMonotone(n, ls, rs, s + 1, hi); } else { BoundsMonotone(n, ls, rs, hi, s); }
    }
  }

  /** The nodes in (root, prev] form level dpth - 1; those up to root lie deeper. */
  ghost predicate Level(d: seq<nat>, n: nat, ls: seq<nat>, rs: seq<nat>, root: int, prev: int, dpth: nat) {
    && History(n, ls, rs) && |d| >= n - 1
    && -1 <= root <= prev <= n - 1
    && (dpth == 0 ==> prev == n - 1 && root == n - 2)
    && (dpth > 0 ==> prev <= n - 2 && root + 1 == rs[prev + 1])
    && (forall k :: 0 <= k <= root ==> d[k] >= dpth)
    && (forall k :: root < k <= prev && k < n - 1 ==> d[k] + 1 == dpth)
  }

  /** The next level down consists of the nodes taken by the nodes of this one. */
  lemma NextLevel(d: seq<nat>, p: seq<nat>, n: nat, ls: seq<nat>, rs: seq<nat>, root: int, prev: int, dpth: nat)
    requires Level(d, n, ls, rs, root, prev, dpth) && Depths(d, p, n) && Parents(p, rs, n - 1)
    requires 0 <= prev
    ensures root < prev && rs[root + 1] <= root + 1
    ensures Level(d, n, ls, rs, rs[root + 1] as int - 1, root, dpth + 1)
  {
    if dpth > 0 {
      assert TakesTwo(ls, rs, prev);
    }
    BoundsMonotone(n, ls, rs, 0, root + 1);
    if root + 1 > 0 { assert TakesTwo(ls, rs, root); }
    forall k | 0 <= k <= root && k < n - 2
      ensures k < rs[root + 1] ==> d[k] >= dpth + 1
      ensures k >= rs[root + 1] ==> d[k] == dpth
    {
      var s := p[k];
      assert TakenAt(rs, s, k);
      if k < rs[root + 1] {
        StageBetween(n, ls, rs, 0, root + 1, s, k);
      } else {
        StageBetween(n, ls, rs, root + 1, if dpth == 0 then n - 1 else prev + 1, s, k);
      }
    }
  }

  /** Length of leaf i: one more than the depth of the node that took it. */
  ghost predicate LeafLengths(len: seq<nat>, d: seq<nat>, ls: seq<nat>, from: int) {
    forall s: nat, i: nat :: TakenAt(ls, s, i) && from <= i < |len| && s < |d| ==> len[i] == d[s] + 1
  }

  /** Lengths never increase along the array. */
  ghost predicate NonIncreasing(len: seq<nat>, from: int) {
    forall i, j :: 0 <= from <= i <= j < |len| ==> len[j] <= len[i]
  }
}
