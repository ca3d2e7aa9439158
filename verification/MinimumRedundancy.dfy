/** The in-place minimum-redundancy code of Moffat and Katajainen:
    tdefl_calculate_minimum_redundancy of miniz.c.

    The array first holds n frequencies. Phase one overwrites it with parent pointers of the
    n - 1 internal nodes, phase two with their depths, phase three with the n code lengths. */
module MinimumRedundancy {
  import opened Powers
  import opened MergeTree
  import opened HuffmanOptimality

  /** The unread frequencies and the weights of the nodes not yet taken are still in the array. */
  ghost predicate Unread(a: seq<nat>, w: seq<nat>, nodes: seq<nat>, root: nat, leaf: nat) {
    && |a| == |w| && |nodes| <= |a| && leaf <= |a| && root <= |nodes|
    && (forall k :: root <= k < |nodes| ==> a[k] == nodes[k])
    && (forall k :: leaf <= k < |a| ==> a[k] == w[k])
  }

  /** Body of the merge loop: makes node `next` from the two lightest items. */
  method MergeTwo(A: array<nat>, next: nat, root: nat, leaf: nat, ghost w: seq<nat>, ghost nodes: seq<nat>)
      returns (root': nat, leaf': nat)
    requires 1 <= next < A.Length - 1 && |nodes| == next && root + leaf == 2 * next && root < next
    requires Unread(A[..], w, nodes, root, leaf)
    modifies A
    ensures var a := Pick(w, nodes, leaf, root);
            var b := Pick(w, nodes, a.l, a.r);
            && A[next] == (a.value + b.value) % KEY_LIMIT && leaf' == b.l && root' == b.r
            && Unread(A[..], w, nodes + [(a.value + b.value) % KEY_LIMIT], root', leaf')
    ensures A[..root] == old(A[..root])
    ensures forall j :: root <= j < root' ==> A[j] == next
  {
    var n := A.Length;
    root', leaf' := TakeFirst(A, next, root, leaf, w, nodes);
    if leaf' >= n || (root' < next && A[root'] < A[leaf']) {
      A[next] := (A[next] + A[root']) % KEY_LIMIT;
      A[root'] := next;
      root' := root' + 1;
    } else {
      A[next] := (A[next] + A[leaf']) % KEY_LIMIT;
      leaf' := leaf' + 1;
    }
  }

  /** The first of the two. */
  method TakeFirst(A: array<nat>, next: nat, root: nat, leaf: nat, ghost w: seq<nat>, ghost nodes: seq<nat>)
      returns (root': nat, leaf': nat)
    requires 1 <= next < A.Length - 1 && |nodes| == next && root + leaf == 2 * next && root < next
    requires Unread(A[..], w, nodes, root, leaf)
    modifies A
    ensures var a := Pick(w, nodes, leaf, root);
            A[next] == a.value && leaf' == a.l && root' == a.r && Unread(A[..], w, nodes, root', leaf')
    ensures A[..root] == old(A[..root])
    ensures forall j :: root <= j < root' ==> A[j] == next
  {
    root', leaf' := root, leaf;
    if leaf' >= A.Length || A[root'] < A[leaf'] {
      A[next] := A[root'];
      A[root'] := next;
      root' := root' + 1;
    } else {
      A[next] := A[leaf'];
      leaf' := leaf' + 1;
    }
  }

  /** The first node has the first two leaves. */
  method FirstNode(A: array<nat>) returns (ghost nodes: seq<nat>, ghost ls: seq<nat>, ghost rs: seq<nat>)
    requires 2 <= A.Length < KEY_LIMIT
    modifies A
    ensures Run(old(A[..]), nodes, ls, rs) && |nodes| == 1 && ls[1] == 2 && rs[1] == 0
    ensures Parents(A[..], rs, 1) && Unread(A[..], old(A[..]), nodes, 0, 2)
  {
    ghost var w := A[..];
    A[0] := (A[0] + A[1]) % KEY_LIMIT;
    nodes, ls, rs := [A[0]], [0, 2], [0, 0];
    assert Step(w, nodes, ls, rs, 0);
  }

  method BuildTree(A: array<nat>) returns (ghost nodes: seq<nat>, ghost ls: seq<nat>, ghost rs: seq<nat>)
    requires 2 <= A.Length < KEY_LIMIT
    requires forall i :: 0 <= i < A.Length ==> A[i] < KEY_LIMIT
    modifies A
    ensures Run(old(A[..]), nodes, ls, rs) && |nodes| == A.Length - 1
    ensures History(A.Length, ls, rs)
    ensures Parents(A[..], rs, A.Length - 1)
  {
    var n := A.Length;
    ghost var w := A[..];
    var root: nat, leaf: nat, next: nat := 0, 2, 1;
    nodes, ls, rs := FirstNode(A);
    while next < n - 1
      invariant 1 <= next <= n - 1 && 0 <= root < next && root + leaf == 2 * next
      invariant |nodes| == next && Run(w, nodes, ls, rs) && ls[next] == leaf && rs[next] == root
      invariant Parents(A[..], rs, next)
      invariant Unread(A[..], w, nodes, root, leaf)
    {
      ghost var before := A[..];
      ExtendRun(w, nodes, ls, rs);
      root, leaf := MergeTwo(A, next, root, leaf, w, nodes);
      ExtendParents(before, A[..], rs, root);
      nodes, ls, rs := nodes + [A[next]], ls + [leaf], rs + [root];
      next := next + 1;
    }
    RunIsHistory(w, nodes, ls, rs);
  }

  method ComputeDepths(A: array<nat>, ghost rs: seq<nat>, ghost ls: seq<nat>)
    requires A.Length >= 2 && History(A.Length, ls, rs) && Parents(A[..], rs, A.Length - 1)
    modifies A
    ensures Depths(A[..], old(A[..]), A.Length)
    ensures forall j :: 0 <= j < A.Length - 1 ==> A[j] <= A.Length - 2 - j
  {
    var n := A.Length;
    ghost var p := A[..];
    A[n - 2] := 0;
    var next := n - 3;
    while next >= 0
      invariant -1 <= next <= n - 3 && DepthsFrom(A[..], p, n, next + 1)
    {
      ParentIsLater(p, ls, rs, n, next);
      OneDepth(A, p, n, next);
      next := next - 1;
    }
  }

  method OneDepth(A: array<nat>, ghost p: seq<nat>, n: nat, k: nat)
    requires k + 1 <= n - 2 && DepthsFrom(A[..], p, n, k + 1) && k < p[k] < n - 1
    modifies A
    ensures DepthsFrom(A[..], p, n, k)
  {
    ghost var a := A[..];
    DepthStep(a, p, n, k);
    var parent := A[k];
    A[k] := A[parent] + 1;
    assert A[..] == a[k := a[p[k]] + 1];
  }

  /** Entries from k on hold depths, those before it still the parents. */
  ghost predicate DepthsFrom(a: seq<nat>, p: seq<nat>, n: nat, k: nat) {
    && |a| == |p| == n && k <= n - 2 && a[n - 2] == 0
    && (forall j :: 0 <= j < k ==> a[j] == p[j])
    && (forall j {:trigger p[j]} :: k <= j < n - 2 ==> j < p[j] < n - 1 && a[j] == a[p[j]] + 1)
    && (forall j :: k <= j < n - 1 ==> a[j] <= n - 2 - j)
  }

  lemma DepthStep(a: seq<nat>, p: seq<nat>, n: nat, k: nat)
    requires k + 1 <= n - 2 && DepthsFrom(a, p, n, k + 1) && k < p[k] < n - 1
    ensures a[k] == p[k] && DepthsFrom(a[k := a[p[k]] + 1], p, n, k)
  {}

  /** State at the head of the outer loop of phase three. */
  ghost predicate Emitting(a: seq<nat>, d: seq<nat>, ls: seq<nat>, rs: seq<nat>,
                           root: int, prev: int, next: int, avbl: int, dpth: nat) {
    var n := |a|;
    && |d| == n && Level(d, n, ls, rs, root, prev, dpth) && dpth <= n - 1 - prev
    && (forall k :: 0 <= k <= root ==> a[k] == d[k])
    && -1 <= next < n
    && (if dpth == 0 then next == n - 1 && avbl == 1 else next + 1 == ls[prev + 1] && avbl == 2 * (prev - root))
    && LeafLengths(a, d, ls, next + 1)
    && (forall i :: next < i < n ==> 1 <= a[i] <= dpth && a[i] < n)
    && NonIncreasing(a, next + 1)
    && KraftSum(a[next + 1..], n) + avbl * Pow2(n - dpth) == Pow2(n)
  }

  /** First inner loop: counts and skips the nodes of depth dpth. */
  method SkipLevel(A: array<nat>, root: int, dpth: nat, ghost d: seq<nat>, ghost p: seq<nat>, ghost ls: seq<nat>, ghost rs: seq<nat>,
                   ghost prev: int)
      returns (root': int, used: nat)
    requires Level(d, A.Length, ls, rs, root, prev, dpth) && Depths(d, p, A.Length) && Parents(p, rs, A.Length - 1)
    requires 0 <= prev && forall k :: 0 <= k <= root ==> A[k] == d[k]
    ensures root < prev && rs[root + 1] <= root + 1
    ensures root' == rs[root + 1] as int - 1 && used == root - root'
    ensures Level(d, A.Length, ls, rs, root', root, dpth + 1)
  {
    NextLevel(d, p, A.Length, ls, rs, root, prev, dpth);
    root', used := root, 0;
    while root' >= 0 && A[root'] == dpth
      invariant rs[root + 1] as int - 1 <= root' <= root && used == root - root'
    {
      used := used + 1;
      root' := root' - 1;
    }
  }

  /** Second inner loop: the slots of this level not used by nodes become leaves of length dpth. */
  method EmitLeaf(A: array<nat>, next: nat, dpth: nat)
    requires next < A.Length && dpth <= A.Length && forall i :: next < i < A.Length ==> A[i] <= A.Length
    modifies A
    ensures A[next] == dpth && forall i :: 0 <= i < A.Length && i != next ==> A[i] == old(A[i])
    ensures KraftSum(A[next..], A.Length) == old(KraftSum(A[next + 1..], A.Length)) + Pow2(A.Length - dpth)
  {
    ghost var tail := A[next + 1..];
    A[next] := dpth;
    assert A[next..] == [dpth] + tail;
  }

  method EmitLeaves(A: array<nat>, next: int, avbl: int, used: nat, dpth: nat)
      returns (next': int)
    requires used <= avbl && -1 <= next < A.Length && next - (avbl - used) >= -1
    requires dpth <= A.Length
    requires forall i :: next < i < A.Length ==> A[i] <= A.Length
    modifies A
    ensures next' == next - (avbl - used)
    ensures forall i :: next' < i <= next ==> A[i] == dpth
    ensures forall i :: 0 <= i < A.Length && (i <= next' || next < i) ==> A[i] == old(A[i])
    ensures KraftSum(A[next' + 1..], A.Length) == old(KraftSum(A[next + 1..], A.Length)) + (avbl - used) * Pow2(A.Length - dpth)
  {
    var left := avbl;
    next' := next;
    while left > used
      invariant used <= left <= avbl && next' == next - (avbl - left)
      invariant forall i :: next' < i <= next ==> A[i] == dpth
      invariant forall i :: 0 <= i < A.Length && (i <= next' || next < i) ==> A[i] == old(A[i])
      invariant forall i :: next' < i < A.Length ==> A[i] <= A.Length
      invariant KraftSum(A[next' + 1..], A.Length) == old(KraftSum(A[next + 1..], A.Length)) + (avbl - left) * Pow2(A.Length - dpth)
    {
      EmitLeaf(A, next', dpth);
      MulDist(avbl - left, 1, Pow2(A.Length - dpth));
      next', left := next' - 1, left - 1;
    }
  }

  lemma BoundsSum(n: nat, ls: seq<nat>, rs: seq<nat>, t: nat)
    requires History(n, ls, rs) && t < n
    ensures ls[t] + rs[t] == 2 * t
  {
    if t > 0 { assert TakesTwo(ls, rs, t - 1); }
  }

  /** The slots of a level that are not nodes are exactly the leaves taken by the level above. */
  lemma LeavesOfLevel(a: seq<nat>, d: seq<nat>, ls: seq<nat>, rs: seq<nat>,
                      root: int, prev: int, next: int, avbl: int, dpth: nat, root': int, used: nat)
    requires Emitting(a, d, ls, rs, root, prev, next, avbl, dpth) && 0 <= prev && root < prev
    requires root' == rs[root + 1] as int - 1 && used == root - root' >= 0
    ensures used <= avbl && next - (avbl - used) + 1 == ls[root + 1] == 2 * root - root' + 1
  {
    var n := |a|;
    BoundsSum(n, ls, rs, root + 1);
    if dpth > 0 {
      BoundsSum(n, ls, rs, prev + 1);
      BoundsMonotone(n, ls, rs, root + 1, prev + 1);
    }
  }

  lemma NewLeafLengths(a: seq<nat>, a': seq<nat>, d: seq<nat>, ls: seq<nat>, rs: seq<nat>,
                       root: int, prev: int, next: int, avbl: int, dpth: nat, next': int)
    requires Emitting(a, d, ls, rs, root, prev, next, avbl, dpth) && 0 <= prev && root < prev && |a'| == |a|
    requires next' + 1 == ls[root + 1]
    requires forall i :: next' < i <= next ==> a'[i] == dpth
    requires forall i :: next < i < |a| ==> a'[i] == a[i]
    ensures LeafLengths(a', d, ls, next' + 1)
  {
    var n := |a|;
    forall s: nat, i: nat | TakenAt(ls, s, i) && next' + 1 <= i < n && s < n
      ensures a'[i] == d[s] + 1
    {
      if i <= next {
        StageBetween(n, ls, rs, root + 1, if dpth == 0 then n - 1 else prev + 1, s, i);
      }
    }
  }

  lemma KraftCarry(avbl: int, used: int, unit: int, half: int)
    requires unit == 2 * half
    ensures (avbl - used) * unit + (2 * used) * half == avbl * unit
  {}

  /** Both inner loops together turn the state of one level into that of the next. */
  lemma LevelEmitted(a: seq<nat>, a': seq<nat>, d: seq<nat>, ls: seq<nat>, rs: seq<nat>,
                     root: int, prev: int, next: int, avbl: int, dpth: nat, root': int, used: nat, next': int)
    requires Emitting(a, d, ls, rs, root, prev, next, avbl, dpth) && 0 <= prev && root < prev && |a'| == |a|
    requires root' == rs[root + 1] as int - 1 && used == root - root' >= 0
    requires Level(d, |a|, ls, rs, root', root, dpth + 1)
    requires used <= avbl && next' == next - (avbl - used) && -1 <= next'
    requires forall i :: next' < i <= next ==> a'[i] == dpth
    requires forall i :: 0 <= i < |a| && (i <= next' || next < i) ==> a'[i] == a[i]
    requires dpth <= |a| && forall i :: next < i < |a| ==> a[i] <= |a|
    requires KraftSum(a'[next' + 1..], |a|) == KraftSum(a[next + 1..], |a|) + (avbl - used) * Pow2(|a| - dpth)
    ensures Emitting(a', d, ls, rs, root', root, next', 2 * used, dpth + 1)
  {
    var n := |a|;
    LeavesOfLevel(a, d, ls, rs, root, prev, next, avbl, dpth, root', used);
    NewLeafLengths(a, a', d, ls, rs, root, prev, next, avbl, dpth, next');
    assert Pow2(n - dpth) == 2 * Pow2(n - (dpth + 1));
    KraftCarry(avbl, used, Pow2(n - dpth), Pow2(n - (dpth + 1)));
  }

  /** Slots run out only after the last level. */
  lemma SlotsRemain(a: seq<nat>, d: seq<nat>, ls: seq<nat>, rs: seq<nat>, root: int, prev: int, next: int, avbl: int, dpth: nat)
    requires Emitting(a, d, ls, rs, root, prev, next, avbl, dpth)
    ensures prev >= 0 ==> avbl > 0
    ensures prev < 0 ==> avbl == 0 && next == -1
  {
    if prev >= 0 && dpth > 0 { assert TakesTwo(ls, rs, prev); }
  }

  /** Body of the outer loop: one level of the tree. */
  method EmitLevel(A: array<nat>, root: int, next: int, avbl: int, dpth: nat,
                   ghost d: seq<nat>, ghost p: seq<nat>, ghost ls: seq<nat>, ghost rs: seq<nat>, ghost prev: int)
      returns (root': int, next': int, used: nat)
    requires Emitting(A[..], d, ls, rs, root, prev, next, avbl, dpth) && 0 <= prev
    requires Parents(p, rs, A.Length - 1) && Depths(d, p, A.Length)
    modifies A
    ensures Emitting(A[..], d, ls, rs, root', root, next', 2 * used, dpth + 1) && root < prev
  {
    ghost var a := A[..];
    root', used := SkipLevel(A, root, dpth, d, p, ls, rs, prev);
    LeavesOfLevel(a, d, ls, rs, root, prev, next, avbl, dpth, root', used);
    next' := EmitLeaves(A, next, avbl, used, dpth);
    LevelEmitted(a, A[..], d, ls, rs, root, prev, next, avbl, dpth, root', used, next');
  }

  method EmitLengths(A: array<nat>, ghost p: seq<nat>, ghost ls: seq<nat>, ghost rs: seq<nat>)
    requires History(A.Length, ls, rs) && Parents(p, rs, A.Length - 1) && Depths(A[..], p, A.Length)
    requires |p| == A.Length
    modifies A
    ensures forall i :: 0 <= i < A.Length ==> 1 <= A[i] < A.Length
    ensures NonIncreasing(A[..], 0)
    ensures KraftSum(A[..], A.Length) == Pow2(A.Length)
    ensures LeafLengths(A[..], old(A[..]), ls, 0)
  {
    var n := A.Length;
    ghost var d := A[..];
    var avbl, used, dpth := 1, 0, 0;
    var root, next := n - 2, n - 1;
    ghost var prev := n - 1;
    while avbl > 0
      invariant used == 0 && Emitting(A[..], d, ls, rs, root, prev, next, avbl, dpth)
      decreases prev
    {
      SlotsRemain(A[..], d, ls, rs, root, prev, next, avbl, dpth);
      ghost var above := root;
      root, next, used := EmitLevel(A, root, next, avbl, dpth, d, p, ls, rs, prev);
      avbl, dpth, used, prev := 2 * used, dpth + 1, 0, above;
    }
    SlotsRemain(A[..], d, ls, rs, root, prev, next, avbl, dpth);
    assert A[0..] == A[..];
  }

  /** n frequencies in, n code lengths out. The lengths form a complete code whatever the keys are;
      if the keys are sorted and their sum does not wrap, no prefix code is shorter in total, and for positive keys
      none that is as short in total has a smaller greatest length. */
  method CalculateMinimumRedundancy(A: array<nat>)
    requires A.Length < KEY_LIMIT && forall i :: 0 <= i < A.Length ==> A[i] < KEY_LIMIT
    modifies A
    ensures A.Length == 1 ==> A[0] == 1
    ensures A.Length >= 2 ==> forall i :: 0 <= i < A.Length ==> 1 <= A[i] < A.Length
    ensures NonIncreasing(A[..], 0)
    ensures A.Length >= 2 ==> KraftSum(A[..], A.Length) == Pow2(A.Length)
    ensures A.Length >= 2 && Mergeable(old(A[..])) ==> Optimal(old(A[..]), A[..])
    ensures A.Length >= 2 && Mergeable(old(A[..])) && Positive(old(A[..])) ==> LeastDeep(old(A[..]), A[..])
    ensures Mergeable(old(A[..])) && Positive(old(A[..])) ==> forall i :: 0 <= i < A.Length ==> A[i] <= 30
  {
    if A.Length == 0 { return; }
    if A.Length == 1 { A[0] := 1; return; }
    ghost var w := A[..];
    ghost var nodes, ls, rs := BuildTree(A);
    ghost var p := A[..];
    ComputeDepths(A, rs, ls);
    ghost var d := A[..];
    EmitLengths(A, p, ls, rs);
    if Mergeable(w) {
      TreeIsOptimal(w, nodes, ls, rs, d, A[..], p);
      if Positive(w) {
        TreeIsLeastDeep(w, nodes, ls, rs, d, A[..], p);
        forall i | 0 <= i < A.Length
          ensures A[i] <= 30
        {
          TreeIsShallow(w, nodes, ls, rs, d, A[..], p, i);
        }
      }
    }
  }
}
