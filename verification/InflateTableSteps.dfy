/** Each write the table builder makes keeps the table's meaning (InflateTableSpec.Entered). */
module InflateTableSteps {
  import opened Powers
  import opened BitFields
  import opened CanonicalCode
  import opened InflateTableSpec

  // ---------- A new node ----------

  lemma NodesAdd(sizes: seq<nat>, path: seq<Prefix>, p: Prefix)
    requires Nodes(sizes, path) && p !in path && ProperNode(sizes, p)
    requires p.depth > LOOKUP_BITS ==> Parent(p) in path
    ensures Nodes(sizes, path + [p])
  {
    var path' := path + [p];
    forall k | 0 <= k < |path'|
      ensures ParentPresent(path', k)
    {
      if k < |path| { assert ParentPresent(path, k); }
    }
  }

  lemma CoveredGrows(sizes: seq<nat>, path: seq<Prefix>, p: Prefix, s: nat, upTo: nat)
    requires s < |sizes| && Covered(sizes, path, s, upTo)
    ensures Covered(sizes, path + [p], s, upTo)
  {}

  lemma CoveredFurther(sizes: seq<nat>, path: seq<Prefix>, path': seq<Prefix>, s: nat, d: nat, k: nat)
    requires s < |sizes| && Covered(sizes, path, s, d) && path <= path'
    requires k < |path'| && path'[k] == Prefix(d, Low(Bits(sizes, s), d))
    ensures Covered(sizes, path', s, d + 1)
  {
    forall e | LOOKUP_BITS <= e < d + 1
      ensures Prefix(e, Low(Bits(sizes, s), e)) in path'
    {
      if e < d {
        assert Prefix(e, Low(Bits(sizes, s), e)) in path;
        assert path == path'[..|path|];
      }
    }
  }

  /** Below a node that does not exist yet there is nothing. */
  lemma NothingBelow(sizes: seq<nat>, n: nat, lookUp: seq<int>, tree: seq<int>, path: seq<Prefix>, p: Prefix, b: nat)
    requires Entered(sizes, n, lookUp, tree, path) && p !in path && b <= 1
    requires LOOKUP_BITS <= p.depth && p.bits < Pow2(p.depth)
    ensures Child(p, b) !in path
    ensures forall s: nat :: s < n ==> !IsCode(sizes, s, Child(p, b))
  {
    ParentOfChild(p, b);
    forall k | 0 <= k < |path|
      ensures path[k] != Child(p, b)
    {
      assert ParentPresent(path, k);
    }
    forall s: nat | s < n
      ensures !IsCode(sizes, s, Child(p, b))
    {
      assert sizes[s] > LOOKUP_BITS ==> Covered(sizes, path, s, sizes[s]);
    }
  }

  lemma NewNodeEntry(sizes: seq<nat>, n: nat, lookUp: seq<int>, tree: seq<int>, path: seq<Prefix>, tree': seq<int>, p: Prefix, b: nat)
    requires Entered(sizes, n, lookUp, tree, path) && p !in path && b <= 1
    requires LOOKUP_BITS <= p.depth && p.bits < Pow2(p.depth)
    requires 2 * |path| + 2 <= |tree'| && tree'[2 * |path| + b] == 0
    ensures TreeEntry(sizes, n, tree', path + [p], |path|, b)
  {
    NothingBelow(sizes, n, lookUp, tree, path, p, b);
    assert Child(p, b) != p;
  }

  lemma CodesStayCovered(sizes: seq<nat>, n: nat, path: seq<Prefix>, p: Prefix)
    requires n <= |sizes| && forall t: nat :: t < n && sizes[t] > LOOKUP_BITS ==> Covered(sizes, path, t, sizes[t])
    ensures forall t: nat :: t < n && sizes[t] > LOOKUP_BITS ==> Covered(sizes, path + [p], t, sizes[t])
  {
    forall t: nat | t < n && sizes[t] > LOOKUP_BITS
      ensures Covered(sizes, path + [p], t, sizes[t])
    {
      CoveredGrows(sizes, path, p, t, sizes[t]);
    }
  }

  /** First level: the ten bits x were unassigned. */
  lemma AddRoot(sizes: seq<nat>, n: nat, lookUp: seq<int>, tree: seq<int>, path: seq<Prefix>, x: nat, s: nat)
    requires Decodable(sizes) && Entered(sizes, n, lookUp, tree, path)
    requires x < LOOKUP_SIZE && lookUp[x] == 0 && Extends(sizes, Prefix(LOOKUP_BITS, x), s)
    requires 2 * |path| + 2 <= |tree|
    ensures Entered(sizes, n, lookUp[x := NodeValue(|path|)], tree, path + [Prefix(LOOKUP_BITS, x)])
  {
    var p := Prefix(LOOKUP_BITS, x);
    var path', lookUp' := path + [p], lookUp[x := NodeValue(|path|)];
    TenBits();
    assert LookUpEntry(sizes, n, lookUp, path, x);
    assert p !in path;
    NodesAdd(sizes, path, p);
    CodesStayCovered(sizes, n, path, p);
    forall y: nat | y < LOOKUP_SIZE
      ensures LookUpEntry(sizes, n, lookUp', path', y)
    {
      RootLookUp(sizes, n, lookUp, path, x, s, y);
    }
    forall k: nat, b: nat | k < |path'| && b <= 1
      ensures TreeEntry(sizes, n, tree, path', k, b)
    {
      if k == |path| {
        NewNodeEntry(sizes, n, lookUp, tree, path, tree, p, b);
      } else {
        assert TreeEntry(sizes, n, tree, path, k, b);
      }
    }
  }

  lemma RootLookUp(sizes: seq<nat>, n: nat, lookUp: seq<int>, path: seq<Prefix>, x: nat, s: nat, y: nat)
    requires Decodable(sizes) && n <= |sizes| && x < |lookUp| && y < |lookUp|
    requires LookUpEntry(sizes, n, lookUp, path, y)
    requires Prefix(LOOKUP_BITS, x) !in path && Extends(sizes, Prefix(LOOKUP_BITS, x), s)
    ensures LookUpEntry(sizes, n, lookUp[x := NodeValue(|path|)], path + [Prefix(LOOKUP_BITS, x)], y)
  {
    NoShortCode(sizes, x, s, y);
  }

  lemma TenBits()
    ensures Pow2(LOOKUP_BITS) == LOOKUP_SIZE
  {
    assert Pow2(10) == 1024;
  }

  lemma NoShortCode(sizes: seq<nat>, x: nat, s: nat, y: nat)
    requires Decodable(sizes) && Extends(sizes, Prefix(LOOKUP_BITS, x), s)
    ensures y == x ==> forall t: nat :: StartsWith(sizes, y, t) ==> sizes[t] > LOOKUP_BITS
  {
    if y == x {
      forall t: nat | StartsWith(sizes, y, t)
        ensures sizes[t] > LOOKUP_BITS
      {
        if sizes[t] <= LOOKUP_BITS { NoCodeAbove(sizes, Prefix(LOOKUP_BITS, x), s, t); }
      }
    }
  }

  /** Deeper levels: slot b of node k was empty and the code of s goes on below it. */
  lemma AddChild(sizes: seq<nat>, n: nat, lookUp: seq<int>, tree: seq<int>, path: seq<Prefix>, k: nat, b: nat, s: nat)
    requires Decodable(sizes) && Entered(sizes, n, lookUp, tree, path)
    requires k < |path| && b <= 1 && tree[2 * k + b] == 0 && Extends(sizes, Child(path[k], b), s)
    requires 2 * |path| + 2 <= |tree|
    ensures Entered(sizes, n, lookUp, tree[2 * k + b := NodeValue(|path|)], path + [Child(path[k], b)])
  {
    var p := Child(path[k], b);
    var path' := path + [p];
    var tree' := tree[2 * k + b := NodeValue(|path|)];
    assert TreeEntry(sizes, n, tree, path, k, b) && ProperNode(sizes, path[k]);
    assert p !in path;
    ParentOfChild(path[k], b);
    NodesAdd(sizes, path, p);
    CodesStayCovered(sizes, n, path, p);
    ChildKeepsFirst(sizes, n, lookUp, path, p);
    forall k2: nat, b2: nat | k2 < |path'| && b2 <= 1
      ensures TreeEntry(sizes, n, tree', path', k2, b2)
    {
      if k2 == |path| {
        NewNodeEntry(sizes, n, lookUp, tree, path, tree', p, b2);
      } else {
        OtherSlots(sizes, n, tree, path, k, b, k2, b2, s);
      }
    }
  }

  /** A node further down leaves the first level as it is. */
  lemma ChildKeepsFirst(sizes: seq<nat>, n: nat, lookUp: seq<int>, path: seq<Prefix>, p: Prefix)
    requires n <= |sizes| && |lookUp| == LOOKUP_SIZE && p.depth > LOOKUP_BITS
    requires forall x: nat :: x < LOOKUP_SIZE ==> LookUpEntry(sizes, n, lookUp, path, x)
    ensures forall x: nat :: x < LOOKUP_SIZE ==> LookUpEntry(sizes, n, lookUp, path + [p], x)
  {
    forall x: nat | x < LOOKUP_SIZE
      ensures LookUpEntry(sizes, n, lookUp, path + [p], x)
    {
      assert LookUpEntry(sizes, n, lookUp, path, x);
    }
  }

  /** Writing the new child into slot b of node k leaves every old slot right. */
  lemma OtherSlots(sizes: seq<nat>, n: nat, tree: seq<int>, path: seq<Prefix>, k: nat, b: nat, k2: nat, b2: nat, s: nat)
    requires Decodable(sizes) && Nodes(sizes, path) && n <= |sizes| && 2 * |path| <= |tree|
    requires k < |path| && b <= 1 && k2 < |path| && b2 <= 1
    requires Child(path[k], b) !in path && Extends(sizes, Child(path[k], b), s)
    requires TreeEntry(sizes, n, tree, path, k2, b2)
    ensures TreeEntry(sizes, n, tree[2 * k + b := NodeValue(|path|)], path + [Child(path[k], b)], k2, b2)
  {
    assert ProperNode(sizes, path[k]) && ProperNode(sizes, path[k2]);
    ParentOfChild(path[k], b);
    if k2 == k && b2 == b {
      SameSlot(sizes, n, tree, path, k, b, s);
    } else {
      assert k2 != k ==> path[k2] != path[k];
      ChildrenDiffer(path[k], b, path[k2], b2);
      DifferentSlot(sizes, n, tree, path, 2 * k + b, Child(path[k], b), k2, b2);
    }
  }

  lemma ChildrenDiffer(p: Prefix, b: nat, p2: Prefix, b2: nat)
    requires b <= 1 && b2 <= 1 && p.bits < Pow2(p.depth) && p2.bits < Pow2(p2.depth)
    requires p != p2 || b != b2
    ensures Child(p, b) != Child(p2, b2)
  {
    ParentOfChild(p, b);
    ParentOfChild(p2, b2);
  }

  lemma SameSlot(sizes: seq<nat>, n: nat, tree: seq<int>, path: seq<Prefix>, k: nat, b: nat, s: nat)
    requires Decodable(sizes) && n <= |sizes| && k < |path| && b <= 1 && 2 * k + b < |tree|
    requires Child(path[k], b) !in path && Extends(sizes, Child(path[k], b), s)
    requires Child(path[k], b).bits < Pow2(path[k].depth + 1)
    ensures TreeEntry(sizes, n, tree[2 * k + b := NodeValue(|path|)], path + [Child(path[k], b)], k, b)
  {
    forall t: nat | t < n
      ensures !IsCode(sizes, t, Child(path[k], b))
    {
      NoCodeHere(sizes, Child(path[k], b), s, t);
    }
  }

  lemma DifferentSlot(sizes: seq<nat>, n: nat, tree: seq<int>, path: seq<Prefix>, slot: nat, p: Prefix, k2: nat, b2: nat)
    requires n <= |sizes| && slot < |tree| && k2 < |path| && b2 <= 1 && 2 * k2 + b2 < |tree| && slot != 2 * k2 + b2
    requires Child(path[k2], b2) != p && TreeEntry(sizes, n, tree, path, k2, b2)
    ensures TreeEntry(sizes, n, tree[slot := NodeValue(|path|)], path + [p], k2, b2)
  {}

  /** A prefix that goes on is not itself a code. */
  lemma NoCodeHere(sizes: seq<nat>, p: Prefix, s: nat, t: nat)
    requires Decodable(sizes) && Extends(sizes, p, s) && p.depth > 0 && p.bits < Pow2(p.depth)
    ensures !IsCode(sizes, t, p)
  {
    if IsCode(sizes, t, p) {
      NoCodeAbove(sizes, p, s, t);
      LowOfSmall(p.bits, p.depth);
    }
  }

  /** An entry on the way to a longer code is a node. */
  lemma RootPresent(sizes: seq<nat>, n: nat, lookUp: seq<int>, tree: seq<int>, path: seq<Prefix>, x: nat, s: nat) returns (k: nat)
    requires Decodable(sizes) && Entered(sizes, n, lookUp, tree, path)
    requires x < LOOKUP_SIZE && lookUp[x] != 0 && Extends(sizes, Prefix(LOOKUP_BITS, x), s)
    ensures k < |path| && path[k] == Prefix(LOOKUP_BITS, x) && lookUp[x] == NodeValue(k)
  {
    assert LookUpEntry(sizes, n, lookUp, path, x);
    NoShortCode(sizes, x, s, x);
    k :| 0 <= k < |path| && path[k] == Prefix(LOOKUP_BITS, x);
  }

  lemma ChildPresent(sizes: seq<nat>, n: nat, lookUp: seq<int>, tree: seq<int>, path: seq<Prefix>, k: nat, b: nat, s: nat) returns (k': nat)
    requires Decodable(sizes) && Entered(sizes, n, lookUp, tree, path)
    requires k < |path| && b <= 1 && tree[2 * k + b] != 0 && Extends(sizes, Child(path[k], b), s)
    ensures k' < |path| && path[k'] == Child(path[k], b) && tree[2 * k + b] == NodeValue(k')
  {
    assert TreeEntry(sizes, n, tree, path, k, b) && ProperNode(sizes, path[k]);
    ParentOfChild(path[k], b);
    forall t: nat
      ensures !IsCode(sizes, t, Child(path[k], b))
    {
      NoCodeHere(sizes, Child(path[k], b), s, t);
    }
    k' :| 0 <= k' < |path| && path[k'] == Child(path[k], b);
  }

  // ---------- A symbol ----------

  lemma EmptyTable(sizes: seq<nat>, lookUp: seq<int>, tree: seq<int>)
    requires |lookUp| == LOOKUP_SIZE
    requires (forall x :: 0 <= x < |lookUp| ==> lookUp[x] == 0) && (forall i :: 0 <= i < |tree| ==> tree[i] == 0)
    ensures Entered(sizes, 0, lookUp, tree, [])
  {}

  lemma SkipUnused(sizes: seq<nat>, n: nat, lookUp: seq<int>, tree: seq<int>, path: seq<Prefix>)
    requires Entered(sizes, n, lookUp, tree, path) && n < |sizes| && sizes[n] == 0
    ensures Entered(sizes, n + 1, lookUp, tree, path)
  {
    var n' := n + 1;
    forall x: nat | x < LOOKUP_SIZE
      ensures LookUpEntry(sizes, n', lookUp, path, x)
    {
      assert LookUpEntry(sizes, n, lookUp, path, x);
    }
    forall k: nat, b: nat | k < |path| && b <= 1
      ensures TreeEntry(sizes, n', tree, path, k, b)
    {
      assert TreeEntry(sizes, n, tree, path, k, b) && ProperNode(sizes, path[k]);
    }
  }

  /** The codes of two symbols are not the same bits. */
  lemma CodeUnique(sizes: seq<nat>, c: Prefix, s: nat, t: nat)
    requires Decodable(sizes) && IsCode(sizes, s, c) && IsCode(sizes, t, c) && c.depth > 0
    ensures s == t
  {
    if s != t {
      PrefixFree(sizes, s, t);
      LowOfSmall(Bits(sizes, s), sizes[s]);
    }
  }

  /** A long code ends in slot b of node k. */
  lemma EnterLong(sizes: seq<nat>, n: nat, lookUp: seq<int>, tree: seq<int>, path: seq<Prefix>, k: nat, b: nat)
    requires Decodable(sizes) && Entered(sizes, n, lookUp, tree, path) && n < |sizes| && sizes[n] > LOOKUP_BITS
    requires Covered(sizes, path, n, sizes[n])
    requires k < |path| && b <= 1 && Child(path[k], b) == Prefix(sizes[n], Bits(sizes, n))
    ensures Entered(sizes, n + 1, lookUp, tree[2 * k + b := n], path)
  {
    var tree', n' := tree[2 * k + b := n], n + 1;
    LongKeepsFirst(sizes, n, n', lookUp, path);
    forall k2: nat, b2: nat | k2 < |path| && b2 <= 1
      ensures TreeEntry(sizes, n', tree', path, k2, b2)
    {
      LongSlots(sizes, n, tree, path, k, b, k2, b2);
    }
  }

  /** A long code leaves the first level as it is. */
  lemma LongKeepsFirst(sizes: seq<nat>, n: nat, n': nat, lookUp: seq<int>, path: seq<Prefix>)
    requires n' == n + 1 <= |sizes| && sizes[n] > LOOKUP_BITS && |lookUp| == LOOKUP_SIZE
    requires forall x: nat :: x < LOOKUP_SIZE ==> LookUpEntry(sizes, n, lookUp, path, x)
    ensures forall x: nat :: x < LOOKUP_SIZE ==> LookUpEntry(sizes, n', lookUp, path, x)
  {
    forall x: nat | x < LOOKUP_SIZE
      ensures LookUpEntry(sizes, n', lookUp, path, x)
    {
      assert LookUpEntry(sizes, n, lookUp, path, x);
    }
  }

  lemma LongSlots(sizes: seq<nat>, n: nat, tree: seq<int>, path: seq<Prefix>, k: nat, b: nat, k2: nat, b2: nat)
    requires Decodable(sizes) && Nodes(sizes, path) && n < |sizes| && sizes[n] > 0 && 2 * |path| <= |tree|
    requires k < |path| && b <= 1 && Child(path[k], b) == Prefix(sizes[n], Bits(sizes, n))
    requires k2 < |path| && b2 <= 1 && TreeEntry(sizes, n, tree, path, k2, b2)
    ensures TreeEntry(sizes, n + 1, tree[2 * k + b := n], path, k2, b2)
  {
    if k2 == k && b2 == b {
      LeafSlot(sizes, n, tree, path, k, b);
    } else {
      assert ProperNode(sizes, path[k]) && ProperNode(sizes, path[k2]);
      assert k2 != k ==> path[k2] != path[k];
      ChildrenDiffer(path[k], b, path[k2], b2);
      NotTheLeaf(sizes, n, tree, path, 2 * k + b, k2, b2);
    }
  }

  lemma NotTheLeaf(sizes: seq<nat>, n: nat, tree: seq<int>, path: seq<Prefix>, slot: nat, k2: nat, b2: nat)
    requires n < |sizes| && slot < |tree| && k2 < |path| && b2 <= 1 && 2 * k2 + b2 < |tree| && slot != 2 * k2 + b2
    requires !IsCode(sizes, n, Child(path[k2], b2)) && TreeEntry(sizes, n, tree, path, k2, b2)
    ensures TreeEntry(sizes, n + 1, tree[slot := n], path, k2, b2)
  {}

  lemma LeafSlot(sizes: seq<nat>, n: nat, tree: seq<int>, path: seq<Prefix>, k: nat, b: nat)
    requires Decodable(sizes) && Nodes(sizes, path) && n < |sizes| && sizes[n] > 0 && 2 * |path| <= |tree|
    requires k < |path| && b <= 1 && Child(path[k], b) == Prefix(sizes[n], Bits(sizes, n))
    ensures TreeEntry(sizes, n + 1, tree[2 * k + b := n], path, k, b)
  {
    var c := Child(path[k], b);
    assert IsCode(sizes, n, c);
    forall t: nat | IsCode(sizes, t, c)
      ensures t == n
    {
      CodeUnique(sizes, c, t, n);
    }
    forall k' | 0 <= k' < |path|
      ensures path[k'] != c
    {
      NotANode(sizes, path, c, n, k');
    }
  }

  lemma NotANode(sizes: seq<nat>, path: seq<Prefix>, c: Prefix, t: nat, k: nat)
    requires Decodable(sizes) && Nodes(sizes, path) && IsCode(sizes, t, c) && c.depth > 0 && k < |path|
    ensures path[k] != c
  {
    assert ProperNode(sizes, path[k]);
    var s: nat :| Extends(sizes, path[k], s);
    if path[k] == c { NoCodeHere(sizes, c, s, t); }
  }

  /** A code of at most ten bits fills every entry it starts. */
  lemma EnterShort(sizes: seq<nat>, n: nat, lookUp: seq<int>, lookUp': seq<int>, tree: seq<int>, path: seq<Prefix>)
    requires Decodable(sizes) && Entered(sizes, n, lookUp, tree, path)
    requires n < |sizes| && 1 <= sizes[n] <= LOOKUP_BITS && |lookUp'| == |lookUp|
    requires forall x: nat :: x < |lookUp| ==>
      lookUp'[x] == if Low(x, sizes[n]) == Bits(sizes, n) then ShortEntry(sizes[n], n) else lookUp[x]
    ensures Entered(sizes, n + 1, lookUp', tree, path)
  {
    var n' := n + 1;
    forall x: nat | x < LOOKUP_SIZE
      ensures LookUpEntry(sizes, n', lookUp', path, x)
    {
      assert LookUpEntry(sizes, n, lookUp, path, x);
      ShortSlot(sizes, n, lookUp, lookUp', path, x);
    }
    forall k: nat, b: nat | k < |path| && b <= 1
      ensures TreeEntry(sizes, n', tree, path, k, b)
    {
      assert TreeEntry(sizes, n, tree, path, k, b) && ProperNode(sizes, path[k]);
    }
  }

  lemma ShortSlot(sizes: seq<nat>, n: nat, lookUp: seq<int>, lookUp': seq<int>, path: seq<Prefix>, x: nat)
    requires Decodable(sizes) && Nodes(sizes, path) && n < |sizes| && 1 <= sizes[n] <= LOOKUP_BITS
    requires x < |lookUp| == |lookUp'| && LookUpEntry(sizes, n, lookUp, path, x)
    requires lookUp'[x] == if Low(x, sizes[n]) == Bits(sizes, n) then ShortEntry(sizes[n], n) else lookUp[x]
    ensures LookUpEntry(sizes, n + 1, lookUp', path, x)
  {
    if StartsWith(sizes, x, n) {
      forall k | 0 <= k < |path|
        ensures path[k] != Prefix(LOOKUP_BITS, x)
      {
        assert ProperNode(sizes, path[k]);
        var s: nat :| Extends(sizes, path[k], s);
        if path[k].depth == LOOKUP_BITS { NoCodeAbove(sizes, path[k], s, n); }
      }
      forall t: nat | StartsWith(sizes, x, t)
        ensures t == n
      {
        StartsWithUnique(sizes, x, n, t);
      }
    }
  }

  // ---------- Decoding ----------

  /** What the first ten bits of a buffer that starts with the code of s look up. */
  lemma FirstLevel(sizes: seq<nat>, lookUp: seq<int>, tree: seq<int>, path: seq<Prefix>, x: nat, s: nat) returns (k: nat)
    requires Decodable(sizes) && Entered(sizes, |sizes|, lookUp, tree, path) && StartsWith(sizes, x, s)
    ensures Low(x, LOOKUP_BITS) < LOOKUP_SIZE
    ensures var e := lookUp[Low(x, LOOKUP_BITS)];
            if sizes[s] <= LOOKUP_BITS then e == ShortEntry(sizes[s], s) else AtNode(path, k, e, LOOKUP_BITS, x)
  {
    TenBits();
    LowShr(x, LOOKUP_BITS);
    var i := Low(x, LOOKUP_BITS);
    assert LookUpEntry(sizes, |sizes|, lookUp, path, i);
    k := 0;
    if sizes[s] <= LOOKUP_BITS {
      LowLow(x, sizes[s], LOOKUP_BITS);
      assert StartsWith(sizes, i, s);
    } else {
      LowLow(x, LOOKUP_BITS, sizes[s]);
      assert Covered(sizes, path, s, sizes[s]);
      k := NodeOf(path, Prefix(LOOKUP_BITS, i));
    }
  }

  /** A short entry is unpacked by a shift and a mask. */
  lemma SplitEntry(len: nat, sym: nat)
    requires sym < MAX_SYMBOLS
    ensures ShortEntry(len, sym) >= 0 && ShortEntry(len, sym) / 512 == len && ShortEntry(len, sym) % 512 == sym
  {}

  /** The next bit of the buffer leads to the child that agrees with it one bit further. */
  lemma NextPrefix(x: nat, d: nat)
    ensures Shr(x, d) % 2 <= 1 && Child(Prefix(d, Low(x, d)), Shr(x, d) % 2) == Prefix(d + 1, Low(x, d + 1))
  {
    LowStep(x, d);
  }

  /** No code of up to d bits starts a buffer that has come as far as a node at depth d. */
  lemma LongerThanNode(sizes: seq<nat>, path: seq<Prefix>, k: nat, x: nat, d: nat, t: nat)
    requires Decodable(sizes) && Nodes(sizes, path) && k < |path| && path[k] == Prefix(d, Low(x, d)) && StartsWith(sizes, x, t)
    ensures d < sizes[t] && d < MAX_BITS
  {
    assert ProperNode(sizes, path[k]);
    var s: nat :| Extends(sizes, path[k], s);
    if sizes[t] <= d {
      NoCodeAbove(sizes, path[k], s, t);
      LowLow(x, sizes[t], d);
    }
  }

  lemma NodeDepth(sizes: seq<nat>, path: seq<Prefix>, k: nat)
    requires ValidSizes(sizes) && Nodes(sizes, path) && k < |path|
    ensures path[k].depth < MAX_BITS
  {
    assert ProperNode(sizes, path[k]);
    var s: nat :| Extends(sizes, path[k], s);
  }

  /** A longer code that starts the buffer has its node at depth d. */
  lemma NodeBelow(sizes: seq<nat>, path: seq<Prefix>, x: nat, d: nat, t: nat)
    requires StartsWith(sizes, x, t) && LOOKUP_BITS <= d < sizes[t] && Covered(sizes, path, t, sizes[t])
    ensures Prefix(d, Low(x, d)) in path
  {
    LowLow(x, d, sizes[t]);
  }

  /** What the first ten bits of any buffer look up. */
  lemma FirstEntry(sizes: seq<nat>, lookUp: seq<int>, tree: seq<int>, path: seq<Prefix>, x: nat) returns (k: nat)
    requires Decodable(sizes) && |sizes| <= MAX_SYMBOLS && Entered(sizes, |sizes|, lookUp, tree, path)
    ensures Low(x, LOOKUP_BITS) < LOOKUP_SIZE
    ensures var e := lookUp[Low(x, LOOKUP_BITS)];
            if e < 0 then AtNode(path, k, e, LOOKUP_BITS, x) else Decodes(sizes, x, e % 512, e / 512)
  {
    TenBits();
    LowShr(x, LOOKUP_BITS);
    var i := Low(x, LOOKUP_BITS);
    assert LookUpEntry(sizes, |sizes|, lookUp, path, i);
    k := 0;
    if Prefix(LOOKUP_BITS, i) in path {
      k := NodeOf(path, Prefix(LOOKUP_BITS, i));
    } else if Coded(sizes, x) {
      var t: nat :| StartsWith(sizes, x, t);
      if sizes[t] > LOOKUP_BITS { NodeBelow(sizes, path, x, LOOKUP_BITS, t); }
      ShortEntryIs(sizes, lookUp, path, x, t);
    } else {
      NoShortEntry(sizes, lookUp, path, x);
    }
  }

  lemma ShortEntryIs(sizes: seq<nat>, lookUp: seq<int>, path: seq<Prefix>, x: nat, t: nat)
    requires Low(x, LOOKUP_BITS) < |lookUp| && LookUpEntry(sizes, |sizes|, lookUp, path, Low(x, LOOKUP_BITS))
    requires ValidSizes(sizes) && |sizes| <= MAX_SYMBOLS && StartsWith(sizes, x, t) && sizes[t] <= LOOKUP_BITS
    ensures var e := lookUp[Low(x, LOOKUP_BITS)]; e >= 0 && Decodes(sizes, x, e % 512, e / 512)
  {
    LowLow(x, sizes[t], LOOKUP_BITS);
    assert StartsWith(sizes, Low(x, LOOKUP_BITS), t);
    SplitEntry(sizes[t], t);
  }

  lemma NoShortEntry(sizes: seq<nat>, lookUp: seq<int>, path: seq<Prefix>, x: nat)
    requires Low(x, LOOKUP_BITS) < |lookUp| && LookUpEntry(sizes, |sizes|, lookUp, path, Low(x, LOOKUP_BITS))
    requires Prefix(LOOKUP_BITS, Low(x, LOOKUP_BITS)) !in path && !Coded(sizes, x)
    ensures lookUp[Low(x, LOOKUP_BITS)] == 0
  {
    forall s: nat | s < |sizes| && sizes[s] <= LOOKUP_BITS
      ensures !StartsWith(sizes, Low(x, LOOKUP_BITS), s)
    {
      LowLow(x, sizes[s], LOOKUP_BITS);
      assert !StartsWith(sizes, x, s);
    }
  }

  /** What slot b of node k leads to, for any buffer that has come this far: another node, or a symbol. */
  lemma NextEntry(sizes: seq<nat>, lookUp: seq<int>, tree: seq<int>, path: seq<Prefix>, x: nat, k: nat, b: nat, d: nat) returns (k': nat)
    requires Decodable(sizes) && Entered(sizes, |sizes|, lookUp, tree, path) && k < |path| && b <= 1
    requires LOOKUP_BITS <= d && path[k] == Prefix(d, Low(x, d)) && Child(path[k], b) == Prefix(d + 1, Low(x, d + 1))
    ensures var e := tree[2 * k + b];
            d < MAX_BITS && if e < 0 then AtNode(path, k', e, d + 1, x) else Decodes(sizes, x, e, d + 1)
  {
    NodeDepth(sizes, path, k);
    assert TreeEntry(sizes, |sizes|, tree, path, k, b);
    var c := Child(path[k], b);
    k' := 0;
    if c in path {
      k' := NodeOf(path, c);
    } else if Coded(sizes, x) {
      var t: nat :| StartsWith(sizes, x, t);
      LongerThanNode(sizes, path, k, x, d, t);
      if sizes[t] > d + 1 { NodeBelow(sizes, path, x, d + 1, t); }
      assert IsCode(sizes, t, c);
    } else {
      NoLeaf(sizes, tree, path, x, k, b, d);
    }
  }

  lemma NoLeaf(sizes: seq<nat>, tree: seq<int>, path: seq<Prefix>, x: nat, k: nat, b: nat, d: nat)
    requires k < |path| && b <= 1 && 2 * k + b < |tree| && TreeEntry(sizes, |sizes|, tree, path, k, b)
    requires Child(path[k], b) == Prefix(d + 1, Low(x, d + 1)) && Child(path[k], b) !in path && !Coded(sizes, x)
    ensures tree[2 * k + b] == 0
  {
    forall s: nat | s < |sizes|
      ensures !IsCode(sizes, s, Child(path[k], b))
    {
      assert !StartsWith(sizes, x, s);
    }
  }

  /** With a complete code every look-up gives a symbol and takes at least one bit. */
  lemma CompleteAlwaysDecodes(sizes: seq<nat>, x: nat, sym: nat, len: nat)
    requires ValidSizes(sizes) && FirstCode(sizes, MAX_BITS + 1) == CODE_SPACE && Decodes(sizes, x, sym, len)
    ensures StartsWith(sizes, x, sym) && 1 <= len == sizes[sym]
  {
    var s := CompleteIsExhaustive(sizes, x);
    assert StartsWith(sizes, x, s);
  }

  lemma NodeOf(path: seq<Prefix>, p: Prefix) returns (k: nat)
    requires p in path
    ensures k < |path| && path[k] == p
  {
    k :| 0 <= k < |path| && path[k] == p;
  }

  // ---------- Decoding from too few bits ----------

  lemma NextBitAgrees(x: nat, y: nat, d: nat)
    requires Low(x, d + 1) == Low(y, d + 1)
    ensures Low(x, d) == Low(y, d) && Shr(x, d) % 2 == Shr(y, d) % 2
  {
    LowStep(x, d);
    LowStep(y, d);
    LowShr(x, d);
    LowShr(y, d);
  }

  /** A short entry whose whole code is at hand belongs to the only symbol that the bits at hand can start. */
  lemma ShortIsReady(sizes: seq<nat>, lookUp: seq<int>, tree: seq<int>, path: seq<Prefix>, x: nat, m: nat, s: nat)
    requires Decodable(sizes) && |sizes| <= MAX_SYMBOLS && Entered(sizes, |sizes|, lookUp, tree, path)
    requires Used(sizes, s) && m < sizes[s] && Low(x, m) == Low(Bits(sizes, s), m)
    requires Low(x, LOOKUP_BITS) < |lookUp| && lookUp[Low(x, LOOKUP_BITS)] >= 512
    ensures lookUp[Low(x, LOOKUP_BITS)] / 512 > m
  {
    var i := Low(x, LOOKUP_BITS);
    assert LookUpEntry(sizes, |sizes|, lookUp, path, i);
    if Prefix(LOOKUP_BITS, i) in path {
      var k := NodeOf(path, Prefix(LOOKUP_BITS, i));
      assert false;
    } else {
      var t: nat :| t < |sizes| && StartsWith(sizes, i, t) && sizes[t] <= LOOKUP_BITS;
      SplitEntry(sizes[t], t);
      LowLow(x, sizes[t], LOOKUP_BITS);
      if sizes[t] <= m { NotAnotherCode(sizes, x, m, s, t); }
    }
  }

  lemma NotAnotherCode(sizes: seq<nat>, x: nat, m: nat, s: nat, t: nat)
    requires Decodable(sizes) && Used(sizes, s) && Used(sizes, t) && sizes[t] <= m < sizes[s]
    requires Low(x, m) == Low(Bits(sizes, s), m)
    ensures Low(x, sizes[t]) != Bits(sizes, t)
  {
    LowLow(x, sizes[t], m);
    LowLow(Bits(sizes, s), sizes[t], m);
    PrefixFree(sizes, s, t);
  }

  lemma OwnBits(sizes: seq<nat>, s: nat)
    requires Used(sizes, s)
    ensures StartsWith(sizes, Bits(sizes, s), s)
  {
    LowOfSmall(Bits(sizes, s), sizes[s]);
  }
}
