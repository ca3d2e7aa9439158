/** The decode table of the inflater (struct tinfl_huff_table of miniz.c): how tinfl_decompress builds it
    from a list of code sizes and how TINFL_HUFF_DECODE walks it. */
module InflateTable {
  import opened Powers
  import opened BitFields
  import opened CanonicalCode
  import opened InflateTableSpec
  import opened InflateTableSteps
  import opened InflateTableRoom

  method NewZeros(n: nat) returns (a: array<nat>)
    ensures fresh(a) && a.Length == n && forall i :: 0 <= i < n ==> a[i] == 0
  {
    a := new nat[n](_ => 0);
  }

  method CountSizes(codeSize: seq<nat>) returns (totalSyms: array<nat>)
    requires ValidSizes(codeSize)
    ensures fresh(totalSyms) && totalSyms.Length == MAX_BITS + 1
    ensures forall len :: 0 <= len <= MAX_BITS ==> totalSyms[len] == Count(codeSize, len)
  {
    totalSyms := NewZeros(MAX_BITS + 1);
    var i := 0;
    while i < |codeSize|
      invariant 0 <= i <= |codeSize|
      invariant forall len :: 0 <= len <= MAX_BITS ==> totalSyms[len] == CountTo(codeSize, i, len)
    {
      totalSyms[codeSize[i]] := totalSyms[codeSize[i]] + 1;
      i := i + 1;
    }
  }

  /** The first code of length len, computed from the number of codes of each length. */
  ghost function FirstFrom(counts: seq<nat>, len: nat): nat
    requires len <= |counts|
  {
    if len <= 1 then 0 else 2 * (FirstFrom(counts, len - 1) + counts[len - 1])
  }

  ghost function UsedFrom(counts: seq<nat>, len: nat): nat
    requires len < |counts|
  {
    if len == 0 then 0 else UsedFrom(counts, len - 1) + counts[len]
  }

  lemma {:induction false} FromCounts(sizes: seq<nat>, counts: seq<nat>, len: nat)
    requires len < |counts| && forall l :: 0 <= l < |counts| ==> counts[l] == Count(sizes, l)
    ensures FirstFrom(counts, len) == FirstCode(sizes, len) && FirstFrom(counts, len + 1) == FirstCode(sizes, len + 1)
    ensures UsedFrom(counts, len) == UsedCodes(sizes, len)
    decreases len
  {
    if len == 0 {
      UsedToZero(sizes, |sizes|);
    } else {
      FromCounts(sizes, counts, len - 1);
      UsedToStep(sizes, |sizes|, len);
    }
  }

  /** The first code of every length, the running total past the longest length, and the number of codes. */
  method FirstCodes(totalSyms: array<nat>) returns (nextCode: array<int>, total: nat, usedSyms: nat)
    requires totalSyms.Length == MAX_BITS + 1
    ensures fresh(nextCode) && nextCode.Length == MAX_BITS + 2
    ensures forall len :: 0 <= len <= MAX_BITS + 1 ==> nextCode[len] == FirstFrom(totalSyms[..], len)
    ensures total == nextCode[MAX_BITS + 1] && usedSyms == UsedFrom(totalSyms[..], MAX_BITS)
  {
    nextCode := new int[MAX_BITS + 2](_ => 0);
    usedSyms, total := 0, 0;
    var i := 1;
    while i <= MAX_BITS
      invariant 1 <= i <= MAX_BITS + 1
      invariant total == nextCode[i] && usedSyms == UsedFrom(totalSyms[..], i - 1)
      invariant forall len :: 0 <= len <= i ==> nextCode[len] == FirstFrom(totalSyms[..], len)
    {
      usedSyms := usedSyms + totalSyms[i];
      total := (total + totalSyms[i]) * 2;
      nextCode[i + 1] := total;
      i := i + 1;
    }
  }

  /** Two numbers with the same low part differ by at least 2^len. */
  lemma {:induction false} SameLowApart(x: nat, y: nat, len: nat)
    requires Low(x, len) == Low(y, len) && x < y
    ensures x + Pow2(len) <= y
    decreases len
  {
    if len > 0 { SameLowApart(x / 2, y / 2, len - 1); }
  }

  lemma {:induction false} LowPlus(x: nat, len: nat)
    ensures Low(x + Pow2(len), len) == Low(x, len)
    decreases len
  {
    if len > 0 {
      LowPlus(x / 2, len - 1);
      assert (x + Pow2(len)) / 2 == x / 2 + Pow2(len - 1);
    }
  }

  /** The next number with the same low part. */
  lemma NextSameLow(x: nat, len: nat)
    ensures Low(x + Pow2(len), len) == Low(x, len)
    ensures forall y: nat :: x < y < x + Pow2(len) ==> Low(y, len) != Low(x, len)
  {
    LowPlus(x, len);
    forall y: nat | x < y < x + Pow2(len)
      ensures Low(y, len) != Low(x, len)
    {
      if Low(y, len) == Low(x, len) { SameLowApart(x, y, len); }
    }
  }

  /** A new node always finds room. */
  lemma RoomForNode(sizes: seq<nat>, path: seq<Prefix>, p: Prefix)
    requires Acceptable(sizes) && |sizes| <= MAX_SYMBOLS && Nodes(sizes, path) && p !in path && ProperNode(sizes, p)
    ensures 2 * |path| + 2 <= TREE_SIZE
  {
    NodesFit(sizes, path + [p]);
  }

  lemma AgreeBelow(x: nat, y: nat, d: nat, m: nat)
    requires d < m && Low(x, m) == Low(y, m)
    ensures Shr(x, d) % 2 == Shr(y, d) % 2
  {
    LowLow(x, d + 1, m);
    LowLow(y, d + 1, m);
    NextBitAgrees(x, y, d);
  }

  class HuffTable {
    const lookUp: array<int>
    const tree: array<int>
    var sizes: seq<nat>
    ghost var path: seq<Prefix>

    ghost predicate Shape() {
      lookUp.Length == LOOKUP_SIZE && tree.Length == TREE_SIZE && lookUp != tree
    }

    /** The symbols below n are entered. */
    ghost predicate Holds(n: nat)
      reads this, lookUp, tree
    {
      && Shape() && Decodable(sizes) && |sizes| <= MAX_SYMBOLS
      && Entered(sizes, n, lookUp[..], tree[..], path)
    }

    ghost predicate Valid()
      reads this, lookUp, tree
    {
      Holds(|sizes|)
    }

    constructor ()
      ensures Shape() && fresh(lookUp) && fresh(tree)
    {
      lookUp := new int[LOOKUP_SIZE](_ => 0);
      tree := new int[TREE_SIZE](_ => 0);
    }

    method Clear()
      requires Shape()
      modifies lookUp, tree
      ensures forall x :: 0 <= x < lookUp.Length ==> lookUp[x] == 0
      ensures forall i :: 0 <= i < tree.Length ==> tree[i] == 0
    {
      forall x | 0 <= x < lookUp.Length { lookUp[x] := 0; }
      forall i | 0 <= i < tree.Length { tree[i] := 0; }
    }

    /** A code of at most ten bits: every entry that starts with it. */
    method EnterShortCode(n: nat, revCode: nat)
      requires Holds(n) && n < |sizes| && 1 <= sizes[n] <= LOOKUP_BITS && revCode == Bits(sizes, n)
      modifies lookUp
      ensures Holds(n + 1)
    {
      var codeSize := sizes[n];
      ghost var before := lookUp[..];
      var rev := revCode;
      LowOfSmall(revCode, codeSize);
      forall x: nat | x < revCode
        ensures Low(x, codeSize) != revCode
      {
        LowOfSmall(x, codeSize);
      }
      while rev < LOOKUP_SIZE
        invariant Low(rev, codeSize) == revCode
        invariant forall x: nat :: x < LOOKUP_SIZE ==>
          lookUp[x] == if x < rev && Low(x, codeSize) == revCode then ShortEntry(codeSize, n) else before[x]
      {
        lookUp[rev] := codeSize * 512 + n;
        NextSameLow(rev, codeSize);
        rev := rev + Pow2(codeSize);
      }
      EnterShort(sizes, n, before, lookUp[..], tree[..], path);
    }

    /** The node of the first ten bits of a long code. */
    method EnsureRoot(n: nat, x: nat, treeNext: int) returns (treeCur: int, treeNext': int, ghost k: nat)
      requires Holds(n) && n < |sizes| && Acceptable(sizes) && treeNext == NodeValue(|path|)
      requires x < LOOKUP_SIZE && Extends(sizes, Prefix(LOOKUP_BITS, x), n)
      modifies `path, lookUp
      ensures Holds(n) && treeNext' == NodeValue(|path|)
      ensures k < |path| && path[k] == Prefix(LOOKUP_BITS, x) && treeCur == NodeValue(k)
      ensures old(path) <= path
    {
      treeCur, treeNext' := lookUp[x], treeNext;
      if treeCur == 0 {
        k := |path|;
        assert LookUpEntry(sizes, n, lookUp[..], path, x);
        TenBits();
        RoomForNode(sizes, path, Prefix(LOOKUP_BITS, x));
        AddRoot(sizes, n, lookUp[..], tree[..], path, x, n);
        lookUp[x] := treeNext;
        path := path + [Prefix(LOOKUP_BITS, x)];
        treeCur, treeNext' := treeNext, treeNext - 2;
      } else {
        k := RootPresent(sizes, n, lookUp[..], tree[..], path, x, n);
      }
    }

    /** The node one bit further down. */
    method EnsureChild(n: nat, slot: nat, treeNext: int, ghost k: nat, ghost b: nat) returns (treeCur: int, treeNext': int, ghost k': nat)
      requires Holds(n) && n < |sizes| && Acceptable(sizes) && treeNext == NodeValue(|path|)
      requires k < |path| && b <= 1 && slot == 2 * k + b && Extends(sizes, Child(path[k], b), n)
      modifies `path, tree
      ensures Holds(n) && treeNext' == NodeValue(|path|)
      ensures k' < |path| && path[k'] == old(Child(path[k], b)) && treeCur == NodeValue(k')
      ensures old(path) <= path
    {
      treeNext' := treeNext;
      if tree[slot] == 0 {
        k' := |path|;
        ghost var p := Child(path[k], b);
        assert TreeEntry(sizes, n, tree[..], path, k, b) && ProperNode(sizes, path[k]);
        ParentOfChild(path[k], b);
        RoomForNode(sizes, path, p);
        AddChild(sizes, n, lookUp[..], tree[..], path, k, b, n);
        tree[slot] := treeNext;
        path := path + [p];
        treeCur, treeNext' := treeNext, treeNext - 2;
      } else {
        k' := ChildPresent(sizes, n, lookUp[..], tree[..], path, k, b, n);
        treeCur := tree[slot];
      }
    }

    method SetLeaf(n: nat, slot: nat, ghost k: nat, ghost b: nat)
      requires Holds(n) && n < |sizes| && sizes[n] > LOOKUP_BITS && Covered(sizes, path, n, sizes[n])
      requires k < |path| && b <= 1 && slot == 2 * k + b && Child(path[k], b) == Prefix(sizes[n], Bits(sizes, n))
      modifies tree
      ensures Holds(n + 1)
    {
      EnterLong(sizes, n, lookUp[..], tree[..], path, k, b);
      ghost var tree0 := tree[..];
      tree[slot] := n;
      assert tree[..] == tree0[slot := n];
    }

    /** A code of more than ten bits: a path of nodes from the first level down to a leaf. */
    method EnterLongCode(n: nat, revCode: nat, treeNext: int) returns (treeNext': int)
      requires Holds(n) && n < |sizes| && Acceptable(sizes) && sizes[n] > LOOKUP_BITS
      requires revCode == Bits(sizes, n) && treeNext == NodeValue(|path|)
      modifies `path, lookUp, tree
      ensures Holds(n + 1) && treeNext' == NodeValue(|path|)
    {
      var codeSize := sizes[n];
      TenBits();
      LowShr(revCode, LOOKUP_BITS);
      var treeCur: int;
      ghost var k: nat;
      treeCur, treeNext', k := EnsureRoot(n, Low(revCode, LOOKUP_BITS), treeNext);
      var rev, j := Shr(revCode, LOOKUP_BITS - 1), codeSize;
      while j > LOOKUP_BITS + 1
        invariant LOOKUP_BITS + 1 <= j <= codeSize
        invariant Holds(n) && treeNext' == NodeValue(|path|)
        invariant var d := LOOKUP_BITS + (codeSize - j);
          && rev == Shr(revCode, d - 1) && k < |path| && treeCur == NodeValue(k)
          && path[k] == Prefix(d, Low(revCode, d)) && Covered(sizes, path, n, d + 1)
      {
        ghost var d := LOOKUP_BITS + (codeSize - j);
        LowStep(revCode, d - 1);
        rev := rev / 2;
        treeCur := treeCur - rev % 2;
        ChildOfPrefix(sizes, path[k], n);
        ghost var above := path;
        treeCur, treeNext', k := EnsureChild(n, -treeCur - 1, treeNext', k, rev % 2);
        CoveredFurther(sizes, above, path, n, d + 1, k);
        j := j - 1;
      }
      LowStep(revCode, codeSize - 2);
      rev := rev / 2;
      treeCur := treeCur - rev % 2;
      ChildOfPrefix(sizes, path[k], n);
      LowOfSmall(revCode, codeSize);
      SetLeaf(n, -treeCur - 1, k, rev % 2);
    }

    /** Enters symbol n under the code curCode, whatever its length. */
    method EnterSymbol(n: nat, curCode: nat, treeNext: int) returns (treeNext': int)
      requires Holds(n) && n < |sizes| && sizes[n] > 0 && Acceptable(sizes)
      requires curCode == Code(sizes, n) && treeNext == NodeValue(|path|)
      modifies `path, lookUp, tree
      ensures Holds(n + 1) && treeNext' == NodeValue(|path|)
    {
      var revCode := ReverseBits(curCode, sizes[n]);
      treeNext' := treeNext;
      if sizes[n] <= LOOKUP_BITS {
        EnterShortCode(n, revCode);
      } else {
        treeNext' := EnterLongCode(n, revCode, treeNext);
      }
    }

    /** Builds both levels from the code sizes; refuses a code that is neither complete nor a single symbol. */
    method Build() returns (ok: bool)
      requires Shape() && ValidSizes(sizes) && |sizes| <= MAX_SYMBOLS
      modifies `path, lookUp, tree
      ensures ok <==> Acceptable(sizes)
      ensures ok ==> Valid()
    {
      Clear();
      var totalSyms := CountSizes(sizes);
      var nextCode, total, usedSyms := FirstCodes(totalSyms);
      FromCounts(sizes, totalSyms[..], MAX_BITS);
      if total != CODE_SPACE && usedSyms > 1 { return false; }
      AcceptableIsDecodable(sizes);
      EmptyTable(sizes, lookUp[..], tree[..]);
      path := [];
      EnterAll(nextCode, totalSyms);
      return true;
    }

    method EnterAll(nextCode: array<int>, ghost totalSyms: array<nat>)
      requires Holds(0) && path == [] && Acceptable(sizes) && nextCode != lookUp && nextCode != tree
      requires nextCode.Length == MAX_BITS + 2 && totalSyms.Length == MAX_BITS + 1
      requires forall len :: 0 <= len <= MAX_BITS ==> totalSyms[len] == Count(sizes, len)
      requires forall len :: 0 <= len <= MAX_BITS + 1 ==> nextCode[len] == FirstFrom(totalSyms[..], len)
      modifies `path, lookUp, tree, nextCode
      ensures Valid()
    {
      forall len | 0 <= len <= MAX_BITS
        ensures nextCode[len] == FirstCode(sizes, len)
      {
        FromCounts(sizes, totalSyms[..], len);
      }
      var treeNext, symIndex := -1, 0;
      while symIndex < |sizes|
        invariant 0 <= symIndex <= |sizes|
        invariant Holds(symIndex) && treeNext == NodeValue(|path|)
        invariant NextCodes(sizes, symIndex, nextCode[..], MAX_BITS)
      {
        if sizes[symIndex] == 0 {
          SkipUnused(sizes, symIndex, lookUp[..], tree[..], path);
          NextCodesSkip(sizes, symIndex, nextCode[..], MAX_BITS);
        } else {
          treeNext := EnterNext(symIndex, treeNext, nextCode);
        }
        symIndex := symIndex + 1;
      }
    }

    method EnterNext(n: nat, treeNext: int, nextCode: array<int>) returns (treeNext': int)
      requires Holds(n) && n < |sizes| && sizes[n] > 0 && Acceptable(sizes) && treeNext == NodeValue(|path|)
      requires nextCode != lookUp && nextCode != tree && NextCodes(sizes, n, nextCode[..], MAX_BITS)
      modifies `path, lookUp, tree, nextCode
      ensures Holds(n + 1) && treeNext' == NodeValue(|path|)
      ensures NextCodes(sizes, n + 1, nextCode[..], MAX_BITS)
    {
      var codeSize := sizes[n];
      ghost var before := nextCode[..];
      var curCode := nextCode[codeSize];
      treeNext' := EnterSymbol(n, curCode, treeNext);
      assert nextCode[..] == before;
      nextCode[codeSize] := nextCode[codeSize] + 1;
      NextCodesStep(sizes, n, before, MAX_BITS);
      assert nextCode[..] == before[codeSize := before[codeSize] + 1];
    }

    /** Main result: whatever the bit buffer, the look-up stays within both arrays, the walk ends, and the result is the
        symbol whose code comes first and the length of that code; symbol 0 if no code does. */
    method Decode(bitBuf: nat) returns (sym: nat, codeLen: nat)
      requires Valid()
      ensures Decodes(sizes, bitBuf, sym, codeLen)
    {
      ghost var k := FirstEntry(sizes, lookUp[..], tree[..], path, bitBuf);
      var temp := lookUp[Low(bitBuf, LOOKUP_BITS)];
      if temp >= 0 {
        codeLen, sym := temp / 512, temp % 512;
      } else {
        sym, codeLen := WalkTree(bitBuf, temp, k);
      }
    }

    /** Where a walk along the bits of x is after depth bits. */
    ghost predicate Walked(x: nat, temp: int, depth: nat, k: nat)
      reads this
    {
      LOOKUP_BITS <= depth && if temp < 0 then AtNode(path, k, temp, depth, x) else Decodes(sizes, x, temp, depth)
    }

    /** From the node of the first ten bits down to the leaf. */
    method WalkTree(bitBuf: nat, root: int, ghost rootNode: nat) returns (sym: nat, codeLen: nat)
      requires Valid() && AtNode(path, rootNode, root, LOOKUP_BITS, bitBuf)
      ensures Decodes(sizes, bitBuf, sym, codeLen)
    {
      var temp := root;
      codeLen := LOOKUP_BITS;
      ghost var k := rootNode;
      while temp < 0
        invariant codeLen <= MAX_BITS && Walked(bitBuf, temp, codeLen, k)
        decreases MAX_BITS - codeLen
      {
        temp, k := StepDown(bitBuf, bitBuf, temp, codeLen, k);
        codeLen := codeLen + 1;
      }
      sym := temp;
    }

    method StepDown(bitBuf: nat, ghost x: nat, temp: int, codeLen: nat, ghost k: nat) returns (temp': int, ghost k': nat)
      requires Valid() && temp < 0 && Walked(x, temp, codeLen, k) && Shr(bitBuf, codeLen) % 2 == Shr(x, codeLen) % 2
      ensures codeLen < MAX_BITS && Walked(x, temp', codeLen + 1, k')
    {
      NextPrefix(x, codeLen);
      k' := NextEntry(sizes, lookUp[..], tree[..], path, x, k, Shr(x, codeLen) % 2, codeLen);
      temp' := tree[-temp - 1 + Shr(bitBuf, codeLen) % 2];
    }

    /** One try of TINFL_HUFF_BITBUF_FILL: is the whole code of the next symbol among the numBits bits at hand? */
    method Ready(bitBuf: nat, numBits: nat, ghost s: nat) returns (ready: bool)
      requires Valid() && Used(sizes, s)
      requires var m := if numBits < sizes[s] then numBits else sizes[s]; Low(bitBuf, m) == Low(Bits(sizes, s), m)
      ensures ready <==> numBits >= sizes[s]
    {
      TenBits();
      LowShr(bitBuf, LOOKUP_BITS);
      var temp := lookUp[Low(bitBuf, LOOKUP_BITS)];
      OwnBits(sizes, s);
      if temp >= 0 {
        ready := temp / 512 != 0 && numBits >= temp / 512;
        ReadyShort(bitBuf, numBits, s);
      } else {
        ready := false;
        ghost var k := ReadyLong(bitBuf, numBits, s);
        if numBits > LOOKUP_BITS {
          ready := ReadyWalk(bitBuf, numBits, temp, s, k);
        }
      }
    }

    lemma ReadyShort(bitBuf: nat, numBits: nat, s: nat)
      requires Valid() && Used(sizes, s)
      requires var m := if numBits < sizes[s] then numBits else sizes[s]; Low(bitBuf, m) == Low(Bits(sizes, s), m)
      requires Low(bitBuf, LOOKUP_BITS) < LOOKUP_SIZE && lookUp[Low(bitBuf, LOOKUP_BITS)] >= 0
      ensures var len := lookUp[Low(bitBuf, LOOKUP_BITS)] / 512; len != 0 && numBits >= len <==> numBits >= sizes[s]
    {
      if numBits >= sizes[s] {
        OwnBits(sizes, s);
        var k := FirstLevel(sizes, lookUp[..], tree[..], path, bitBuf, s);
        SplitEntry(sizes[s], s);
      } else if lookUp[Low(bitBuf, LOOKUP_BITS)] >= 512 {
        ShortIsReady(sizes, lookUp[..], tree[..], path, bitBuf, numBits, s);
      }
    }

    lemma ReadyLong(bitBuf: nat, numBits: nat, s: nat) returns (k: nat)
      requires Valid() && Used(sizes, s)
      requires var m := if numBits < sizes[s] then numBits else sizes[s]; Low(bitBuf, m) == Low(Bits(sizes, s), m)
      requires Low(bitBuf, LOOKUP_BITS) < LOOKUP_SIZE && lookUp[Low(bitBuf, LOOKUP_BITS)] < 0
      ensures numBits <= LOOKUP_BITS ==> numBits < sizes[s]
      ensures numBits > LOOKUP_BITS ==> sizes[s] > LOOKUP_BITS
      ensures numBits > LOOKUP_BITS ==> AtNode(path, k, lookUp[Low(bitBuf, LOOKUP_BITS)], LOOKUP_BITS, Bits(sizes, s))
    {
      k := 0;
      OwnBits(sizes, s);
      if numBits >= sizes[s] && sizes[s] <= LOOKUP_BITS {
        var k0 := FirstLevel(sizes, lookUp[..], tree[..], path, bitBuf, s);
      } else if numBits > LOOKUP_BITS {
        var m := if numBits < sizes[s] then numBits else sizes[s];
        LowLow(bitBuf, LOOKUP_BITS, m);
        LowLow(Bits(sizes, s), LOOKUP_BITS, m);
        k := FirstLevel(sizes, lookUp[..], tree[..], path, Bits(sizes, s), s);
      }
    }

    method ReadyWalk(bitBuf: nat, numBits: nat, root: int, ghost s: nat, ghost rootNode: nat) returns (ready: bool)
      requires Valid() && Used(sizes, s) && StartsWith(sizes, Bits(sizes, s), s)
      requires var m := if numBits < sizes[s] then numBits else sizes[s]; Low(bitBuf, m) == Low(Bits(sizes, s), m)
      requires numBits > LOOKUP_BITS && sizes[s] > LOOKUP_BITS && AtNode(path, rootNode, root, LOOKUP_BITS, Bits(sizes, s))
      ensures ready <==> numBits >= sizes[s]
    {
      var temp, codeLen := root, LOOKUP_BITS;
      ghost var k := rootNode;
      ghost var own := Bits(sizes, s);
      while temp < 0 && numBits >= codeLen + 1
        invariant codeLen <= numBits && Walked(own, temp, codeLen, k)
        invariant if temp < 0 then codeLen < sizes[s] else codeLen == sizes[s]
        decreases sizes[s] - codeLen
      {
        ghost var m := if numBits < sizes[s] then numBits else sizes[s];
        AgreeBelow(bitBuf, own, codeLen, m);
        temp, k := StepDown(bitBuf, own, temp, codeLen, k);
        codeLen := codeLen + 1;
        OwnWalk(own, temp, codeLen, k, s);
      }
      ready := temp >= 0;
    }

    /** A walk along the code of s reaches a leaf just when it ends. */
    lemma OwnWalk(own: nat, temp: int, depth: nat, k: nat, s: nat)
      requires Valid() && Walked(own, temp, depth, k) && StartsWith(sizes, own, s)
      ensures if temp < 0 then depth < sizes[s] else depth == sizes[s]
    {
      if temp < 0 {
        LongerThanNode(sizes, path, k, own, depth, s);
      } else {
        StartsWithUnique(sizes, own, s, temp);
      }
    }
  }
}
