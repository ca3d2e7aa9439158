/** Why m_tree (two slots for each of 288 symbols) is always large enough: a code that passes the
    inflater's completeness check has fewer proper prefixes than symbols. */
module InflateTableRoom {
  import opened Powers
  import opened BitFields
  import opened CanonicalCode
  import opened InflateTableSpec

  /** How many of the first k symbols have a code of length 1..len. */
  ghost function UsedTo(sizes: seq<nat>, k: nat, len: nat): nat
    requires k <= |sizes|
  {
    if k == 0 then 0 else UsedTo(sizes, k - 1, len) + (if 1 <= sizes[k - 1] <= len then 1 else 0)
  }

  ghost function UsedCodes(sizes: seq<nat>, len: nat): nat {
    UsedTo(sizes, |sizes|, len)
  }

  /** The inflater's check: the code is complete, or has at most one symbol. */
  ghost predicate Acceptable(sizes: seq<nat>) {
    ValidSizes(sizes) && (FirstCode(sizes, MAX_BITS + 1) == CODE_SPACE || UsedCodes(sizes, MAX_BITS) <= 1)
  }

  lemma {:induction false} UsedToStep(sizes: seq<nat>, k: nat, len: nat)
    requires k <= |sizes| && len > 0
    ensures UsedTo(sizes, k, len) == UsedTo(sizes, k, len - 1) + CountTo(sizes, k, len)
    ensures UsedTo(sizes, k, len) <= k
    decreases k
  {
    if k > 0 { UsedToStep(sizes, k - 1, len); }
  }

  lemma {:induction false} UsedToZero(sizes: seq<nat>, k: nat)
    requires k <= |sizes|
    ensures UsedTo(sizes, k, 0) == 0
  {
    if k > 0 { UsedToZero(sizes, k - 1); }
  }

  /** u codes take up at most u halves of the code space. */
  lemma {:induction false} FirstCodeBound(sizes: seq<nat>, len: nat)
    ensures FirstCode(sizes, len + 1) <= UsedCodes(sizes, len) * Pow2(len)
    decreases len
  {
    if len > 0 {
      FirstCodeBound(sizes, len - 1);
      UsedToStep(sizes, |sizes|, len);
      var u, c, p := UsedCodes(sizes, len - 1), Count(sizes, len), Pow2(len - 1);
      assert Pow2(len) == 2 * p;
      MulDist(u, c, 2 * p);
      MulAssoc(u, p, 2);
      MulMono(1, p, c);
      MulAssoc(c, p, 2);
    } else {
      UsedToZero(sizes, |sizes|);
    }
  }

  lemma AcceptableIsDecodable(sizes: seq<nat>)
    requires Acceptable(sizes)
    ensures Decodable(sizes)
  {
    FirstCodeBound(sizes, MAX_BITS);
    Pow2Values();
    if UsedCodes(sizes, MAX_BITS) <= 1 {
      MulMono(UsedCodes(sizes, MAX_BITS), 1, Pow2(MAX_BITS));
    }
  }

  // ---------- Complete codes ----------

  /** Prefixes of d bits from number t on. */
  ghost function PrefixesFrom(d: nat, t: nat): (a: set<Prefix>)
    ensures |a| <= if t <= Pow2(d) then Pow2(d) - t else 0
    decreases Pow2(d) - t
  {
    if t >= Pow2(d) then {} else {Prefix(d, Reversed(t, d))} + PrefixesFrom(d, t + 1)
  }

  lemma {:induction false} InPrefixesFrom(d: nat, t: nat, u: nat)
    requires t <= u < Pow2(d)
    ensures Prefix(d, Reversed(u, d)) in PrefixesFrom(d, t)
    decreases u - t
  {
    if t < u { InPrefixesFrom(d, t + 1, u); }
  }

  /** Prefixes of d bits that longer codes can have: those left free by the codes of up to d bits. */
  ghost function Free(sizes: seq<nat>, d: nat): int {
    Pow2(d) - FirstCode(sizes, d) - Count(sizes, d)
  }

  ghost function FreeAt(sizes: seq<nat>, d: nat): set<Prefix> {
    PrefixesFrom(d, FirstCode(sizes, d) + Count(sizes, d))
  }

  /** All free prefixes, by depth. */
  ghost function FreePrefixes(sizes: seq<nat>): (sets: seq<set<Prefix>>)
    ensures |sets| == MAX_BITS && forall d :: 0 <= d < MAX_BITS ==> sets[d] == FreeAt(sizes, d)
  {
    seq(MAX_BITS, d requires 0 <= d < MAX_BITS => FreeAt(sizes, d))
  }

  ghost function UnionFrom(sets: seq<set<Prefix>>, d: nat): set<Prefix>
    decreases |sets| - d
  {
    if d >= |sets| then {} else sets[d] + UnionFrom(sets, d + 1)
  }

  lemma {:induction false} InUnion(sets: seq<set<Prefix>>, d: nat, k: nat, p: Prefix)
    requires d <= k < |sets| && p in sets[k]
    ensures p in UnionFrom(sets, d)
    decreases k - d
  {
    if d < k { InUnion(sets, d + 1, k, p); }
  }

  /** Going one bit deeper doubles the free prefixes and spends one on each code. */
  lemma {:induction false} FreePrefixesBound(sizes: seq<nat>, d: nat)
    requires Decodable(sizes) && 1 <= d <= MAX_BITS
    ensures |UnionFrom(FreePrefixes(sizes), d)| + Free(sizes, d)
            <= UsedCodes(sizes, MAX_BITS) - UsedCodes(sizes, d) + Free(sizes, MAX_BITS)
    decreases MAX_BITS - d
  {
    if d < MAX_BITS {
      FreePrefixesBound(sizes, d + 1);
      UsedToStep(sizes, |sizes|, d + 1);
      FreeStep(sizes, d);
      UnionStep(FreePrefixes(sizes), d);
    }
  }

  lemma UnionStep(sets: seq<set<Prefix>>, d: nat)
    requires d < |sets|
    ensures |UnionFrom(sets, d)| <= |sets[d]| + |UnionFrom(sets, d + 1)|
  {}

  lemma FreeStep(sizes: seq<nat>, d: nat)
    requires Decodable(sizes) && 1 <= d < MAX_BITS
    ensures |FreePrefixes(sizes)[d]| <= Free(sizes, d)
    ensures Free(sizes, d + 1) == 2 * Free(sizes, d) - Count(sizes, d + 1)
  {
    CodeFits(sizes, d);
  }

  /** The top d bits of a longer code lie above all codes of up to d bits. */
  lemma TopBitsFree(sizes: seq<nat>, s: nat, d: nat)
    requires Decodable(sizes) && s < |sizes| && 1 <= d < sizes[s]
    ensures FirstCode(sizes, d) + Count(sizes, d) <= Shr(Code(sizes, s), sizes[s] - d) < Pow2(d)
  {
    var len := sizes[s];
    CodeInRange(sizes, s);
    CodeSpace(sizes, d, len);
    ShrAtLeast(Code(sizes, s), FirstCode(sizes, d) + Count(sizes, d), len - d);
    CodeBelow(sizes, s);
    ShrBelow(Code(sizes, s), len - d, d);
  }

  lemma PrefixIsFree(sizes: seq<nat>, s: nat, d: nat)
    requires Decodable(sizes) && s < |sizes| && 1 <= d < sizes[s]
    ensures Prefix(d, Low(Bits(sizes, s), d)) in FreeAt(sizes, d)
  {
    var u := Shr(Code(sizes, s), sizes[s] - d);
    TopBitsFree(sizes, s, d);
    ReversedPrefix(Code(sizes, s), sizes[s], d);
    InPrefixesFrom(d, FirstCode(sizes, d) + Count(sizes, d), u);
  }

  lemma ProperNodeIsFree(sizes: seq<nat>, p: Prefix)
    requires Decodable(sizes) && ProperNode(sizes, p)
    ensures LOOKUP_BITS <= p.depth < MAX_BITS
    ensures p in FreeAt(sizes, p.depth)
  {
    var s: nat :| Extends(sizes, p, s);
    PrefixIsFree(sizes, s, p.depth);
  }

  // ---------- A code with one symbol ----------

  ghost function PrefixesOf(x: nat, d: nat): (a: set<Prefix>)
    ensures |a| <= if d <= MAX_BITS then MAX_BITS - d else 0
    ensures forall d' :: d <= d' < MAX_BITS ==> Prefix(d', Low(x, d')) in a
    decreases MAX_BITS - d
  {
    if d >= MAX_BITS then {} else {Prefix(d, Low(x, d))} + PrefixesOf(x, d + 1)
  }

  lemma {:induction false} UsedToSplit(sizes: seq<nat>, k: nat, s: nat)
    requires s < k <= |sizes| && 1 <= sizes[s] <= MAX_BITS
    ensures UsedTo(sizes, s, MAX_BITS) + 1 <= UsedTo(sizes, k, MAX_BITS)
    decreases k
  {
    if s < k - 1 { UsedToSplit(sizes, k - 1, s); }
  }

  lemma OnlySymbol(sizes: seq<nat>, s: nat, t: nat)
    requires ValidSizes(sizes) && UsedCodes(sizes, MAX_BITS) <= 1 && Used(sizes, s) && Used(sizes, t)
    ensures s == t
  {
    if s < t {
      UsedToSplit(sizes, t, s);
      UsedToSplit(sizes, |sizes|, t);
    } else if t < s {
      UsedToSplit(sizes, s, t);
      UsedToSplit(sizes, |sizes|, s);
    }
  }

  // ---------- The bound ----------

  lemma {:induction false} DistinctWithin(path: seq<Prefix>, a: set<Prefix>)
    requires forall k, k' :: 0 <= k < k' < |path| ==> path[k] != path[k']
    requires forall k :: 0 <= k < |path| ==> path[k] in a
    ensures |path| <= |a|
  {
    if path != [] {
      var last := |path| - 1;
      DistinctWithin(path[..last], a - {path[last]});
    }
  }

  ghost predicate DistinctProper(sizes: seq<nat>, path: seq<Prefix>) {
    && (forall k :: 0 <= k < |path| ==> ProperNode(sizes, path[k]))
    && (forall k, k' :: 0 <= k < k' < |path| ==> path[k] != path[k'])
  }

  lemma NodeIsFree(sizes: seq<nat>, p: Prefix, d: nat)
    requires Decodable(sizes) && ProperNode(sizes, p) && d <= LOOKUP_BITS
    ensures p in UnionFrom(FreePrefixes(sizes), d)
  {
    ProperNodeIsFree(sizes, p);
    InUnion(FreePrefixes(sizes), d, p.depth, p);
  }

  lemma NodesAreFree(sizes: seq<nat>, path: seq<Prefix>, sets: seq<set<Prefix>>, d: nat)
    requires Decodable(sizes) && DistinctProper(sizes, path) && sets == FreePrefixes(sizes) && d <= LOOKUP_BITS
    ensures |path| <= |UnionFrom(sets, d)|
  {
    forall k | 0 <= k < |path|
      ensures path[k] in UnionFrom(sets, d)
    {
      NodeIsFree(sizes, path[k], d);
    }
    DistinctWithin(path, UnionFrom(sets, d));
  }

  lemma NodesOfCompleteCode(sizes: seq<nat>, path: seq<Prefix>, d: nat)
    requires Decodable(sizes) && FirstCode(sizes, MAX_BITS + 1) == CODE_SPACE && DistinctProper(sizes, path)
    requires 1 <= d <= LOOKUP_BITS
    ensures |path| <= UsedCodes(sizes, MAX_BITS)
  {
    NodesAreFree(sizes, path, FreePrefixes(sizes), d);
    FreePrefixesBound(sizes, d);
    NoneFreeAtTheEnd(sizes);
    CodeFits(sizes, d);
  }

  lemma NodesOfOneCode(sizes: seq<nat>, path: seq<Prefix>)
    requires ValidSizes(sizes) && UsedCodes(sizes, MAX_BITS) <= 1 && DistinctProper(sizes, path)
    ensures |path| <= MAX_BITS - LOOKUP_BITS
  {
    if path != [] {
      assert ProperNode(sizes, path[0]);
      var s: nat :| Extends(sizes, path[0], s);
      forall k | 0 <= k < |path|
        ensures path[k] in PrefixesOf(Bits(sizes, s), LOOKUP_BITS)
      {
        assert ProperNode(sizes, path[k]);
        var t: nat :| Extends(sizes, path[k], t);
        OnlySymbol(sizes, s, t);
      }
      DistinctWithin(path, PrefixesOf(Bits(sizes, s), LOOKUP_BITS));
    }
  }

  /** Main result: the nodes the builder can ever need fit the array. */
  lemma NodesFit(sizes: seq<nat>, path: seq<Prefix>)
    requires Acceptable(sizes) && |sizes| <= MAX_SYMBOLS && DistinctProper(sizes, path)
    ensures 2 * |path| <= TREE_SIZE
  {
    AcceptableIsDecodable(sizes);
    if FirstCode(sizes, MAX_BITS + 1) == CODE_SPACE {
      NodesOfCompleteCode(sizes, path, LOOKUP_BITS);
      UsedToStep(sizes, |sizes|, MAX_BITS);
    } else {
      NodesOfOneCode(sizes, path);
    }
  }

  lemma NoneFreeAtTheEnd(sizes: seq<nat>)
    requires FirstCode(sizes, MAX_BITS + 1) == CODE_SPACE
    ensures Free(sizes, MAX_BITS) == 0
  {
    Pow2Values();
  }
}
