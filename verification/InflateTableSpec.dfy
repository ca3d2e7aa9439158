/** The two-level decode table of the inflater in miniz.c, as a value: a 1024-entry table indexed by the
    next ten bits, and a binary tree below it for longer codes. */
module InflateTableSpec {
  import opened Powers
  import opened BitFields
  import opened CanonicalCode

  const LOOKUP_BITS := 10
  const LOOKUP_SIZE := 1024
  const MAX_SYMBOLS := 288
  const TREE_SIZE := 576

  /** A proper prefix of some code: its first `depth` bits, first bit lowest. */
  datatype Prefix = Prefix(depth: nat, bits: nat)

  /** Inner nodes are numbered from 0 and stored as -1, -3, -5, ...; node k owns tree slots 2k and 2k + 1. */
  function NodeValue(k: nat): int {
    -1 - 2 * k
  }

  function ShortEntry(len: nat, sym: nat): int {
    len * 512 + sym
  }

  ghost predicate Used(sizes: seq<nat>, s: nat) {
    s < |sizes| && sizes[s] > 0
  }

  /** x starts with the code of symbol s. */
  ghost predicate StartsWith(sizes: seq<nat>, x: nat, s: nat) {
    Used(sizes, s) && Low(x, sizes[s]) == Bits(sizes, s)
  }

  /** p is a proper prefix of the code of s. */
  ghost predicate Extends(sizes: seq<nat>, p: Prefix, s: nat) {
    s < |sizes| && p.depth < sizes[s] && Low(Bits(sizes, s), p.depth) == p.bits
  }

  /** The prefix that slot b of node p leads to. */
  ghost function Child(p: Prefix, b: nat): Prefix {
    Prefix(p.depth + 1, p.bits + (if b == 1 then Pow2(p.depth) else 0))
  }

  ghost predicate ProperNode(sizes: seq<nat>, p: Prefix) {
    LOOKUP_BITS <= p.depth && p.bits < Pow2(p.depth) && exists s: nat :: Extends(sizes, p, s)
  }

  /** The nodes are distinct prefixes of codes, and parents are present. */
  ghost predicate Nodes(sizes: seq<nat>, path: seq<Prefix>) {
    && (forall k :: 0 <= k < |path| ==> ProperNode(sizes, path[k]))
    && (forall k, k' :: 0 <= k < k' < |path| ==> path[k] != path[k'])
    && (forall k :: 0 <= k < |path| ==> ParentPresent(path, k))
  }

  ghost predicate ParentPresent(path: seq<Prefix>, k: nat)
    requires k < |path|
  {
    path[k].depth > LOOKUP_BITS ==> Parent(path[k]) in path
  }

  ghost function Parent(p: Prefix): Prefix
    requires p.depth > 0
  {
    Prefix(p.depth - 1, Low(p.bits, p.depth - 1))
  }

  /** Every proper prefix of at least ten bits of the code of s has its node. */
  ghost predicate Covered(sizes: seq<nat>, path: seq<Prefix>, s: nat, upTo: nat)
    requires s < |sizes|
  {
    forall d :: LOOKUP_BITS <= d < upTo ==> Prefix(d, Low(Bits(sizes, s), d)) in path
  }

  /** Contents of the first level, once the symbols below n are entered. */
  ghost predicate LookUpEntry(sizes: seq<nat>, n: nat, lookUp: seq<int>, path: seq<Prefix>, x: nat)
    requires n <= |sizes| && x < |lookUp|
  {
    && (forall k :: 0 <= k < |path| && path[k] == Prefix(LOOKUP_BITS, x) ==> lookUp[x] == NodeValue(k))
    && (forall s: nat :: s < n && StartsWith(sizes, x, s) && sizes[s] <= LOOKUP_BITS ==> lookUp[x] == ShortEntry(sizes[s], s))
    && (lookUp[x] == 0 || Prefix(LOOKUP_BITS, x) in path
        || exists s: nat :: s < n && StartsWith(sizes, x, s) && sizes[s] <= LOOKUP_BITS)
  }

  /** Contents of slot b of node k. */
  ghost predicate TreeEntry(sizes: seq<nat>, n: nat, tree: seq<int>, path: seq<Prefix>, k: nat, b: nat)
    requires n <= |sizes| && k < |path| && b <= 1 && 2 * k + b < |tree|
  {
    var c := Child(path[k], b);
    && (forall k' :: 0 <= k' < |path| && path[k'] == c ==> tree[2 * k + b] == NodeValue(k'))
    && (forall s: nat :: s < n && IsCode(sizes, s, c) ==> tree[2 * k + b] == s)
    && (tree[2 * k + b] == 0 || c in path || exists s: nat :: s < n && IsCode(sizes, s, c))
  }

  ghost predicate IsCode(sizes: seq<nat>, s: nat, c: Prefix) {
    s < |sizes| && sizes[s] == c.depth && Bits(sizes, s) == c.bits
  }

  ghost predicate Entered(sizes: seq<nat>, n: nat, lookUp: seq<int>, tree: seq<int>, path: seq<Prefix>) {
    && n <= |sizes| && |lookUp| == LOOKUP_SIZE && 2 * |path| <= |tree|
    && Nodes(sizes, path)
    && (forall s: nat :: s < n && sizes[s] > LOOKUP_BITS ==> Covered(sizes, path, s, sizes[s]))
    && (forall x: nat :: x < LOOKUP_SIZE ==> LookUpEntry(sizes, n, lookUp, path, x))
    && (forall k: nat, b: nat :: k < |path| && b <= 1 ==> TreeEntry(sizes, n, tree, path, k, b))
    && (forall i :: 2 * |path| <= i < |tree| ==> tree[i] == 0)
  }

  /** temp refers to node k, which holds the first `depth` bits of the buffer. */
  ghost predicate AtNode(path: seq<Prefix>, k: nat, temp: int, depth: nat, bitBuf: nat) {
    k < |path| && temp == NodeValue(k) && path[k] == Prefix(depth, Low(bitBuf, depth))
  }

  ghost predicate Coded(sizes: seq<nat>, x: nat) {
    exists s: nat :: StartsWith(sizes, x, s)
  }

  /** What a look-up should give: the symbol whose code comes first, or symbol 0 if none does. */
  ghost predicate Decodes(sizes: seq<nat>, x: nat, sym: nat, len: nat) {
    len <= MAX_BITS && if Coded(sizes, x) then StartsWith(sizes, x, sym) && len == sizes[sym] else sym == 0
  }

  // ---------- Conflicts are impossible ----------

  /** No code is a prefix of another, restated for prefixes. */
  lemma NoCodeAbove(sizes: seq<nat>, p: Prefix, s: nat, t: nat)
    requires Decodable(sizes) && Extends(sizes, p, s) && Used(sizes, t) && sizes[t] <= p.depth
    ensures Low(p.bits, sizes[t]) != Bits(sizes, t)
  {
    PrefixFree(sizes, s, t);
    LowLow(Bits(sizes, s), sizes[t], p.depth);
  }

  lemma StartsWithUnique(sizes: seq<nat>, x: nat, s: nat, t: nat)
    requires Decodable(sizes) && StartsWith(sizes, x, s) && StartsWith(sizes, x, t)
    ensures s == t
  {
    if s != t {
      if sizes[t] <= sizes[s] {
        PrefixFree(sizes, s, t);
        LowLow(x, sizes[t], sizes[s]);
      } else {
        PrefixFree(sizes, t, s);
        LowLow(x, sizes[s], sizes[t]);
      }
    }
  }

  lemma ChildOfPrefix(sizes: seq<nat>, p: Prefix, s: nat)
    requires Extends(sizes, p, s) && s < |sizes|
    ensures var b := Shr(Bits(sizes, s), p.depth) % 2;
            Child(p, b) == Prefix(p.depth + 1, Low(Bits(sizes, s), p.depth + 1))
  {
    LowStep(Bits(sizes, s), p.depth);
  }

  /** A prefix is the child of one node only, through one slot. */
  lemma ParentOfChild(p: Prefix, b: nat)
    requires b <= 1 && p.bits < Pow2(p.depth)
    ensures Parent(Child(p, b)) == p && Child(p, b).bits < Pow2(p.depth + 1)
    ensures Shr(Child(p, b).bits, p.depth) == b
  {
    LowShrAppend(p.bits, p.depth, b);
  }
}
