/** The hash chains of the compressor (miniz.c) as values: which positions they link, and what following them finds. */
module HashChain {
  import opened Powers
  import opened BitFields
  import opened Lz

  const HASH_SIZE := 0x8000

  // ---------- The hash of three bytes ----------

  function HashStep(hash: nat, c: nat): (h: nat)
    ensures h < HASH_SIZE
  {
    Pow2Values();
    Xor(32 * hash, c, 15)
  }

  /** The bytes from p on, five bits further each: 15 bits in all. */
  function HashAt(seen: seq<nat>, p: nat): (h: nat)
    requires p + 2 < |seen|
    ensures h < HASH_SIZE
  {
    HashStep(HashStep(seen[p], seen[p + 1]), seen[p + 2])
  }

  lemma {:induction false} LowOfXor(a: nat, b: nat, m: nat, n: nat)
    requires n <= m
    ensures Xor(Xor(a, b, m), 0, n) == Xor(a, b, n)
    decreases n
  {
    if n > 0 { LowOfXor(a / 2, b / 2, m - 1, n - 1); }
  }

  /** Only the n low bits of a matter. */
  lemma {:induction false} XorOfLow(a: nat, a': nat, b: nat, n: nat)
    requires Xor(a, 0, n) == Xor(a', 0, n)
    ensures Xor(a, b, n) == Xor(a', b, n)
    decreases n
  {
    if n > 0 {
      XorStep(a, 0, n, Xor(a / 2, 0, n - 1));
      XorStep(a', 0, n, Xor(a' / 2, 0, n - 1));
      XorOfLow(a / 2, a' / 2, b / 2, n - 1);
    }
  }

  lemma {:induction false} XorCommutes(a: nat, b: nat, n: nat)
    ensures Xor(a, b, n) == Xor(b, a, n)
    decreases n
  {
    if n > 0 {
      XorCommutes(a / 2, b / 2, n - 1);
      XorStep(a, b, n, Xor(a / 2, b / 2, n - 1));
      XorStep(b, a, n, Xor(a / 2, b / 2, n - 1));
    }
  }

  ghost predicate SameLow(a: nat, b: nat, n: nat) {
    Xor(a, 0, n) == Xor(b, 0, n)
  }

  lemma Doubled(a: nat, b: nat, n: nat)
    requires SameLow(a, b, n)
    ensures SameLow(2 * a, 2 * b, n + 1)
  {
    XorStep(2 * a, 0, n + 1, Xor(a, 0, n));
    XorStep(2 * b, 0, n + 1, Xor(b, 0, n));
  }

  lemma Shifted5(a: nat, b: nat, n: nat)
    requires SameLow(a, b, n)
    ensures SameLow(32 * a, 32 * b, n + 5)
  {
    Doubled(a, b, n);
    Doubled(2 * a, 2 * b, n + 1);
    Doubled(4 * a, 4 * b, n + 2);
    Doubled(8 * a, 8 * b, n + 3);
    Doubled(16 * a, 16 * b, n + 4);
  }

  lemma Zeros5(a: nat)
    ensures SameLow(32 * a, 0, 5)
  {
    var zero: nat := 0;
    assert SameLow(a, 0, zero);
    Shifted5(a, 0, zero);
  }

  /** A hash step forgets all but ten bits. */
  lemma StepForgets(h: nat, h': nat, c: nat)
    requires SameLow(h, h', 10)
    ensures HashStep(h, c) == HashStep(h', c)
  {
    Shifted5(h, h', 10);
    XorOfLow(32 * h, 32 * h', c, 15);
  }

  lemma Forgotten(a: nat, b: nat, c: nat)
    ensures SameLow(HashStep(HashStep(a, b), c), HashStep(b, c), 10)
  {
    var x := HashStep(a, b);
    LowOfXor(32 * a, b, 15, 5);
    Zeros5(a);
    XorOfLow(32 * a, 0, b, 5);
    XorCommutes(0, b, 5);
    assert SameLow(x, b, 5);
    Shifted5(x, b, 5);
    XorOfLow(32 * x, 32 * b, c, 10);
    LowOfXor(32 * x, c, 15, 10);
    LowOfXor(32 * b, c, 15, 10);
  }

  /** h is as good as the hash of the two bytes from n on. */
  ghost predicate Rolling(h: nat, seen: seq<nat>, n: nat) {
    n + 2 <= |seen| && SameLow(h, HashStep(seen[n], seen[n + 1]), 10)
  }

  /** One byte more gives the hash of three, and that goes over into the next: after three steps a byte is forgotten. */
  lemma Roll(h: nat, seen: seq<nat>, n: nat, c: nat)
    requires Rolling(h, seen, n) && n + 2 == |seen|
    ensures HashStep(h, c) == HashAt(seen + [c], n) && Rolling(HashStep(h, c), seen + [c], n + 1)
  {
    StepForgets(h, HashStep(seen[n], seen[n + 1]), c);
    Forgotten(seen[n], seen[n + 1], c);
  }

  // ---------- The chains ----------

  /** The low 16 bits of the last position from base up to n with hash h; 0 if there is none. */
  ghost function LastEntry(seen: seq<nat>, base: nat, h: nat, n: nat): (e: nat)
    requires n <= base || n + 2 <= |seen|
    ensures e < 0x1_0000
    decreases n
  {
    if n <= base then 0 else if HashAt(seen, n - 1) == h then (n - 1) % 0x1_0000 else LastEntry(seen, base, h, n - 1)
  }

  lemma {:induction false} LastEntryMore(seen: seq<nat>, seen': seq<nat>, base: nat, h: nat, n: nat)
    requires (n <= base || n + 2 <= |seen|) && seen <= seen'
    ensures LastEntry(seen', base, h, n) == LastEntry(seen, base, h, n)
    decreases n
  {
    if n > base {
      LastEntryMore(seen, seen', base, h, n - 1);
      assert seen == seen'[..|seen|];
    }
  }

  ghost predicate HeadOk(hash: seq<nat>, seen: seq<nat>, base: nat, n: nat, h: nat)
    requires h < |hash| && (n <= base || n + 2 <= |seen|)
  {
    hash[h] == LastEntry(seen, base, h, n)
  }

  ghost predicate LinkOk(next: seq<nat>, seen: seq<nat>, base: nat, p: nat)
    requires |next| == DICT_SIZE && p + 2 < |seen|
  {
    next[p % DICT_SIZE] == LastEntry(seen, base, HashAt(seen, p), p)
  }

  /** The positions from base up to n are linked: each hash has the last position with it, and each of the last 32768
      positions has the one before it with the same hash. */
  ghost predicate Linked(next: seq<nat>, hash: seq<nat>, seen: seq<nat>, base: nat, n: nat) {
    && |next| == DICT_SIZE && |hash| == HASH_SIZE && base <= n && (n <= base || n + 2 <= |seen|)
    && (forall h {:trigger HeadOk(hash, seen, base, n, h)} :: 0 <= h < HASH_SIZE ==> HeadOk(hash, seen, base, n, h))
    && (forall p {:trigger LinkOk(next, seen, base, p)} :: base <= p < n <= p + DICT_SIZE ==> LinkOk(next, seen, base, p))
  }

  lemma LinkedMore(next: seq<nat>, hash: seq<nat>, seen: seq<nat>, seen': seq<nat>, base: nat, n: nat)
    requires Linked(next, hash, seen, base, n) && seen <= seen'
    ensures Linked(next, hash, seen', base, n)
  {
    forall h | 0 <= h < HASH_SIZE
      ensures HeadOk(hash, seen', base, n, h)
    {
      assert HeadOk(hash, seen, base, n, h);
      LastEntryMore(seen, seen', base, h, n);
    }
    forall p | base <= p < n <= p + DICT_SIZE
      ensures LinkOk(next, seen', base, p)
    {
      assert LinkOk(next, seen, base, p);
      assert seen == seen'[..|seen|];
      LastEntryMore(seen, seen', base, HashAt(seen, p), p);
    }
  }

  lemma PlacesApart(p: nat, n: nat)
    requires p < n < p + DICT_SIZE
    ensures p % DICT_SIZE != n % DICT_SIZE
  {}

  /** One more position at the head of its chain. */
  lemma LinkOne(next: seq<nat>, hash: seq<nat>, seen: seq<nat>, base: nat, n: nat, h: nat, next': seq<nat>, hash': seq<nat>)
    requires Linked(next, hash, seen, base, n) && n + 2 < |seen| && h == HashAt(seen, n)
    requires next' == next[n % DICT_SIZE := hash[h]] && hash' == hash[h := n % 0x1_0000]
    ensures Linked(next', hash', seen, base, n + 1)
  {
    var m := n + 1;
    forall g | 0 <= g < HASH_SIZE
      ensures HeadOk(hash', seen, base, m, g)
    {
      assert HeadOk(hash, seen, base, n, g);
    }
    assert HeadOk(hash, seen, base, n, h);
    forall p | base <= p < n + 1 <= p + DICT_SIZE
      ensures LinkOk(next', seen, base, p)
    {
      if p < n {
        assert LinkOk(next, seen, base, p);
        PlacesApart(p, n);
      }
    }
  }

  lemma NothingLinked(next: seq<nat>, hash: seq<nat>, seen: seq<nat>, base: nat)
    requires |next| == DICT_SIZE && |hash| == HASH_SIZE && forall h :: 0 <= h < HASH_SIZE ==> hash[h] == 0
    ensures Linked(next, hash, seen, base, base)
  {
    forall h | 0 <= h < HASH_SIZE ensures HeadOk(hash, seen, base, base, h) {}
  }

  // ---------- Following a chain ----------

  /** How many bytes at pos repeat those dist before, up to most. */
  ghost function Common(seen: seq<nat>, pos: nat, dist: nat, most: nat): (k: nat)
    requires 1 <= dist <= pos && pos + most <= |seen|
    ensures k <= most
  {
    CommonFrom(seen, pos, dist, most, 0)
  }

  ghost function CommonFrom(seen: seq<nat>, pos: nat, dist: nat, most: nat, k: nat): (n: nat)
    requires 1 <= dist <= pos && pos + most <= |seen| && k <= most
    ensures k <= n <= most
    decreases most - k, k
  {
    if k == most || seen[pos + k] != seen[pos + k - dist] then k else CommonFrom(seen, pos, dist, most, k + 1)
  }

  lemma {:induction false} CommonFromAt(seen: seq<nat>, pos: nat, dist: nat, most: nat, from: nat, k: nat)
    requires 1 <= dist <= pos && pos + most <= |seen| && from <= k <= most
    requires forall p :: pos + from <= p < pos + k ==> Repeats(seen, p, dist)
    requires k == most || seen[pos + k] != seen[pos + k - dist]
    ensures CommonFrom(seen, pos, dist, most, from) == k
    decreases k - from
  {
    if from < k {
      assert Repeats(seen, pos + from, dist);
      CommonFromAt(seen, pos, dist, most, from + 1, k);
    }
  }

  /** A match of k bytes that goes no further. */
  lemma CommonAt(seen: seq<nat>, pos: nat, dist: nat, most: nat, k: nat)
    requires pos + most <= |seen| && k <= most && IsMatch(seen, pos, k, dist)
    requires k == most || seen[pos + k] != seen[pos + k - dist]
    ensures Common(seen, pos, dist, most) == k
  {
    var zero: nat := 0;
    CommonFromAt(seen, pos, dist, most, zero, k);
  }

  lemma {:induction false} CommonRepeats(seen: seq<nat>, pos: nat, dist: nat, most: nat, from: nat)
    requires 1 <= dist <= pos && pos + most <= |seen| && from <= most
    ensures var n := CommonFrom(seen, pos, dist, most, from);
            (forall p :: pos + from <= p < pos + n ==> Repeats(seen, p, dist)) && (n < most ==> !Repeats(seen, pos + n, dist))
    decreases most - from
  {
    if from < most && seen[pos + from] == seen[pos + from - dist] { CommonRepeats(seen, pos, dist, most, from + 1); }
  }

  /** It is the greatest length of a match there. */
  lemma CommonIsGreatest(seen: seq<nat>, pos: nat, dist: nat, most: nat, k: nat)
    requires 1 <= dist <= pos && pos + most <= |seen| && k <= most
    ensures IsMatch(seen, pos, k, dist) <==> k <= Common(seen, pos, dist, most)
  {
    CommonRepeats(seen, pos, dist, most, 0);
    var n := Common(seen, pos, dist, most);
    if k > n { assert !Repeats(seen, pos + n, dist); }
  }

  /** What a search goes by: the links of the chains, the bytes, where it starts, how far back it may go, and how many bytes a
      match may have. */
  datatype View = View(next: seq<nat>, seen: seq<nat>, pos: nat, size: nat, most: nat) {
    ghost predicate Valid() {
      |next| == DICT_SIZE && size <= pos && pos + most <= |seen|
    }
  }

  /** The match in hand when the search starts, and how many probes are allowed. */
  datatype Query = Query(dist: nat, len: nat, probes: nat)

  /** Where the j-th candidate of the chain lies in the ring. */
  ghost function Place(v: View, j: nat): (r: nat)
    requires v.Valid()
    ensures r < DICT_SIZE
    decreases j, v
  {
    if j == 0 then v.pos % DICT_SIZE else v.next[Place(v, j - 1)] % DICT_SIZE
  }

  ghost function Entry(v: View, j: nat): nat
    requires v.Valid() && j >= 1
  {
    v.next[Place(v, j - 1)]
  }

  /** And how far back. */
  ghost function DistAt(v: View, j: nat): (dist: nat)
    requires v.Valid() && j >= 1
  {
    (v.pos - Entry(v, j)) % 0x1_0000
  }

  /** The chain has j candidates, each of them within the dictionary. */
  ghost predicate Chain(v: View, j: nat)
    decreases j, v
  {
    v.Valid() && (j == 0 || (Chain(v, j - 1) && Entry(v, j) != 0 && 1 <= DistAt(v, j) <= v.size))
  }

  lemma {:induction false} ChainTo(v: View, i: nat, j: nat)
    requires Chain(v, j) && i <= j
    ensures Chain(v, i)
    decreases j
  {
    if i < j { ChainTo(v, i, j - 1); }
  }

  /** The length of the j-th candidate. */
  ghost function Reach(v: View, j: nat): nat
    requires Chain(v, j) && j >= 1
  {
    Common(v.seen, v.pos, DistAt(v, j), v.most)
  }

  /** None of the first j candidates reaches further than len. */
  ghost predicate NoneLonger(v: View, j: nat, len: nat) {
    Chain(v, j) && forall i {:trigger Chain(v, i)} :: 1 <= i <= j && Chain(v, i) ==> Reach(v, i) <= len
  }

  /** Dist and len are those of the first candidate, of the first j, that reaches so far. */
  ghost predicate Nearest(v: View, j: nat, dist: nat, len: nat) {
    Chain(v, j)
    && (exists i {:trigger Chain(v, i)} ::
          1 <= i <= j && Chain(v, i) && DistAt(v, i) == dist && Reach(v, i) == len > 0 && NoneLonger(v, i - 1, len - 1))
  }

  lemma {:induction false} LastEntryIs(seen: seq<nat>, base: nat, h: nat, n: nat, q: nat)
    requires base <= q < n && n + 2 <= |seen| && HashAt(seen, q) == h && forall r :: q < r < n ==> HashAt(seen, r) != h
    ensures LastEntry(seen, base, h, n) == q % 0x1_0000
    decreases n
  {
    if q < n - 1 { LastEntryIs(seen, base, h, n - 1, q); }
  }

  lemma DistanceBack(pos: nat, r: nat)
    requires r < pos <= r + DICT_SIZE
    ensures (pos - r % 0x1_0000) % 0x1_0000 == pos - r && r % 0x1_0000 % DICT_SIZE == r % DICT_SIZE
  {}

  /** The chain goes from a position to the last one before it with the same hash, when that is within the dictionary. An
      exception is a position that is a multiple of 65536: its entry is 0, which ends the chain. */
  lemma ChainStep(v: View, hash: seq<nat>, base: nat, n: nat, j: nat, q: nat, r: nat)
    requires Linked(v.next, hash, v.seen, base, n) && base <= r < q <= v.pos && q < n <= q + DICT_SIZE
    requires Chain(v, j) && Place(v, j) == q % DICT_SIZE
    requires HashAt(v.seen, r) == HashAt(v.seen, q) && forall i :: r < i < q ==> HashAt(v.seen, i) != HashAt(v.seen, q)
    requires r % 0x1_0000 != 0 && v.pos <= r + v.size && v.size <= DICT_SIZE
    ensures Chain(v, j + 1) && DistAt(v, j + 1) == v.pos - r && Place(v, j + 1) == r % DICT_SIZE
  {
    EntryOfLink(v.next, hash, v.seen, base, n, q, r);
    EntryExtends(v, j, j + 1, r % 0x1_0000, r);
  }

  lemma EntryOfLink(next: seq<nat>, hash: seq<nat>, seen: seq<nat>, base: nat, n: nat, q: nat, r: nat)
    requires Linked(next, hash, seen, base, n) && base <= r < q < n <= q + DICT_SIZE
    requires HashAt(seen, r) == HashAt(seen, q) && forall i :: r < i < q ==> HashAt(seen, i) != HashAt(seen, q)
    ensures next[q % DICT_SIZE] == r % 0x1_0000
  {
    assert LinkOk(next, seen, base, q);
    LastEntryIs(seen, base, HashAt(seen, q), q, r);
  }

  lemma EntryExtends(v: View, j: nat, k: nat, e: nat, r: nat)
    requires Chain(v, j) && k == j + 1 && v.next[Place(v, j)] == e == r % 0x1_0000 != 0
    requires r < v.pos <= r + v.size && v.size <= DICT_SIZE
    ensures Chain(v, k) && DistAt(v, k) == v.pos - r && Place(v, k) == r % DICT_SIZE
  {
    DistanceBack(v.pos, r);
  }

  // ---------- How many candidates are visited ----------

  /** The greatest length among the match in hand and the first j candidates. */
  ghost function Longest(v: View, len0: nat, j: nat): (len: nat)
    requires Chain(v, j)
    ensures len >= len0
    decreases j, v
  {
    if j == 0 then len0 else
      var len := Longest(v, len0, j - 1);
      if Reach(v, j) > len then Reach(v, j) else len
  }

  /** The bytes on both sides of the end of a match of len bytes agree. */
  ghost predicate EndsAgree(v: View, dist: nat, len: nat) {
    v.Valid() && 1 <= dist <= v.pos && 1 <= len < v.most
    && v.seen[v.pos + len] == v.seen[v.pos + len - dist] && v.seen[v.pos + len - 1] == v.seen[v.pos + len - 1 - dist]
  }

  /** The next multiple of three. */
  function RoundEnd(s: nat): nat {
    s + 3 - s % 3
  }

  /** Three candidates to a probe; but one that passes the test, and so is compared in full, is the last of its probe. */
  ghost function Slots(v: View, len0: nat, j: nat): nat
    requires Chain(v, j)
    decreases j, v
  {
    if j == 0 then 0 else
      var s := Slots(v, len0, j - 1);
      if EndsAgree(v, DistAt(v, j), Longest(v, len0, j - 1)) then RoundEnd(s) else s + 1
  }

  /** After j candidates nothing could be longer, or the probes are used up, or the chain ends. */
  ghost predicate Stops(v: View, q: Query, j: nat)
    requires Chain(v, j)
  {
    Longest(v, q.len, j) >= v.most || Slots(v, q.len, j) >= 3 * (q.probes - 1) || !Chain(v, j + 1)
  }

  /** The search has come to its j-th candidate: nothing stopped it before, and so long and so many slots it has now. */
  ghost predicate Visited(v: View, q: Query, j: nat, len: nat, s: nat) {
    Chain(v, j) && Longest(v, q.len, j) == len && Slots(v, q.len, j) == s && NoneLonger(v, j, len)
    && (j > 0 ==> Chain(v, j - 1) && !Stops(v, q, j - 1))
  }

  lemma VisitedNone(v: View, q: Query)
    requires v.Valid()
    ensures Visited(v, q, 0, q.len, 0)
  {}

  /** A candidate that fails the test is no longer. */
  lemma VisitedMiss(v: View, q: Query, j: nat, len: nat, s: nat)
    requires Visited(v, q, j, len, s) && Chain(v, j + 1) && len < v.most && s < 3 * (q.probes - 1)
    requires Reach(v, j + 1) <= len && !EndsAgree(v, DistAt(v, j + 1), len)
    ensures Visited(v, q, j + 1, len, s + 1)
  {}

  lemma VisitedHit(v: View, q: Query, j: nat, len: nat, s: nat)
    requires Visited(v, q, j, len, s) && Chain(v, j + 1) && len < v.most && s < 3 * (q.probes - 1)
    requires EndsAgree(v, DistAt(v, j + 1), len)
    ensures var k := Reach(v, j + 1);
            Visited(v, q, j + 1, if k > len then k else len, RoundEnd(s))
  {}

  lemma NoneLongerThan(v: View, j: nat, len: nat, len': nat)
    requires NoneLonger(v, j, len) && len <= len'
    ensures NoneLonger(v, j, len')
  {}

  lemma NearestMore(v: View, j: nat, k: nat, dist: nat, len: nat)
    requires Nearest(v, j, dist, len) && j <= k && Chain(v, k)
    ensures Nearest(v, k, dist, len)
  {}

  lemma NearestNow(v: View, j: nat, dist: nat, len: nat, len0: nat)
    requires Chain(v, j + 1) && dist == DistAt(v, j + 1) && NoneLonger(v, j, len0) && len == Reach(v, j + 1) > len0
    ensures Nearest(v, j + 1, dist, len)
  {
    NoneLongerThan(v, j, len0, len - 1);
  }

  /**
   * What a search along the chain finds: it visits candidates until it is stopped and no further, and comes back with the
   * nearest of those that reach furthest, if it is longer than what was in hand.
   */
  ghost predicate FoundOnChain(v: View, q: Query, visited: nat, dist: nat, len: nat) {
    && (exists s: nat :: Visited(v, q, visited, len, s)) && Stops(v, q, visited)
    && ((dist == q.dist && len == q.len) || (q.len < len <= v.most && Nearest(v, visited, dist, len)))
  }

  // ---------- What that means ----------

  /** What stops a search stops it further on as well. */
  lemma {:induction false} StoppedBefore(v: View, q: Query, i: nat, j: nat)
    requires Chain(v, j) && i <= j && Chain(v, i) && Stops(v, q, i)
    ensures Stops(v, q, j)
    decreases j
  {
    if i < j { StoppedBefore(v, q, i, j - 1); }
  }

  lemma NotPast(v: View, q: Query, i: nat, j: nat, len: nat, s: nat)
    requires Chain(v, i) && Stops(v, q, i) && Visited(v, q, j, len, s)
    ensures j <= i
  {
    if i < j { StoppedBefore(v, q, i, j - 1); }
  }

  lemma NearestOnce(v: View, j: nat, len: nat, dist: nat, dist': nat)
    requires Nearest(v, j, dist, len) && Nearest(v, j, dist', len)
    ensures dist == dist'
  {}

  /** How far a chain was followed, and what was found, is determined. */
  lemma FoundOnce(v: View, q: Query, visited: nat, dist: nat, len: nat, visited': nat, dist': nat, len': nat)
    requires FoundOnChain(v, q, visited, dist, len) && FoundOnChain(v, q, visited', dist', len')
    ensures visited == visited' && len == len' && (len > q.len ==> dist == dist')
  {
    var s: nat :| Visited(v, q, visited, len, s);
    var s': nat :| Visited(v, q, visited', len', s');
    NotPast(v, q, visited, visited', len', s');
    NotPast(v, q, visited', visited, len, s);
    if len > q.len { NearestOnce(v, visited, len, dist, dist'); }
  }

  lemma {:induction false} SlotsBetween(v: View, len0: nat, j: nat)
    requires Chain(v, j)
    ensures j <= Slots(v, len0, j) <= 3 * j
    decreases j
  {
    if j > 0 { SlotsBetween(v, len0, j - 1); }
  }

  /** None of the first j candidates passes the test. */
  ghost predicate AllMiss(v: View, len0: nat, j: nat) {
    Chain(v, j)
    && forall i {:trigger Chain(v, i)} :: 0 <= i < j && Chain(v, i) ==> !EndsAgree(v, DistAt(v, i + 1), Longest(v, len0, i))
  }

  lemma {:induction false} SlotsOfMisses(v: View, len0: nat, j: nat)
    requires AllMiss(v, len0, j)
    ensures Slots(v, len0, j) == j
    decreases j
  {
    if j > 0 { SlotsOfMisses(v, len0, j - 1); }
  }

  /** No more than three candidates to each probe but the last, and, where neither the chain nor the lookahead ends the
      search, no less than one; three, if none passes the test. */
  lemma ProbesVisit(v: View, q: Query, visited: nat, dist: nat, len: nat)
    requires FoundOnChain(v, q, visited, dist, len) && q.probes >= 1
    ensures visited <= 3 * (q.probes - 1)
    ensures len < v.most && Chain(v, visited + 1) ==> visited >= q.probes - 1
    ensures len < v.most && Chain(v, visited + 1) && AllMiss(v, q.len, visited) ==> visited == 3 * (q.probes - 1)
  {
    SlotsBetween(v, q.len, visited);
    if visited > 0 { SlotsBetween(v, q.len, visited - 1); }
    if AllMiss(v, q.len, visited) { SlotsOfMisses(v, q.len, visited); }
  }

  /** If the first candidate lies within the dictionary and two probes are allowed, the match is at least as long. */
  lemma FirstIsTried(v: View, q: Query, visited: nat, dist: nat, len: nat, k: nat)
    requires FoundOnChain(v, q, visited, dist, len) && q.probes >= 2
    requires v.next[v.pos % DICT_SIZE] != 0 && 1 <= (v.pos - v.next[v.pos % DICT_SIZE]) % 0x1_0000 <= v.size
    requires IsMatch(v.seen, v.pos, k, (v.pos - v.next[v.pos % DICT_SIZE]) % 0x1_0000) && k <= v.most
    ensures len >= k
  {
    var one: nat := 1;
    assert Chain(v, one - 1);
    assert Place(v, one - 1) == v.pos % DICT_SIZE;
    assert Chain(v, one);
    if len < v.most {
      CommonIsGreatest(v.seen, v.pos, DistAt(v, one), v.most, k);
    }
  }
}
