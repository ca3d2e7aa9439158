/** The compressor's sliding dictionary (miniz.c): a 32 KB ring whose first 257 bytes are repeated behind it, so that
    any stretch of up to 258 bytes can be read without wrapping around. */
module RingDict {
  import opened BitFields
  import opened Lz
  import opened HashChain

  const DICT_BYTES := 33025 // 32768 + 258 - 1
  const MIRROR := 257

  // ---------- The ring as a value ----------

  /** Byte p of the stream is where it should be. */
  ghost predicate Holds(dict: seq<nat>, seen: seq<nat>, p: nat)
    requires |dict| == DICT_BYTES && p < |seen|
  {
    var i := p % DICT_SIZE;
    dict[i] == seen[p] && (i < MIRROR ==> dict[DICT_SIZE + i] == seen[p])
  }

  /** The stream bytes from lo on, up to the last one seen, are in the ring. */
  ghost predicate Window(dict: seq<nat>, seen: seq<nat>, lo: nat) {
    |dict| == DICT_BYTES && forall p {:trigger Holds(dict, seen, p)} :: lo <= p < |seen| ==> Holds(dict, seen, p)
  }

  lemma ModApart(p: nat, q: nat)
    requires p < q < p + DICT_SIZE
    ensures p % DICT_SIZE != q % DICT_SIZE
  {}

  /** A new byte displaces the one 32768 before it and no other. */
  lemma WindowPut(dict: seq<nat>, seen: seq<nat>, lo: nat, c: nat, dict': seq<nat>)
    requires Window(dict, seen, lo) && |dict'| == |dict|
    requires var dst := |seen| % DICT_SIZE;
      dict' == if dst < MIRROR then dict[dst := c][DICT_SIZE + dst := c] else dict[dst := c]
    ensures Window(dict', seen + [c], if lo + DICT_SIZE <= |seen| then |seen| + 1 - DICT_SIZE else lo)
  {
    var seen', n := seen + [c], |seen|;
    var lo' := if lo + DICT_SIZE <= n then n + 1 - DICT_SIZE else lo;
    forall p: nat | lo' <= p < |seen'|
      ensures Holds(dict', seen', p)
    {
      if p < n {
        assert Holds(dict, seen, p);
        ModApart(p, n);
      }
    }
  }

  lemma WindowShrinks(dict: seq<nat>, seen: seq<nat>, lo: nat, lo': nat)
    requires Window(dict, seen, lo) && lo <= lo'
    ensures Window(dict, seen, lo')
  {}

  lemma AddToMod(p: nat, k: nat)
    requires k <= MIRROR
    ensures var b := p % DICT_SIZE;
            (p + k) % DICT_SIZE == if b + k < DICT_SIZE then b + k else b + k - DICT_SIZE
  {}

  /** Reading straight on from the place of byte p gives the bytes after it. */
  lemma ReadOn(dict: seq<nat>, seen: seq<nat>, lo: nat, p: nat, k: nat)
    requires Window(dict, seen, lo) && k <= MIRROR && lo <= p + k < |seen|
    ensures p % DICT_SIZE + k < DICT_BYTES && dict[p % DICT_SIZE + k] == seen[p + k]
  {
    AddToMod(p, k);
    assert Holds(dict, seen, p + k);
  }

  // ---------- Positions in 32 bits ----------

  /** A position as the compressor counts it. */
  function U32(x: int): (u: nat)
    ensures u < 0x1_0000_0000
  {
    x % 0x1_0000_0000
  }

  function Shifted(u: nat, wraps: nat): nat {
    u + 0x1_0000_0000 * wraps
  }

  /** u counts position p: it is what is left of p in 32 bits. */
  ghost predicate Low32(u: nat, p: nat) {
    u < 0x1_0000_0000 && exists wraps: nat :: Shifted(u, wraps) == p
  }

  lemma Low32Is(u: nat, p: nat)
    ensures Low32(u, p) <==> u == U32(p)
  {
    if u == U32(p) { assert Shifted(u, p / 0x1_0000_0000) == p; }
  }

  lemma Low32Start()
    ensures Low32(0, 0)
  {
    Low32Is(0, 0);
  }

  /** The places in the ring, and distances of 16 bits, do not depend on what was cut off. */
  lemma SamePlace(p: nat, u: nat, k: nat)
    requires Low32(u, p)
    ensures U32(u + k) % DICT_SIZE == (p + k) % DICT_SIZE && u % DICT_SIZE == p % DICT_SIZE
  {
    Low32Is(u, p);
  }

  lemma SameSum(p: nat, u: nat, k: nat)
    requires Low32(u, p)
    ensures Low32(U32(u + k), p + k)
  {
    Low32Is(u, p);
    Low32Is(U32(u + k), p + k);
  }

  /** A difference of less than 32 bits is that of the positions. */
  lemma SameGap(p: nat, q: nat, u: nat, v: nat)
    requires Low32(u, p) && Low32(v, q) && q <= p < q + 0x1_0000_0000
    ensures U32(u - v) == p - q
  {
    Low32Is(u, p);
    Low32Is(v, q);
  }

  /** What u counts is the position k on, less two. */
  lemma LowOf(p: nat, u: nat, k: nat, n: nat)
    requires Low32(u, p) && n + 2 == p + k
    ensures U32(u + k - 2) == U32(n) && Low32(U32(n), n)
  {
    Low32Is(u, p);
    Low32Is(U32(n), n);
  }

  lemma LowBits(n: nat)
    ensures U32(n) % DICT_SIZE == n % DICT_SIZE && U32(n) % 0x1_0000 == n % 0x1_0000 && U32(U32(n) + 1) == U32(n + 1)
  {}

  lemma NoLongerMatch(seen: seq<nat>, pos: nat, dist: nat, most: nat, k: nat)
    requires 1 <= dist <= pos && pos + most <= |seen| && 1 <= k < most
    requires seen[pos + k] != seen[pos + k - dist] || seen[pos + k - 1] != seen[pos + k - 1 - dist]
    ensures Common(seen, pos, dist, most) <= k
  {
    CommonIsGreatest(seen, pos, dist, most, k + 1);
    assert !Repeats(seen, pos + k, dist) || !Repeats(seen, pos + k - 1, dist);
  }

  lemma Low16(x: int, q: int)
    ensures (x + 0x1_0000 * q) % 0x1_0000 == x % 0x1_0000
  {}

  lemma SameDistance(p: nat, u: nat, next: nat)
    requires Low32(u, p)
    ensures U32(u - next) % 0x1_0000 == (p - next) % 0x1_0000
  {
    Low32Is(u, p);
    var q, t := p / 0x1_0000_0000, (u - next) / 0x1_0000_0000;
    var a := U32(u - next);
    assert p - next == a + 0x1_0000 * (0x1_0000 * (q + t));
    Low16(a, 0x1_0000 * (q + t));
  }

  /** Where a chain entry points, seen from the current position. */
  lemma ChainDistance(pos: nat, next: nat, dist: nat)
    requires dist == (pos - next) % 0x1_0000 && dist <= pos
    ensures (pos - dist) % DICT_SIZE == next % DICT_SIZE
  {}

  /** Equal stretches of the ring are equal stretches of the stream. */
  lemma MatchInStream(dict: seq<nat>, seen: seq<nat>, lo: nat, pos: nat, dist: nat, len: nat, a: nat, b: nat)
    requires Window(dict, seen, lo) && len <= MAX_MATCH_LEN && 1 <= dist && lo + dist <= pos && pos + len <= |seen|
    requires a == pos % DICT_SIZE && b == (pos - dist) % DICT_SIZE && forall k :: 0 <= k < len ==> SameAt(dict, a, b, k)
    ensures IsMatch(seen, pos, len, dist)
  {
    forall p | pos <= p < pos + len
      ensures Repeats(seen, p, dist)
    {
      assert SameAt(dict, a, b, p - pos);
      ReadOn(dict, seen, lo, pos, p - pos);
      ReadOn(dict, seen, lo, pos - dist, p - pos);
    }
  }

  ghost predicate SameAt(dict: seq<nat>, a: nat, b: nat, k: nat) {
    a + k < |dict| && b + k < |dict| && dict[a + k] == dict[b + k]
  }

  /** A run of one byte is a match at distance one. */
  lemma RunIsMatch(seen: seq<nat>, pos: nat, len: nat, c: nat)
    requires 1 <= pos && pos + len <= |seen| && seen[pos - 1] == c && forall p :: pos <= p < pos + len ==> seen[p] == c
    ensures IsMatch(seen, pos, len, 1)
  {
    forall p | pos <= p < pos + len
      ensures Repeats(seen, p, 1)
    {
      assert p > pos ==> seen[p - 1] == c;
    }
  }

  datatype Probe = Stop | Miss | Hit

  // ---------- Searching a hash chain ----------

  /** The candidate of number j. */
  ghost predicate At(v: View, j: nat, probePos: nat) {
    Chain(v, j) && probePos == Place(v, j)
  }

  /** A probe has come to candidate j, dist back; unless that is nothing, the chain goes so far. */
  ghost predicate OnCandidate(v: View, j: nat, probePos: nat, dist: nat) {
    && v.Valid() && j >= 1 && probePos == Place(v, j) && dist == DistAt(v, j) <= v.size
    && probePos == (v.pos - dist) % DICT_SIZE && (dist >= 1 ==> Chain(v, j))
  }

  /** It agrees at both ends. */
  ghost predicate Passes(v: View, j: nat, probePos: nat, dist: nat, len: nat) {
    OnCandidate(v, j, probePos, dist) && (dist >= 1 ==> EndsAgree(v, dist, len))
  }

  /** After a probe, with j candidates visited. */
  ghost predicate Probed(v: View, q: Query, result: Probe, probePos: nat, dist: nat, j: nat, len: nat, s: nat) {
    && Visited(v, q, j, len, s)
    && match result
       case Stop => !Chain(v, j + 1)
       case Miss => At(v, j, probePos)
       case Hit => Passes(v, j + 1, probePos, dist, len)
  }

  /** Slot s belongs to the probe after which so many are left. */
  ghost predicate InRound(q: Query, s: nat, probesLeft: nat) {
    s < 3 * (q.probes - 1) && RoundEnd(s) == 3 * (q.probes - probesLeft)
  }

  lemma InThree(q: Query, s0: nat, s: nat, probesLeft: nat)
    requires s0 <= s < s0 + 3 && s0 + 3 == 3 * (q.probes - probesLeft) && probesLeft >= 1
    ensures InRound(q, s, probesLeft)
  {}

  /** Before a probe; c0 and c1 are the bytes at the end of a match of the length in hand. */
  ghost predicate Probing(v: View, q: Query, probePos: nat, len: nat, c0: nat, c1: nat, j: nat, s: nat) {
    && At(v, j, probePos) && 1 <= len < v.most && c0 == v.seen[v.pos + len] && c1 == v.seen[v.pos + len - 1]
    && Visited(v, q, j, len, s)
  }

  /** The match in hand is the nearest of the longest so far. */
  ghost predicate InHand(v: View, q: Query, j: nat, s: nat, dist: nat, len: nat) {
    && Visited(v, q, j, len, s)
    && ((dist == q.dist && len == q.len)
        || (q.len < len <= v.most && dist <= v.size && IsMatch(v.seen, v.pos, len, dist) && Nearest(v, j, dist, len)))
  }

  ghost predicate Searching(v: View, q: Query, j: nat, s: nat, probePos: nat, probes: nat, dist: nat, len: nat) {
    && At(v, j, probePos) && probes >= 1 && s == 3 * (q.probes - probes)
    && InHand(v, q, j, s, dist, len) && 1 <= q.len <= len < v.most
  }

  ghost predicate SearchState(v: View, q: Query, more: bool, j: nat, s: nat, probePos: nat, probes: nat, dist: nat, len: nat) {
    if more then Searching(v, q, j, s, probePos, probes, dist, len) else InHand(v, q, j, s, dist, len) && Stops(v, q, j)
  }

  lemma StillInHand(v: View, q: Query, i: nat, s0: nat, j: nat, s: nat, dist: nat, len: nat)
    requires InHand(v, q, i, s0, dist, len) && i <= j && Visited(v, q, j, len, s)
    ensures InHand(v, q, j, s, dist, len)
  {
    if q.len < len && Nearest(v, i, dist, len) { NearestMore(v, i, j, dist, len); }
  }

  lemma BetterOrNot(v: View, q: Query, j: nat, s: nat, dist0: nat, len0: nat, dist: nat, len: nat)
    requires InHand(v, q, j, s, dist0, len0) && 1 <= len0 < v.most && s < 3 * (q.probes - 1) && q.len <= len0
    requires Chain(v, j + 1) && dist == DistAt(v, j + 1) && EndsAgree(v, dist, len0)
    requires IsMatch(v.seen, v.pos, len, dist) && len == Reach(v, j + 1)
    ensures if len > len0 then InHand(v, q, j + 1, RoundEnd(s), dist, len) else InHand(v, q, j + 1, RoundEnd(s), dist0, len0)
  {
    VisitedHit(v, q, j, len0, s);
    if len > len0 {
      NearestNow(v, j, dist, len, len0);
    } else {
      StillInHand(v, q, j, s, j + 1, RoundEnd(s), dist0, len0);
    }
  }

  lemma NoneLeft(v: View, q: Query, found: bool, j: nat, s: nat, probePos: nat, probes: nat, dist0: nat, dist: nat, len: nat)
    requires InHand(v, q, j, s, dist, len) && (found ==> dist0 == 0 && OnCandidate(v, j + 1, probePos, dist0))
    requires !found ==> Stops(v, q, j)
    ensures SearchState(v, q, false, j, s, probePos, probes, dist, len)
  {}

  lemma Compared(v: View, q: Query, more: bool, j: nat, s: nat, probePos: nat, probes: nat, dist: nat, len: nat)
    requires InHand(v, q, j + 1, RoundEnd(s), dist, len) && 1 <= q.len <= len <= v.most && more == (len < v.most)
    requires InRound(q, s, probes) && probes >= 1 && Chain(v, j + 1) && probePos == Place(v, j + 1)
    ensures SearchState(v, q, more, j + 1, RoundEnd(s), probePos, probes, dist, len)
  {}

  class Dictionary {
    const dict: array<nat>
    const next: array<nat>
    const hash: array<nat>
    var lookaheadPos: nat
    var lookaheadSize: nat
    var dictSize: nat
    ghost var seen: seq<nat> // all bytes moved into the dictionary so far
    ghost var position: nat // of the lookahead, however long the stream; lookaheadPos holds its low 32 bits
    ghost var base: nat // where the history starts: at the last full flush

    ghost predicate Shape()
      reads next, hash
    {
      && dict.Length == DICT_BYTES && next.Length == DICT_SIZE && hash.Length == HASH_SIZE
      && dict != next && dict != hash && next != hash
      && (forall i :: 0 <= i < next.Length ==> next[i] < 0x1_0000)
      && (forall i :: 0 <= i < hash.Length ==> hash[i] < 0x1_0000)
    }

    /** Invariant while bytes are being added: the oldest ones may already be gone. */
    ghost predicate Filling()
      reads this, dict, next, hash
    {
      && Shape() && Low32(lookaheadPos, position) && dictSize <= position && lookaheadSize <= MAX_MATCH_LEN && dictSize <= DICT_SIZE
      && |seen| == position + lookaheadSize && base + dictSize <= position && Started()
      && Window(dict[..], seen, Oldest())
      && (forall p :: 0 <= p < |seen| ==> seen[p] < 256)
    }

    ghost function Oldest(): nat
      reads this
      requires dictSize <= position
    {
      if dictSize + lookaheadSize <= DICT_SIZE then position - dictSize
      else position + lookaheadSize - DICT_SIZE
    }

    /** The dictionary goes back to the start of the history, until it is full. */
    ghost predicate Started()
      reads `dictSize, `position, `base, `lookaheadSize
    {
      base + dictSize == position || dictSize + lookaheadSize >= DICT_SIZE
    }

    /** Invariant of the parser: the last dictSize bytes and the lookahead are in the ring, and all positions that three
        bytes follow are linked. */
    ghost predicate Valid()
      reads this, dict, next, hash
    {
      Filling() && dictSize + lookaheadSize <= DICT_SIZE && Chained(Linkable())
    }

    ghost function Linkable(): nat
      reads `seen, `base
    {
      if |seen| >= base + 2 then |seen| - 2 else base
    }

    /** All positions below n are linked. */
    ghost predicate Chained(n: nat)
      reads `seen, `base, next, hash
    {
      Linked(next[..], hash[..], seen, base, n)
    }

    constructor ()
      ensures Valid() && seen == [] && position == 0 && lookaheadSize == 0 && dictSize == 0
      ensures fresh(dict) && fresh(next) && fresh(hash)
    {
      dict := new nat[DICT_BYTES](_ => 0);
      next := new nat[DICT_SIZE](_ => 0);
      hash := new nat[HASH_SIZE](_ => 0);
      lookaheadPos, lookaheadSize, dictSize, seen, position, base := 0, 0, 0, [], 0, 0;
      new;
      Low32Start();
      NothingLinked(next[..], hash[..], seen, base);
    }

    /** The invariant depends on the fields and arrays of the dictionary alone. */
    twostate lemma Kept()
      requires old(Valid()) && unchanged(this) && unchanged(dict) && unchanged(next) && unchanged(hash)
      ensures Valid()
    {}

    /** Stores one byte, and its copy behind the ring. */
    method PutByte(c: nat, ghost n: nat)
      requires Filling() && lookaheadSize < MAX_MATCH_LEN && c < 256 && Chained(n)
      modifies `lookaheadSize, `seen, dict
      ensures Filling() && seen == old(seen) + [c] && lookaheadSize == old(lookaheadSize) + 1 && Chained(n)
    {
      LinkedMore(next[..], hash[..], seen, seen + [c], base, n);
      ghost var before := dict[..];
      SamePlace(position, lookaheadPos, lookaheadSize);
      var dstPos := U32(lookaheadPos + lookaheadSize) % DICT_SIZE;
      dict[dstPos] := c;
      if dstPos < MAX_MATCH_LEN - 1 { dict[DICT_SIZE + dstPos] := c; }
      WindowPut(before, seen, Oldest(), c, dict[..]);
      lookaheadSize := lookaheadSize + 1;
      seen := seen + [c];
    }

    /** Puts position n, which insPos counts, at the head of its hash chain. */
    method Link(h: nat, insPos: nat, ghost n: nat)
      requires Shape() && Chained(n) && n + 2 < |seen| && h == HashAt(seen, n)
      requires insPos % DICT_SIZE == n % DICT_SIZE && insPos % 0x1_0000 == n % 0x1_0000
      modifies next, hash
      ensures Shape() && Chained(n + 1)
    {
      ghost var next0, hash0 := next[..], hash[..];
      next[insPos % DICT_SIZE] := hash[h];
      hash[h] := insPos % 0x1_0000;
      LinkOne(next0, hash0, seen, base, n, h, next[..], hash[..]);
    }

    /** Takes in as many bytes as the lookahead has room for, once there is something to hash with. */
    method FillHashed(src: seq<nat>) returns (n: nat)
      requires Valid() && lookaheadSize + dictSize >= MIN_MATCH_LEN - 1 && forall i :: 0 <= i < |src| ==> src[i] < 256
      modifies `lookaheadSize, `seen, dict, next, hash
      ensures Filling() && Chained(Linkable()) && n <= |src| && seen == old(seen) + src[..n]
      ensures n == |src| || lookaheadSize == MAX_MATCH_LEN
    {
      ghost var p: nat := |seen| - 2;
      var h, insPos := HashTwo(p);
      var numBytes := if |src| < MAX_MATCH_LEN - lookaheadSize then |src| else MAX_MATCH_LEN - lookaheadSize;
      n := 0;
      while n < numBytes
        invariant n <= numBytes && TakenIn(old(seen), old(lookaheadSize), src, n) && HashedTo(p, h, insPos)
      {
        h, insPos := HashNext(src, n, h, insPos, p, old(seen), old(lookaheadSize));
        n, p := n + 1, p + 1;
      }
      assert p == Linkable();
    }

    /** The first n bytes have been taken in. */
    ghost predicate TakenIn(seen0: seq<nat>, size0: nat, src: seq<nat>, n: nat)
      reads this, dict, next, hash
    {
      n <= |src| && Filling() && seen == seen0 + src[..n] && lookaheadSize == size0 + n
    }

    method HashNext(src: seq<nat>, n: nat, hash0: nat, insPos: nat, ghost p: nat, ghost seen0: seq<nat>, ghost size0: nat)
        returns (h: nat, insPos': nat)
      requires n < |src| && src[n] < 256 && TakenIn(seen0, size0, src, n) && lookaheadSize < MAX_MATCH_LEN && HashedTo(p, hash0, insPos)
      modifies `lookaheadSize, `seen, dict, next, hash
      ensures TakenIn(seen0, size0, src, n + 1) && HashedTo(p + 1, h, insPos')
    {
      h, insPos' := HashByte(src[n], hash0, insPos, p);
      OneTaken(seen0, src, n);
    }

    /** Position n, which insPos counts, is the next to be linked, and h the hash of its first two bytes. */
    ghost predicate HashedTo(n: nat, h: nat, insPos: nat)
      reads `seen, `base, next, hash
    {
      n + 2 == |seen| && Chained(n) && insPos == U32(n) && Rolling(h, seen, n)
    }

    /** The hash so far of the last two bytes, from position n on. */
    method HashTwo(ghost n: nat) returns (h: nat, insPos: nat)
      requires Valid() && lookaheadSize + dictSize >= 2 && n + 2 == |seen|
      ensures HashedTo(n, h, insPos)
    {
      LowOf(position, lookaheadPos, lookaheadSize, n);
      insPos := U32(lookaheadPos + lookaheadSize - 2);
      SamePlace(n, insPos, 1);
      ReadOn(dict[..], seen, Oldest(), n, 0);
      ReadOn(dict[..], seen, Oldest(), n + 1, 0);
      h := Xor(32 * dict[insPos % DICT_SIZE], dict[U32(insPos + 1) % DICT_SIZE], 15);
      assert h == HashStep(seen[n], seen[n + 1]);
    }

    method HashByte(c: nat, hash0: nat, insPos: nat, ghost n: nat) returns (h: nat, insPos': nat)
      requires Filling() && lookaheadSize < MAX_MATCH_LEN && c < 256
      requires HashedTo(n, hash0, insPos)
      modifies `lookaheadSize, `seen, dict, next, hash
      ensures Filling() && seen == old(seen) + [c] && lookaheadSize == old(lookaheadSize) + 1
      ensures HashedTo(n + 1, h, insPos')
    {
      Roll(hash0, seen, n, c);
      PutByte(c, n);
      h := HashStep(hash0, c);
      LowBits(n);
      Link(h, insPos, n);
      insPos' := U32(insPos + 1);
    }

    /** The first bytes of the stream, one at a time. */
    method FillFirst(src: seq<nat>) returns (n: nat)
      requires Valid() && lookaheadSize + dictSize < MIN_MATCH_LEN - 1 && forall i :: 0 <= i < |src| ==> src[i] < 256
      modifies `lookaheadSize, `seen, dict, next, hash
      ensures Filling() && Chained(Linkable()) && n <= |src| && seen == old(seen) + src[..n]
      ensures n == |src| || lookaheadSize == MAX_MATCH_LEN
    {
      n := 0;
      while n < |src| && lookaheadSize < MAX_MATCH_LEN
        invariant 0 <= n <= |src| && Filling() && seen == old(seen) + src[..n]
        invariant base + dictSize == position && Chained(Linkable())
      {
        FirstByte(src[n]);
        OneTaken(old(seen), src, n);
        n := n + 1;
      }
    }

    method FirstByte(c: nat)
      requires Filling() && base + dictSize == position && dictSize < 2 && lookaheadSize < MAX_MATCH_LEN && c < 256 && Chained(Linkable())
      modifies `lookaheadSize, `seen, dict, next, hash
      ensures Filling() && seen == old(seen) + [c] && Chained(Linkable())
    {
      PutByte(c, Linkable());
      if lookaheadSize + dictSize >= MIN_MATCH_LEN { LinkFirst(c, |seen| - 3); }
    }

    method LinkFirst(c: nat, ghost n: nat)
      requires Filling() && base <= n == |seen| - 3 && base + dictSize == position && dictSize < 2 && Chained(n) && c == seen[n + 2]
      modifies next, hash
      ensures Filling() && Chained(n + 1)
    {
      LowOf(position, lookaheadPos, lookaheadSize - 1, n);
      var insPos := U32(lookaheadPos + (lookaheadSize - 1) - 2);
      var h := HashThree(insPos, c, n);
      LowBits(n);
      Link(h, insPos, n);
    }

    method HashThree(insPos: nat, c: nat, ghost n: nat) returns (h: nat)
      requires Filling() && n == |seen| - 3 && Oldest() <= n && c == seen[n + 2] && insPos == U32(n) && Low32(insPos, n)
      ensures h == HashAt(seen, n)
    {
      SamePlace(n, insPos, 1);
      ReadOn(dict[..], seen, Oldest(), n, 0);
      ReadOn(dict[..], seen, Oldest(), n + 1, 0);
      h := HashStep(Xor(32 * dict[insPos % DICT_SIZE], dict[U32(insPos + 1) % DICT_SIZE], 15), c);
    }

    /** Refills the lookahead and gives up the oldest bytes that were displaced. */
    method Refill(src: seq<nat>) returns (n: nat)
      requires Valid() && forall i :: 0 <= i < |src| ==> src[i] < 256
      modifies `lookaheadSize, `seen, `dictSize, dict, next, hash
      ensures Valid() && n <= |src| && seen == old(seen) + src[..n]
      ensures n == |src| || lookaheadSize == MAX_MATCH_LEN
      ensures dictSize == if old(dictSize) + lookaheadSize <= DICT_SIZE then old(dictSize) else DICT_SIZE - lookaheadSize
    {
      if lookaheadSize + dictSize >= MIN_MATCH_LEN - 1 {
        n := FillHashed(src);
      } else {
        n := FillFirst(src);
      }
      if DICT_SIZE - lookaheadSize < dictSize { dictSize := DICT_SIZE - lookaheadSize; }
    }

    /** What a search at the current position goes by. */
    ghost function Here(): View
      reads this, next
    {
      View(next[..], seen, position, dictSize, lookaheadSize)
    }

    /** TDEFL_PROBE: follows the hash chain one step and compares two bytes of the candidate. */
    method TryProbe(probePos: nat, matchLen: nat, c0: nat, c1: nat, ghost v: View, ghost j: nat)
        returns (result: Probe, probePos': nat, dist: nat)
      requires Valid() && v == Here() && At(v, j, probePos) && 1 <= matchLen < lookaheadSize
      requires c0 == seen[position + matchLen] && c1 == seen[position + matchLen - 1]
      ensures probePos' < DICT_SIZE
      ensures result == Stop ==> !Chain(v, j + 1)
      ensures result != Stop ==> OnCandidate(v, j + 1, probePos', dist)
      ensures result == Miss ==> dist >= 1 && Reach(v, j + 1) <= matchLen && !EndsAgree(v, dist, matchLen)
      ensures result == Hit && dist >= 1 ==> EndsAgree(v, dist, matchLen)
    {
      var nextProbePos := next[probePos];
      dist := U32(lookaheadPos - nextProbePos) % 0x1_0000;
      SameDistance(position, lookaheadPos, nextProbePos);
      if nextProbePos == 0 || dist > dictSize { return Stop, probePos, dist; }
      ChainDistance(position, nextProbePos, dist);
      probePos' := nextProbePos % DICT_SIZE;
      result := if dict[probePos' + matchLen] == c0 && dict[probePos' + matchLen - 1] == c1 then Hit else Miss;
      EndsOf(probePos', matchLen, dist, v);
    }

    /** The two bytes of a candidate in the ring. */
    lemma EndsOf(probePos: nat, matchLen: nat, dist: nat, v: View)
      requires Valid() && v == Here() && 1 <= matchLen < lookaheadSize && dist <= dictSize && probePos == (position - dist) % DICT_SIZE
      ensures var same := dict[probePos + matchLen] == seen[position + matchLen] && dict[probePos + matchLen - 1] == seen[position + matchLen - 1];
              if dist == 0 then same
              else same == EndsAgree(v, dist, matchLen) && (!same ==> Common(seen, position, dist, lookaheadSize) <= matchLen)
    {
      ReadOn(dict[..], seen, Oldest(), position - dist, matchLen);
      ReadOn(dict[..], seen, Oldest(), position - dist, matchLen - 1);
      if dist >= 1 && !EndsAgree(v, dist, matchLen) {
        NoLongerMatch(seen, position, dist, lookaheadSize, matchLen);
      }
    }

    /** Up to three probes for each probe allowed. */
    method NextCandidate(probePos: nat, matchLen: nat, c0: nat, c1: nat, probes: nat, ghost v: View, ghost q: Query, ghost j0: nat, ghost s0: nat)
        returns (found: bool, probePos': nat, dist: nat, probesLeft: nat, ghost j: nat, ghost s: nat)
      requires Valid() && v == Here() && Probing(v, q, probePos, matchLen, c0, c1, j0, s0) && probes >= 1 && s0 == 3 * (q.probes - probes)
      ensures j >= j0 && Visited(v, q, j, matchLen, s)
      ensures found ==> Passes(v, j + 1, probePos', dist, matchLen) && InRound(q, s, probesLeft) && 1 <= probesLeft < probes
      ensures !found ==> Stops(v, q, j)
    {
      probesLeft, probePos', dist, j, s := probes, probePos, 0, j0, s0;
      while true
        invariant 1 <= probesLeft <= probes && Probing(v, q, probePos', matchLen, c0, c1, j, s) && j >= j0
        invariant s == 3 * (q.probes - probesLeft)
        decreases probesLeft
      {
        probesLeft := probesLeft - 1;
        if probesLeft == 0 { return false, probePos', dist, probesLeft, j, s; }
        var result;
        result, probePos', dist, j, s := ThreeProbes(probePos', matchLen, c0, c1, v, q, j, s, probesLeft);
        if result != Miss { return result == Hit, probePos', dist, probesLeft, j, s; }
      }
    }

    /** The body of the inner loop. */
    method ThreeProbes(probePos: nat, matchLen: nat, c0: nat, c1: nat, ghost v: View, ghost q: Query, ghost j0: nat, ghost s0: nat,
                       ghost probesLeft: nat)
        returns (result: Probe, probePos': nat, dist: nat, ghost j: nat, ghost s: nat)
      requires Valid() && v == Here() && Probing(v, q, probePos, matchLen, c0, c1, j0, s0)
      requires probesLeft >= 1 && s0 + 3 == 3 * (q.probes - probesLeft)
      ensures Probed(v, q, result, probePos', dist, j, matchLen, s) && j >= j0
      ensures if result == Miss then s == s0 + 3 else InRound(q, s, probesLeft)
    {
      result, probePos', dist, j, s := ProbeOnce(probePos, matchLen, c0, c1, v, q, j0, s0);
      if result == Miss { result, probePos', dist, j, s := ProbeOnce(probePos', matchLen, c0, c1, v, q, j, s); }
      if result == Miss { result, probePos', dist, j, s := ProbeOnce(probePos', matchLen, c0, c1, v, q, j, s); }
      if result != Miss { InThree(q, s0, s, probesLeft); }
    }

    method ProbeOnce(probePos: nat, matchLen: nat, c0: nat, c1: nat, ghost v: View, ghost q: Query, ghost j0: nat, ghost s0: nat)
        returns (result: Probe, probePos': nat, dist: nat, ghost j: nat, ghost s: nat)
      requires Valid() && v == Here() && Probing(v, q, probePos, matchLen, c0, c1, j0, s0) && s0 < 3 * (q.probes - 1)
      ensures Probed(v, q, result, probePos', dist, j, matchLen, s)
      ensures if result == Miss then j == j0 + 1 && s == s0 + 1 else j == j0 && s == s0
    {
      j, s := j0, s0;
      result, probePos', dist := TryProbe(probePos, matchLen, c0, c1, v, j);
      if result == Miss {
        VisitedMiss(v, q, j, matchLen, s);
        j, s := j + 1, s + 1;
      }
    }

    /** How far the candidate agrees with the lookahead. */
    method CommonLength(probePos: nat, maxMatchLen: nat, ghost dist: nat) returns (probeLen: nat)
      requires Valid() && maxMatchLen <= lookaheadSize && probePos < DICT_SIZE
      requires dist <= dictSize && probePos == (position - dist) % DICT_SIZE
      ensures probeLen <= maxMatchLen
      ensures dist >= 1 ==> IsMatch(seen, position, probeLen, dist) && probeLen == Common(seen, position, dist, maxMatchLen)
    {
      SamePlace(position, lookaheadPos, 0);
      var pos := lookaheadPos % DICT_SIZE;
      probeLen := 0;
      while probeLen < maxMatchLen && dict[pos + probeLen] == dict[probePos + probeLen]
        invariant 0 <= probeLen <= maxMatchLen
        invariant forall k :: 0 <= k < probeLen ==> SameAt(dict[..], pos, probePos, k)
      {
        assert SameAt(dict[..], pos, probePos, probeLen);
        probeLen := probeLen + 1;
      }
      if dist >= 1 {
        MatchInStream(dict[..], seen, Oldest(), position, dist, probeLen, pos, probePos);
        if probeLen < maxMatchLen {
          ReadOn(dict[..], seen, Oldest(), position, probeLen);
          ReadOn(dict[..], seen, Oldest(), position - dist, probeLen);
        }
        CommonAt(seen, position, dist, maxMatchLen, probeLen);
      }
    }

    /** tdefl_find_match: of the candidates on the hash chain, as far as the probes go, the nearest of those that agree with
        the lookahead furthest, if that is longer than the match in hand. */
    method FindMatch(maxProbes: seq<nat>, dist0: nat, len0: nat) returns (matchDist: nat, matchLen: nat, ghost visited: nat)
      requires Valid() && |maxProbes| == 2 && maxProbes[0] >= 1 && maxProbes[1] >= 1 && 1 <= len0 <= MIRROR
      ensures (matchDist == dist0 && matchLen == len0)
           || (len0 < matchLen <= lookaheadSize && matchDist <= dictSize && IsMatch(seen, position, matchLen, matchDist))
      ensures FoundOnChain(Here(), Query(dist0, len0, maxProbes[if len0 >= 32 then 1 else 0]), visited, matchDist, matchLen)
    {
      ghost var v, s: nat := Here(), 0;
      ghost var q := Query(dist0, len0, maxProbes[if len0 >= 32 then 1 else 0]);
      matchDist, matchLen, visited := dist0, len0, 0;
      VisitedNone(v, q);
      if lookaheadSize <= matchLen { return; }
      SamePlace(position, lookaheadPos, 0);
      var probePos: nat, probes := lookaheadPos % DICT_SIZE, if matchLen >= 32 then maxProbes[1] else maxProbes[0];
      var more := true;
      while more
        invariant SearchState(v, q, more, visited, s, probePos, probes, matchDist, matchLen)
        decreases more, probes
      {
        more, probePos, probes, matchDist, matchLen, visited, s := TryNext(probePos, probes, matchDist, matchLen, v, q, visited, s);
      }
    }

    /** The body of the outer loop: the next candidate that passes the test of two bytes is compared in full. */
    method TryNext(probePos: nat, probes: nat, dist1: nat, len1: nat, ghost v: View, ghost q: Query, ghost j0: nat, ghost s0: nat)
        returns (more: bool, probePos': nat, probesLeft: nat, matchDist: nat, matchLen: nat, ghost j: nat, ghost s: nat)
      requires Valid() && v == Here() && Searching(v, q, j0, s0, probePos, probes, dist1, len1)
      ensures SearchState(v, q, more, j, s, probePos', probesLeft, matchDist, matchLen) && (more ==> probesLeft < probes)
    {
      var found, dist;
      found, probePos', dist, probesLeft, j, s := Seek(probePos, probes, dist1, len1, v, q, j0, s0);
      if found && dist > 0 {
        more, matchDist, matchLen, j, s := Compare(probePos', dist, dist1, len1, v, q, j, s, probesLeft);
      } else {
        more, matchDist, matchLen := false, dist1, len1;
        NoneLeft(v, q, found, j, s, probePos', probesLeft, dist, matchDist, matchLen);
      }
    }

    method Seek(probePos: nat, probes: nat, dist1: nat, len1: nat, ghost v: View, ghost q: Query, ghost j0: nat, ghost s0: nat)
        returns (found: bool, probePos': nat, dist: nat, probesLeft: nat, ghost j: nat, ghost s: nat)
      requires Valid() && v == Here() && Searching(v, q, j0, s0, probePos, probes, dist1, len1)
      ensures InHand(v, q, j, s, dist1, len1)
      ensures found ==> Passes(v, j + 1, probePos', dist, len1) && InRound(q, s, probesLeft) && 1 <= probesLeft < probes
      ensures !found ==> Stops(v, q, j)
    {
      var c0, c1 := TestBytes(len1);
      found, probePos', dist, probesLeft, j, s := NextCandidate(probePos, len1, c0, c1, probes, v, q, j0, s0);
      StillInHand(v, q, j0, s0, j, s, dist1, len1);
    }

    /** The two bytes at which a longer match must agree. */
    method TestBytes(matchLen: nat) returns (c0: nat, c1: nat)
      requires Valid() && 1 <= matchLen < lookaheadSize
      ensures c0 == seen[position + matchLen] && c1 == seen[position + matchLen - 1]
    {
      SamePlace(position, lookaheadPos, 0);
      var pos := lookaheadPos % DICT_SIZE;
      ReadOn(dict[..], seen, Oldest(), position, matchLen);
      ReadOn(dict[..], seen, Oldest(), position, matchLen - 1);
      c0, c1 := dict[pos + matchLen], dict[pos + matchLen - 1];
    }

    /** Takes candidate j0 + 1 if it is longer. */
    method Compare(probePos: nat, dist: nat, dist1: nat, len1: nat, ghost v: View, ghost q: Query, ghost j0: nat, ghost s0: nat,
                   ghost probesLeft: nat)
        returns (more: bool, matchDist: nat, matchLen: nat, ghost j: nat, ghost s: nat)
      requires Valid() && v == Here() && InHand(v, q, j0, s0, dist1, len1) && 1 <= q.len <= len1 < lookaheadSize
      requires Passes(v, j0 + 1, probePos, dist, len1) && dist >= 1 && InRound(q, s0, probesLeft) && probesLeft >= 1
      ensures SearchState(v, q, more, j, s, probePos, probesLeft, matchDist, matchLen)
    {
      matchDist, matchLen := dist1, len1;
      var probeLen := CommonLength(probePos, lookaheadSize, dist);
      BetterOrNot(v, q, j0, s0, matchDist, matchLen, dist, probeLen);
      if probeLen > matchLen { matchDist, matchLen := dist, probeLen; }
      more := matchLen < lookaheadSize;
      Compared(v, q, more, j0, s0, probePos, probesLeft, matchDist, matchLen);
      j, s := j0 + 1, RoundEnd(s0);
    }

    /** Moves n bytes from the lookahead to the history. */
    method Advance(n: nat)
      requires Valid() && n <= lookaheadSize
      modifies `lookaheadPos, `position, `lookaheadSize, `dictSize
      ensures Valid() && position == old(position) + n && lookaheadSize == old(lookaheadSize) - n
      ensures dictSize == if old(dictSize) + n < DICT_SIZE then old(dictSize) + n else DICT_SIZE
    {
      SameSum(position, lookaheadPos, n);
      lookaheadPos, position := U32(lookaheadPos + n), position + n;
      lookaheadSize := lookaheadSize - n;
      dictSize := if dictSize + n < DICT_SIZE then dictSize + n else DICT_SIZE;
    }

    /** The byte at the current position. */
    method Current() returns (c: nat)
      requires Valid() && lookaheadSize >= 1
      ensures c == seen[position] < 256
    {
      ReadOn(dict[..], seen, Oldest(), position, 0);
      SamePlace(position, lookaheadPos, 0);
      c := dict[lookaheadPos % DICT_SIZE];
    }

    /** A full flush forgets the history: both tables are cleared. */
    method Forget()
      requires Valid() && lookaheadSize == 0
      modifies `dictSize, `base, next, hash
      ensures Valid() && dictSize == 0 && base == position
      ensures (forall i :: 0 <= i < next.Length ==> next[i] == 0) && (forall i :: 0 <= i < hash.Length ==> hash[i] == 0)
    {
      ghost var ring := dict[..];
      forall i | 0 <= i < next.Length { next[i] := 0; }
      forall i | 0 <= i < hash.Length { hash[i] := 0; }
      assert dict[..] == ring;
      WindowShrinks(dict[..], seen, Oldest(), position);
      dictSize := 0;
      base := position;
      NothingLinked(next[..], hash[..], seen, base);
    }

    /** The bytes of a raw block, read back from the ring. */
    method History(dictPos: nat, total: nat, ghost from: nat) returns (bytes: seq<nat>)
      requires Valid() && Low32(dictPos, from) && position <= from + dictSize && from + total <= position
      ensures from + total <= |seen| && bytes == seen[from..from + total]
    {
      bytes := [];
      var i := 0;
      while i < total
        invariant 0 <= i <= total && bytes == seen[from..from + i]
      {
        var c := PastByte(dictPos, i, from);
        OneByteOn(seen, from, i);
        bytes := bytes + [c];
        i := i + 1;
      }
    }

    method PastByte(dictPos: nat, i: nat, ghost from: nat) returns (c: nat)
      requires Valid() && Low32(dictPos, from) && position <= from + dictSize && from + i < position
      ensures c == seen[from + i]
    {
      ReadOn(dict[..], seen, Oldest(), from + i, 0);
      SamePlace(from, dictPos, i);
      c := dict[U32(dictPos + i) % DICT_SIZE];
    }

    /** Run-length matching: how often the last byte is repeated. */
    method FindRun() returns (len: nat)
      requires Valid() && dictSize >= 1
      ensures len <= lookaheadSize && IsMatch(seen, position, len, 1) && len == Common(seen, position, 1, lookaheadSize)
    {
      SamePlace(position, lookaheadPos, 0);
      var curPos := lookaheadPos % DICT_SIZE;
      var c := dict[(curPos - 1) % DICT_SIZE];
      assert Holds(dict[..], seen, position - 1);
      PreviousPlace(position);
      len := 0;
      while len < lookaheadSize
        invariant 0 <= len <= lookaheadSize
        invariant forall p :: position <= p < position + len ==> seen[p] == c
      {
        ReadOn(dict[..], seen, Oldest(), position, len);
        if dict[curPos + len] != c { break; }
        len := len + 1;
      }
      RunIsMatch(seen, position, len, c);
      assert len < lookaheadSize ==> seen[position + len] != c == seen[position + len - 1];
      CommonAt(seen, position, 1, lookaheadSize, len);
    }
  }

  lemma OneTaken(seen: seq<nat>, src: seq<nat>, n: nat)
    requires n < |src|
    ensures seen + src[..n] + [src[n]] == seen + src[..n + 1]
  {}

  lemma OneByteOn(seen: seq<nat>, from: nat, i: nat)
    requires from + i < |seen|
    ensures seen[from..from + i] + [seen[from + i]] == seen[from..from + i + 1]
  {}

  lemma PreviousPlace(pos: nat)
    requires pos >= 1
    ensures (pos % DICT_SIZE - 1) % DICT_SIZE == (pos - 1) % DICT_SIZE
  {}
}
