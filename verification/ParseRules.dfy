/** The decisions of tdefl_compress_normal in miniz.c as rules: what is searched for, what is refused, and what the lazy or
    greedy parser makes of it. */
module ParseRules {
  import opened Lz
  import opened LzCodeBuffer
  import opened HashChain

  /** The flags that steer the parser and the choice of block. */
  datatype Options = Options(
    rleMatches: bool, filterMatches: bool, greedyParsing: bool,
    forceRawBlocks: bool, forceStaticBlocks: bool, maxProbes: seq<nat>)

  // ---------- Searching ----------

  /** A match in hand, or one that a search offers: none, unless dist is positive. */
  datatype Offer = Offer(dist: nat, len: nat, visited: nat)

  /** What the search comes up with, given that a match of length saved starts one byte before. */
  ghost predicate Offered(o: Options, v: View, saved: nat, offer: Offer)
    requires |o.maxProbes| == 2
  {
    v.Valid() &&
    var start := if saved > 0 then saved else 2;
    if o.forceRawBlocks || (o.rleMatches && v.size == 0) then offer.dist == 0 && offer.len == start
    else if o.rleMatches then
      var run := Common(v.seen, v.pos, 1, v.most);
      offer.dist == (if run >= 3 then 1 else 0) && offer.len == if run >= 3 then run else 0
    else FoundOnChain(v, Query(0, start, o.maxProbes[if start >= 32 then 1 else 0]), offer.visited, offer.dist, offer.len)
  }

  /** Three bytes from far away are not worth a match, nor is a distance that happens to be the place in the ring; and the
      filter wants more than five bytes. */
  predicate Refused(o: Options, pos: nat, dist: nat, len: nat) {
    (len == 3 && dist >= 8192) || pos % 32768 == dist || (o.filterMatches && len <= 5)
  }

  // ---------- Lazy and greedy parsing ----------

  /** A match held back, with the byte it starts at; none when its length is 0. */
  datatype Held = Held(len: nat, dist: nat, lit: nat)

  /** What is recorded, what is held back from now on, and how many bytes are moved over. */
  datatype Decision = Decision(ops: seq<Op>, held: Held, move: int)

  function Nothing(): Held {
    Held(0, 0, 0)
  }

  /** With a match held back: only a longer one replaces it. Without: a match is held back unless it is long or the parser
      greedy. */
  function Rule(o: Options, held: Held, lit: nat, dist: nat, len: nat): Decision {
    if held.len > 0 then
      if len <= held.len then Decision([Match(held.len, held.dist)], Nothing(), held.len - 1)
      else if len >= 128 then Decision([Literal(held.lit), Match(len, dist)], Nothing(), len)
      else Decision([Literal(held.lit)], Held(len, dist, lit), 1)
    else if dist == 0 then Decision([Literal(lit)], Nothing(), 1)
    else if o.greedyParsing || o.rleMatches || len >= 128 then Decision([Match(len, dist)], Nothing(), len)
    else Decision([], Held(len, dist, lit), 1)
  }

  /** The rules in numbers, on both sides of each limit: lazy parsing holds back a match of 127 bytes and takes one of 128, and
      a match held back gives way to a longer one only. */
  lemma KnownDecisions(o: Options)
    requires !o.greedyParsing && !o.rleMatches
    ensures Rule(o, Held(0, 0, 0), 98, 0, 0) == Decision([Literal(98)], Held(0, 0, 0), 1)
    ensures Rule(o, Held(0, 0, 0), 98, 7, 127) == Decision([], Held(127, 7, 98), 1)
    ensures Rule(o, Held(0, 0, 0), 98, 7, 128) == Decision([Match(128, 7)], Held(0, 0, 0), 128)
    ensures Rule(o, Held(5, 7, 97), 98, 3, 5) == Decision([Match(5, 7)], Held(0, 0, 0), 4)
    ensures Rule(o, Held(5, 7, 97), 98, 3, 6) == Decision([Literal(97)], Held(6, 3, 98), 1)
    ensures Rule(o, Held(5, 7, 97), 98, 3, 128) == Decision([Literal(97), Match(128, 3)], Held(0, 0, 0), 128)
  {}

  lemma KnownRefusals(o: Options)
    ensures Refused(o, 40000, 8192, 3) && Refused(o, 40000, 7232, 200)
    ensures !o.filterMatches ==> !Refused(o, 40000, 8191, 3) && !Refused(o, 40000, 8192, 4)
    ensures o.filterMatches ==> Refused(o, 40000, 1, 5) && !Refused(o, 40000, 1, 6)
  {}

  lemma TotalOfTwo(a: Op, b: Op)
    ensures TotalBytes([a]) == OpLen(a) && TotalBytes([a, b]) == OpLen(a) + OpLen(b)
  {
    assert [a][..0] == [] && [a, b][..1] == [a];
  }

  /** What is recorded covers what is moved over, and the one byte of a match held back before, but not that of one held
      back now. */
  lemma RuleCovers(o: Options, held: Held, lit: nat, dist: nat, len: nat)
    requires dist > 0 ==> len > 0
    ensures var r := Rule(o, held, lit, dist, len);
            TotalBytes(r.ops) + (if r.held.len > 0 then 1 else 0) == r.move + (if held.len > 0 then 1 else 0)
  {
    var r := Rule(o, held, lit, dist, len);
    if |r.ops| == 1 { TotalOfTwo(r.ops[0], r.ops[0]); }
    if |r.ops| == 2 { TotalOfTwo(r.ops[0], r.ops[1]); assert r.ops == [r.ops[0], r.ops[1]]; }
  }

  // ---------- When a block is full ----------

  /** The end of the code buffer, past the flag byte that waits for the next operations. */
  ghost function CodeEnd(ops: seq<Op>): nat
    requires AllRecordable(ops)
  {
    var q := |ops| - |ops| % 8;
    |Encoded(ops[..q])| + 1 + |Payload(ops[q..])|
  }

  /** After an operation a block is ended if the code buffer is nearly full, or if more than 31 KB were taken in and the codes
      take nine tenths of that, or raw blocks are asked for. */
  ghost predicate BlockFull(o: Options, ops: seq<Op>) {
    AllRecordable(ops) &&
    (CodeEnd(ops) > 65536 - 8
     || (TotalBytes(ops) > 31 * 1024 && (CodeEnd(ops) * 115 / 128 >= TotalBytes(ops) || o.forceRawBlocks)))
  }

  lemma FullBy(o: Options, ops: seq<Op>, q: nat, end: nat, total: nat)
    requires AllRecordable(ops) && q == |ops| - |ops| % 8 && end == |Encoded(ops[..q])| + 1 + |Payload(ops[q..])|
    requires total == TotalBytes(ops)
    ensures BlockFull(o, ops) <==>
      end > LZ_CODE_BUF_SIZE - 8 || (total > 31 * 1024 && (end * 115 / 128 >= total || o.forceRawBlocks))
  {}
}
