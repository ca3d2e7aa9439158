/** The compressor of miniz.c: the lazy or greedy parser of tdefl_compress_normal, and tdefl_flush_block. */
module Deflate {
  import opened Powers
  import opened BitFields
  import opened BitStream
  import opened BitIo
  import opened Lz
  import opened LzCodeBuffer
  import opened HuffCounts
  import opened HashChain
  import opened ParseRules
  import opened RingDict
  import opened BlockWriter
  import opened DeflateFormat
  import opened StaticCodes
  import opened InflateStream
  import opened BlockSizes

  datatype Flush = NoFlush | SyncFlush | FullFlush | Finish

  // ---------- Recording what was parsed ----------

  /** The operations stand for the first n bytes. */
  ghost predicate StandFor(ops: seq<Op>, seen: seq<nat>, n: nat) {
    n <= |seen| && OpsOk(ops) && Expand(ops) == seen[..n]
  }

  lemma LiteralStands(ops: seq<Op>, seen: seq<nat>, n: nat)
    requires StandFor(ops, seen, n) && n < |seen| && seen[n] < 256
    ensures StandFor(ops + [Literal(seen[n])], seen, n + 1)
  {
    ExpandAppend(ops, Literal(seen[n]));
    assert seen[..n + 1] == seen[..n] + [seen[n]];
  }

  lemma MatchStands(ops: seq<Op>, seen: seq<nat>, n: nat, len: nat, dist: nat)
    requires StandFor(ops, seen, n) && IsMatch(seen, n, len, dist)
    requires MIN_MATCH_LEN <= len <= MAX_MATCH_LEN && dist <= DICT_SIZE
    ensures StandFor(ops + [Match(len, dist)], seen, n + len)
  {
    ExpandAppend(ops, Match(len, dist));
    CopyMatch(seen, n, len, dist);
  }

  /** More input does not matter for what was parsed. */
  lemma StandsLonger(ops: seq<Op>, seen: seq<nat>, seen': seq<nat>, n: nat)
    requires StandFor(ops, seen, n) && seen <= seen'
    ensures StandFor(ops, seen', n)
  {
    assert seen'[..n] == seen[..n];
  }

  lemma MatchLonger(seen: seq<nat>, seen': seq<nat>, pos: nat, len: nat, dist: nat)
    requires IsMatch(seen, pos, len, dist) && seen <= seen'
    ensures IsMatch(seen', pos, len, dist)
  {
    forall p | pos <= p < pos + len
      ensures Repeats(seen', p, dist)
    {
      assert Repeats(seen, p, dist);
      assert seen == seen'[..|seen|];
    }
  }

  lemma MoreOps(a: seq<Op>, b: seq<Op>, op: Op)
    ensures a + (b + [op]) == a + b + [op]
  {}

  /** The pending operations cover the bytes from one block end to the other. */
  lemma PendingBytes(done: seq<Op>, ops: seq<Op>, seen: seq<nat>, from: nat, n: nat)
    requires StandFor(done, seen, from) && StandFor(done + ops, seen, n)
    ensures n == from + TotalBytes(ops)
  {
    ExpandTotal(done, ops);
  }

  /** Whether the block holds the operations or their bytes, the stream stands for the same. */
  lemma BlockStands(done: seq<Op>, ops: seq<Op>, seen: seq<nat>, from: nat, n: nat, b: Block)
    requires StandFor(done, seen, from) && StandFor(done + ops, seen, n) && from <= n
    requires BlockOk(b) && (BlockOps(b) == ops || b == Stored(seen[from..n]))
    ensures StandFor(done + BlockOps(b), seen, n)
  {
    if BlockOps(b) != ops {
      ExpandLiterals(done, seen[from..n]);
      assert seen[..n] == seen[..from] + seen[from..n];
    }
  }

  lemma ChunkPut(chunks: seq<Chunk>, s: seq<bool>, c: Chunk, s': seq<bool>)
    requires ChunksOk(chunks) && s == StreamBits(chunks) && BlockOk(c.block)
    requires s' == s + BitsOf(if c.final then 1 else 0, 1) + (BitsOf(BlockType(c.block), 2) + PayloadBits(c.block, |s|))
    ensures ChunksOk(chunks + [c]) && s' == StreamBits(chunks + [c])
    ensures StreamOps(chunks + [c]) == StreamOps(chunks) + BlockOps(c.block)
  {
    StreamAppend(chunks, c);
    Assoc(s, BitsOf(if c.final then 1 else 0, 1), BitsOf(BlockType(c.block), 2) + PayloadBits(c.block, |s|));
  }

  lemma FewOps(ops: seq<Op>, end: nat)
    requires AllRecordable(ops) && |Encoded(ops)| == end <= LZ_CODE_BUF_SIZE - 2
    ensures |ops| < 0xFFFF
  {
    EncodedIsLong(ops);
  }

  /** Far less than 32 bits count. */
  lemma {:induction false} TotalBound(ops: seq<Op>)
    requires AllRecordable(ops)
    ensures TotalBytes(ops) <= MAX_MATCH_LEN * |ops|
    decreases |ops|
  {
    if ops != [] {
      var n := |ops| - 1;
      assert Recordable(ops[n]);
      TotalBound(ops[..n]);
    }
  }

  lemma NotFar(ops: seq<Op>, from: nat, n: nat, position: nat)
    requires AllRecordable(ops) && |ops| < 0xFFFF && n == from + TotalBytes(ops) && n <= position <= n + 1
    ensures from + TotalBytes(ops) <= position < from + 0x1_0000_0000
  {
    TotalBound(ops);
  }

  ghost predicate NoneFinal(chunks: seq<Chunk>) {
    forall i :: 0 <= i < |chunks| ==> !chunks[i].final
  }

  lemma OneMoreChunk(chunks: seq<Chunk>, c: Chunk)
    ensures NoneFinal(chunks) ==> if c.final then Terminated(chunks + [c]) else NoneFinal(chunks + [c])
  {}

  // ---------- Which block it is to be ----------

  /** The compressed block: with the fixed codes if the flags ask for it or there is little to write, otherwise with codes of
      its own. */
  ghost predicate TrialOf(o: Options, ops: seq<Op>, lit: seq<nat>, dist: seq<nat>, trial: Block) {
    BlockOk(trial) && BlockOps(trial) == ops
    && if o.forceStaticBlocks || TotalBytes(ops) < 48 then trial == Static(ops) else Economical(trial, lit, dist)
  }

  /** How many whole bytes there are after the block, when phase bits come before its final flag. */
  ghost function EndByte(phase: nat, b: Block): nat
    requires BlockOk(b)
  {
    (phase + 3 + |PayloadBits(b, phase)|) / 8
  }

  /** A compressed block that takes no fewer bytes than it stands for. */
  ghost predicate Expands(ops: seq<Op>, phase: nat, trial: Block)
    requires BlockOk(trial)
  {
    TotalBytes(ops) > 0 && EndByte(phase, trial) - (phase + 1) / 8 + 1 >= TotalBytes(ops)
  }

  /** What the choice of a block depends on; inDict says whether its bytes are all still in the dictionary. */
  datatype Choice = Choice(
    ops: seq<Op>, bytes: seq<nat>, inDict: bool, phase: nat, flushStart: nat, lit: seq<nat>, dist: seq<nat>)

  /** Of bytes in the dictionary, a block that expands is written raw, and any if the flags ask for it, without trying; one
      that overflows the output buffer is written again with the fixed codes. */
  ghost predicate RightBlock(o: Options, c: Choice, trial: Block, b: Block) {
    BlockOk(trial)
    && (if c.inDict && (o.forceRawBlocks || Expands(c.ops, c.phase, trial)) then b == Stored(c.bytes)
        else if EndByte(c.phase, trial) >= c.flushStart + OUT_BUF_END then b == Static(c.ops)
        else b == trial)
    && ((c.inDict && o.forceRawBlocks) || TrialOf(o, c.ops, c.lit, c.dist, trial))
  }

  lemma RawIsRight(o: Options, c: Choice, trial: Block)
    requires BlockOk(trial) && c.inDict
    requires o.forceRawBlocks || (Expands(c.ops, c.phase, trial) && TrialOf(o, c.ops, c.lit, c.dist, trial))
    ensures RightBlock(o, c, trial, Stored(c.bytes))
  {}

  lemma StaticIsRight(o: Options, c: Choice, trial: Block)
    requires BlockOk(trial) && TrialOf(o, c.ops, c.lit, c.dist, trial)
    requires !c.inDict || (!o.forceRawBlocks && !Expands(c.ops, c.phase, trial))
    requires EndByte(c.phase, trial) >= c.flushStart + OUT_BUF_END
    ensures RightBlock(o, c, trial, Static(c.ops))
  {}

  lemma TrialIsRight(o: Options, c: Choice, trial: Block)
    requires BlockOk(trial) && TrialOf(o, c.ops, c.lit, c.dist, trial)
    requires !c.inDict || (!o.forceRawBlocks && !Expands(c.ops, c.phase, trial))
    requires EndByte(c.phase, trial) < c.flushStart + OUT_BUF_END
    ensures RightBlock(o, c, trial, trial)
  {}

  lemma EndIs(n: nat, bits: nat, total: nat)
    requires bits < 8 && 8 * n + bits == total
    ensures total / 8 == n
  {}

  lemma IsTrial(o: Options, ops: seq<Op>, lit: seq<nat>, dist: seq<nat>, b: Block, staticBlock: bool)
    requires BlockOk(b) && BlockOps(b) == ops && staticBlock == (o.forceStaticBlocks || TotalBytes(ops) < 48)
    requires if staticBlock then b == Static(ops) else Economical(b, lit, dist)
    ensures TrialOf(o, ops, lit, dist, b)
  {}

  /** The bytes written before and after the block. */
  lemma TrialMeasured(ops: seq<Op>, s: seq<bool>, s': seq<bool>, phase: nat, b: Block, n: nat, k: nat, n': nat, k': nat)
    requires BlockOk(b) && phase + 1 == |s| == 8 * n + k && k < 8 && |s'| == 8 * n' + k' && k' < 8
    requires s' == s + (BitsOf(BlockType(b), 2) + PayloadBits(b, phase))
    ensures EndByte(phase, b) == n' && (Expands(ops, phase, b) <==> TotalBytes(ops) > 0 && n' - n + 1 >= TotalBytes(ops))
  {
    EndIs(n, k, phase + 1);
    EndIs(n', k', phase + 3 + |PayloadBits(b, phase)|);
  }

  lemma NoPending(done: seq<Op>)
    ensures done + [] == done
  {}

  class Compressor {
    const d: Dictionary
    const codes: CodeBuffer
    const counts: Counts
    const w: BitWriter
    const options: Options
    var savedMatchLen: nat
    var savedMatchDist: nat
    var savedLit: nat
    var lzCodeBufDictPos: nat
    ghost var chunks: seq<Chunk> // the blocks written so far
    ghost var blockStart: nat // where in the stream the next block starts; lzCodeBufDictPos holds its low 32 bits

    constructor (options: Options)
      requires |options.maxProbes| == 2 && options.maxProbes[0] >= 1 && options.maxProbes[1] >= 1
      ensures Ready() && d.seen == []
      ensures fresh(d) && fresh(d.dict) && fresh(d.next) && fresh(d.hash) && fresh(w)
      ensures fresh(codes) && fresh(codes.buf) && fresh(counts) && fresh(counts.lit) && fresh(counts.dist)
    {
      d := new Dictionary();
      codes := new CodeBuffer();
      counts := new Counts();
      w := new BitWriter();
      this.options := options;
      savedMatchLen, savedMatchDist, savedLit, lzCodeBufDictPos, chunks, blockStart := 0, 0, 0, 0, [], 0;
      new;
      NoPending([]);
      Low32Start();
    }

    ghost predicate Separate() {
      && d.dict != codes.buf && d.next != codes.buf && d.hash != codes.buf
      && counts.lit != codes.buf && counts.dist != codes.buf
      && d.dict != counts.lit && d.next != counts.lit && d.hash != counts.lit
      && d.dict != counts.dist && d.next != counts.dist && d.hash != counts.dist
      && counts.lit != counts.dist
      && |options.maxProbes| == 2 && options.maxProbes[0] >= 1 && options.maxProbes[1] >= 1
    }

    ghost function AllOps(): seq<Op>
      reads `chunks, codes
    {
      StreamOps(chunks) + codes.Ops()
    }

    /** Blocks and pending operations together stand for the first n bytes. */
    ghost predicate Emitted(n: nat)
      reads `chunks, d`seen, codes, codes.buf, counts, counts.lit, counts.dist
    {
      && Separate() && codes.Valid() && counts.Of(codes.Ops())
      && StandFor(AllOps(), d.seen, n)
    }

    method EmitLiteral(lit: nat, ghost n: nat)
      requires Emitted(n) && n < |d.seen| && lit == d.seen[n] < 256 && codes.codeBuf + 1 < LZ_CODE_BUF_SIZE
      modifies codes, codes.buf, counts.lit, counts.dist
      ensures Emitted(n + 1) && codes.codeBuf <= old(codes.codeBuf) + 2 && codes.Ops() == old(codes.Ops()) + [Literal(lit)]
    {
      ghost var ops := codes.Ops();
      LiteralStands(AllOps(), d.seen, n);
      MoreOps(StreamOps(chunks), ops, Literal(lit));
      codes.RecordLiteral(lit);
      counts.CountLiteral(lit, ops);
      EmittedTo(n + 1);
    }

    method EmitMatch(len: nat, dist: nat, ghost n: nat)
      requires Emitted(n) && IsMatch(d.seen, n, len, dist) && codes.codeBuf + 3 < LZ_CODE_BUF_SIZE
      requires MIN_MATCH_LEN <= len <= MAX_MATCH_LEN && dist <= DICT_SIZE
      modifies codes, codes.buf, counts.lit, counts.dist
      ensures Emitted(n + len) && codes.codeBuf <= old(codes.codeBuf) + 4 && codes.Ops() == old(codes.Ops()) + [Match(len, dist)]
    {
      ghost var prior, ops := StreamOps(chunks), codes.Ops();
      MatchStands(prior + ops, d.seen, n, len, dist);
      PutMatch(len, dist, ops);
      EmittedWith(prior, ops, Match(len, dist), n + len);
    }

    /** The match goes into code buffer and counts. */
    method PutMatch(len: nat, dist: nat, ghost ops: seq<Op>)
      requires Separate() && codes.Valid() && codes.Ops() == ops && counts.Of(ops) && Recordable(Match(len, dist))
      requires codes.codeBuf + 3 < LZ_CODE_BUF_SIZE
      modifies codes, codes.buf, counts.lit, counts.dist
      ensures codes.Valid() && codes.Ops() == ops + [Match(len, dist)] && counts.Of(ops + [Match(len, dist)])
      ensures codes.codeBuf <= old(codes.codeBuf) + 4
    {
      codes.RecordMatch(len, dist);
      counts.CountMatch(len, dist, ops);
    }

    lemma EmittedWith(prior: seq<Op>, ops: seq<Op>, op: Op, n: nat)
      requires Separate() && codes.Valid() && counts.Of(ops + [op]) && codes.Ops() == ops + [op] && StreamOps(chunks) == prior
      requires StandFor(prior + ops + [op], d.seen, n)
      ensures Emitted(n)
    {
      MoreOps(prior, ops, op);
    }

    /** What is emitted depends on blocks, codes and counts alone. */
    twostate lemma StillEmitted(n: nat)
      requires old(Emitted(n)) && unchanged(`chunks, d`seen, codes, codes.buf, counts, counts.lit, counts.dist)
      ensures Emitted(n)
    {}

    lemma EmittedTo(n: nat)
      requires Separate() && codes.Valid() && counts.Of(codes.Ops()) && StandFor(AllOps(), d.seen, n)
      ensures Emitted(n)
    {}

    // ---------- The parser ----------

    /** The match held back by lazy parsing starts at the byte before the current position. */
    ghost predicate SavedOk()
      reads `savedMatchLen, `savedMatchDist, `savedLit, d`position, d`seen
    {
      savedMatchLen > 0 ==>
        && d.position >= 1 && MIN_MATCH_LEN <= savedMatchLen < 128 && savedMatchDist <= DICT_SIZE
        && d.position <= |d.seen| && savedLit == d.seen[d.position - 1]
        && IsMatch(d.seen, d.position - 1, savedMatchLen, savedMatchDist)
    }

    /** How many bytes the operations stand for: all up to the current position, but for one held back. */
    ghost function Parsed(): nat
      reads `savedMatchLen, d`position
    {
      if savedMatchLen > 0 && d.position > 0 then d.position - 1 else d.position
    }

    /** A match found at the current position is a true one; without one the length says nothing new. */
    ghost predicate Found(dist: nat, len: nat)
      reads `savedMatchLen, d`position, d`seen
    {
      if dist > 0 then IsMatch(d.seen, d.position, len, dist) && MIN_MATCH_LEN <= len <= MAX_MATCH_LEN && dist <= DICT_SIZE
      else len <= (if savedMatchLen > 0 then savedMatchLen else MIN_MATCH_LEN - 1)
    }

    /** Looks for a match at the current position, in the way the flags ask for. */
    method Search() returns (curMatchDist: nat, curMatchLen: nat, ghost offer: Offer)
      requires d.Valid() && SavedOk() && Separate() && d.lookaheadSize >= 1
      ensures Found(curMatchDist, curMatchLen) && OfferHere(offer)
      ensures var refused := Refused(options, d.position, offer.dist, offer.len);
              curMatchDist == (if refused then 0 else offer.dist) && curMatchLen == if refused then 0 else offer.len
    {
      curMatchDist, curMatchLen, offer := SearchAll();
      SamePlace(d.position, d.lookaheadPos, 0);
      if (curMatchLen == MIN_MATCH_LEN && curMatchDist >= 8 * 1024)
         || d.lookaheadPos % DICT_SIZE == curMatchDist
         || (options.filterMatches && curMatchLen <= 5)
      {
        curMatchDist, curMatchLen := 0, 0;
      }
    }

    ghost predicate OfferHere(offer: Offer)
      requires Separate()
      reads `savedMatchLen, d, d.next
    {
      Offered(options, d.Here(), savedMatchLen, offer)
    }

    /** Before anything is refused. */
    method SearchAll() returns (curMatchDist: nat, curMatchLen: nat, ghost offer: Offer)
      requires d.Valid() && SavedOk() && Separate() && d.lookaheadSize >= 1
      ensures Found(curMatchDist, curMatchLen) && OfferHere(offer) && curMatchDist == offer.dist && curMatchLen == offer.len
    {
      curMatchDist := 0;
      curMatchLen := if savedMatchLen > 0 then savedMatchLen else MIN_MATCH_LEN - 1;
      ghost var visited: nat := 0;
      if options.rleMatches || options.forceRawBlocks {
        if d.dictSize > 0 && !options.forceRawBlocks {
          curMatchLen := d.FindRun();
          if curMatchLen < MIN_MATCH_LEN { curMatchLen := 0; } else { curMatchDist := 1; }
        }
      } else {
        curMatchDist, curMatchLen, visited := d.FindMatch(options.maxProbes, curMatchDist, curMatchLen);
      }
      offer := Offer(curMatchDist, curMatchLen, visited);
    }

    /** The match held back. */
    ghost function Hold(): Held
      reads `savedMatchLen, `savedMatchDist, `savedLit
    {
      Held(savedMatchLen, savedMatchDist, savedLit)
    }

    /** The decision has been carried out, ops0 being recorded before. */
    ghost predicate Took(rule: Decision, ops0: seq<Op>)
      reads `savedMatchLen, `savedMatchDist, `savedLit, codes
    {
      codes.Ops() == ops0 + rule.ops && HoldIs(rule.held)
    }

    ghost predicate HoldIs(held: Held)
      reads `savedMatchLen, `savedMatchDist, `savedLit
    {
      savedMatchLen == held.len && (savedMatchLen > 0 ==> Hold() == held)
    }

    /** What the rules make of an offer at the current position. */
    ghost function RuleFor(offer: Offer): Decision
      requires d.position < |d.seen|
      reads `savedMatchLen, `savedMatchDist, `savedLit, d`position, d`seen
    {
      var refused := Refused(options, d.position, offer.dist, offer.len);
      Rule(options, Hold(), d.seen[d.position], if refused then 0 else offer.dist, if refused then 0 else offer.len)
    }

    /** Enough was recorded for moving on by lenToMove. */
    ghost predicate Decided(lenToMove: nat)
      reads `savedMatchLen, `savedMatchDist, `savedLit, `chunks, d`lookaheadSize, d`position, d`seen,
            codes, codes.buf, counts, counts.lit, counts.dist
    {
      && 1 <= lenToMove <= d.lookaheadSize && SavedAhead(lenToMove) && codes.codeBuf <= LZ_CODE_BUF_SIZE - 2
      && Emitted(d.position + lenToMove - (if savedMatchLen > 0 then 1 else 0))
    }

    lemma DecidedBy(len: nat, n: nat)
      requires 1 <= len <= d.lookaheadSize && savedMatchLen == 0 && n == d.position + len
      requires codes.codeBuf <= LZ_CODE_BUF_SIZE - 2 && Emitted(n)
      ensures Decided(len)
    {}

    /** Records the match at the current position. */
    method TakeMatch(len: nat, dist: nat)
      requires Emitted(d.position) && codes.codeBuf <= LZ_CODE_BUF_SIZE - 6 && len <= d.lookaheadSize
      requires IsMatch(d.seen, d.position, len, dist) && MIN_MATCH_LEN <= len <= MAX_MATCH_LEN && dist <= DICT_SIZE
      modifies `savedMatchLen, codes, codes.buf, counts.lit, counts.dist
      ensures savedMatchLen == 0 && Decided(len) && codes.Ops() == old(codes.Ops()) + [Match(len, dist)]
    {
      ghost var n := d.position + len;
      EmitMatch(len, dist, d.position);
      label Recorded:
      savedMatchLen := 0;
      StillEmitted@Recorded(n);
      DecidedBy(len, n);
    }

    /** The match held back gives way to a longer one: its first byte becomes a literal. */
    method Replace(curMatchDist: nat, curMatchLen: nat) returns (lenToMove: nat)
      requires Ready() && d.lookaheadSize >= 1 && savedMatchLen > 0 && Found(curMatchDist, curMatchLen) && curMatchDist > 0
      modifies `savedMatchLen, `savedMatchDist, `savedLit, codes, codes.buf, counts.lit, counts.dist
      ensures Decided(lenToMove) && TookOrHeld(curMatchDist, curMatchLen, lenToMove, old(codes.Ops()) + [Literal(old(savedLit))])
    {
      ghost var at := SavedAt();
      lenToMove := ReplaceAt(curMatchDist, curMatchLen, at);
    }

    method ReplaceAt(dist: nat, len: nat, ghost at: nat) returns (lenToMove: nat)
      requires at == d.position - 1 && Emitted(at) && d.Valid() && codes.codeBuf <= LZ_CODE_BUF_SIZE - 8
      requires d.lookaheadSize >= 1 && savedLit == d.seen[at] < 256 && Found(dist, len) && dist > 0
      modifies `savedMatchLen, `savedMatchDist, `savedLit, codes, codes.buf, counts.lit, counts.dist
      ensures Decided(lenToMove) && TookOrHeld(dist, len, lenToMove, old(codes.Ops()) + [Literal(old(savedLit))])
    {
      EmitLiteral(savedLit, at);
      d.Kept();
      lenToMove := TakeOrHold(dist, len);
    }

    ghost predicate TookOrHeld(dist: nat, len: nat, lenToMove: nat, ops0: seq<Op>)
      reads `savedMatchLen, `savedMatchDist, `savedLit, codes, d`position, d`seen
    {
      d.position < |d.seen| &&
      if len >= 128 then savedMatchLen == 0 && lenToMove == len && codes.Ops() == ops0 + [Match(len, dist)]
      else Hold() == Held(len, dist, d.seen[d.position]) && lenToMove == 1 && codes.Ops() == ops0
    }

    /** A long match is taken at once, a shorter one held back. */
    method TakeOrHold(dist: nat, len: nat) returns (lenToMove: nat)
      requires d.Valid() && Emitted(d.position) && codes.codeBuf <= LZ_CODE_BUF_SIZE - 6
      requires d.lookaheadSize >= 1 && Found(dist, len) && dist > 0
      modifies `savedMatchLen, `savedMatchDist, `savedLit, codes, codes.buf, counts.lit, counts.dist
      ensures Decided(lenToMove) && TookOrHeld(dist, len, lenToMove, old(codes.Ops()))
    {
      if len >= 128 {
        TakeMatch(len, dist);
        lenToMove := len;
      } else {
        Save(dist, len);
        lenToMove := 1;
      }
    }

    /** The match held back is taken. */
    method TakeSaved() returns (lenToMove: nat)
      requires Ready() && savedMatchLen > 0
      modifies `savedMatchLen, codes, codes.buf, counts.lit, counts.dist
      ensures Decided(lenToMove) && lenToMove == old(savedMatchLen) - 1 && savedMatchLen == 0
      ensures codes.Ops() == old(codes.Ops()) + [Match(old(savedMatchLen), old(savedMatchDist))]
    {
      ghost var at := SavedAt();
      lenToMove := TakeSavedAt(at);
    }

    lemma SavedAt() returns (at: nat)
      requires Ready() && savedMatchLen > 0
      ensures at == d.position - 1 && Emitted(at) && IsMatch(d.seen, at, savedMatchLen, savedMatchDist) && savedMatchDist <= DICT_SIZE
      ensures d.Valid() && codes.codeBuf <= LZ_CODE_BUF_SIZE - 8 && MIN_MATCH_LEN <= savedMatchLen < 128
      ensures savedMatchLen - 1 <= d.lookaheadSize && at < |d.seen| && savedLit == d.seen[at] < 256
    {
      at := d.position - 1;
    }

    method TakeSavedAt(ghost at: nat) returns (lenToMove: nat)
      requires at == d.position - 1 && Emitted(at) && IsMatch(d.seen, at, savedMatchLen, savedMatchDist) && savedMatchDist <= DICT_SIZE
      requires codes.codeBuf <= LZ_CODE_BUF_SIZE - 8 && MIN_MATCH_LEN <= savedMatchLen < 128
      requires savedMatchLen - 1 <= d.lookaheadSize
      modifies `savedMatchLen, codes, codes.buf, counts.lit, counts.dist
      ensures Decided(lenToMove) && lenToMove == old(savedMatchLen) - 1 && savedMatchLen == 0
      ensures codes.Ops() == old(codes.Ops()) + [Match(old(savedMatchLen), old(savedMatchDist))]
    {
      var len := savedMatchLen;
      EmitMatch(len, savedMatchDist, at);
      lenToMove := len - 1;
      label Recorded:
      savedMatchLen := 0;
      StillEmitted@Recorded(at + len);
      DecidedBy(lenToMove, at + len);
    }

    /** The lazy/greedy state machine: records or saves what was found, and says how far to move on. */
    method Decide(curMatchDist: nat, curMatchLen: nat) returns (lenToMove: nat)
      requires Ready() && d.lookaheadSize >= 1 && Found(curMatchDist, curMatchLen)
      modifies `savedMatchLen, `savedMatchDist, `savedLit, codes, codes.buf, counts.lit, counts.dist
      ensures Decided(lenToMove) && d.Valid() && Written() && Open()
      ensures var rule := old(Rule(options, Hold(), d.seen[d.position], curMatchDist, curMatchLen));
              Took(rule, old(codes.Ops())) && lenToMove == rule.move
    {
      lenToMove := RecordOrHold(curMatchDist, curMatchLen);
      d.Kept();
    }

    method RecordOrHold(curMatchDist: nat, curMatchLen: nat) returns (lenToMove: nat)
      requires Ready() && d.lookaheadSize >= 1 && Found(curMatchDist, curMatchLen)
      modifies `savedMatchLen, `savedMatchDist, `savedLit, codes, codes.buf, counts.lit, counts.dist
      ensures Decided(lenToMove)
      ensures var rule := old(Rule(options, Hold(), d.seen[d.position], curMatchDist, curMatchLen));
              Took(rule, old(codes.Ops())) && lenToMove == rule.move
    {
      ghost var rule, ops0 := Rule(options, Hold(), d.seen[d.position], curMatchDist, curMatchLen), codes.Ops();
      if savedMatchLen > 0 {
        if curMatchLen > savedMatchLen {
          lenToMove := Replace(curMatchDist, curMatchLen);
        } else {
          lenToMove := TakeSaved();
        }
      } else if curMatchDist == 0 {
        TakeLiteral();
        lenToMove := 1;
      } else {
        lenToMove := TakeNew(curMatchDist, curMatchLen);
      }
      TookAll(rule, ops0);
    }

    /** With no match held back, a match is taken or held back. */
    method TakeNew(dist: nat, len: nat) returns (lenToMove: nat)
      requires Ready() && d.lookaheadSize >= 1 && savedMatchLen == 0 && Found(dist, len) && dist > 0
      modifies `savedMatchLen, `savedMatchDist, `savedLit, codes, codes.buf, counts.lit, counts.dist
      ensures Decided(lenToMove)
      ensures if options.greedyParsing || options.rleMatches || len >= 128
              then savedMatchLen == 0 && lenToMove == len && codes.Ops() == old(codes.Ops()) + [Match(len, dist)]
              else Hold() == Held(len, dist, d.seen[d.position]) && lenToMove == 1 && codes.Ops() == old(codes.Ops())
    {
      if options.greedyParsing || options.rleMatches || len >= 128 {
        TakeMatch(len, dist);
        lenToMove := len;
      } else {
        HoldBack(dist, len);
        lenToMove := 1;
      }
    }

    lemma TookAll(rule: Decision, ops0: seq<Op>)
      requires codes.Ops() == ops0 + rule.ops && savedMatchLen == rule.held.len && (savedMatchLen > 0 ==> Hold() == rule.held)
      ensures Took(rule, ops0)
    {}

    /** Without a match the current byte is a literal. */
    method TakeLiteral()
      requires Ready() && d.lookaheadSize >= 1 && savedMatchLen == 0
      modifies codes, codes.buf, counts.lit, counts.dist
      ensures Decided(1) && codes.Ops() == old(codes.Ops()) + [Literal(d.seen[d.position])]
    {
      var lit := d.Current();
      ghost var n := d.position + 1;
      EmitLiteral(lit, d.position);
      DecidedBy(1, n);
    }

    /** A short match may be bettered by one that starts at the next byte. */
    method HoldBack(dist: nat, len: nat)
      requires Ready() && d.lookaheadSize >= 1 && savedMatchLen == 0 && Found(dist, len) && dist > 0 && len < 128
      modifies `savedMatchLen, `savedMatchDist, `savedLit
      ensures Decided(1) && Hold() == Held(len, dist, d.seen[d.position])
    {
      Save(dist, len);
    }

    /** SavedOk as it will be after moving on. */
    ghost predicate SavedAhead(n: nat)
      reads `savedMatchLen, `savedMatchDist, `savedLit, d`position, d`seen
    {
      savedMatchLen > 0 ==>
        && n == 1 && MIN_MATCH_LEN <= savedMatchLen < 128 && savedMatchDist <= DICT_SIZE
        && d.position < |d.seen| && savedLit == d.seen[d.position]
        && IsMatch(d.seen, d.position, savedMatchLen, savedMatchDist)
    }

    method Save(curMatchDist: nat, curMatchLen: nat)
      requires d.Valid() && d.lookaheadSize >= 1 && MIN_MATCH_LEN <= curMatchLen < 128 && curMatchDist <= DICT_SIZE
      requires IsMatch(d.seen, d.position, curMatchLen, curMatchDist)
      modifies `savedMatchLen, `savedMatchDist, `savedLit
      ensures savedMatchLen > 0 && SavedAhead(1) && Hold() == Held(curMatchLen, curMatchDist, d.seen[d.position])
    {
      savedLit := d.Current();
      savedMatchDist, savedMatchLen := curMatchDist, curMatchLen;
    }

    // ---------- Blocks ----------

    /** The stream so far consists of the blocks so far, and they stand for the bytes up to blockStart. */
    ghost predicate Written()
      reads `chunks, `lzCodeBufDictPos, `blockStart, w, d`seen
    {
      && w.Valid() && ChunksOk(chunks) && w.Stream() == StreamBits(chunks) && Low32(lzCodeBufDictPos, blockStart)
      && StandFor(StreamOps(chunks), d.seen, blockStart)
    }

    /** What a block of the pending operations may be: the operations themselves, or their bytes. */
    ghost predicate BlockFor(b: Block, ops: seq<Op>, bytes: seq<nat>) {
      BlockOk(b) && (BlockOps(b) == ops || b == Stored(bytes))
    }

    /** The block has been written after s, within the output buffer that began at flushStart. */
    ghost predicate BlockPut(b: Block, ops: seq<Op>, bytes: seq<nat>, s: seq<bool>, phase: nat, flushStart: nat)
      reads w
    {
      && w.Valid() && BlockFor(b, ops, bytes) && |w.outputBuf| < flushStart + OUT_BUF_END
      && w.Stream() == s + (BitsOf(BlockType(b), 2) + PayloadBits(b, phase))
    }

    /** The operations of the block are in the code buffer and the counts, and its bytes are the last ones parsed. */
    ghost predicate Pending(end: nat, ops: seq<Op>, bytes: seq<nat>)
      reads `lzCodeBufDictPos, `blockStart, d, d.dict, d.next, d.hash, codes, codes.buf, counts, counts.lit, counts.dist
    {
      && d.Valid() && Separate() && counts.Of(ops) && |ops| < 0xFFFF
      && end <= codes.buf.Length == LZ_CODE_BUF_SIZE && codes.buf[..end] == Encoded(ops) && codes.totalLzBytes == TotalBytes(ops)
      && Low32(lzCodeBufDictPos, blockStart) && blockStart + codes.totalLzBytes <= d.position < blockStart + 0x1_0000_0000
      && bytes == d.seen[blockStart..blockStart + codes.totalLzBytes]
    }

    /** Writes the compressed block, and tells whether it fits the output buffer and whether it is worth while. */
    method TryCompressed(flushStart: nat, end: nat, ghost ops: seq<Op>, ghost bytes: seq<nat>, ghost s: seq<bool>, ghost phase: nat)
      returns (ghost b: Block, succeeded: bool, expanded: bool)
      requires w.Valid() && Separate() && counts.Of(ops) && |ops| < 0xFFFF && s == w.Stream() && phase + 1 == |s|
      requires end <= codes.buf.Length && codes.buf[..end] == Encoded(ops) && codes.totalLzBytes == TotalBytes(ops)
      modifies w
      ensures Tried(b, succeeded, expanded, ops, bytes, s, phase, flushStart)
    {
      var start := |w.outputBuf|;
      ghost var bits := w.bitsIn;
      var staticBlock := options.forceStaticBlocks || codes.totalLzBytes < 48;
      b := PutHuffmanBlock(w, staticBlock, counts.lit[..], counts.dist[..], codes.buf[..end], ops, phase);
      succeeded := |w.outputBuf| < flushStart + OUT_BUF_END;
      expanded := codes.totalLzBytes > 0 && |w.outputBuf| - start + 1 >= codes.totalLzBytes;
      IsTrial(options, ops, counts.lit[..], counts.dist[..], b, staticBlock);
      TrialMeasured(ops, s, w.Stream(), phase, b, start, bits, |w.outputBuf|, w.bitsIn);
      if succeeded { PutDone(b, ops, bytes, s, phase, flushStart); }
      IsTried(b, succeeded, expanded, ops, bytes, s, phase, flushStart);
    }

    /** The compressed block, whether it fits, and whether it expands. */
    ghost predicate Tried(b: Block, succeeded: bool, expanded: bool, ops: seq<Op>, bytes: seq<nat>, s: seq<bool>, phase: nat, flushStart: nat)
      reads w, counts.lit, counts.dist
    {
      && BlockOk(b) && TrialOf(options, ops, counts.lit[..], counts.dist[..], b)
      && expanded == Expands(ops, phase, b) && succeeded == (EndByte(phase, b) < flushStart + OUT_BUF_END)
      && (succeeded ==> BlockPut(b, ops, bytes, s, phase, flushStart))
    }

    lemma IsTried(b: Block, succeeded: bool, expanded: bool, ops: seq<Op>, bytes: seq<nat>, s: seq<bool>, phase: nat, flushStart: nat)
      requires BlockOk(b) && TrialOf(options, ops, counts.lit[..], counts.dist[..], b)
      requires expanded == Expands(ops, phase, b) && succeeded == (EndByte(phase, b) < flushStart + OUT_BUF_END)
      requires succeeded ==> BlockPut(b, ops, bytes, s, phase, flushStart)
      ensures Tried(b, succeeded, expanded, ops, bytes, s, phase, flushStart)
    {}

    /** The body of tdefl_flush_block between the final flag and the clean-up: a raw block if the flags ask for it or the
        compressed block would be no shorter, otherwise a compressed block, and a static one if that overflows. Whichever it
        is, it ends within the output buffer. */
    method PutBlock(flushStart: nat, end: nat, ghost ops: seq<Op>, ghost bytes: seq<nat>, ghost s: seq<bool>, ghost phase: nat)
      returns (ghost b: Block, ghost choice: Choice, ghost trial: Block)
      requires Pending(end, ops, bytes) && w.Valid() && s == w.Stream() && phase + 1 == |s| && |w.outputBuf| <= flushStart + 1
      modifies w
      ensures BlockPut(b, ops, bytes, s, phase, flushStart)
      ensures choice == ChoiceOf(ops, bytes, phase, flushStart) && RightBlock(options, choice, trial, b)
    {
      SameGap(d.position, blockStart, d.lookaheadPos, lzCodeBufDictPos);
      var inDict := U32(d.lookaheadPos - lzCodeBufDictPos) <= d.dictSize;
      var useRawBlock := options.forceRawBlocks && inDict;
      var saved := w.Save();
      if useRawBlock {
        StaticCodesAll(ops);
        trial := Static(ops);
        b := PutRawBlock(flushStart, saved, ops, bytes, phase);
        choice := ChoiceOf(ops, bytes, phase, flushStart);
        RawIsRight(options, choice, trial);
      } else {
        choice := ChoiceOf(ops, bytes, phase, flushStart);
        b, trial := PutCompressed(flushStart, end, inDict, saved, choice, ops, bytes, phase);
      }
    }

    method PutCompressed(flushStart: nat, end: nat, inDict: bool, saved: WriterState,
                         ghost choice: Choice, ghost ops: seq<Op>, ghost bytes: seq<nat>, ghost phase: nat)
        returns (ghost b: Block, ghost trial: Block)
      requires Pending(end, ops, bytes) && w.Valid() && saved.Stream() == w.Stream() && phase + 1 == |w.Stream()|
      requires inDict == (d.position <= blockStart + d.dictSize) && !(options.forceRawBlocks && inDict)
      requires saved.Valid() && |saved.outputBuf| <= flushStart + 1 && choice == ChoiceOf(ops, bytes, phase, flushStart)
      modifies w
      ensures BlockPut(b, ops, bytes, saved.Stream(), phase, flushStart) && RightBlock(options, choice, trial, b)
    {
      var succeeded, expanded;
      trial, succeeded, expanded := TryCompressed(flushStart, end, ops, bytes, saved.Stream(), phase);
      b := PutInstead(flushStart, end, inDict, saved, succeeded, expanded, choice, trial, ops, bytes, phase);
    }

    /** The compressed block stays, or is taken back and another one written. */
    method PutInstead(flushStart: nat, end: nat, inDict: bool, saved: WriterState, succeeded: bool, expanded: bool,
                      ghost choice: Choice, ghost trial: Block, ghost ops: seq<Op>, ghost bytes: seq<nat>, ghost phase: nat) returns (ghost b: Block)
      requires Pending(end, ops, bytes) && saved.Valid() && phase + 1 == |saved.Stream()| && |saved.outputBuf| <= flushStart + 1
      requires inDict == (d.position <= blockStart + d.dictSize) && !(options.forceRawBlocks && inDict)
      requires choice == ChoiceOf(ops, bytes, phase, flushStart)
      requires Tried(trial, succeeded, expanded, ops, bytes, saved.Stream(), phase, flushStart)
      modifies w
      ensures BlockPut(b, ops, bytes, saved.Stream(), phase, flushStart) && RightBlock(options, choice, trial, b)
    {
      b := trial;
      if expanded && inDict {
        b := PutRawBlock(flushStart, saved, ops, bytes, phase);
        RawIsRight(options, choice, trial);
      } else if !succeeded {
        b := PutFallback(flushStart, saved, end, ops, bytes, phase);
        StaticIsRight(options, choice, trial);
      } else {
        TrialIsRight(options, choice, trial);
      }
    }

    /** The bytes of the pending operations, up to n. */
    ghost function BytesTo(n: nat): seq<nat>
      reads `blockStart, d`seen
    {
      if blockStart <= n <= |d.seen| then d.seen[blockStart..n] else []
    }

    ghost function ChoiceAt(n: nat): Choice
      reads `blockStart, d`seen, d`position, d`dictSize, w, codes, counts.lit, counts.dist
    {
      ChoiceOf(codes.Ops(), BytesTo(n), |w.Stream()|, |w.outputBuf|)
    }

    ghost function ChoiceOf(ops: seq<Op>, bytes: seq<nat>, phase: nat, flushStart: nat): Choice
      reads `blockStart, d`position, d`dictSize, counts.lit, counts.dist
    {
      Choice(ops, bytes, d.position <= blockStart + d.dictSize, phase, flushStart, counts.lit[..], counts.dist[..])
    }

    /** A block with the fixed codes, from where the writer was before, always fits. */
    method PutFallback(flushStart: nat, saved: WriterState, end: nat, ghost ops: seq<Op>, ghost bytes: seq<nat>, ghost phase: nat)
      returns (ghost b: Block)
      requires saved.Valid() && Separate() && counts.Of(ops) && |ops| < 0xFFFF && |saved.outputBuf| <= flushStart + 1
      requires end <= codes.buf.Length == LZ_CODE_BUF_SIZE && codes.buf[..end] == Encoded(ops)
      modifies w
      ensures BlockPut(b, ops, bytes, saved.Stream(), phase, flushStart) && b == Static(ops)
    {
      w.Restore(saved);
      ghost var before, bits, stream := |w.outputBuf|, w.bitsIn, w.Stream();
      PutStaticBlock(w, codes.buf[..end], ops);
      b := Static(ops);
      StaticFits(ops);
      WithinBuffer(flushStart, before, bits, |w.outputBuf|, w.bitsIn, |w.Stream()| - |stream|);
    }

    /** A raw block holds at most the dictionary. */
    method PutRawBlock(flushStart: nat, saved: WriterState, ghost ops: seq<Op>, ghost bytes: seq<nat>, ghost phase: nat)
      returns (ghost b: Block)
      requires d.Valid() && saved.Valid() && Separate() && d.position <= blockStart + d.dictSize && Low32(lzCodeBufDictPos, blockStart)
      requires blockStart + codes.totalLzBytes <= d.position && phase + 1 == |saved.Stream()|
      requires bytes == d.seen[blockStart..blockStart + codes.totalLzBytes] && |saved.outputBuf| <= flushStart + 1
      modifies w
      ensures BlockPut(b, ops, bytes, saved.Stream(), phase, flushStart) && b == Stored(bytes)
    {
      var content := d.History(lzCodeBufDictPos, codes.totalLzBytes, blockStart);
      b := PutContent(flushStart, saved, content, ops, phase);
    }

    method PutContent(flushStart: nat, saved: WriterState, content: seq<nat>, ghost ops: seq<Op>, ghost phase: nat)
      returns (ghost b: Block)
      requires saved.Valid() && Bytes(content) && |content| <= DICT_SIZE && phase + 1 == |saved.Stream()|
      requires |saved.outputBuf| <= flushStart + 1
      modifies w
      ensures BlockPut(b, ops, content, saved.Stream(), phase, flushStart) && b == Stored(content)
    {
      w.Restore(saved);
      ghost var before, bits, stream := |w.outputBuf|, w.bitsIn, w.Stream();
      PutStoredBlock(w, content, phase + 3);
      b := Stored(content);
      WithinBuffer(flushStart, before, bits, |w.outputBuf|, w.bitsIn, |w.Stream()| - |stream|);
      PutDone(b, ops, content, stream, phase, flushStart);
    }

    lemma PutDone(b: Block, ops: seq<Op>, bytes: seq<nat>, s: seq<bool>, phase: nat, flushStart: nat)
      requires w.Valid() && BlockFor(b, ops, bytes) && |w.outputBuf| < flushStart + OUT_BUF_END
      requires w.Stream() == s + (BitsOf(BlockType(b), 2) + PayloadBits(b, phase))
      ensures BlockPut(b, ops, bytes, s, phase, flushStart)
    {}

    /** Nothing is pending any more: the last block covers all operations. */
    ghost predicate Flushed(n: nat)
      reads `chunks, `lzCodeBufDictPos, `blockStart, d`seen, w, codes, codes.buf, counts, counts.lit, counts.dist
    {
      Written() && Emitted(n) && codes.Ops() == [] && codes.codeBuf == 1 && blockStart == n
    }

    /** Final flag, block, clean-up. */
    method PutChunk(final: bool, ghost n: nat) returns (ghost b: Block, ghost choice: Choice, ghost trial: Block)
      requires d.Valid() && Written() && Emitted(n) && n <= d.position <= n + 1 && codes.codeBuf <= LZ_CODE_BUF_SIZE - 2
      modifies `lzCodeBufDictPos, `blockStart, `chunks, w, codes, codes.buf, counts.lit, counts.dist
      ensures Flushed(n) && (old(Open()) ==> if final then Terminated(chunks) else Open())
      ensures chunks == old(chunks) + [Chunk(final, b)]
      ensures RightBlock(options, choice, trial, b) && choice == old(ChoiceAt(n))
      ensures |w.outputBuf| < old(|w.outputBuf|) + OUT_BUF_END
    {
      ghost var ops, done, s := codes.Ops(), StreamOps(chunks), w.Stream();
      PendingBytes(done, ops, d.seen, blockStart, n);
      ghost var bytes := BytesTo(n);
      b, choice, trial := CloseAndPut(final, ops, bytes, s, n);
      ghost var c := Chunk(final, b);
      ChunkDone(c, done, ops, s, n);
      OneMoreChunk(chunks, c);
      FinishChunk(c, n);
    }

    /** A block that is not the last leaves the dictionary as it is. */
    method PutMiddleChunk(ghost n: nat) returns (ghost b: Block)
      requires d.Valid() && Written() && Emitted(n) && n <= d.position <= n + 1 && codes.codeBuf <= LZ_CODE_BUF_SIZE - 2 && Open()
      modifies `lzCodeBufDictPos, `blockStart, `chunks, w, codes, codes.buf, counts.lit, counts.dist
      ensures Flushed(n) && Open() && chunks == old(chunks) + [Chunk(false, b)] && d.Valid()
    {
      ghost var choice, trial;
      b, choice, trial := PutChunk(false, n);
      d.Kept();
    }

    method CloseAndPut(final: bool, ghost ops: seq<Op>, ghost bytes: seq<nat>, ghost s: seq<bool>, ghost n: nat)
        returns (ghost b: Block, ghost choice: Choice, ghost trial: Block)
      requires d.Valid() && Written() && Emitted(n) && n <= d.position <= n + 1 && codes.codeBuf <= LZ_CODE_BUF_SIZE - 2
      requires ops == codes.Ops() && n == blockStart + TotalBytes(ops) && bytes == BytesTo(n) && s == w.Stream()
      modifies w, codes, codes.buf
      ensures |w.outputBuf| < old(|w.outputBuf|) + OUT_BUF_END && w.Valid() && BlockFor(b, ops, bytes)
      ensures w.Stream() == s + BitsOf(if final then 1 else 0, 1) + (BitsOf(BlockType(b), 2) + PayloadBits(b, |s|))
      ensures RightBlock(options, choice, trial, b) && choice == old(ChoiceAt(n))
      ensures codes.totalLzBytes == old(codes.totalLzBytes) && forall i :: 0 <= i < codes.buf.Length ==> codes.buf[i] < 256
    {
      var end := CloseCodes(ops, bytes, n);
      b, choice, trial := PutFlagAndBlock(final, end, ops, bytes, s);
    }

    /** The last flag byte is shifted down, and everything is ready for the block. */
    method CloseCodes(ghost ops: seq<Op>, ghost bytes: seq<nat>, ghost n: nat) returns (end: nat)
      requires d.Valid() && Written() && Emitted(n) && n <= d.position <= n + 1 && codes.codeBuf <= LZ_CODE_BUF_SIZE - 2
      requires ops == codes.Ops() && n == blockStart + TotalBytes(ops) && bytes == BytesTo(n)
      modifies codes, codes.buf
      ensures Pending(end, ops, bytes) && w.Valid() && codes.totalLzBytes == old(codes.totalLzBytes)
      ensures forall i :: 0 <= i < codes.buf.Length ==> codes.buf[i] < 256
    {
      end := codes.Close();
      d.Kept();
      FewOps(ops, end);
      NotFar(ops, blockStart, n, d.position);
      IsPending(end, ops, bytes);
    }

    lemma IsPending(end: nat, ops: seq<Op>, bytes: seq<nat>)
      requires d.Valid() && Separate() && counts.Of(ops) && |ops| < 0xFFFF
      requires end <= codes.buf.Length == LZ_CODE_BUF_SIZE && codes.buf[..end] == Encoded(ops) && codes.totalLzBytes == TotalBytes(ops)
      requires Low32(lzCodeBufDictPos, blockStart) && blockStart + codes.totalLzBytes <= d.position < blockStart + 0x1_0000_0000
      requires bytes == d.seen[blockStart..blockStart + codes.totalLzBytes]
      ensures Pending(end, ops, bytes)
    {}

    lemma ChunkDone(c: Chunk, done: seq<Op>, ops: seq<Op>, s: seq<bool>, n: nat)
      requires w.Valid() && ChunksOk(chunks) && s == StreamBits(chunks) && done == StreamOps(chunks) && blockStart <= n
      requires StandFor(done, d.seen, blockStart) && StandFor(done + ops, d.seen, n) && BlockFor(c.block, ops, d.seen[blockStart..n])
      requires w.Stream() == s + BitsOf(if c.final then 1 else 0, 1) + (BitsOf(BlockType(c.block), 2) + PayloadBits(c.block, |s|))
      ensures ChunksOk(chunks + [c]) && w.Stream() == StreamBits(chunks + [c]) && StandFor(StreamOps(chunks + [c]), d.seen, n)
    {
      ChunkPut(chunks, s, c, w.Stream());
      BlockStands(done, ops, d.seen, blockStart, n, c.block);
    }

    method PutFlagAndBlock(final: bool, end: nat, ghost ops: seq<Op>, ghost bytes: seq<nat>, ghost s: seq<bool>)
        returns (ghost b: Block, ghost choice: Choice, ghost trial: Block)
      requires Pending(end, ops, bytes) && w.Valid() && s == w.Stream()
      modifies w
      ensures |w.outputBuf| < old(|w.outputBuf|) + OUT_BUF_END
      ensures w.Valid() && BlockFor(b, ops, bytes)
      ensures choice == ChoiceOf(ops, bytes, |s|, old(|w.outputBuf|)) && RightBlock(options, choice, trial, b)
      ensures w.Stream() == s + BitsOf(if final then 1 else 0, 1) + (BitsOf(BlockType(b), 2) + PayloadBits(b, |s|))
    {
      var flushStart := |w.outputBuf|;
      ghost var bits := w.bitsIn;
      assert Pow2(1) == 2;
      w.PutBits(if final then 1 else 0, 1);
      assert 8 * |w.outputBuf| + w.bitsIn == 8 * flushStart + bits + 1;
      b, choice, trial := PutBlock(flushStart, end, ops, bytes, w.Stream(), |s|);
    }

    /** Counts and code buffer start over. */
    method FinishChunk(ghost c: Chunk, ghost n: nat)
      requires Separate() && codes.buf.Length == LZ_CODE_BUF_SIZE && forall i :: 0 <= i < codes.buf.Length ==> codes.buf[i] < 256
      requires counts.lit.Length == LIT_SYMBOLS && counts.dist.Length == DIST_SYMBOLS && n == blockStart + codes.totalLzBytes
      requires w.Valid() && ChunksOk(chunks + [c]) && w.Stream() == StreamBits(chunks + [c])
      requires StandFor(StreamOps(chunks + [c]), d.seen, n) && Low32(lzCodeBufDictPos, blockStart)
      modifies `lzCodeBufDictPos, `blockStart, `chunks, codes, counts.lit, counts.dist
      ensures Flushed(n) && chunks == old(chunks) + [c]
    {
      MoveStart(codes.totalLzBytes);
      counts.Clear();
      codes.Reset();
      chunks := chunks + [c];
      NothingPending(n);
    }

    method MoveStart(total: nat)
      requires Low32(lzCodeBufDictPos, blockStart)
      modifies `lzCodeBufDictPos, `blockStart
      ensures Low32(lzCodeBufDictPos, blockStart) && blockStart == old(blockStart) + total
    {
      SameSum(blockStart, lzCodeBufDictPos, total);
      lzCodeBufDictPos, blockStart := U32(lzCodeBufDictPos + total), blockStart + total;
    }

    lemma NothingPending(n: nat)
      requires w.Valid() && ChunksOk(chunks) && w.Stream() == StreamBits(chunks) && StandFor(StreamOps(chunks), d.seen, n)
      requires Separate() && codes.Valid() && counts.Of([]) && codes.Ops() == [] && codes.codeBuf == 1 && blockStart == n
      requires Low32(lzCodeBufDictPos, blockStart)
      ensures Flushed(n)
    {
      NoPending(StreamOps(chunks));
    }

    /** No block so far is the final one. */
    ghost predicate Open()
      reads `chunks
    {
      NoneFinal(chunks)
    }

    /** Invariant of the parser. */
    ghost predicate Steady()
      reads this, d, d.dict, d.next, d.hash, w, codes, codes.buf, counts, counts.lit, counts.dist
    {
      && d.Valid() && Written() && Open() && SavedOk() && Emitted(Parsed())
      && codes.codeBuf <= LZ_CODE_BUF_SIZE - 2
    }

    /** At the head of the loop there is room in the code buffer for whatever one step records. */
    ghost predicate Ready()
      reads this, d, d.dict, d.next, d.hash, w, codes, codes.buf, counts, counts.lit, counts.dist
    {
      Steady() && codes.codeBuf <= LZ_CODE_BUF_SIZE - 8
    }

    /** An empty raw block, which ends on a byte boundary. */
    method PutSync(ghost n: nat)
      requires Flushed(n) && Open()
      modifies `chunks, w
      ensures Flushed(n) && Open() && w.bitsIn == 0 && chunks == old(chunks) + [Chunk(false, Stored([]))]
    {
      ghost var s, c := w.Stream(), Chunk(false, Stored([]));
      PutEmptyBlock(w, s);
      SyncChunk(chunks, s, w.Stream());
      OneMoreChunk(chunks, c);
      chunks := chunks + [c];
    }

    /** After a flush the stream ends with an empty raw block on a byte boundary. */
    ghost predicate Synced(flush: Flush, chunks0: seq<Chunk>)
      reads `chunks, w
    {
      if flush == NoFlush then chunks == chunks0 else w.bitsIn == 0 && chunks == chunks0 + [Chunk(false, Stored([]))]
    }

    method PutSyncFor(flush: Flush, ghost n: nat)
      requires Flushed(n) && Open()
      modifies `chunks, w
      ensures Flushed(n) && Open() && Synced(flush, old(chunks))
    {
      if flush != NoFlush { PutSync(n); }
    }

    /** tdefl_flush_block in the middle of the stream. */
    method FlushBlock(flush: Flush) returns (ghost b: Block)
      requires Ready() && flush != Finish
      modifies `lzCodeBufDictPos, `blockStart, `chunks, w, codes, codes.buf, counts.lit, counts.dist
      ensures Ready() && blockStart == Parsed() && Synced(flush, old(chunks) + [Chunk(false, b)])
    {
      ghost var n := Parsed();
      b := PutMiddleChunk(n);
      assert SavedOk();
      EndFlush(flush, n);
    }

    method EndFlush(flush: Flush, ghost n: nat)
      requires Flushed(n) && Open() && d.Valid() && SavedOk() && n == Parsed()
      modifies `chunks, w
      ensures Ready() && blockStart == Parsed() && Synced(flush, old(chunks))
    {
      PutSyncFor(flush, n);
      ReadyStill(n);
    }

    twostate lemma ReadyStill(n: nat)
      requires old(d.Valid()) && old(SavedOk()) && n == old(Parsed())
      requires unchanged(d, d.dict, d.next, d.hash) && unchanged(`savedMatchLen, `savedMatchDist, `savedLit)
      requires Flushed(n) && Open()
      ensures Ready() && n == Parsed()
    {
      d.Kept();
      ReadyAgain(n);
    }

    lemma ReadyAgain(n: nat)
      requires Flushed(n) && Open() && d.Valid() && SavedOk() && n == Parsed()
      ensures Ready()
    {}

    /** tdefl_flush_block at the end: the final block, padded to a whole byte. */
    method FlushFinal() returns (ghost b: Block)
      requires Ready() && savedMatchLen == 0
      modifies `lzCodeBufDictPos, `blockStart, `chunks, w, codes, codes.buf, counts.lit, counts.dist
      ensures w.Valid() && w.bitsIn == 0 && Deflated(w.outputBuf, chunks, d.seen[..d.position])
      ensures chunks == old(chunks) + [Chunk(true, b)]
    {
      ghost var choice, trial;
      b, choice, trial := PutChunk(true, d.position);
      PadFinal(d.position);
    }

    /** The last byte is filled up with zero bits. */
    method PadFinal(ghost n: nat)
      requires Flushed(n) && Terminated(chunks)
      modifies w
      ensures w.Valid() && w.bitsIn == 0 && Deflated(w.outputBuf, chunks, d.seen[..n])
    {
      ghost var s := w.Stream();
      Align(w, |s|);
      PaddedIsWhole(|w.outputBuf|, w.bitsIn, |s|);
      assert d.seen[..n][..n] == d.seen[..n];
      NoPending(StreamOps(chunks));
    }

    /** One round of the parser's loop, once the lookahead is filled, to its end unless a flush is asked for. */
    method Step(ghost flush: Flush) returns (ghost offer: Offer, ghost rule: Decision)
      requires Ready() && d.lookaheadSize >= 1 && (flush == NoFlush ==> d.lookaheadSize == MAX_MATCH_LEN)
      modifies this, d, w, codes, codes.buf, counts.lit, counts.dist
      ensures Ready() && d.seen == old(d.seen) && d.lookaheadSize < old(d.lookaheadSize)
      ensures old(OfferHere(offer)) && rule == old(RuleFor(offer)) && d.position == old(d.position) + rule.move
      ensures HoldIs(rule.held) && BlockIfFull(old(codes.Ops()) + rule.ops, old(chunks))
    {
      ghost var chunks0 := chunks;
      offer, rule := ParseOne();
      FlushIfFull(codes.Ops(), chunks0, rule.held);
    }

    /** A block has been written if and only if the operations make it full. */
    ghost predicate BlockIfFull(ops: seq<Op>, chunks0: seq<Chunk>)
      reads `chunks, codes
    {
      if BlockFull(options, ops) then codes.Ops() == [] && |chunks| == |chunks0| + 1 else codes.Ops() == ops && chunks == chunks0
    }

    /** The check at the end of the loop. */
    method FlushIfFull(ghost ops: seq<Op>, ghost chunks0: seq<Chunk>, ghost held: Held)
      requires Steady() && ops == codes.Ops() && chunks0 == chunks && HoldIs(held)
      modifies `lzCodeBufDictPos, `blockStart, `chunks, w, codes, codes.buf, counts.lit, counts.dist
      ensures Ready() && BlockIfFull(ops, chunks0) && HoldIs(held)
    {
      var full := IsFull(ops);
      if full { FlushFull(); }
    }

    method IsFull(ghost ops: seq<Op>) returns (full: bool)
      requires codes.Valid() && ops == codes.Ops()
      ensures full == BlockFull(options, ops) && (!full ==> codes.codeBuf <= LZ_CODE_BUF_SIZE - 8)
    {
      ghost var q := codes.EndOfCodes();
      FullBy(options, ops, q, codes.codeBuf, codes.totalLzBytes);
      full := codes.codeBuf > LZ_CODE_BUF_SIZE - 8
              || (codes.totalLzBytes > 31 * 1024
                  && (codes.codeBuf * 115 / 128 >= codes.totalLzBytes || options.forceRawBlocks));
    }

    /** One step of the parser: search, decide, move on. */
    method ParseOne() returns (ghost offer: Offer, ghost rule: Decision)
      requires Ready() && d.lookaheadSize >= 1
      modifies `savedMatchLen, `savedMatchDist, `savedLit, codes, codes.buf, counts.lit, counts.dist,
               d`lookaheadPos, d`position, d`lookaheadSize, d`dictSize
      ensures Steady() && d.lookaheadSize < old(d.lookaheadSize)
      ensures old(OfferHere(offer)) && rule == old(RuleFor(offer))
      ensures Took(rule, old(codes.Ops())) && d.position == old(d.position) + rule.move
    {
      var lenToMove;
      lenToMove, offer, rule := SearchAndDecide();
      MoveOn(lenToMove);
    }

    method SearchAndDecide() returns (lenToMove: nat, ghost offer: Offer, ghost rule: Decision)
      requires Ready() && d.lookaheadSize >= 1
      modifies `savedMatchLen, `savedMatchDist, `savedLit, codes, codes.buf, counts.lit, counts.dist
      ensures Decided(lenToMove) && d.Valid() && Written() && Open()
      ensures old(OfferHere(offer)) && rule == old(RuleFor(offer)) && Took(rule, old(codes.Ops())) && lenToMove == rule.move
    {
      var curMatchDist, curMatchLen;
      curMatchDist, curMatchLen, offer := Search();
      rule := RuleFor(offer);
      lenToMove := Decide(curMatchDist, curMatchLen);
    }

    method MoveOn(lenToMove: nat)
      requires Decided(lenToMove) && d.Valid() && Written() && Open()
      modifies d`lookaheadPos, d`position, d`lookaheadSize, d`dictSize
      ensures Steady() && d.lookaheadSize < old(d.lookaheadSize) && d.position == old(d.position) + lenToMove
    {
      ghost var n: nat := d.position + lenToMove - (if savedMatchLen > 0 then 1 else 0);
      assert Emitted(n);
      d.Advance(lenToMove);
      assert Parsed() == n;
      Moved(n);
    }

    lemma Moved(n: nat)
      requires d.Valid() && Written() && Open() && SavedOk() && Emitted(n) && n == Parsed()
      requires codes.codeBuf <= LZ_CODE_BUF_SIZE - 2
      ensures Steady()
    {}

    /** The flush inside the loop. */
    method FlushFull()
      requires Steady()
      modifies `lzCodeBufDictPos, `blockStart, `chunks, w, codes, codes.buf, counts.lit, counts.dist
      ensures Ready() && codes.Ops() == [] && |chunks| == old(|chunks|) + 1
    {
      ghost var n := Parsed();
      ghost var b := PutMiddleChunk(n);
      assert SavedOk();
      ReadyAgain(n);
    }

    /** New bytes in the lookahead leave everything recorded as it is. */
    method Fill(src: seq<nat>) returns (n: nat)
      requires Ready() && Bytes(src)
      modifies d`lookaheadSize, d`seen, d`dictSize, d.dict, d.next, d.hash
      ensures Ready() && n <= |src| && d.seen == old(d.seen) + src[..n]
      ensures n == |src| || d.lookaheadSize == MAX_MATCH_LEN
    {
      n := d.Refill(src);
      Refilled();
    }

    twostate lemma Refilled()
      requires old(Ready()) && d.Valid() && old(d.seen) <= d.seen && d.position == old(d.position)
      requires unchanged(this) && unchanged(w, codes, codes.buf, counts, counts.lit, counts.dist)
      ensures Ready()
    {
      var seen := old(d.seen);
      StandsLonger(AllOps(), seen, d.seen, Parsed());
      StandsLonger(StreamOps(chunks), seen, d.seen, blockStart);
      if savedMatchLen > 0 { MatchLonger(seen, d.seen, d.position - 1, savedMatchLen, savedMatchDist); }
      EmittedTo(Parsed());
      ReadyWith(Parsed());
    }

    lemma ReadyWith(n: nat)
      requires d.Valid() && Written() && Open() && SavedOk() && Emitted(n) && n == Parsed()
      requires codes.codeBuf <= LZ_CODE_BUF_SIZE - 8
      ensures Ready()
    {}

    /** One round of the loop: refill, then parse one step unless more input is to be awaited. */
    method Round(src: seq<nat>, flush: Flush) returns (n: nat, stop: bool)
      requires Ready() && Bytes(src) && (|src| > 0 || (flush != NoFlush && d.lookaheadSize > 0))
      modifies this, d, d.dict, d.next, d.hash, w, codes, codes.buf, counts.lit, counts.dist
      ensures Ready() && n <= |src| && d.seen == old(d.seen) + src[..n]
      ensures d.lookaheadSize < MAX_MATCH_LEN && (stop ==> flush == NoFlush && n == |src|)
      ensures !stop ==> |src| - n + d.lookaheadSize < |src| + old(d.lookaheadSize)
    {
      n := Fill(src);
      stop := flush == NoFlush && d.lookaheadSize < MAX_MATCH_LEN;
      if !stop {
        ghost var offer, rule := Step(flush);
      }
    }

    /** tdefl_compress_normal: takes in all of src and parses as far as the lookahead allows, or to its end when flushing. */
    method CompressNormal(src: seq<nat>, flush: Flush)
      requires Ready() && Bytes(src)
      modifies this, d, d.dict, d.next, d.hash, w, codes, codes.buf, counts.lit, counts.dist
      ensures Ready() && d.seen == old(d.seen) + src && (flush != NoFlush ==> d.lookaheadSize == 0)
      ensures src != [] ==> d.lookaheadSize < MAX_MATCH_LEN
    {
      ghost var seen := d.seen;
      var i: nat := 0;
      Taken(seen, src);
      var stop := false;
      while !stop && (i < |src| || (flush != NoFlush && d.lookaheadSize > 0))
        invariant TakenTo(seen, src, i) && (stop ==> flush == NoFlush && i == |src|)
        invariant i > 0 ==> d.lookaheadSize < MAX_MATCH_LEN
        decreases !stop, |src| - i + d.lookaheadSize
      {
        i, stop := RoundAt(src, i, flush, seen);
      }
    }

    /** After the first i bytes of this call. */
    ghost predicate TakenTo(seen: seq<nat>, src: seq<nat>, i: nat)
      reads this, d, d.dict, d.next, d.hash, w, codes, codes.buf, counts, counts.lit, counts.dist
    {
      i <= |src| && Ready() && d.seen == seen + src[..i]
    }

    method RoundAt(src: seq<nat>, from: nat, flush: Flush, ghost seen: seq<nat>) returns (i: nat, stop: bool)
      requires TakenTo(seen, src, from) && Bytes(src) && (from < |src| || (flush != NoFlush && d.lookaheadSize > 0))
      modifies this, d, d.dict, d.next, d.hash, w, codes, codes.buf, counts.lit, counts.dist
      ensures TakenTo(seen, src, i) && d.lookaheadSize < MAX_MATCH_LEN
      ensures stop ==> flush == NoFlush && i == |src|
      ensures !stop ==> |src| - i + d.lookaheadSize < |src| - from + old(d.lookaheadSize)
    {
      var part := src[from..];
      ghost var before := d.seen;
      var n;
      n, stop := Round(part, flush);
      i := from + n;
      TakenOn(before, seen, src, part, from, n, i);
    }

    lemma TakenOn(before: seq<nat>, seen: seq<nat>, src: seq<nat>, part: seq<nat>, from: nat, n: nat, i: nat)
      requires Ready() && from <= |src| && part == src[from..] && n <= |part| && i == from + n
      requires before == seen + src[..from] && d.seen == before + part[..n]
      ensures TakenTo(seen, src, i)
    {
      TakeMore(before, d.seen, seen, src, part, from, n);
    }

    /** tdefl_compress: any number of calls, each with the next part of the input; the last one flushes with Finish. */
    method Compress(src: seq<nat>, flush: Flush)
      requires Ready() && Bytes(src) && flush != Finish
      modifies this, d, d.dict, d.next, d.hash, w, codes, codes.buf, counts.lit, counts.dist
      ensures Ready() && d.seen == old(d.seen) + src
      ensures flush != NoFlush ==> StandFor(StreamOps(chunks), d.seen, |d.seen|) && ByteBits(w.outputBuf) == StreamBits(chunks)
      ensures flush == FullFlush ==> d.dictSize == 0
    {
      CompressNormal(src, flush);
      if flush != NoFlush { FlushAll(flush); }
    }

    /** A flush with nothing left to parse; a full one forgets the history. */
    method FlushAll(flush: Flush)
      requires Ready() && flush != Finish && d.lookaheadSize == 0
      modifies `lzCodeBufDictPos, `blockStart, `chunks, w, codes, codes.buf, counts.lit, counts.dist, d`dictSize, d`base, d.next, d.hash
      ensures Ready() && StandFor(StreamOps(chunks), d.seen, |d.seen|)
      ensures flush != NoFlush ==> ByteBits(w.outputBuf) == StreamBits(chunks)
      ensures flush == FullFlush ==> d.dictSize == 0
    {
      FlushParsed(flush);
      if flush == FullFlush { ForgetHistory(); }
    }

    method FlushParsed(flush: Flush)
      requires Ready() && flush != Finish && d.lookaheadSize == 0
      modifies `lzCodeBufDictPos, `blockStart, `chunks, w, codes, codes.buf, counts.lit, counts.dist
      ensures Ready() && savedMatchLen == 0 && StandFor(StreamOps(chunks), d.seen, |d.seen|)
      ensures flush != NoFlush ==> ByteBits(w.outputBuf) == StreamBits(chunks)
    {
      NothingSaved();
      ghost var b := FlushBlock(flush);
      if flush != NoFlush { WholeBytes(); }
    }

    lemma WholeBytes()
      requires Written() && w.bitsIn == 0
      ensures ByteBits(w.outputBuf) == StreamBits(chunks)
    {
      assert BitsOf(w.bitBuffer, 0) == [];
    }

    method ForgetHistory()
      requires Ready() && savedMatchLen == 0 && d.lookaheadSize == 0
      modifies d`dictSize, d`base, d.next, d.hash
      ensures Ready() && d.dictSize == 0
    {
      ghost var n := Parsed();
      assert Emitted(n);
      d.Forget();
      assert Emitted(n);
      Moved(n);
    }

    /** With no lookahead left no match can be held back. */
    lemma NothingSaved()
      requires Ready() && d.lookaheadSize == 0
      ensures savedMatchLen == 0 && Parsed() == |d.seen|
    {}

    /** The last call: everything ever taken in is in the stream. */
    method CompressFinish(src: seq<nat>)
      requires Ready() && Bytes(src)
      modifies this, d, d.dict, d.next, d.hash, w, codes, codes.buf, counts.lit, counts.dist
      ensures d.seen == old(d.seen) + src && Deflated(w.outputBuf, chunks, d.seen)
    {
      CompressNormal(src, Finish);
      NothingSaved();
      ghost var b := FlushFinal();
      assert d.seen[..d.position] == d.seen;
    }
  }

  lemma Taken(seen: seq<nat>, src: seq<nat>)
    ensures seen + src[..0] == seen && src[..|src|] == src
  {}

  lemma TakeMore(before: seq<nat>, now: seq<nat>, seen: seq<nat>, src: seq<nat>, part: seq<nat>, i: nat, n: nat)
    requires i <= |src| && part == src[i..] && n <= |part| && before == seen + src[..i] && now == before + part[..n]
    ensures now == seen + src[..i + n]
  {}

  lemma SyncChunk(chunks: seq<Chunk>, s: seq<bool>, s': seq<bool>)
    requires ChunksOk(chunks) && s == StreamBits(chunks)
    requires s' == s + BitsOf(0, 3) + BitsOf(0, PadOf(|s| + 3)) + StoredContent([])
    ensures var more := chunks + [Chunk(false, Stored([]))];
            ChunksOk(more) && s' == StreamBits(more) && StreamOps(more) == StreamOps(chunks)
  {
    SyncParts(s, s');
    ChunkPut(chunks, s, Chunk(false, Stored([])), s');
    assert StreamOps(chunks) + LiteralsOf([]) == StreamOps(chunks);
  }

  method PutEmptyBlock(w: BitWriter, ghost s: seq<bool>)
    requires w.Valid() && s == w.Stream()
    modifies w
    ensures w.Valid() && w.bitsIn == 0
    ensures w.Stream() == s + BitsOf(0, 3) + BitsOf(0, PadOf(|s| + 3)) + StoredContent([])
  {
    w.PutBits(0, 3);
    Align(w, |s| + 3);
    PutStoredContent(w, []);
    ContentIsWhole(|w.outputBuf|, w.bitsIn, |s| + 3);
  }

  lemma ContentIsWhole(n: nat, k: nat, total: nat)
    requires 8 * n + k == total + PadOf(total) + 32 && k < 8
    ensures k == 0
  {}

  lemma SyncParts(s: seq<bool>, s': seq<bool>)
    requires s' == s + BitsOf(0, 3) + BitsOf(0, PadOf(|s| + 3)) + StoredContent([])
    ensures s' == s + BitsOf(0, 1) + (BitsOf(0, 2) + StoredBits([], |s| + 3))
  {
    ThreeBits();
    FiveParts(s, BitsOf(0, 1), BitsOf(0, 2), BitsOf(0, PadOf(|s| + 3)), StoredContent([]));
  }

  lemma ThreeBits()
    ensures BitsOf(0, 3) == BitsOf(0, 1) + BitsOf(0, 2)
  {
    BitsAppend(0, 1, 2);
    assert Shr(0, 1) == 0;
  }

  lemma FiveParts(s: seq<bool>, a: seq<bool>, b: seq<bool>, p: seq<bool>, c: seq<bool>)
    ensures s + (a + b) + p + c == s + a + (b + (p + c))
  {}

  lemma PaddedIsWhole(n: nat, k: nat, total: nat)
    requires 8 * n + k == total + PadOf(total) && k < 8
    ensures k == 0
  {}

  /** The bytes are a terminated stream of blocks that stands for the data, padded with zero bits. */
  ghost predicate Deflated(bytes: seq<nat>, chunks: seq<Chunk>, data: seq<nat>) {
    && ChunksOk(chunks) && Terminated(chunks) && Bytes(bytes)
    && ByteBits(bytes) == StreamBits(chunks) + BitsOf(0, PadOf(|StreamBits(chunks)|))
    && StandFor(StreamOps(chunks), data, |data|)
  }
}
