/** Writing one block: tdefl_start_static_block, tdefl_start_dynamic_block, tdefl_compress_block and the raw
    block of tdefl_flush_block in miniz.c. */
module BlockWriter {
  import opened Powers
  import opened BitStream
  import opened BitIo
  import opened CanonicalCode
  import opened InflateTableRoom
  import opened InflateTableSpec
  import opened HuffmanOptimality
  import opened HuffmanTableSteps
  import opened HuffmanTable
  import opened HuffmanIo
  import opened HuffCounts
  import opened Lz
  import opened LzSymbols
  import opened LzCodeBuffer
  import opened BlockCodec
  import opened BlockHeader
  import opened CodeLengthRle
  import opened HeaderWriter
  import opened StaticCodes
  import opened DeflateFormat
  import opened SymbolCost

  // ---------- Static blocks ----------

  /** tdefl_optimize_huffman_table with static_table set: only the codes are computed. */
  method StaticTable(sizes: seq<nat>) returns (codes: seq<nat>)
    requires ValidSizes(sizes)
    ensures CodesOf(sizes, codes)
  {
    var numCodes := new int[MAX_BITS + 1](_ => 0);
    var i := 0;
    while i < |sizes|
      invariant 0 <= i <= |sizes|
      invariant forall len :: 0 <= len <= MAX_BITS ==> numCodes[len] == CountTo(sizes, i, len)
    {
      numCodes[sizes[i]] := numCodes[sizes[i]] + 1;
      i := i + 1;
    }
    var table := new nat[|sizes|](_ => 0);
    AssignCodes(sizes, numCodes, MAX_BITS, table);
    codes := table[..];
  }

  method PutStaticBlock(w: BitWriter, codeBuf: seq<nat>, ghost ops: seq<Op>)
    requires w.Valid() && AllRecordable(ops) && codeBuf == Encoded(ops)
    modifies w
    ensures w.Valid() && BlockOk(Static(ops))
    ensures w.Stream() == old(w.Stream()) + (BitsOf(1, 2) + BodyBits(STATIC_LIT(), STATIC_DIST(), ops, 0))
  {
    StaticCodesAll(ops);
    StaticValid();
    PutStaticWith(w, STATIC_LIT(), STATIC_DIST(), codeBuf, ops);
  }

  method PutStaticWith(w: BitWriter, lit: seq<nat>, dist: seq<nat>, codeBuf: seq<nat>, ghost ops: seq<Op>)
    requires w.Valid() && AllRecordable(ops) && codeBuf == Encoded(ops) && ValidSizes(lit) && ValidSizes(dist)
    requires CanCodeAll(lit, dist, ops) && Used(lit, END_OF_BLOCK)
    modifies w
    ensures w.Valid() && w.Stream() == old(w.Stream()) + (BitsOf(1, 2) + BodyBits(lit, dist, ops, 0))
  {
    Assoc(w.Stream(), BitsOf(1, 2), BodyBits(lit, dist, ops, 0));
    var litCodes := StaticTable(lit);
    var distCodes := StaticTable(dist);
    assert Pow2(2) == 4;
    w.PutBits(1, 2);
    CompressLzCodes(w, lit, litCodes, dist, distCodes, codeBuf, ops);
  }

  // ---------- Dynamic blocks ----------

  /** The end-of-block symbol is counted once, on top of the symbols of the operations. */
  lemma CountsForTable(lit: seq<nat>, dist: seq<nat>, ops: seq<Op>)
    requires Counted(lit, dist, ops) && |ops| < 0xFFFF
    ensures lit[END_OF_BLOCK] == 0 && Sum(lit[END_OF_BLOCK := 1]) == |ops| + 1 && Sum(dist) <= |ops|
  {
    UnusedSymbols(ops, END_OF_BLOCK);
    SumUpdate(lit, END_OF_BLOCK);
  }

  /** The sizes chosen for the counts code every operation, and leave the last symbols unused. */
  lemma SizesCode(lit: seq<nat>, dist: seq<nat>, ops: seq<Op>, litSizes: seq<nat>, distSizes: seq<nat>, limit: nat)
    requires Counted(lit, dist, ops)
    requires Favours(lit[END_OF_BLOCK := 1], litSizes, limit) && Favours(dist, distSizes, limit)
    ensures Codable(litSizes, distSizes, ops) && UnusedFrom(litSizes, 286) && UnusedFrom(distSizes, 30)
  {
    forall i | 0 <= i < |ops|
      ensures CanCode(litSizes, distSizes, ops[i])
    {
      SymsInRange(ops[i]);
      CountedIsPositive(ops, i);
    }
    forall s | 286 <= s < |litSizes|
      ensures litSizes[s] == 0
    {
      UnusedSymbols(ops, s);
    }
    forall s | 30 <= s < |distSizes|
      ensures distSizes[s] == 0
    {
      UnusedSymbols(ops, s);
    }
  }

  lemma OpTrimmed(lit: seq<nat>, dist: seq<nat>, op: Op, n: nat, m: nat)
    requires CanCode(lit, dist, op) && UnusedFrom(lit, n) && UnusedFrom(dist, m)
    ensures CanCode(lit[..n], dist[..m], op) && OpBits(lit[..n], dist[..m], op) == OpBits(lit, dist, op)
  {
    match op
    case Literal(byte) =>
      BitsTrimmed(lit, n, byte);
    case Match(l, d) =>
      BitsTrimmed(lit, n, LenSym(l - MIN_MATCH_LEN));
      BitsTrimmed(dist, m, DistSym(d - 1));
  }

  lemma CodableTrimmed(lit: seq<nat>, dist: seq<nat>, ops: seq<Op>, n: nat, m: nat)
    requires Codable(lit, dist, ops) && UnusedFrom(lit, n) && UnusedFrom(dist, m)
    ensures Codable(lit[..n], dist[..m], ops)
  {
    BitsTrimmed(lit, n, END_OF_BLOCK);
    forall i | 0 <= i < |ops|
      ensures CanCode(lit[..n], dist[..m], ops[i])
    {
      OpTrimmed(lit, dist, ops[i], n, m);
    }
  }

  /** The shorter lists of sizes give the same bits. */
  lemma {:induction false} BodyTrimmed(lit: seq<nat>, dist: seq<nat>, ops: seq<Op>, n: nat, m: nat, i: nat)
    requires Codable(lit, dist, ops) && UnusedFrom(lit, n) && UnusedFrom(dist, m) && i <= |ops|
    requires Codable(lit[..n], dist[..m], ops)
    ensures BodyBits(lit[..n], dist[..m], ops, i) == BodyBits(lit, dist, ops, i)
    decreases |ops| - i
  {
    if i < |ops| {
      OpTrimmed(lit, dist, ops[i], n, m);
      BodyTrimmed(lit, dist, ops, n, m, i + 1);
    } else {
      BitsTrimmed(lit, n, END_OF_BLOCK);
    }
  }

  /** The trimmed sizes are those that the header lets the inflater read. */
  lemma DynamicOk(h: Header, lit: seq<nat>, dist: seq<nat>, ops: seq<Op>)
    requires Codable(lit, dist, ops) && Acceptable(lit) && Acceptable(dist)
    requires HeaderOk(h.numLit, h.numDist, h.numCl, h.cl, h.items)
    requires UnusedFrom(lit, h.numLit) && UnusedFrom(dist, h.numDist)
    requires Unpacked(h.items) == lit[..h.numLit] + dist[..h.numDist]
    ensures BlockOk(Dynamic(h, lit[..h.numLit], dist[..h.numDist], ops))
    ensures BodyBits(lit[..h.numLit], dist[..h.numDist], ops, 0) == BodyBits(lit, dist, ops, 0)
  {
    AcceptableTrimmed(lit, h.numLit);
    AcceptableTrimmed(dist, h.numDist);
    CodableTrimmed(lit, dist, ops, h.numLit, h.numDist);
    BodyTrimmed(lit, dist, ops, h.numLit, h.numDist, 0);
    var all := Unpacked(h.items);
    assert all[..h.numLit] == lit[..h.numLit] && all[h.numLit..] == dist[..h.numDist];
  }

  /** Codes for a table of counts, as sequences. */
  method ChooseCodes(count: seq<nat>) returns (sizes: seq<nat>, codes: seq<nat>)
    requires |count| <= MAX_HUFF_SYMBOLS && Sum(count) < 0x1_0000
    ensures Acceptable(sizes) && Favours(count, sizes, MAX_BITS) && CodesOf(sizes, codes) && LeastIfWithin(count, sizes, MAX_BITS)
  {
    Pow2Values();
    var s, c := OptimizeHuffmanTable(count, MAX_BITS);
    sizes, codes := s[..], c[..];
  }

  /** The list with zeros up to n. */
  ghost function Extended(sizes: seq<nat>, n: nat): (r: seq<nat>)
    requires |sizes| <= n
    ensures |r| == n
  {
    sizes + seq(n - |sizes|, _ => 0)
  }

  lemma ExtendedAgain(sizes: seq<nat>, k: nat)
    requires UnusedFrom(sizes, k)
    ensures Extended(sizes[..k], |sizes|) == sizes
  {}

  /** The block's codes are of least cost for its counts, if such keep to the limit, and its header is no longer than need be. */
  ghost predicate Economical(b: Block, litCount: seq<nat>, distCount: seq<nat>) {
    b.Dynamic? && |b.lit| <= 288 == |litCount| && |b.dist| <= 32 == |distCount|
    && LeastIfWithin(litCount[END_OF_BLOCK := 1], Extended(b.lit, 288), 15) && LeastIfWithin(distCount, Extended(b.dist, 32), 15)
    && Compact(b.header, b.lit, b.dist)
  }

  method PutDynamicBlock(w: BitWriter, litCount: seq<nat>, distCount: seq<nat>, codeBuf: seq<nat>, ghost ops: seq<Op>)
      returns (ghost b: Block)
    requires w.Valid() && Counted(litCount, distCount, ops) && |ops| < 0xFFFF && codeBuf == Encoded(ops)
    modifies w
    ensures w.Valid() && b.Dynamic? && b.ops == ops && BlockOk(b) && Economical(b, litCount, distCount)
    ensures w.Stream() == old(w.Stream()) + (BitsOf(2, 2) + DynamicBits(b.header, b.lit, b.dist, b.ops))
  {
    CountsForTable(litCount, distCount, ops);
    var lit, litCodes := ChooseCodes(litCount[END_OF_BLOCK := 1]);
    var dist, distCodes := ChooseCodes(distCount);
    SizesCode(litCount, distCount, ops, lit, dist, MAX_BITS);
    b := PutCodedBlock(w, lit, litCodes, dist, distCodes, codeBuf, ops);
  }

  method PutCodedBlock(w: BitWriter, lit: seq<nat>, litCodes: seq<nat>, dist: seq<nat>, distCodes: seq<nat>, codeBuf: seq<nat>,
                       ghost ops: seq<Op>) returns (ghost b: Block)
    requires w.Valid() && CodesOf(lit, litCodes) && CodesOf(dist, distCodes) && Codable(lit, dist, ops)
    requires Acceptable(lit) && Acceptable(dist) && |lit| == 288 && |dist| == 32 && UnusedFrom(lit, 286) && UnusedFrom(dist, 30)
    requires codeBuf == Encoded(ops)
    modifies w
    ensures w.Valid() && b.Dynamic? && b.ops == ops && BlockOk(b)
    ensures |b.lit| <= 288 && |b.dist| <= 32 && Extended(b.lit, 288) == lit && Extended(b.dist, 32) == dist
    ensures Compact(b.header, b.lit, b.dist)
    ensures w.Stream() == old(w.Stream()) + (BitsOf(2, 2) + DynamicBits(b.header, b.lit, b.dist, b.ops))
  {
    ghost var before := w.Stream();
    assert Pow2(2) == 4;
    w.PutBits(2, 2);
    ghost var h := PutHeader(w, lit, dist);
    DynamicOk(h, lit, dist, ops);
    b := Dynamic(h, lit[..h.numLit], dist[..h.numDist], ops);
    ExtendedAgain(lit, h.numLit);
    ExtendedAgain(dist, h.numDist);
    CompressLzCodes(w, lit, litCodes, dist, distCodes, codeBuf, ops);
    DynamicParts(before, BitsOf(2, 2), HeaderBits(h.numLit, h.numDist, h.numCl, h.cl, h.items), BodyBits(lit, dist, ops, 0));
  }

  lemma DynamicParts(s: seq<bool>, a: seq<bool>, b: seq<bool>, c: seq<bool>)
    ensures s + a + b + c == s + (a + (b + c))
  {}

  /** tdefl_compress_block */
  method PutHuffmanBlock(w: BitWriter, staticBlock: bool, litCount: seq<nat>, distCount: seq<nat>, codeBuf: seq<nat>,
                         ghost ops: seq<Op>, ghost phase: nat) returns (ghost b: Block)
    requires w.Valid() && Counted(litCount, distCount, ops) && |ops| < 0xFFFF && codeBuf == Encoded(ops)
    modifies w
    ensures w.Valid() && BlockOps(b) == ops && BlockOk(b)
    ensures if staticBlock then b == Static(ops) else Economical(b, litCount, distCount)
    ensures w.Stream() == old(w.Stream()) + (BitsOf(BlockType(b), 2) + PayloadBits(b, phase))
  {
    if staticBlock {
      PutStaticBlock(w, codeBuf, ops);
      b := Static(ops);
    } else {
      b := PutDynamicBlock(w, litCount, distCount, codeBuf, ops);
    }
  }

  // ---------- Stored blocks ----------

  /** The raw block: padding, the length twice, the second time complemented, and the bytes of the dictionary. */
  method PutStoredBlock(w: BitWriter, bytes: seq<nat>, ghost phase: nat)
    requires w.Valid() && Bytes(bytes) && |bytes| < 0x1_0000 && phase == |w.Stream()| + 2
    modifies w
    ensures w.Valid() && w.Stream() == old(w.Stream()) + (BitsOf(0, 2) + StoredBits(bytes, phase))
  {
    ghost var s := w.Stream();
    w.PutBits(0, 2);
    Align(w, phase);
    PutStoredContent(w, bytes);
    StoredParts(s, BitsOf(0, 2), BitsOf(0, PadOf(phase)), BitsOf(|bytes|, 16) + (BitsOf(0xFFFF - |bytes|, 16) + ByteBits(bytes)));
  }

  lemma StoredParts(s: seq<bool>, k: seq<bool>, p: seq<bool>, content: seq<bool>)
    ensures s + k + p + content == s + (k + (p + content))
  {}

  method PutStoredContent(w: BitWriter, bytes: seq<nat>)
    requires w.Valid() && Bytes(bytes) && |bytes| < 0x1_0000
    modifies w
    ensures w.Valid()
    ensures w.Stream() == old(w.Stream()) + StoredContent(bytes)
  {
    ghost var s, a, b, c := w.Stream(), BitsOf(|bytes|, 16), BitsOf(0xFFFF - |bytes|, 16), ByteBits(bytes);
    Pow2Values();
    w.PutBits(|bytes|, 16);
    w.PutBits(0xFFFF - |bytes|, 16);
    PutBytes(w, bytes);
    Assoc(s, a, b);
    Assoc(s, a + b, c);
    Assoc(a, b, c);
  }

  /** Fills up the last byte with zero bits. */
  method Align(w: BitWriter, ghost n: nat)
    requires w.Valid() && n == |w.Stream()|
    modifies w
    ensures w.Valid() && w.Stream() == old(w.Stream()) + BitsOf(0, PadOf(n))
  {
    ghost var s := w.Stream();
    BitsInLastByte(|w.outputBuf|, w.bitsIn, n);
    if w.bitsIn > 0 {
      w.PutBits(0, 8 - w.bitsIn);
    } else {
      assert s + [] == s;
    }
  }

  lemma BitsInLastByte(n: nat, k: nat, total: nat)
    requires total == 8 * n + k && k < 8
    ensures PadOf(total) == if k == 0 then 0 else 8 - k
  {}

  method PutBytes(w: BitWriter, bytes: seq<nat>)
    requires w.Valid() && Bytes(bytes)
    modifies w
    ensures w.Valid() && w.Stream() == old(w.Stream()) + ByteBits(bytes)
  {
    var i := 0;
    assert ByteBits(bytes[..0]) == [];
    while i < |bytes|
      invariant 0 <= i <= |bytes| && w.Valid() && w.Stream() == old(w.Stream()) + ByteBits(bytes[..i])
    {
      NextByte(bytes, i);
      Assoc(old(w.Stream()), ByteBits(bytes[..i]), BitsOf(bytes[i], 8));
      w.PutBits(bytes[i], 8);
      i := i + 1;
    }
    assert bytes[..i] == bytes;
  }

  lemma NextByte(bytes: seq<nat>, i: nat)
    requires Bytes(bytes) && i < |bytes|
    ensures bytes[i] < Pow2(8) && ByteBits(bytes[..i + 1]) == ByteBits(bytes[..i]) + BitsOf(bytes[i], 8)
  {
    Pow2Values();
    ByteBitsAppend(bytes[..i], [bytes[i]]);
    OneByte(bytes[i]);
    assert bytes[..i + 1] == bytes[..i] + [bytes[i]];
  }
}
