/** The outer loop of tinfl_decompress in miniz.c: block after block until the final one. */
module InflateStream {
  import opened Powers
  import opened BitStream
  import opened BitIo
  import opened Lz
  import opened LzCodeBuffer
  import opened BlockCodec
  import opened BlockReader
  import opened BlockHeader
  import opened HeaderReader
  import opened StaticCodes
  import opened DeflateFormat
  import opened StoredReader

  /** Final flag and type are read together as one three-bit field. */
  method GetBlockStart(r: BitReader, ghost c: Chunk, ghost tail: seq<bool>) returns (final: bool, kind: nat)
    requires r.Valid()
    requires r.Remaining() == BitsOf(if c.final then 1 else 0, 1) + (BitsOf(BlockType(c.block), 2) + tail)
    modifies r`pos, r`bitBuf, r`numBits
    ensures r.Valid() && r.Remaining() == tail && final == c.final && kind == BlockType(c.block)
  {
    ghost var f: nat := if c.final then 1 else 0;
    StartField(f, BlockType(c.block), tail);
    var x := GetValue(r, 3, f + 2 * BlockType(c.block), tail);
    final, kind := x % 2 == 1, x / 2;
  }

  lemma StartField(f: nat, kind: nat, tail: seq<bool>)
    requires f <= 1 && kind <= 2
    ensures BitsOf(f, 1) + (BitsOf(kind, 2) + tail) == BitsOf(f + 2 * kind, 3) + tail
    ensures f + 2 * kind < Pow2(3)
  {
    assert Pow2(1) == 2 && Pow2(3) == 8;
    BitsPlus(f, 1, kind, 2);
    Assoc(BitsOf(f, 1), BitsOf(kind, 2), tail);
  }

  /** A static or dynamic block after its type: tables, then body. */
  method InflateStatic(r: BitReader, out: seq<nat>, ghost done: seq<Op>, ghost ops: seq<Op>, ghost tail: seq<bool>)
      returns (ok: bool, out': seq<nat>)
    requires r.Valid() && Codable(STATIC_LIT(), STATIC_DIST(), ops) && OpsOk(done) && out == Expand(done)
    requires r.Remaining() == BodyBits(STATIC_LIT(), STATIC_DIST(), ops, 0) + tail
    modifies r`pos, r`bitBuf, r`numBits
    ensures r.Valid() && (ok <==> OpsOk(done + ops))
    ensures ok ==> out' == Expand(done + ops) && r.Remaining() == tail
  {
    StaticAcceptable();
    var lt, ok0 := BuildTable(STATIC_LIT());
    var dt, ok1 := BuildTable(STATIC_DIST());
    ok, out' := InflateBody(r, lt, dt, out, done, ops, tail);
  }

  method InflateDynamic(r: BitReader, out: seq<nat>, ghost done: seq<Op>, ghost b: Block, ghost tail: seq<bool>)
      returns (ok: bool, out': seq<nat>)
    requires r.Valid() && b.Dynamic? && BlockOk(b) && OpsOk(done) && out == Expand(done)
    requires r.Remaining() == DynamicBits(b.header, b.lit, b.dist, b.ops) + tail
    modifies r`pos, r`bitBuf, r`numBits
    ensures r.Valid() && (ok <==> OpsOk(done + b.ops))
    ensures ok ==> out' == Expand(done + b.ops) && r.Remaining() == tail
  {
    ghost var h, body := b.header, BodyBits(b.lit, b.dist, b.ops, 0);
    Assoc(HeaderBits(h.numLit, h.numDist, h.numCl, h.cl, h.items), body, tail);
    var lens, numLit := ReadHeader(r, h.numLit, h.numDist, h.numCl, h.cl, h.items, body + tail);
    var dt, ok1 := BuildTable(lens[numLit..]);
    var lt, ok0 := BuildTable(lens[..numLit]);
    ok, out' := InflateBody(r, lt, dt, out, done, b.ops, tail);
  }

  /** One block. */
  method InflateChunk(r: BitReader, out: seq<nat>, ghost done: seq<Op>, ghost c: Chunk, ghost phase: nat, ghost remaining: seq<bool>,
                      ghost tail: seq<bool>) returns (ok: bool, final: bool, out': seq<nat>)
    requires r.Valid() && BlockOk(c.block) && OpsOk(done) && out == Expand(done)
    requires r.Remaining() == remaining == ChunkBits(c, phase) + tail && WholeBytes(phase + |remaining|)
    modifies r`pos, r`bitBuf, r`numBits
    ensures r.Valid() && final == c.final && (ok <==> OpsOk(done + BlockOps(c.block)))
    ensures ok ==> out' == Expand(done + BlockOps(c.block)) && r.Remaining() == tail
  {
    ghost var payload := PayloadBits(c.block, phase);
    ChunkSplit(c, phase, tail);
    var kind;
    final, kind := GetBlockStart(r, c, payload + tail);
    if kind == 0 {
      var bytes;
      ok, bytes := ReadStored(r, c.block.bytes, phase + 3, tail);
      ExpandLiterals(done, c.block.bytes);
      out' := out + bytes;
    } else if kind == 1 {
      ok, out' := InflateStatic(r, out, done, c.block.ops, tail);
    } else {
      ok, out' := InflateDynamic(r, out, done, c.block, tail);
    }
  }

  lemma ChunkSplit(c: Chunk, phase: nat, tail: seq<bool>)
    requires BlockOk(c.block)
    ensures ChunkBits(c, phase) + tail
         == BitsOf(if c.final then 1 else 0, 1) + (BitsOf(BlockType(c.block), 2) + (PayloadBits(c.block, phase) + tail))
    ensures |ChunkBits(c, phase) + tail| == 3 + |PayloadBits(c.block, phase) + tail|
  {
    var f, k, p := BitsOf(if c.final then 1 else 0, 1), BitsOf(BlockType(c.block), 2), PayloadBits(c.block, phase);
    assert f + (k + p) + tail == f + (k + (p + tail));
  }

  /** Only the last chunk is final. */
  ghost predicate Terminated(chunks: seq<Chunk>) {
    |chunks| > 0 && forall i :: 0 <= i < |chunks| ==> (chunks[i].final <==> i == |chunks| - 1)
  }

  lemma Peel(before: seq<bool>, remaining: seq<bool>, bits: seq<bool>, all: seq<bool>, pad: seq<bool>)
    requires before + remaining == all + pad && before + bits <= all
    ensures var tail := (all + pad)[|before + bits|..];
            remaining == bits + tail && before + bits + tail == all + pad
  {
    var n, whole := |before + bits|, all + pad;
    var tail := whole[n..];
    assert whole[..n] == before + bits;
    assert whole == whole[..n] + tail;
    assert before + (bits + tail) == whole;
    assert remaining == whole[|before|..];
  }

  /** i chunks are read: `remaining` is what is left of the stream and of whatever follows it. */
  ghost predicate InStream(chunks: seq<Chunk>, pad: seq<bool>, i: nat, remaining: seq<bool>, out: seq<nat>) {
    && ChunksOk(chunks) && i <= |chunks| && ChunksOk(chunks[..i])
    && StreamBits(chunks[..i]) + remaining == StreamBits(chunks) + pad
    && WholeBytes(|StreamBits(chunks[..i]) + remaining|)
    && OpsOk(StreamOps(chunks[..i])) && out == Expand(StreamOps(chunks[..i]))
  }

  lemma EnterChunk(chunks: seq<Chunk>, pad: seq<bool>, i: nat, remaining: seq<bool>, out: seq<nat>)
      returns (done: seq<Op>, phase: nat, tail: seq<bool>)
    requires InStream(chunks, pad, i, remaining, out) && i < |chunks|
    ensures done == StreamOps(chunks[..i]) && OpsOk(done) && out == Expand(done)
    ensures BlockOk(chunks[i].block) && remaining == ChunkBits(chunks[i], phase) + tail && WholeBytes(phase + |remaining|)
    ensures ChunksOk(chunks[..i + 1]) && StreamBits(chunks[..i + 1]) + tail == StreamBits(chunks) + pad
  {
    StreamStep(chunks, i);
    StreamPrefix(chunks, i + 1);
    var before, all := StreamBits(chunks[..i]), StreamBits(chunks);
    done, phase := StreamOps(chunks[..i]), |before|;
    var bits := ChunkBits(chunks[i], phase);
    Peel(before, remaining, bits, all, pad);
    tail := (all + pad)[|before + bits|..];
    assert |before + remaining| == phase + |remaining|;
  }

  lemma LeaveChunk(chunks: seq<Chunk>, pad: seq<bool>, i: nat, remaining: seq<bool>, out: seq<nat>, tail: seq<bool>, out': seq<nat>)
    requires InStream(chunks, pad, i, remaining, out) && i < |chunks| && ChunksOk(chunks[..i + 1])
    requires StreamBits(chunks[..i + 1]) + tail == StreamBits(chunks) + pad
    requires var ops := StreamOps(chunks[..i]) + BlockOps(chunks[i].block); OpsOk(ops) && out' == Expand(ops)
    ensures InStream(chunks, pad, i + 1, tail, out')
  {
    StreamStep(chunks, i);
  }

  /** Main result: inflating any stream of blocks gives back what its operations stand for, and leaves whatever
      follows the final block; it is refused exactly when some match reaches back before the start. */
  method Inflate(r: BitReader, ghost chunks: seq<Chunk>, ghost pad: seq<bool>) returns (ok: bool, out: seq<nat>)
    requires r.Valid() && ChunksOk(chunks) && Terminated(chunks)
    requires r.Remaining() == StreamBits(chunks) + pad && WholeBytes(|r.Remaining()|)
    modifies r`pos, r`bitBuf, r`numBits
    ensures r.Valid() && (ok <==> OpsOk(StreamOps(chunks)))
    ensures ok ==> out == Expand(StreamOps(chunks)) && r.Remaining() == pad
  {
    ghost var i := 0;
    var final := false;
    ok, out := true, [];
    StartOfStream(chunks, r.Remaining(), pad);
    while !final
      invariant 0 <= i <= |chunks| && r.Valid() && ok && (final <==> i == |chunks|)
      invariant InStream(chunks, pad, i, r.Remaining(), out)
      decreases |chunks| - i
    {
      ghost var remaining, out0 := r.Remaining(), out;
      ghost var done, phase, tail := EnterChunk(chunks, pad, i, remaining, out);
      ok, final, out := InflateChunk(r, out, done, chunks[i], phase, remaining, tail);
      if !ok {
        StreamNotOk(chunks, i);
        return;
      }
      LeaveChunk(chunks, pad, i, remaining, out0, tail, out);
      i := i + 1;
    }
    EndOfStream(chunks, pad, i, r.Remaining(), out);
  }

  lemma StartOfStream(chunks: seq<Chunk>, remaining: seq<bool>, pad: seq<bool>)
    requires ChunksOk(chunks) && remaining == StreamBits(chunks) + pad && WholeBytes(|remaining|)
    ensures InStream(chunks, pad, 0, remaining, [])
  {
    assert chunks[..0] == [];
    assert [] + remaining == remaining;
  }

  lemma EndOfStream(chunks: seq<Chunk>, pad: seq<bool>, i: nat, remaining: seq<bool>, out: seq<nat>)
    requires InStream(chunks, pad, i, remaining, out) && i == |chunks|
    ensures remaining == pad && OpsOk(StreamOps(chunks)) && out == Expand(StreamOps(chunks))
  {
    assert chunks[..i] == chunks;
    var all := StreamBits(chunks);
    assert (all + remaining)[|all|..] == remaining && (all + pad)[|all|..] == pad;
  }

  /** A chunk that is refused spoils the stream. */
  lemma StreamNotOk(chunks: seq<Chunk>, i: nat)
    requires ChunksOk(chunks) && i < |chunks| && !OpsOk(StreamOps(chunks[..i]) + BlockOps(chunks[i].block))
    ensures !OpsOk(StreamOps(chunks))
  {
    StreamStep(chunks, i);
    NotOkInStream(chunks, i + 1);
  }

  lemma {:induction false} NotOkInStream(chunks: seq<Chunk>, i: nat)
    requires i <= |chunks| && !OpsOk(StreamOps(chunks[..i]))
    ensures !OpsOk(StreamOps(chunks))
    decreases |chunks|
  {
    if i < |chunks| {
      var n := |chunks| - 1;
      assert chunks[..n][..i] == chunks[..i];
      NotOkInStream(chunks[..n], i);
      var before := StreamOps(chunks[..n]);
      assert StreamOps(chunks)[..|before|] == before;
      NotOkLater(StreamOps(chunks), |before|);
    } else {
      assert chunks[..i] == chunks;
    }
  }
}
