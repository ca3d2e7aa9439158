/** A DEFLATE stream as bits (section 3.2.3 of RFC 1951): blocks one after the other, each with its final flag. */
module DeflateFormat {
  import opened BitStream
  import opened InflateTableSpec
  import opened InflateTableRoom
  import opened Lz
  import opened LzCodeBuffer
  import opened BlockCodec
  import opened CodeLengthRle
  import opened BlockHeader
  import opened StaticCodes

  datatype Block =
    | Stored(bytes: seq<nat>)
    | Static(ops: seq<Op>)
    | Dynamic(header: Header, lit: seq<nat>, dist: seq<nat>, ops: seq<Op>)

  datatype Chunk = Chunk(final: bool, block: Block)

  ghost predicate Codable(lit: seq<nat>, dist: seq<nat>, ops: seq<Op>) {
    AllRecordable(ops) && CanCodeAll(lit, dist, ops) && Used(lit, END_OF_BLOCK)
  }

  ghost predicate BlockOk(b: Block) {
    match b
    case Stored(bytes) => |bytes| < 0x1_0000 && forall i :: 0 <= i < |bytes| ==> bytes[i] < 256
    case Static(ops) => Codable(STATIC_LIT(), STATIC_DIST(), ops)
    case Dynamic(h, lit, dist, ops) =>
      && HeaderOk(h.numLit, h.numDist, h.numCl, h.cl, h.items)
      && lit == Unpacked(h.items)[..h.numLit] && dist == Unpacked(h.items)[h.numLit..]
      && Acceptable(lit) && Acceptable(dist) && Codable(lit, dist, ops)
  }

  ghost predicate WholeBytes(bits: nat) {
    bits % 8 == 0
  }

  /** How many bits are missing to a whole byte. */
  function PadOf(n: nat): (p: nat)
    ensures p < 8
  {
    if n % 8 == 0 then 0 else 8 - n % 8
  }

  /** A stored block after its type: padding, length, complement, bytes. */
  ghost function StoredBits(bytes: seq<nat>, phase: nat): (s: seq<bool>)
    requires |bytes| < 0x1_0000
    ensures |s| == PadOf(phase) + 32 + 8 * |bytes|
  {
    BitsOf(0, PadOf(phase)) + StoredContent(bytes)
  }

  /** The length, its complement, and the bytes. */
  ghost function StoredContent(bytes: seq<nat>): (s: seq<bool>)
    requires |bytes| < 0x1_0000
    ensures |s| == 32 + 8 * |bytes|
  {
    BitsOf(|bytes|, 16) + (BitsOf(0xFFFF - |bytes|, 16) + ByteBits(bytes))
  }

  ghost function DynamicBits(h: Header, lit: seq<nat>, dist: seq<nat>, ops: seq<Op>): seq<bool>
    requires BlockOk(Dynamic(h, lit, dist, ops))
  {
    HeaderBits(h.numLit, h.numDist, h.numCl, h.cl, h.items) + BodyBits(lit, dist, ops, 0)
  }

  function BlockType(b: Block): nat {
    match b
    case Stored(_) => 0
    case Static(_) => 1
    case Dynamic(_, _, _, _) => 2
  }

  /** The block after its three bits of final flag and type; `phase` counts all bits sent before. */
  ghost function PayloadBits(b: Block, phase: nat): seq<bool>
    requires BlockOk(b)
  {
    match b
    case Stored(bytes) => StoredBits(bytes, phase + 3)
    case Static(ops) => BodyBits(STATIC_LIT(), STATIC_DIST(), ops, 0)
    case Dynamic(h, lit, dist, ops) => DynamicBits(h, lit, dist, ops)
  }

  ghost function ChunkBits(c: Chunk, phase: nat): seq<bool>
    requires BlockOk(c.block)
  {
    BitsOf(if c.final then 1 else 0, 1) + (BitsOf(BlockType(c.block), 2) + PayloadBits(c.block, phase))
  }

  ghost predicate ChunkOkAt(chunks: seq<Chunk>, i: nat)
    requires i < |chunks|
  {
    BlockOk(chunks[i].block)
  }

  ghost predicate ChunksOk(chunks: seq<Chunk>) {
    forall i {:trigger ChunkOkAt(chunks, i)} :: 0 <= i < |chunks| ==> ChunkOkAt(chunks, i)
  }

  lemma ChunksOkTo(chunks: seq<Chunk>, k: nat)
    requires ChunksOk(chunks) && k <= |chunks|
    ensures ChunksOk(chunks[..k])
  {
    forall i | 0 <= i < k
      ensures ChunkOkAt(chunks[..k], i)
    {
      assert ChunkOkAt(chunks, i);
    }
  }

  ghost function StreamBits(chunks: seq<Chunk>): seq<bool>
    requires ChunksOk(chunks)
    decreases |chunks|
  {
    if chunks == [] then [] else
      var n := |chunks| - 1;
      assert ChunkOkAt(chunks, n) && ChunksOk(chunks[..n]) by { ChunksOkTo(chunks, n); }
      var before := StreamBits(chunks[..n]);
      before + ChunkBits(chunks[n], |before|)
  }

  /** Stored bytes count as literals. */
  ghost function LiteralsOf(bytes: seq<nat>): seq<Op> {
    seq(|bytes|, i requires 0 <= i < |bytes| => Literal(bytes[i]))
  }

  ghost function BlockOps(b: Block): seq<Op> {
    match b
    case Stored(bytes) => LiteralsOf(bytes)
    case Static(ops) => ops
    case Dynamic(_, _, _, ops) => ops
  }

  /** All operations of a stream. */
  ghost function StreamOps(chunks: seq<Chunk>): seq<Op>
    decreases |chunks|
  {
    if chunks == [] then [] else StreamOps(chunks[..|chunks| - 1]) + BlockOps(chunks[|chunks| - 1].block)
  }

  lemma ChunksOkAppend(chunks: seq<Chunk>, c: Chunk)
    ensures ChunksOk(chunks + [c]) <==> ChunksOk(chunks) && BlockOk(c.block)
  {
    var more := chunks + [c];
    if ChunksOk(more) {
      ChunksOkTo(more, |chunks|);
      assert more[..|chunks|] == chunks && ChunkOkAt(more, |chunks|);
    }
    if ChunksOk(chunks) && BlockOk(c.block) {
      forall i | 0 <= i < |more|
        ensures ChunkOkAt(more, i)
      {
        if i < |chunks| { assert ChunkOkAt(chunks, i); }
      }
    }
  }

  lemma StreamAppend(chunks: seq<Chunk>, c: Chunk)
    requires ChunksOk(chunks) && BlockOk(c.block)
    ensures ChunksOk(chunks + [c])
    ensures StreamBits(chunks + [c]) == StreamBits(chunks) + ChunkBits(c, |StreamBits(chunks)|)
    ensures StreamOps(chunks + [c]) == StreamOps(chunks) + BlockOps(c.block)
  {
    ChunksOkAppend(chunks, c);
    assert (chunks + [c])[..|chunks|] == chunks;
  }

  lemma StreamStep(chunks: seq<Chunk>, i: nat)
    requires ChunksOk(chunks) && i < |chunks|
    ensures ChunksOk(chunks[..i]) && ChunksOk(chunks[..i + 1]) && BlockOk(chunks[i].block)
    ensures StreamBits(chunks[..i + 1]) == StreamBits(chunks[..i]) + ChunkBits(chunks[i], |StreamBits(chunks[..i])|)
    ensures StreamOps(chunks[..i + 1]) == StreamOps(chunks[..i]) + BlockOps(chunks[i].block)
  {
    ChunksOkTo(chunks, i);
    assert ChunkOkAt(chunks, i);
    var before, c := chunks[..i], chunks[i];
    StreamAppend(before, c);
    NextPrefix(chunks, i);
  }

  lemma NextPrefix(chunks: seq<Chunk>, i: nat)
    requires i < |chunks|
    ensures chunks[..i + 1] == chunks[..i] + [chunks[i]]
  {}

  /** The first chunks are a prefix of the stream. */
  lemma {:induction false} StreamPrefix(chunks: seq<Chunk>, i: nat)
    requires ChunksOk(chunks) && i <= |chunks|
    ensures ChunksOk(chunks[..i]) && StreamBits(chunks[..i]) <= StreamBits(chunks)
    decreases |chunks| - i
  {
    ChunksOkTo(chunks, i);
    if i < |chunks| {
      StreamPrefix(chunks, i + 1);
      StreamStep(chunks, i);
      PrefixTrans(StreamBits(chunks[..i]), StreamBits(chunks[..i + 1]), StreamBits(chunks));
    } else {
      assert chunks[..i] == chunks;
    }
  }

  /** Stored bytes come out as they are. */
  lemma {:induction false} ExpandLiterals(done: seq<Op>, bytes: seq<nat>)
    requires forall i :: 0 <= i < |bytes| ==> bytes[i] < 256
    ensures Expand(done + LiteralsOf(bytes)) == Expand(done) + bytes
    ensures OpsOk(done) ==> OpsOk(done + LiteralsOf(bytes))
    decreases |bytes|
  {
    var ops := LiteralsOf(bytes);
    if bytes == [] {
      assert done + ops == done;
    } else {
      var n := |bytes| - 1;
      ExpandLiterals(done, bytes[..n]);
      assert LiteralsOf(bytes[..n]) == ops[..n];
      assert done + ops == done + ops[..n] + [ops[n]];
      ExpandAppend(done + ops[..n], ops[n]);
      assert bytes == bytes[..n] + [bytes[n]];
    }
  }
}
