/** Whole buffers: compressing and decompressing again. */
module RoundTrip {
  import opened BitStream
  import opened BitIo
  import opened DeflateFormat
  import opened InflateStream
  import opened Deflate
  import opened ParseRules

  lemma PaddedAligned(n: nat, total: nat)
    requires total == 8 * n
    ensures WholeBytes(total)
  {}

  /** tinfl_decompress_mem_to_mem on a stream that stands for the data. */
  method Decompress(bytes: seq<nat>, ghost chunks: seq<Chunk>, ghost data: seq<nat>) returns (ok: bool, out: seq<nat>)
    requires Deflated(bytes, chunks, data)
    ensures ok && out == data
  {
    var r := new BitReader(bytes);
    PaddedAligned(|bytes|, |r.Remaining()|);
    ok, out := Inflate(r, chunks, BitsOf(0, PadOf(|StreamBits(chunks)|)));
    assert data[..|data|] == data;
  }

  /** Main result: whatever the data, the way it is cut into calls and the flags, decompressing what was compressed
      gives the data back. Each part but the last is followed by a flush of the given kind. */
  method CompressThenDecompress(parts: seq<(seq<nat>, Flush)>, last: seq<nat>, options: Options) returns (ok: bool, back: seq<nat>)
    requires |options.maxProbes| == 2 && options.maxProbes[0] >= 1 && options.maxProbes[1] >= 1
    requires Bytes(last) && forall i :: 0 <= i < |parts| ==> Bytes(parts[i].0) && parts[i].1 != Finish
    ensures ok && back == Joined(parts) + last
  {
    var c := new Compressor(options);
    CompressParts(c, parts);
    c.CompressFinish(last);
    ok, back := Decompress(c.w.outputBuf, c.chunks, c.d.seen);
  }

  method CompressParts(c: Compressor, parts: seq<(seq<nat>, Flush)>)
    requires c.Ready() && c.d.seen == []
    requires forall i :: 0 <= i < |parts| ==> Bytes(parts[i].0) && parts[i].1 != Finish
    modifies c, c.d, c.d.dict, c.d.next, c.d.hash, c.w, c.codes, c.codes.buf, c.counts, c.counts.lit, c.counts.dist
    ensures c.Ready() && c.d.seen == Joined(parts)
  {
    var i := 0;
    JoinedSteps(parts);
    while i < |parts|
      invariant 0 <= i <= |parts| && c.Ready() && c.d.seen == JoinedTo(parts, i)
    {
      c.Compress(parts[i].0, parts[i].1);
      i := i + 1;
    }
  }

  /** The data of the first n parts. */
  ghost function JoinedTo(parts: seq<(seq<nat>, Flush)>, n: nat): seq<nat>
    requires n <= |parts|
  {
    Joined(parts[..n])
  }

  lemma JoinedSteps(parts: seq<(seq<nat>, Flush)>)
    ensures JoinedTo(parts, 0) == [] && JoinedTo(parts, |parts|) == Joined(parts)
    ensures forall i {:trigger parts[i]} :: 0 <= i < |parts| ==> JoinedTo(parts, i + 1) == JoinedTo(parts, i) + parts[i].0
  {
    assert parts[..|parts|] == parts;
    forall i | 0 <= i < |parts| ensures JoinedTo(parts, i + 1) == JoinedTo(parts, i) + parts[i].0 {
      assert parts[..i + 1] == parts[..i] + [parts[i]];
    }
  }

  /** The data of all parts. */
  ghost function Joined(parts: seq<(seq<nat>, Flush)>): seq<nat> {
    if parts == [] then [] else Joined(parts[..|parts| - 1]) + parts[|parts| - 1].0
  }
}
