/** Huffman-coded symbols in a byte stream: what TDEFL_PUT_BITS writes for a symbol, TINFL_HUFF_DECODE reads back. */
module HuffmanIo {
  import opened BitFields
  import opened BitStream
  import opened BitIo
  import opened CanonicalCode
  import opened InflateTableSpec
  import opened InflateTable

  /** The bits of symbol s. */
  ghost function CodeBits(sizes: seq<nat>, s: nat): (b: seq<bool>)
    requires s < |sizes|
    ensures |b| == sizes[s]
  {
    BitsOf(Bits(sizes, s), sizes[s])
  }

  ghost predicate Begins(all: seq<bool>, head: seq<bool>) {
    |head| <= |all| && all[..|head|] == head
  }

  lemma TakeBits(head: seq<bool>, tail: seq<bool>)
    ensures Begins(head + tail, head) && (head + tail)[|head|..] == tail && (head + tail)[..|head|] == head
  {}

  /** The stream to be read goes on with the code of s. */
  ghost predicate Next(sizes: seq<nat>, s: nat, remaining: seq<bool>) {
    Used(sizes, s) && Begins(remaining, CodeBits(sizes, s))
  }

  /** As far as the bits at hand go, they are those of the code. */
  lemma AtHand(sizes: seq<nat>, s: nat, x: nat, n: nat, rest: seq<bool>)
    requires Next(sizes, s, BitsOf(x, n) + rest)
    ensures var m := if n < sizes[s] then n else sizes[s]; Low(x, m) == Low(Bits(sizes, s), m)
  {
    var len, own := sizes[s], Bits(sizes, s);
    var m := if n < len then n else len;
    FirstBits(x, m, n, rest);
    FirstBits(own, m, len, []);
    assert BitsOf(own, len) + [] == BitsOf(own, len);
    assert (BitsOf(x, n) + rest)[..m] == (BitsOf(x, n) + rest)[..len][..m];
    BitsInjective(x, own, m);
  }

  /** TINFL_HUFF_BITBUF_FILL: reads the bytes that the next code needs, and absolutely no more. */
  method FillForCode(r: BitReader, t: HuffTable, ghost s: nat)
    requires r.Valid() && t.Valid() && Next(t.sizes, s, r.Remaining()) && r.numBits < 15
    modifies r`pos, r`bitBuf, r`numBits
    ensures r.Valid() && r.Remaining() == old(r.Remaining())
    ensures r.numBits >= t.sizes[s]
    ensures r.numBits == old(r.numBits) || r.numBits < t.sizes[s] + 8
  {
    while r.numBits < 15
      invariant r.Valid() && r.Remaining() == old(r.Remaining())
      invariant r.numBits == old(r.numBits) || r.numBits < t.sizes[s] + 8
      decreases 15 - r.numBits
    {
      AtHand(t.sizes, s, r.bitBuf, r.numBits, ByteBits(r.input[r.pos..]));
      var ready := t.Ready(r.bitBuf, r.numBits, s);
      if ready { break; }
      r.GetByte();
    }
  }

  /** TINFL_HUFF_DECODE: the symbol whose code comes next, and past it. */
  method HuffDecode(r: BitReader, t: HuffTable, ghost s: nat) returns (sym: nat)
    requires r.Valid() && t.Valid() && Next(t.sizes, s, r.Remaining())
    modifies r`pos, r`bitBuf, r`numBits
    ensures r.Valid() && sym == s && r.Remaining() == old(r.Remaining())[t.sizes[s]..]
  {
    if r.numBits < 15 {
      if |r.input| - r.pos < 2 {
        FillForCode(r, t, s);
      } else {
        r.GetByte();
        r.GetByte();
      }
    }
    sym := DecodeAtHand(r, t, s);
  }

  /** The table look-up proper, once enough bits are at hand. */
  method DecodeAtHand(r: BitReader, t: HuffTable, ghost s: nat) returns (sym: nat)
    requires r.Valid() && t.Valid() && Next(t.sizes, s, r.Remaining()) && r.numBits >= t.sizes[s]
    modifies r`bitBuf, r`numBits
    ensures r.Valid() && sym == s && r.Remaining() == old(r.Remaining())[t.sizes[s]..]
  {
    AtHand(t.sizes, s, r.bitBuf, r.numBits, ByteBits(r.input[r.pos..]));
    LowOfSmall(Bits(t.sizes, s), t.sizes[s]);
    var codeLen;
    sym, codeLen := t.Decode(r.bitBuf);
    assert StartsWith(t.sizes, r.bitBuf, s);
    StartsWithUnique(t.sizes, r.bitBuf, s, sym);
    r.Skip(codeLen);
  }

  ghost predicate CodesOf(sizes: seq<nat>, codes: seq<nat>) {
    |codes| == |sizes| && forall x :: 0 <= x < |sizes| && sizes[x] > 0 ==> codes[x] == Bits(sizes, x)
  }

  method PutSymbol(w: BitWriter, sizes: seq<nat>, codes: seq<nat>, s: nat)
    requires w.Valid() && CodesOf(sizes, codes) && Used(sizes, s)
    modifies w
    ensures w.Valid() && w.Stream() == old(w.Stream()) + CodeBits(sizes, s)
  {
    w.PutBits(codes[s], sizes[s]);
  }
}
