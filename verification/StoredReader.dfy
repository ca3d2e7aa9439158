/** Reading a stored block: the type 0 branch of tinfl_decompress in miniz.c. */
module StoredReader {
  import opened Powers
  import opened BitFields
  import opened BitStream
  import opened BitIo
  import opened HuffmanIo
  import opened HeaderReader
  import opened DeflateFormat

  /** The next byte, from the bit buffer if it holds any bits, otherwise straight from the input. */
  method GetAlignedByte(r: BitReader, ghost x: nat, ghost tail: seq<bool>) returns (b: nat)
    requires r.Valid() && x < Pow2(8) && r.Remaining() == BitsOf(x, 8) + tail
    modifies r`pos, r`bitBuf, r`numBits
    ensures r.Valid() && b == x && r.Remaining() == tail
    ensures old(r.numBits) == 0 ==> r.numBits == 0
  {
    if r.numBits > 0 {
      b := GetValue(r, 8, x, tail);
    } else {
      b := RawByte(r, x, tail);
    }
  }

  /** The bits at hand end on a byte boundary of the input. */
  lemma AtHandAligned(r: BitReader)
    requires r.Valid()
    ensures |r.Remaining()| % 8 == r.numBits % 8
  {}

  method RawByte(r: BitReader, ghost x: nat, ghost tail: seq<bool>) returns (b: nat)
    requires r.Valid() && r.numBits == 0 && x < Pow2(8) && r.Remaining() == BitsOf(x, 8) + tail
    modifies r`pos
    ensures r.Valid() && r.numBits == 0 && b == x && r.Remaining() == tail
  {
    FirstByte(r.input[r.pos..], x, tail);
    b := r.input[r.pos];
    r.pos := r.pos + 1;
  }

  /** Equal bits, equal bytes. */
  lemma FirstByte(bytes: seq<nat>, x: nat, tail: seq<bool>)
    requires Bytes(bytes) && x < Pow2(8) && ByteBits(bytes) == BitsOf(x, 8) + tail
    ensures bytes != [] && bytes[0] == x && ByteBits(bytes[1..]) == tail
  {
    assert |ByteBits(bytes)| >= 8;
    TakeBits(BitsOf(x, 8), tail);
    TakeBits(BitsOf(bytes[0], 8), ByteBits(bytes[1..]));
    Pow2Values();
    GotIsPut(bytes[0], x, 8);
  }

  /** A 16-bit field, low byte first. */
  method GetWord(r: BitReader, ghost x: nat, ghost tail: seq<bool>) returns (w: nat)
    requires r.Valid() && x < Pow2(16) && r.Remaining() == BitsOf(x, 16) + tail
    modifies r`pos, r`bitBuf, r`numBits
    ensures r.Valid() && w == x && r.Remaining() == tail
    ensures old(r.numBits) == 0 ==> r.numBits == 0
  {
    WordBytes(x, 8, tail);
    var lo := GetAlignedByte(r, Low(x, 8), BitsOf(Shr(x, 8), 8) + tail);
    var hi := GetAlignedByte(r, Shr(x, 8), tail);
    Pow2Values();
    LowShr(x, 8);
    w := lo + 256 * hi;
  }

  lemma WordBytes(x: nat, n: nat, tail: seq<bool>)
    requires x < Pow2(n + n)
    ensures BitsOf(x, n + n) + tail == BitsOf(Low(x, n), n) + (BitsOf(Shr(x, n), n) + tail)
    ensures Low(x, n) < Pow2(n) && Shr(x, n) < Pow2(n)
  {
    BitsAppend(x, n, n);
    BitsOfLow(x, n, n);
    LowShr(x, n);
    ShrBelow(x, n, n);
  }

  /** The first loop: bytes that are still in the bit buffer. */
  method BufferedBytes(r: BitReader, n: nat, ghost bytes: seq<nat>, ghost tail: seq<bool>) returns (counter: nat, out: seq<nat>)
    requires r.Valid() && n == |bytes| && Bytes(bytes) && r.Remaining() == ByteBits(bytes) + tail
    modifies r`pos, r`bitBuf, r`numBits
    ensures r.Valid() && (counter > 0 ==> r.numBits == 0) && counter + |out| == n
    ensures out == bytes[..|out|] && r.Remaining() == ByteBits(bytes[|out|..]) + tail
  {
    counter, out := n, [];
    assert bytes[0..] == bytes;
    while counter > 0 && r.numBits > 0
      invariant r.Valid() && counter + |out| == n && out == bytes[..|out|]
      invariant r.Remaining() == ByteBits(bytes[|out|..]) + tail
      decreases counter
    {
      out := BufferedByte(r, out, bytes, tail);
      counter := counter - 1;
    }
  }

  method BufferedByte(r: BitReader, out: seq<nat>, ghost bytes: seq<nat>, ghost tail: seq<bool>) returns (out': seq<nat>)
    requires r.Valid() && Bytes(bytes) && |out| < |bytes| && out == bytes[..|out|]
    requires r.Remaining() == ByteBits(bytes[|out|..]) + tail
    modifies r`pos, r`bitBuf, r`numBits
    ensures r.Valid() && |out'| == |out| + 1 && out' == bytes[..|out'|] && r.Remaining() == ByteBits(bytes[|out'|..]) + tail
  {
    ghost var i := |out|;
    BytesStep(bytes, i, tail);
    var dist := GetValue(r, 8, bytes[i], ByteBits(bytes[i + 1..]) + tail);
    out' := out + [dist];
    assert bytes[..i + 1] == bytes[..i] + [bytes[i]];
  }

  lemma BytesStep(bytes: seq<nat>, i: nat, tail: seq<bool>)
    requires i < |bytes| && Bytes(bytes)
    ensures ByteBits(bytes[i..]) + tail == BitsOf(bytes[i], 8) + (ByteBits(bytes[i + 1..]) + tail)
    ensures bytes[i] < Pow2(8)
  {
    Pow2Values();
    assert bytes[i..][1..] == bytes[i + 1..];
    Assoc(BitsOf(bytes[i], 8), ByteBits(bytes[i + 1..]), tail);
  }

  /** The rest is copied from the input at once. */
  lemma {:induction false} RestInInput(input: seq<nat>, bytes: seq<nat>, tail: seq<bool>)
    requires Bytes(input) && Bytes(bytes) && ByteBits(input) == ByteBits(bytes) + tail
    ensures |bytes| <= |input| && input[..|bytes|] == bytes && ByteBits(input[|bytes|..]) == tail
    decreases |bytes|
  {
    if bytes == [] {
      assert [] + tail == tail;
      assert input[0..] == input;
    } else {
      var later := ByteBits(bytes[1..]) + tail;
      BytesStep(bytes, 0, tail);
      assert bytes[0..] == bytes;
      FirstByte(input, bytes[0], later);
      RestInInput(input[1..], bytes[1..], tail);
      SkipOne(input, |bytes|);
      assert bytes == [bytes[0]] + bytes[1..];
    }
  }

  lemma SkipOne(input: seq<nat>, n: nat)
    requires 1 <= n <= |input|
    ensures input[..n] == [input[0]] + input[1..][..n - 1] && input[1..][n - 1..] == input[n..]
  {}

  method RawBytes(r: BitReader, counter: nat, ghost bytes: seq<nat>, ghost tail: seq<bool>) returns (out: seq<nat>)
    requires r.Valid() && counter == |bytes| && Bytes(bytes) && r.numBits == 0 && r.Remaining() == ByteBits(bytes) + tail
    modifies r`pos
    ensures r.Valid() && out == bytes && r.Remaining() == tail
  {
    RestInInput(r.input[r.pos..], bytes, tail);
    out := r.input[r.pos..r.pos + counter];
    assert r.input[r.pos..][..counter] == out && r.input[r.pos..][counter..] == r.input[r.pos + counter..];
    r.pos := r.pos + counter;
  }

  /** Length and complement; the two must agree. */
  method ReadLengths(r: BitReader, ghost n: nat, ghost m: nat, ghost later: seq<bool>) returns (ok: bool, counter: nat)
    requires r.Valid() && n < Pow2(16) && m < Pow2(16) && n + m == 0xFFFF
    requires r.Remaining() == BitsOf(n, 16) + (BitsOf(m, 16) + later)
    modifies r`pos, r`bitBuf, r`numBits
    ensures r.Valid() && ok && counter == n && r.Remaining() == later
  {
    ghost var word := BitsOf(m, 16) + later;
    counter := GetWord(r, n, word);
    var complement := GetWord(r, m, later);
    ok := counter == 0xFFFF - complement;
  }

  method ReadStoredBytes(r: BitReader, counter: nat, ghost bytes: seq<nat>, ghost tail: seq<bool>) returns (out: seq<nat>)
    requires r.Valid() && Bytes(bytes) && counter == |bytes| && r.Remaining() == ByteBits(bytes) + tail
    modifies r`pos, r`bitBuf, r`numBits
    ensures r.Valid() && out == bytes && r.Remaining() == tail
  {
    var left, buffered := BufferedBytes(r, counter, bytes, tail);
    ghost var k := |buffered|;
    if left > 0 {
      ghost var later := bytes[k..];
      JoinParts(bytes, k);
      var rest := RawBytes(r, left, later, tail);
      out := buffered + rest;
    } else {
      NothingLeft(bytes, k, tail);
      out := buffered;
    }
  }

  lemma JoinParts(bytes: seq<nat>, k: nat)
    requires k <= |bytes|
    ensures bytes[..k] + bytes[k..] == bytes
  {}

  lemma NothingLeft(bytes: seq<nat>, k: nat, tail: seq<bool>)
    requires k == |bytes|
    ensures bytes[..k] == bytes && ByteBits(bytes[k..]) + tail == tail
  {
    assert bytes[k..] == [];
  }

  /** The whole block after its type. */
  method ReadStored(r: BitReader, ghost bytes: seq<nat>, ghost phase: nat, ghost tail: seq<bool>) returns (ok: bool, out: seq<nat>)
    requires r.Valid() && Bytes(bytes) && |bytes| < 0x1_0000 && r.Remaining() == StoredBits(bytes, phase) + tail
    requires WholeBytes(phase + |r.Remaining()|)
    modifies r`pos, r`bitBuf, r`numBits
    ensures r.Valid() && ok && out == bytes && r.Remaining() == tail
  {
    ghost var pad, a, b, content := BitsOf(0, PadOf(phase)), BitsOf(|bytes|, 16), BitsOf(0xFFFF - |bytes|, 16), ByteBits(bytes);
    Pow2Values();
    FourSplit(pad, a, b, content, tail);
    SkipPad(r, phase, a + (b + (content + tail)));
    var counter;
    ok, counter := ReadLengths(r, |bytes|, 0xFFFF - |bytes|, content + tail);
    out := ReadStoredBytes(r, counter, bytes, tail);
  }

  lemma FourSplit(a: seq<bool>, b: seq<bool>, c: seq<bool>, d: seq<bool>, tail: seq<bool>)
    ensures a + (b + (c + d)) + tail == a + (b + (c + (d + tail)))
  {}

  /** TINFL_SKIP_BITS(num_bits & 7) skips the padding. */
  method SkipPad(r: BitReader, ghost phase: nat, ghost tail: seq<bool>)
    requires r.Valid() && r.Remaining() == BitsOf(0, PadOf(phase)) + tail && (phase + |r.Remaining()|) % 8 == 0
    modifies r`bitBuf, r`numBits
    ensures r.Valid() && r.Remaining() == tail
  {
    AtHandAligned(r);
    TakeBits(BitsOf(0, PadOf(phase)), tail);
    PadIsRest(phase, |r.Remaining()|);
    r.Skip(r.numBits % 8);
  }

  lemma PadIsRest(phase: nat, n: nat)
    requires (phase + n) % 8 == 0
    ensures PadOf(phase) == n % 8
  {}
}
