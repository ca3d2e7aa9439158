/** TDEFL_PUT_BITS and TINFL_GET_BITS of miniz.c: writing and reading bit fields of a byte stream. */
module BitIo {
  import opened Powers
  import opened BitFields
  import opened BitStream

  ghost predicate Bytes(s: seq<nat>) {
    forall i :: 0 <= i < |s| ==> s[i] < 256
  }

  /** The fields of a writer, kept to be able to go back. */
  datatype WriterState = WriterState(bitBuffer: nat, bitsIn: nat, outputBuf: seq<nat>) {
    ghost predicate Valid() {
      bitsIn < 8 && bitBuffer < Pow2(bitsIn) && Bytes(outputBuf)
    }

    ghost function Stream(): seq<bool> {
      ByteBits(outputBuf) + BitsOf(bitBuffer, bitsIn)
    }
  }

  /** The low eight bits leave the bit buffer for the output. */
  lemma LowByteOut(out: seq<nat>, x: nat, e: nat, n: nat)
    requires e == 8 && x < Pow2(e + n)
    ensures Low(x, e) < 256 && Shr(x, e) < Pow2(n)
    ensures ByteBits(out + [Low(x, e)]) + BitsOf(Shr(x, e), n) == ByteBits(out) + BitsOf(x, e + n)
  {
    ShrBelow(x, e, n);
    BitsAppend(x, e, n);
    BitsOfLow(x, e, e);
    OneByte(Low(x, e));
    ByteBitsAppend(out, [Low(x, e)]);
    ByteFits(x);
    Assoc(ByteBits(out), BitsOf(x, e), BitsOf(Shr(x, e), n));
  }

  class BitWriter {
    var bitBuffer: nat
    var bitsIn: nat
    var outputBuf: seq<nat>

    ghost predicate Valid()
      reads this
    {
      bitsIn < 8 && bitBuffer < Pow2(bitsIn) && Bytes(outputBuf)
    }

    /** All bits written so far. */
    ghost function Stream(): seq<bool>
      reads this
    {
      ByteBits(outputBuf) + BitsOf(bitBuffer, bitsIn)
    }

    constructor ()
      ensures Valid() && Stream() == []
    {
      bitBuffer, bitsIn, outputBuf := 0, 0, [];
    }

    /** One byte leaves the bit buffer. */
    method FlushByte()
      requires bitsIn >= 8 && bitBuffer < Pow2(bitsIn) && Bytes(outputBuf)
      modifies this
      ensures bitsIn == old(bitsIn) - 8 && bitBuffer < Pow2(bitsIn) && Bytes(outputBuf)
      ensures Stream() == old(Stream())
    {
      var x, n := bitBuffer, bitsIn - 8;
      LowByteOut(outputBuf, x, 8, n);
      outputBuf := outputBuf + [Low(x, 8)];
      bitBuffer := Shr(x, 8);
      bitsIn := n;
    }

    /** Appends the l bits of b. */
    method PutBits(b: nat, l: nat)
      requires Valid() && b < Pow2(l)
      modifies this
      ensures Valid() && Stream() == old(Stream()) + BitsOf(b, l)
    {
      BitsPlus(bitBuffer, bitsIn, b, l);
      BufferFits(bitBuffer, bitsIn, b, l);
      bitBuffer := bitBuffer + Pow2(bitsIn) * b;
      bitsIn := bitsIn + l;
      while bitsIn >= 8
        invariant bitBuffer < Pow2(bitsIn) && Bytes(outputBuf)
        invariant Stream() == old(Stream()) + BitsOf(b, l)
      {
        FlushByte();
      }
    }

    /** Goes back to a state saved earlier. */
    method Restore(saved: WriterState)
      requires saved.Valid()
      modifies this
      ensures Valid() && Stream() == saved.Stream() && outputBuf == saved.outputBuf
    {
      bitBuffer, bitsIn, outputBuf := saved.bitBuffer, saved.bitsIn, saved.outputBuf;
    }

    method Save() returns (saved: WriterState)
      requires Valid()
      ensures saved.Valid() && saved.Stream() == Stream() && saved.outputBuf == outputBuf
    {
      saved := WriterState(bitBuffer, bitsIn, outputBuf);
    }
  }

  lemma ByteFits(x: nat)
    ensures Low(x, 8) < 256
  {
    LowShr(x, 8);
    Pow2Values();
  }

  lemma BufferFits(r: nat, n: nat, b: nat, l: nat)
    requires r < Pow2(n) && b < Pow2(l)
    ensures r + Pow2(n) * b < Pow2(n + l)
  {
    Pow2Add(n, l);
    DigitBound(r, Pow2(n), b, Pow2(l));
  }

  class BitReader {
    const input: seq<nat>
    var pos: nat
    var bitBuf: nat
    var numBits: nat

    ghost predicate Valid()
      reads this
    {
      pos <= |input| && numBits < 32 && bitBuf < Pow2(numBits) && Bytes(input)
    }

    /** The bits not read yet. */
    ghost function Remaining(): seq<bool>
      reads this
      requires pos <= |input|
    {
      BitsOf(bitBuf, numBits) + ByteBits(input[pos..])
    }

    constructor (input: seq<nat>)
      requires Bytes(input)
      ensures Valid() && Remaining() == ByteBits(input) && this.input == input && numBits == 0
    {
      this.input := input;
      pos, bitBuf, numBits := 0, 0, 0;
      new;
      assert input[0..] == input;
    }

    /** One more input byte above the bits at hand. */
    method GetByte()
      requires Valid() && pos < |input| && numBits < 24
      modifies `pos, `bitBuf, `numBits
      ensures Valid() && numBits == old(numBits) + 8 && pos == old(pos) + 1
      ensures Remaining() == old(Remaining())
    {
      var bitBuf' := bitBuf + Pow2(numBits) * input[pos];
      ByteOnTop(bitBuf, bitBuf', numBits, input, pos);
      bitBuf, numBits, pos := bitBuf', numBits + 8, pos + 1;
    }

    /** Drops n bits at hand. */
    method Skip(n: nat)
      requires Valid() && n <= numBits
      modifies `bitBuf, `numBits
      ensures Valid() && Remaining() == old(Remaining())[n..] && numBits == old(numBits) - n
    {
      var x, k := bitBuf, numBits - n;
      BitsAppend(x, n, k);
      ShrBelow(x, n, k);
      ghost var before := Remaining();
      bitBuf := Shr(x, n);
      numBits := k;
      DropFirst(BitsOf(x, n), BitsOf(Shr(x, n), k), ByteBits(input[pos..]));
    }

    /** Reads n bits. */
    method GetBits(n: nat) returns (b: nat)
      requires Valid() && n <= |Remaining()| && n <= 24
      modifies `pos, `bitBuf, `numBits
      ensures Valid() && b < Pow2(n)
      ensures BitsOf(b, n) == old(Remaining())[..n] && Remaining() == old(Remaining())[n..]
    {
      ghost var all := Remaining();
      while numBits < n
        invariant Valid() && Remaining() == all
        decreases n - numBits
      {
        GetByte();
      }
      b := Low(bitBuf, n);
      LowShr(bitBuf, n);
      BitsOfLow(bitBuf, n, n);
      FirstBits(bitBuf, n, numBits, ByteBits(input[pos..]));
      Skip(n);
    }
  }

  lemma ByteOnTop(x: nat, y: nat, n: nat, input: seq<nat>, pos: nat)
    requires pos < |input| && x < Pow2(n) && input[pos] < 256 && y == x + Pow2(n) * input[pos]
    ensures y < Pow2(n + 8) && BitsOf(y, n + 8) + ByteBits(input[pos + 1..]) == BitsOf(x, n) + ByteBits(input[pos..])
  {
    assert input[pos..][1..] == input[pos + 1..];
    Pow2Values();
    FieldOnTop(x, y, n, input[pos], 8, ByteBits(input[pos + 1..]));
  }

  lemma FieldOnTop(x: nat, y: nat, n: nat, b: nat, l: nat, rest: seq<bool>)
    requires x < Pow2(n) && b < Pow2(l) && y == x + Pow2(n) * b
    ensures y < Pow2(n + l) && BitsOf(y, n + l) + rest == BitsOf(x, n) + (BitsOf(b, l) + rest)
  {
    BitsPlus(x, n, b, l);
    BufferFits(x, n, b, l);
  }

  lemma DropFirst(a: seq<bool>, b: seq<bool>, c: seq<bool>)
    ensures (a + b + c)[|a|..] == b + c
  {}

  lemma FirstBits(x: nat, n: nat, m: nat, rest: seq<bool>)
    requires n <= m
    ensures (BitsOf(x, m) + rest)[..n] == BitsOf(x, n)
  {
    var k := m - n;
    BitsAppend(x, n, k);
  }

  /** What was put is what is got. */
  lemma GotIsPut(got: nat, put: nat, n: nat)
    requires got < Pow2(n) && put < Pow2(n) && BitsOf(got, n) == BitsOf(put, n)
    ensures got == put
  {
    BitsInjective(got, put, n);
    LowOfSmall(got, n);
    LowOfSmall(put, n);
  }
}
