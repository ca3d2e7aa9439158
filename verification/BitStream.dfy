/** Bit streams as sequences, least significant bit first. */
module BitStream {
  import opened Powers
  import opened BitFields

  /** The n low bits of x. */
  ghost function BitsOf(x: nat, n: nat): (s: seq<bool>)
    ensures |s| == n
    decreases n, x
  {
    if n == 0 then [] else [x % 2 == 1] + BitsOf(x / 2, n - 1)
  }

  lemma {:induction false} BitsAppend(x: nat, a: nat, b: nat)
    ensures BitsOf(x, a + b) == BitsOf(x, a) + BitsOf(Shr(x, a), b)
    decreases a
  {
    if a > 0 { BitsAppend(x / 2, a - 1, b); }
  }

  lemma {:induction false} BitsOfLow(x: nat, k: nat, n: nat)
    requires n <= k
    ensures BitsOf(Low(x, k), n) == BitsOf(x, n)
    decreases n
  {
    if n > 0 { BitsOfLow(x / 2, k - 1, n - 1); }
  }

  /** Numbers below 2^n are told apart by their n bits. */
  lemma {:induction false} BitsInjective(x: nat, y: nat, n: nat)
    requires BitsOf(x, n) == BitsOf(y, n)
    ensures Low(x, n) == Low(y, n)
    decreases n
  {
    if n > 0 {
      assert BitsOf(x, n)[0] == BitsOf(y, n)[0];
      assert BitsOf(x, n)[1..] == BitsOf(x / 2, n - 1);
      assert BitsOf(y, n)[1..] == BitsOf(y / 2, n - 1);
      BitsInjective(x / 2, y / 2, n - 1);
    }
  }

  lemma {:induction false} BitsPlus(r: nat, n: nat, rest: nat, k: nat)
    requires r < Pow2(n)
    ensures BitsOf(r + Pow2(n) * rest, n + k) == BitsOf(r, n) + BitsOf(rest, k)
  {
    LowShrAppend(r, n, rest);
    BitsAppend(r + Pow2(n) * rest, n, k);
    BitsOfLow(r + Pow2(n) * rest, n, n);
  }

  /** The bits of a list of bytes. */
  ghost function ByteBits(bytes: seq<nat>): (s: seq<bool>)
    ensures |s| == 8 * |bytes|
  {
    if bytes == [] then [] else BitsOf(bytes[0], 8) + ByteBits(bytes[1..])
  }

  lemma {:induction false} ByteBitsAppend(a: seq<nat>, b: seq<nat>)
    ensures ByteBits(a + b) == ByteBits(a) + ByteBits(b)
  {
    if a == [] {
      assert a + b == b;
    } else {
      var first, rest, tail := BitsOf(a[0], 8), ByteBits(a[1..]), ByteBits(b);
      ByteBitsAppend(a[1..], b);
      assert (a + b)[1..] == a[1..] + b;
      assert first + (rest + tail) == (first + rest) + tail;
    }
  }

  lemma OneByte(x: nat)
    ensures ByteBits([x]) == BitsOf(x, 8)
  {
    assert ByteBits([x][1..]) == [];
  }

  lemma Assoc(a: seq<bool>, b: seq<bool>, c: seq<bool>)
    ensures a + b + c == a + (b + c)
  {}

  lemma PrefixTrans<T>(a: seq<T>, b: seq<T>, c: seq<T>)
    requires a <= b && b <= c
    ensures a <= c
  {}
}
