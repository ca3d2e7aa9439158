/** The multi-byte shifts of _digest_common.cpp on big-endian byte buffers. */
module DigestShift {
  import opened Powers

  type Byte = b: nat | b < 256

  /** The integer whose big-endian digits are the first n bytes. */
  function BigEndian(s: seq<Byte>, n: nat): nat
    requires n <= |s|
    decreases n, s
  {
    if n == 0 then 0 else BigEndian(s, n - 1) * 256 + s[n - 1]
  }

  function Value(s: seq<Byte>): nat {
    BigEndian(s, |s|)
  }

  /** The first byte is the highest. */
  lemma FirstIsHighest(s: seq<Byte>)
    requires |s| == 3
    ensures var a: nat, b: nat, c: nat := s[0], s[1], s[2]; Value(s) == 0x1_0000 * a + 0x100 * b + c
  {
    var n: nat, a: nat, b: nat := 0, s[0], s[1];
    assert BigEndian(s, n + 1) == a && BigEndian(s, n + 2) == 0x100 * a + b;
  }

  lemma {:induction false} BigEndianSame(s: seq<Byte>, t: seq<Byte>, n: nat)
    requires n <= |s| && n <= |t| && forall k :: 0 <= k < n ==> s[k] == t[k]
    ensures BigEndian(s, n) == BigEndian(t, n)
    decreases n
  {
    if n > 0 { BigEndianSame(s, t, n - 1); }
  }

  lemma Bytes256(n: nat)
    ensures Pow2(8 * n + 8) == 256 * Pow2(8 * n)
  {
    Pow2Add(8, 8 * n);
    Pow2Values();
  }

  lemma {:induction false} BigEndianBound(s: seq<Byte>, n: nat)
    requires n <= |s|
    ensures BigEndian(s, n) < Pow2(8 * n)
    decreases n
  {
    if n > 0 {
      BigEndianBound(s, n - 1);
      Bytes256(n - 1);
    }
  }

  // ---------- Bits within bytes ----------

  /** x * p loses its top bits, the quotient by q, out of the byte. */
  lemma ByteTimes(x: Byte, p: nat, q: nat)
    requires p > 0 && q > 0 && p * q == 256
    ensures x / q < p && x * p == x / q * 256 + x * p % 256 && x * p % 256 + p <= 256
  {
    var a, b := x / q, x % q;
    MulDist(a * q, b, p);
    MulAssoc(a, q, p);
    MulMono(b + 1, q, p);
    MulDist(b, 1, p);
    DivModUnique(x * p, 256, a, b * p);
    if a >= p { MulMono(p, a, q); }
  }

  lemma BytePowers(i: nat)
    requires i <= 8
    ensures Pow2(i) * Pow2(8 - i) == 256
  {
    Pow2Add(i, 8 - i);
    Pow2Values();
  }

  /** Byte p of a buffer shifted left by i < 8 bits. */
  function LeftByte(s: seq<Byte>, i: nat, p: nat): Byte
    requires i < 8 && p < |s|
  {
    BytePowers(i);
    ByteTimes(s[p], Pow2(i), Pow2(8 - i));
    if p + 1 < |s| then
      ByteTimes(s[p + 1], Pow2(i), Pow2(8 - i));
      s[p] * Pow2(i) % 256 + s[p + 1] / Pow2(8 - i)
    else s[p] * Pow2(i) % 256
  }

  /** Byte p of a buffer shifted right by i < 8 bits. */
  function RightByte(s: seq<Byte>, i: nat, p: nat): Byte
    requires i < 8 && p < |s|
  {
    BytePowers(i);
    ByteTimes(s[p], Pow2(8 - i), Pow2(i));
    if p > 0 then
      ByteTimes(s[p - 1], Pow2(8 - i), Pow2(i));
      s[p] / Pow2(i) + s[p - 1] * Pow2(8 - i) % 256
    else s[p] / Pow2(i)
  }

  ghost predicate IsLeft(s: seq<Byte>, t: seq<Byte>, i: nat) {
    i < 8 && |t| == |s| && forall p :: 0 <= p < |s| ==> t[p] == LeftByte(s, i, p)
  }

  ghost predicate IsRight(s: seq<Byte>, t: seq<Byte>, i: nat) {
    i < 8 && |t| == |s| && forall p :: 0 <= p < |s| ==> t[p] == RightByte(s, i, p)
  }

  /** What byte n hands up to its left neighbour. */
  function CarryUp(s: seq<Byte>, q: nat, n: nat): nat
    requires q > 0
  {
    if n < |s| then s[n] / q else 0
  }

  lemma {:induction false} LeftPrefix(s: seq<Byte>, t: seq<Byte>, i: nat, n: nat)
    requires IsLeft(s, t, i) && n <= |s|
    ensures BigEndian(t, n) + Pow2(8 * n) * CarryUp(s, Pow2(8 - i), 0) == BigEndian(s, n) * Pow2(i) + CarryUp(s, Pow2(8 - i), n)
    decreases n
  {
    var p, q := Pow2(i), Pow2(8 - i);
    if n == 0 {
      assert Pow2(0) == 1;
    } else {
      LeftPrefix(s, t, i, n - 1);
      BytePowers(i);
      ByteTimes(s[n - 1], p, q);
      assert t[n - 1] == LeftByte(s, i, n - 1);
      Bytes256(n - 1);
      LeftStep(BigEndian(t, n - 1), BigEndian(s, n - 1), Pow2(8 * (n - 1)), CarryUp(s, q, 0), s[n - 1], p, s[n - 1] / q, s[n - 1] * p % 256, CarryUp(s, q, n));
    }
  }

  lemma LeftStep(t: nat, s: nat, P: nat, top: nat, x: nat, p: nat, up: nat, low: nat, c: nat)
    requires t + P * top == s * p + up && x * p == up * 256 + low
    ensures (t * 256 + (low + c)) + (256 * P) * top == (s * 256 + x) * p + c
  {
    MulDist(s * 256, x, p);
    MulAssoc(256, s, p);
    MulAssoc(256, P, top);
  }

  /** What byte n - 1 hands down to its right neighbour. */
  function CarryDown(s: seq<Byte>, p: nat, n: nat): nat
    requires p > 0 && n <= |s|
  {
    if n > 0 then s[n - 1] % p else 0
  }

  lemma RightByteIs(s: seq<Byte>, i: nat, n: nat)
    requires i < 8 && n < |s|
    ensures RightByte(s, i, n) == s[n] / Pow2(i) + CarryDown(s, Pow2(i), n) * Pow2(8 - i)
  {
    BytePowers(i);
    if n > 0 { ByteRemainder(s[n - 1], Pow2(8 - i), Pow2(i)); }
  }

  lemma {:induction false} RightPrefix(s: seq<Byte>, t: seq<Byte>, i: nat, n: nat)
    requires IsRight(s, t, i) && n <= |s|
    ensures BigEndian(s, n) == BigEndian(t, n) * Pow2(i) + CarryDown(s, Pow2(i), n)
    decreases n
  {
    if n > 0 {
      var p, q := Pow2(i), Pow2(8 - i);
      RightPrefix(s, t, i, n - 1);
      BytePowers(i);
      RightByteIs(s, i, n - 1);
      assert t[n - 1] == RightByte(s, i, n - 1);
      var x := s[n - 1];
      DivBounds(x, p);
      var a, b, c := BigEndian(t, n - 1), BigEndian(s, n - 1), CarryDown(s, p, n - 1);
      RightStep(a, b, c, x, p, q, x / p, x % p);
      assert BigEndian(t, n) == a * 256 + (x / p + c * q);
    }
  }

  /** The low bits of x, moved to the top of a byte. */
  lemma ByteRemainder(x: Byte, q: nat, p: nat)
    requires p > 0 && q > 0 && q * p == 256
    ensures x * q % 256 == x % p * q
  {
    ByteTimes(x, q, p);
    var a, b := x / p, x % p;
    MulDist(a * p, b, q);
    MulAssoc(a, p, q);
  }

  lemma RightStep(t: nat, s: nat, r: nat, x: nat, p: nat, q: nat, quo: nat, rem: nat)
    requires s == t * p + r && p * q == 256 && x == quo * p + rem
    ensures s * 256 + x == (t * 256 + (quo + r * q)) * p + rem
  {
    MulDist(t * 256, quo + r * q, p);
    MulDist(quo, r * q, p);
    MulAssoc(r, q, p);
    MulAssoc(256, t, p);
  }

  // ---------- Whole bytes ----------

  function DropLeft(s: seq<Byte>, j: nat): (t: seq<Byte>)
    ensures |t| == |s|
  {
    seq(|s|, p requires 0 <= p < |s| => if p + j < |s| then s[p + j] else 0)
  }

  function DropRight(s: seq<Byte>, j: nat): (t: seq<Byte>)
    ensures |t| == |s|
  {
    seq(|s|, p requires 0 <= p < |s| => if p >= j then s[p - j] else 0)
  }

  lemma {:induction false} DropRightPrefix(s: seq<Byte>, j: nat, n: nat)
    requires n <= |s|
    ensures BigEndian(DropRight(s, j), n) == if n >= j then BigEndian(s, n - j) else 0
    decreases n
  {
    if n > 0 { DropRightPrefix(s, j, n - 1); }
  }

  /** The first m + n bytes are the first m, then n more. */
  lemma {:induction false} BigEndianSplit(s: seq<Byte>, m: nat, n: nat)
    requires m + n <= |s|
    ensures BigEndian(s, m + n) == BigEndian(s, m) * Pow2(8 * n) + BigEndian(s[m..], n)
    decreases n
  {
    if n == 0 {
      assert Pow2(0) == 1;
    } else {
      BigEndianSplit(s, m, n - 1);
      Bytes256(n - 1);
      assert s[m..][n - 1] == s[m + n - 1];
      SplitStep(BigEndian(s, m), Pow2(8 * (n - 1)), BigEndian(s[m..], n - 1), s[m + n - 1]);
    }
  }

  lemma SplitStep(a: nat, P: nat, b: nat, x: nat)
    ensures (a * P + b) * 256 + x == a * (256 * P) + (b * 256 + x)
  {
    MulAssoc(a, P, 256);
  }

  /** Dropping the last j bytes divides by 256^j. */
  lemma DropRightValue(s: seq<Byte>, j: nat)
    ensures Value(DropRight(s, j)) == Value(s) / Pow2(8 * j)
  {
    DropRightPrefix(s, j, |s|);
    if j <= |s| {
      BigEndianSplit(s, |s| - j, j);
      BigEndianBound(s[|s| - j..], j);
      DivModUnique(Value(s), Pow2(8 * j), BigEndian(s, |s| - j), BigEndian(s[|s| - j..], j));
    } else {
      BigEndianBound(s, |s|);
      Pow2Monotone(8 * |s|, 8 * j);
      DivModUnique(Value(s), Pow2(8 * j), 0, Value(s));
    }
  }

  lemma {:induction false} ZeroTail(s: seq<Byte>, n: nat)
    requires n <= |s| && forall k :: 0 <= k < n ==> s[k] == 0
    ensures BigEndian(s, n) == 0
    decreases n
  {
    if n > 0 { ZeroTail(s, n - 1); }
  }

  /** Dropping the first j bytes multiplies by 256^j, modulo the size of the buffer. */
  lemma DropLeftValue(s: seq<Byte>, j: nat)
    ensures Value(DropLeft(s, j)) == Value(s) * Pow2(8 * j) % Pow2(8 * |s|)
  {
    var n := |s|;
    var t := DropLeft(s, j);
    if j <= n {
      var m: nat := n - j;
      KeptPrefix(s, t, j, m);
      BigEndianSplit(s, j, m);
      BigEndianBound(t, n);
      KeptBytes(Value(s), Value(t), BigEndian(s, j), BigEndian(s[j..], m), m, j, n);
    } else {
      ZeroTail(t, n);
      Pow2Add(8 * (j - n), 8 * n);
      AllLost(Value(s), Pow2(8 * (j - n)), Pow2(8 * n), Pow2(8 * j));
    }
  }

  lemma KeptPrefix(s: seq<Byte>, t: seq<Byte>, j: nat, m: nat)
    requires j + m == |s| && t == DropLeft(s, j)
    ensures BigEndian(t, m + j) == BigEndian(s[j..], m) * Pow2(8 * j)
  {
    BigEndianSplit(t, m, j);
    BigEndianSame(s[j..], t, m);
    ZeroTail(t[m..], j);
  }

  lemma KeptBytes(v: nat, w: nat, a: nat, b: nat, m: nat, j: nat, n: nat)
    requires n == m + j && v == a * Pow2(8 * m) + b && w == b * Pow2(8 * j) && w < Pow2(8 * n)
    ensures v * Pow2(8 * j) % Pow2(8 * n) == w
  {
    var P, Q, M := Pow2(8 * m), Pow2(8 * j), Pow2(8 * n);
    assert P * Q == M by { Pow2Add(8 * m, 8 * j); }
    TopLost(v, a, b, P, Q, M, w);
  }

  lemma AllLost(v: nat, a: nat, m: nat, p: nat)
    requires m > 0 && p == a * m
    ensures v * p % m == 0
  {
    MulAssoc(v, a, m);
    MulMono(0, v, a);
    DivModUnique(v * p, m, v * a, 0);
  }

  lemma TopLost(v: nat, a: nat, b: nat, P: nat, Q: nat, M: nat, w: nat)
    requires v == a * P + b && P * Q == M && w == b * Q && w < M && M > 0
    ensures v * Q % M == w
  {
    MulDist(a * P, b, Q);
    MulAssoc(a, P, Q);
    DivModUnique(v * Q, M, a, w);
  }

  // ---------- The procedures ----------

  /** memcpy of what stays, memset of the rest. */
  method ShiftBytesLeft(src: array<Byte>, dst: array<Byte>, count: nat)
    requires src != dst && src.Length == dst.Length
    modifies dst
    ensures dst[..] == DropLeft(src[..], count)
  {
    var n, i := src.Length, count;
    if i < n {
      forall k | 0 <= k < n - i { dst[k] := src[i + k]; }
    } else {
      i := n;
    }
    forall k | n - i <= k < n { dst[k] := 0; }
  }

  method ShiftBytesRight(src: array<Byte>, dst: array<Byte>, count: nat)
    requires src != dst && src.Length == dst.Length
    modifies dst
    ensures dst[..] == DropRight(src[..], count)
  {
    var n, i := src.Length, count;
    if i < n {
      forall k | 0 <= k < n - i { dst[i + k] := src[k]; }
    } else {
      i := n;
    }
    forall k | 0 <= k < i { dst[k] := 0; }
  }

  /** The bit loop runs upwards, so that it may work in place. */
  method ShiftBitsLeft(src: array<Byte>, dst: array<Byte>, i: nat)
    requires src.Length == dst.Length > 0 && i < 8
    modifies dst
    ensures IsLeft(old(src[..]), dst[..], i)
  {
    ghost var s := src[..];
    var n, p := src.Length, 0;
    BytePowers(i);
    while p < n - 1
      invariant 0 <= p <= n - 1
      invariant forall k :: 0 <= k < p ==> dst[k] == LeftByte(s, i, k)
      invariant forall k :: p <= k < n ==> src[k] == s[k]
    {
      assert LeftByte(s, i, p) == s[p] * Pow2(i) % 256 + s[p + 1] / Pow2(8 - i);
      dst[p] := src[p] * Pow2(i) % 256 + src[p + 1] / Pow2(8 - i);
      p := p + 1;
    }
    dst[p] := src[p] * Pow2(i) % 256;
    assert dst[p] == LeftByte(s, i, p);
  }

  /** The bit loop runs downwards, so that it may work in place. */
  method ShiftBitsRight(src: array<Byte>, dst: array<Byte>, i: nat)
    requires src.Length == dst.Length > 0 && i < 8
    modifies dst
    ensures IsRight(old(src[..]), dst[..], i)
  {
    ghost var s := src[..];
    var n := src.Length;
    var p := n - 1;
    BytePowers(i);
    while p > 0
      invariant 0 <= p <= n - 1
      invariant forall k :: p < k < n ==> dst[k] == RightByte(s, i, k)
      invariant forall k :: 0 <= k <= p ==> src[k] == s[k]
    {
      assert RightByte(s, i, p) == s[p] / Pow2(i) + s[p - 1] * Pow2(8 - i) % 256;
      dst[p] := src[p] / Pow2(i) + src[p - 1] * Pow2(8 - i) % 256;
      p := p - 1;
    }
    assert RightByte(s, i, 0) == s[0] / Pow2(i);
    dst[p] := src[p] / Pow2(i);
  }

  lemma RemainderIs(w: nat, m: nat, top: nat, x: nat)
    requires w < m && w + m * top == x
    ensures x % m == w
  {
    DivModUnique(x, m, top, w);
  }

  lemma BitsLeftValue(s: seq<Byte>, t: seq<Byte>, i: nat)
    requires IsLeft(s, t, i) && |s| > 0
    ensures Value(t) == Value(s) * Pow2(i) % Pow2(8 * |s|)
  {
    var n := |s|;
    var top := CarryUp(s, Pow2(8 - i), 0);
    LeftPrefix(s, t, i, n);
    BigEndianBound(t, n);
    var w, m, x := Value(t), Pow2(8 * n), Value(s) * Pow2(i);
    RemainderIs(w, m, top, x);
  }

  lemma BitsRightValue(s: seq<Byte>, t: seq<Byte>, i: nat)
    requires IsRight(s, t, i) && |s| > 0
    ensures Value(t) == Value(s) / Pow2(i)
  {
    var n := |s|;
    RightPrefix(s, t, i, n);
    DivModUnique(Value(s), Pow2(i), Value(t), s[n - 1] % Pow2(i));
  }

  /** First the bytes, then the bits: together the shift by i. */
  lemma LeftCombined(v: nat, u: nat, w: nat, i: nat, M: nat)
    requires M > 0 && u == v * Pow2(8 * (i / 8)) % M && w == u * Pow2(i % 8) % M
    ensures w == v * Pow2(i) % M
  {
    var a, b := Pow2(8 * (i / 8)), Pow2(i % 8);
    Pow2Add(8 * (i / 8), i % 8);
    assert i == 8 * (i / 8) + i % 8;
    MulAssoc(v, a, b);
    var q, x := v * a / M, u * b;
    DivBounds(v * a, M);
    DivBounds(x, M);
    MulDist(q * M, u, b);
    MulAssoc(b, q, M);
    MulDist(b * q, x / M, M);
    DivModUnique(v * Pow2(i), M, b * q + x / M, w);
  }

  lemma RightCombined(v: nat, u: nat, i: nat)
    requires u == v / Pow2(8 * (i / 8))
    ensures u / Pow2(i % 8) == v / Pow2(i)
  {
    var a, b := Pow2(8 * (i / 8)), Pow2(i % 8);
    Pow2Add(8 * (i / 8), i % 8);
    assert i == 8 * (i / 8) + i % 8;
    DivDiv(v, a, b);
  }

  /** shift_l: multiplication by 2^i on the buffer's big-endian integer. */
  method ShiftLeft(src: array<Byte>, dst: array<Byte>, count: nat)
    requires src.Length == dst.Length > 0 && (src == dst ==> count < 8)
    modifies dst
    ensures Value(dst[..]) == old(Value(src[..])) * Pow2(count) % Pow2(8 * dst.Length)
  {
    ghost var s := src[..];
    if count >= 8 {
      ShiftBytesLeft(src, dst, count / 8);
      ghost var u := dst[..];
      DropLeftValue(s, count / 8);
      ShiftBitsLeft(dst, dst, count % 8);
      BitsLeftValue(u, dst[..], count % 8);
      LeftCombined(Value(s), Value(u), Value(dst[..]), count, Pow2(8 * dst.Length));
    } else {
      ShiftBitsLeft(src, dst, count);
      BitsLeftValue(s, dst[..], count);
    }
  }

  /** shift_r: division by 2^i. */
  method ShiftRight(src: array<Byte>, dst: array<Byte>, count: nat)
    requires src.Length == dst.Length > 0 && (src == dst ==> count < 8)
    modifies dst
    ensures Value(dst[..]) == old(Value(src[..])) / Pow2(count)
  {
    ghost var s := src[..];
    if count >= 8 {
      ShiftBytesRight(src, dst, count / 8);
      ghost var u := dst[..];
      DropRightValue(s, count / 8);
      ShiftBitsRight(dst, dst, count % 8);
      BitsRightValue(u, dst[..], count % 8);
      RightCombined(Value(s), Value(u), count);
    } else {
      ShiftBitsRight(src, dst, count);
      BitsRightValue(s, dst[..], count);
    }
  }
}
