/** The approximate logarithm of a 256-bit hash and its inverse (sha256.cpp). */
module Sha256Log {
  import opened Powers
  import opened BitFields
  import opened DigestShift

  const SIZE := 32
  const UNIT := 0x100_0000 // 2^24, the fixed point of the logarithm

  // ---------- What is computed ----------

  /** The position of the highest bit of v. */
  function TopBit(v: nat): nat
    requires v > 0
  {
    if v == 1 then 0 else 1 + TopBit(v / 2)
  }

  lemma {:induction false} TopBitBounds(v: nat)
    requires v > 0
    ensures Pow2(TopBit(v)) <= v < Pow2(TopBit(v) + 1)
  {
    if v > 1 { TopBitBounds(v / 2); }
  }

  lemma TopBitIs(v: nat, k: nat)
    requires Pow2(k) <= v < Pow2(k + 1)
    ensures v > 0 && TopBit(v) == k
  {
    TopBitBounds(v);
    var j := TopBit(v);
    if j < k { Pow2Monotone(j + 1, k); }
    if k < j { Pow2Monotone(k + 1, j); }
  }

  /** The top bit and the 24 bits below it, in fixed point: k + (v / 2^k - 1). */
  function ApproxLog(v: nat): (x: nat)
  {
    if v == 0 then 0 else
      var k := TopBit(v);
      MantissaBounds(v);
      k * UNIT + v * UNIT / Pow2(k) - UNIT
  }

  lemma MantissaBounds(v: nat)
    requires v > 0
    ensures UNIT <= v * UNIT / Pow2(TopBit(v)) < 2 * UNIT
  {
    TopBitBounds(v);
    var p := Pow2(TopBit(v));
    QuotientBounds(v, p);
  }

  lemma QuotientBounds(v: nat, p: nat)
    requires 0 < p <= v < 2 * p
    ensures UNIT <= v * UNIT / p < 2 * UNIT
  {
    var q := v * UNIT / p;
    DivBounds(v * UNIT, p);
    if q < UNIT { MulMono(q + 1, UNIT, p); }
    if q >= 2 * UNIT { MulMono(2 * UNIT, q, p); }
  }

  function Down(m: nat, d: nat): nat {
    DivBounds(m, Pow2(d));
    m / Pow2(d)
  }

  function Up(m: nat, d: nat): nat {
    MulMono(0, m, Pow2(d));
    m * Pow2(d)
  }

  /** The number whose logarithm x is; below 2^24 units the mantissa is cut off at the binary point. */
  function Inverse(x: nat): nat {
    var e, m := x / UNIT, UNIT + x % UNIT;
    if e == 0 then 0 else if e <= 24 then Down(m, 24 - e) else Up(m, e - 24)
  }

  /** Small logarithms in numbers, 2^24 to the bit. */
  lemma KnownLogs()
    ensures ApproxLog(0) == 0 && ApproxLog(1) == 0 && ApproxLog(2) == 0x100_0000 && ApproxLog(3) == 0x180_0000
    ensures ApproxLog(10) == 0x340_0000
  {
    assert TopBit(3) == 1 && TopBit(10) == 3 && Pow2(3) == 8;
  }

  // ---------- Properties ----------

  lemma LogMonotone(v: nat, w: nat)
    requires v <= w
    ensures ApproxLog(v) <= ApproxLog(w)
  {
    if 0 < v {
      var j, k := TopBit(v), TopBit(w);
      TopBitBounds(v);
      TopBitBounds(w);
      MantissaBounds(v);
      MantissaBounds(w);
      if j > k { Pow2Monotone(k + 1, j); }
      if j == k { DivMonotone(v * UNIT, w * UNIT, Pow2(k)); }
    }
  }

  lemma DivMonotone(a: nat, b: nat, p: nat)
    requires a <= b && p > 0
    ensures a / p <= b / p
  {
    DivBounds(a, p);
    DivBounds(b, p);
    MulDist(b / p, 1, p);
    MulCancelLess(a / p, b / p, p);
  }

  lemma UnitIsPower()
    ensures Pow2(24) == UNIT
  {
    Pow2Add(8, 16);
    Pow2Values();
  }

  /** Any m of 25 bits, shifted to top bit e: its logarithm has exponent e and the mantissa that the shift kept. */
  lemma LogOfShifted(m: nat, e: nat)
    requires UNIT <= m < 2 * UNIT && e > 0
    ensures e >= 24 ==> ApproxLog(m * Pow2(e - 24)) == e * UNIT + m - UNIT
    ensures e < 24 ==> ApproxLog(m / Pow2(24 - e)) == e * UNIT + m - m % Pow2(24 - e) - UNIT
  {
    UnitIsPower();
    if e >= 24 {
      Pow2Add(24, e - 24);
      LogOfUp(m, Pow2(e - 24), e);
    } else {
      Pow2Add(e, 24 - e);
      LogOfDown(m, Pow2(24 - e), e);
    }
  }

  lemma LogOfUp(m: nat, p: nat, e: nat)
    requires UNIT <= m < 2 * UNIT && p > 0 && UNIT * p == Pow2(e)
    ensures ApproxLog(m * p) == e * UNIT + m - UNIT
  {
    var v := m * p;
    MulMono(UNIT, m, p);
    MulMono(m + 1, 2 * UNIT, p);
    MulDist(m, 1, p);
    MulAssoc(2, UNIT, p);
    TopBitIs(v, e);
    MulAssoc(m, p, UNIT);
    DivModUnique(v * UNIT, Pow2(e), m, 0);
  }

  lemma LogOfDown(m: nat, p: nat, e: nat)
    requires UNIT <= m < 2 * UNIT && p > 0 && Pow2(e) * p == UNIT
    ensures ApproxLog(m / p) == e * UNIT + m - m % p - UNIT
  {
    var v := m / p;
    DivBounds(m, p);
    ShiftedDown(m, p, Pow2(e), v);
    TopBitIs(v, e);
    MulAssoc(v, p, Pow2(e));
    DivModUnique(v * UNIT, Pow2(e), v * p, 0);
  }

  lemma ShiftedDown(m: nat, p: nat, q: nat, v: nat)
    requires UNIT <= m < 2 * UNIT && p > 0 && q > 0 && q * p == UNIT && v == m / p
    ensures q <= v < 2 * q
  {
    DivBounds(m, p);
    MulAssoc(2, q, p);
    if v < q { MulMono(v + 1, q, p); MulDist(v, 1, p); }
    if v >= 2 * q { MulMono(2 * q, v, p); }
  }

  /** The logarithm of the inverse: x itself from exponent 24 on, rounded down to what the cut left below. */
  lemma LogOfInverse(x: nat)
    ensures var e := x / UNIT;
            ApproxLog(Inverse(x)) == if e == 0 then 0 else if e >= 24 then x else x - x % Pow2(24 - e)
  {
    var e, m := x / UNIT, UNIT + x % UNIT;
    if e > 0 {
      LogOfShifted(m, e);
      if e == 24 { assert Pow2(0) == 1; }
      if e < 24 {
        UnitIsPower();
        Pow2Add(e, 24 - e);
        SameRemainder(x, e, Pow2(e), Pow2(24 - e));
      }
    }
  }

  lemma SameRemainder(x: nat, e: nat, q: nat, p: nat)
    requires p > 0 && q * p == UNIT && e == x / UNIT
    ensures (UNIT + x % UNIT) % p == x % p
  {
    var m := UNIT + x % UNIT;
    DivBounds(m, p);
    MulDist(e - 1, m / p, p);
    MulAssoc(e - 1, q, p);
    MulDist((e - 1) * q, m / p, p);
    assert x == (e - 1) * UNIT + m;
    DivModUnique(x, p, (e - 1) * q + m / p, m % p);
  }

  /** The inverse of the logarithm keeps the top 25 bits of v, that is all of it below 2^25. */
  lemma InverseOfLog(v: nat)
    requires v > 1
    ensures var k := TopBit(v);
            Inverse(ApproxLog(v)) == if k <= 24 then v else v - v % Pow2(k - 24)
  {
    var k := TopBit(v);
    var m := v * UNIT / Pow2(k);
    TopBitBounds(v);
    MantissaBounds(v);
    InverseAt(ApproxLog(v), k, m);
    UnitIsPower();
    if k <= 24 {
      Pow2Add(24 - k, k);
      MantissaWhole(v, Pow2(24 - k), Pow2(k));
    } else {
      Pow2Add(24, k - 24);
      CancelUnit(v, Pow2(k - 24), Pow2(k));
      DivBounds(v, Pow2(k - 24));
    }
  }

  lemma InverseAt(x: nat, k: nat, m: nat)
    requires k > 0 && UNIT <= m < 2 * UNIT && x == k * UNIT + m - UNIT
    ensures Inverse(x) == if k <= 24 then Down(m, 24 - k) else Up(m, k - 24)
  {
    DivModUnique(x, UNIT, k, m - UNIT);
  }

  lemma MantissaWhole(v: nat, p: nat, P: nat)
    requires p > 0 && P > 0 && p * P == UNIT
    ensures v * UNIT / P / p == v
  {
    MulAssoc(v, p, P);
    DivModUnique(v * UNIT, P, v * p, 0);
    DivModUnique(v * p, p, v, 0);
  }

  lemma CancelUnit(v: nat, p: nat, P: nat)
    requires p > 0 && P == UNIT * p
    ensures v * UNIT / P == v / p
  {
    var q, r := v / p, v % p;
    DivBounds(v, p);
    MulDist(q * p, r, UNIT);
    MulAssoc(UNIT, q, p);
    MulAssoc(q, UNIT, p);
    DivModUnique(v * UNIT, P, q, r * UNIT);
  }

  // ---------- The procedures ----------

  /** The number of leading zero bits of a byte: the table, row by row. */
  function LeadingZeros(c: Byte): nat {
    if c == 0 then 8 else if c == 1 then 7 else if c < 4 then 6 else if c < 8 then 5 else if c < 16 then 4
    else if c < 32 then 3 else if c < 64 then 2 else if c < 128 then 1 else 0
  }

  lemma LeadingZerosBound(c: Byte)
    requires c > 0
    ensures LeadingZeros(c) <= 7 && Pow2(7 - LeadingZeros(c)) <= c < Pow2(8 - LeadingZeros(c))
  {
    assert Pow2(1) == 2;
    Pow2Add(1, 1);
    Pow2Add(2, 1);
    Pow2Add(2, 2);
    Pow2Add(4, 1);
    Pow2Add(4, 2);
    Pow2Add(4, 3);
    Pow2Add(4, 4);
    assert Pow2(0) == 1;
  }

  ghost predicate ZeroUpTo(s: seq<Byte>, n: nat) {
    n <= |s| && forall k :: 0 <= k < n ==> s[k] == 0
  }

  /** The first byte that is not zero holds the top bit. */
  lemma FirstByte(s: seq<Byte>, i: nat, l: nat)
    requires |s| == SIZE && i < SIZE && ZeroUpTo(s, i) && s[i] != 0 && l == LeadingZeros(s[i])
    ensures l <= 7 && Value(s) > 0 && TopBit(Value(s)) == 255 - (8 * i + l)
  {
    var n: nat := 31 - i;
    var r := BigEndian(s[i + 1..], n);
    ZeroTail(s, i);
    BigEndianSplit(s, i + 1, n);
    BigEndianBound(s[i + 1..], n);
    ByteOnTop(s[i], l, 8 * n, r, Value(s));
  }

  lemma ByteOnTop(c: Byte, l: nat, n: nat, r: nat, v: nat)
    requires c != 0 && l == LeadingZeros(c) && r < Pow2(n) && v == c * Pow2(n) + r
    ensures l <= 7 && v > 0 && TopBit(v) == 7 - l + n
  {
    LeadingZerosBound(c);
    Pow2Add(7 - l, n);
    Pow2Add(8 - l, n);
    MulMono(Pow2(7 - l), c, Pow2(n));
    MulMono(c + 1, Pow2(8 - l), Pow2(n));
    MulDist(c, 1, Pow2(n));
    TopBitIs(v, 7 - l + n);
  }

  /** clz */
  method CountLeadingZeros(bytes: array<Byte>) returns (lzbits: nat)
    requires bytes.Length == SIZE
    ensures lzbits == if Value(bytes[..]) == 0 then 256 else 255 - TopBit(Value(bytes[..]))
    ensures lzbits < 256 ==> ZeroUpTo(bytes[..], lzbits / 8)
  {
    var i: nat := 0;
    lzbits := 0;
    while true
      invariant i < SIZE && lzbits == 8 * i && ZeroUpTo(bytes[..], i)
      decreases SIZE - i
    {
      var c := bytes[i];
      lzbits := lzbits + LeadingZeros(c);
      if c != 0 {
        FirstByte(bytes[..], i, LeadingZeros(c));
        break;
      }
      i := i + 1;
      if i >= SIZE {
        ZeroTail(bytes[..], SIZE);
        return 0x100;
      }
    }
  }

  function At(s: seq<Byte>, p: nat): nat {
    if p < |s| then s[p] else 0
  }

  function Window(s: seq<Byte>, offset: nat): nat {
    At(s, offset) * 0x100_0000 + At(s, offset + 1) * 0x1_0000 + At(s, offset + 2) * 0x100 + At(s, offset + 3)
  }

  /** Four bytes from the first that is not zero are v * 2^24 without its low 31 - offset bytes. */
  lemma WindowValue(s: seq<Byte>, offset: nat)
    requires |s| == SIZE && offset < SIZE && ZeroUpTo(s, offset)
    ensures Window(s, offset) == Value(s) * UNIT / Pow2(8 * (31 - offset))
  {
    var t: seq<Byte> := s + [0, 0, 0];
    var n: nat := 31 - offset;
    ZeroTail(t, offset);
    FourMore(t, offset);
    BigEndianSame(s, t, SIZE);
    assert BigEndian(t, 35) == Value(s) * UNIT by { ThreeMore(t); }
    BigEndianSplit(t, offset + 4, n);
    var r := BigEndian(t[offset + 4..], n);
    BigEndianBound(t[offset + 4..], n);
    DivModUnique(Value(s) * UNIT, Pow2(8 * n), Window(s, offset), r);
  }

  lemma FourMore(t: seq<Byte>, i: nat)
    requires i + 4 <= |t| && BigEndian(t, i) == 0
    ensures BigEndian(t, i + 4) == Window(t, i)
  {
    var a: nat, b: nat, c: nat := t[i], t[i + 1], t[i + 2];
    assert BigEndian(t, i + 1) == a;
    assert BigEndian(t, i + 2) == a * 256 + b;
    assert BigEndian(t, i + 3) == (a * 256 + b) * 256 + c;
  }

  lemma ThreeMore(t: seq<Byte>)
    requires |t| == 35 && t[32] == t[33] == t[34] == 0
    ensures BigEndian(t, 35) == BigEndian(t, 32) * UNIT
  {
    var n: nat := 32;
    assert BigEndian(t, n + 1) == BigEndian(t, n) * 256;
    assert BigEndian(t, n + 2) == BigEndian(t, n + 1) * 256;
    assert BigEndian(t, n + 3) == BigEndian(t, n + 2) * 256;
  }

  /** Exclusive or with one bit. */
  function FlipBit(y: nat, p: nat): nat
    requires p > 0
  {
    DivBounds(y, p);
    if y / p % 2 == 1 then
      MulAtLeast(y / p, p);
      y - p
    else y + p
  }

  /** The exponent goes above the mantissa's 24 bits. */
  lemma OrExponent(y: nat, k: nat)
    requires y < UNIT
    ensures Or(y, k * UNIT) == k * UNIT + y
  {
    UnitIsPower();
    OrConcat(0, y, k, 0, 24, y, k * UNIT, k * UNIT);
  }

  /** approx_log_32 */
  method ApproxLog32(bytes: array<Byte>) returns (y: nat)
    requires bytes.Length == SIZE
    ensures y == ApproxLog(Value(bytes[..])) < 0x1_0000_0000
  {
    ghost var s := bytes[..];
    var lzbits := CountLeadingZeros(bytes);
    if lzbits >= 0x100 { return 0; }
    var nzbits := 0xFF - lzbits;
    var offset := lzbits / 8;
    var n := bytes.Length;
    var y0: nat := bytes[offset];
    var y1: nat := if offset + 1 < n then bytes[offset + 1] else 0;
    var y2: nat := if offset + 2 < n then bytes[offset + 2] else 0;
    var y3: nat := if offset + 3 < n then bytes[offset + 3] else 0;
    y := y0 * 0x100_0000 + y1 * 0x1_0000 + y2 * 0x100 + y3;
    WindowValue(s, offset);
    MantissaIs(Value(s), nzbits, offset, y);
    y := Assemble(y, nzbits, Value(s));
  }

  /** The window shifted down to 25 bits, its top bit replaced by the exponent. */
  method Assemble(window: nat, nzbits: nat, ghost v: nat) returns (y: nat)
    requires v > 0 && nzbits == TopBit(v) < 256 && window / Pow2(nzbits % 8) == v * UNIT / Pow2(nzbits)
    ensures y == ApproxLog(v) < 0x1_0000_0000
  {
    MantissaBounds(v);
    y := window / Pow2(nzbits % 8);
    y := FlipBit(y, UNIT);
    OrExponent(y, nzbits);
    y := Or(y, nzbits * UNIT);
  }

  lemma MantissaIs(v: nat, k: nat, offset: nat, w: nat)
    requires k <= 255 && offset == (255 - k) / 8 && w == v * UNIT / Pow2(8 * (31 - offset))
    ensures w / Pow2(k % 8) == v * UNIT / Pow2(k)
  {
    var n: nat := 31 - offset;
    assert k == 8 * n + k % 8;
    Pow2Add(8 * n, k % 8);
    DivDiv(v * UNIT, Pow2(8 * n), Pow2(k % 8));
  }

  /** set_to_inverse_approx_log_32 */
  method SetToInverse(bytes: array<Byte>, x: nat)
    requires bytes.Length == SIZE && x < 0x1_0000_0000
    modifies bytes
    ensures Value(bytes[..]) == Inverse(x)
  {
    var nzbits := x / UNIT;
    forall k | 0 <= k < SIZE { bytes[k] := 0; }
    if nzbits == 0 {
      ZeroTail(bytes[..], SIZE);
      return;
    }
    bytes[0x1F], bytes[0x1E], bytes[0x1D], bytes[0x1C] := x % 0x100, x / 0x100 % 0x100, x / 0x1_0000 % 0x100, 1;
    MantissaBytes(bytes[..], x);
    ShiftMantissa(bytes, UNIT + x % UNIT, nzbits);
  }

  /** *this = *this >> n or *this << n: the shift goes into a new hash, which is copied back. */
  method ShiftMantissa(bytes: array<Byte>, ghost m: nat, e: nat)
    requires bytes.Length == SIZE && Value(bytes[..]) == m < 2 * UNIT && e < 256
    modifies bytes
    ensures Value(bytes[..]) == if e <= 24 then Down(m, 24 - e) else Up(m, e - 24)
  {
    var result := new Byte[SIZE];
    if e <= 0x18 {
      ShiftRight(bytes, result, 0x18 - e);
    } else {
      ShiftLeft(bytes, result, e - 0x18);
      NoneLost(m, e, 8 * result.Length);
    }
    ghost var r := result[..];
    assert Value(r) == if e <= 24 then Down(m, 24 - e) else Up(m, e - 24);
    forall k | 0 <= k < SIZE { bytes[k] := result[k]; }
    assert bytes[..] == r;
  }

  lemma MantissaBytes(s: seq<Byte>, x: nat)
    requires |s| == SIZE && ZeroUpTo(s, 28)
    requires s[28] == 1 && s[29] == x / 0x1_0000 % 0x100 && s[30] == x / 0x100 % 0x100 && s[31] == x % 0x100
    ensures Value(s) == UNIT + x % UNIT
  {
    ZeroTail(s, 28);
    FourMore(s, 28);
    ThreeBytes(x);
  }

  lemma ThreeBytes(x: nat)
    ensures x / 0x1_0000 % 0x100 * 0x1_0000 + x / 0x100 % 0x100 * 0x100 + x % 0x100 == x % UNIT
  {
    assert x / 0x1_0000 == x / 0x100 / 0x100;
  }

  /** 25 bits shifted up by at most 231 fit the 256. */
  lemma NoneLost(m: nat, e: nat, n: nat)
    requires m < 2 * UNIT && 24 < e < 256 && n == 256
    ensures m * Pow2(e - 24) % Pow2(n) == m * Pow2(e - 24)
  {
    UnitIsPower();
    var p := Pow2(e - 24);
    Pow2Add(25, e - 24);
    Pow2Monotone(e + 1, n);
    MulMono(m + 1, 2 * UNIT, p);
    MulDist(m, 1, p);
    MulMono(0, m, p);
    DivModUnique(m * p, Pow2(n), 0, m * p);
  }
}
