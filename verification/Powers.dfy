/** Powers of two and the few division facts the bit-level modules share. */
module Powers {

  function Pow2(n: nat): (p: nat)
    ensures p >= 1
  {
    if n == 0 then 1 else 2 * Pow2(n - 1)
  }

  lemma {:induction false} Pow2Add(a: nat, b: nat)
    ensures Pow2(a + b) == Pow2(a) * Pow2(b)
  {
    if a > 0 {
      Pow2Add(a - 1, b);
      assert Pow2(a + b) == 2 * Pow2(a - 1 + b);
      assert 2 * (Pow2(a - 1) * Pow2(b)) == (2 * Pow2(a - 1)) * Pow2(b);
    }
  }

  lemma {:induction false} Pow2Monotone(a: nat, b: nat)
    requires a <= b
    ensures Pow2(a) <= Pow2(b)
    ensures a < b ==> 2 * Pow2(a) <= Pow2(b)
  {
    if a < b {
      Pow2Monotone(a, b - 1);
    }
  }

  // Elementary facts about products, stated on plain variables so that no proof has to search for them.

  lemma MulAssoc(a: int, b: int, c: int)
    ensures a * (b * c) == (a * b) * c
  {}

  lemma MulDist(a: int, b: int, c: int)
    ensures (a + b) * c == a * c + b * c
  {}

  lemma MulMono(a: int, b: int, c: int)
    requires a <= b && c >= 0
    ensures a * c <= b * c
  {}

  lemma MulAtLeast(k: int, b: int)
    requires k >= 1 && b >= 0
    ensures k * b >= b
  {}

  /** If a * u and b * u are within one unit u of each other in this order, a <= b. */
  lemma MulCancelLess(a: int, b: int, u: int)
    requires u > 0 && a * u < (b + 1) * u
    ensures a <= b
  {
    if a > b { MulMono(b + 1, a, u); }
  }

  lemma Pow2Values()
    ensures Pow2(4) == 16 && Pow2(8) == 0x100 && Pow2(15) == 0x8000 && Pow2(16) == 0x1_0000
    ensures Pow2(31) == 0x8000_0000 && Pow2(32) == 0x1_0000_0000 && Pow2(64) == 0x1_0000_0000_0000_0000
  {
    assert Pow2(4) == 16;
    Pow2Add(4, 4);
    Pow2Add(8, 8);
    Pow2Add(16, 16);
    Pow2Add(32, 32);
    assert Pow2(16) == 2 * Pow2(15) && Pow2(32) == 2 * Pow2(31);
  }

  /** Quotient and remainder are the only ones that fit. */
  lemma DivModUnique(a: int, b: int, q: int, r: int)
    requires b > 0 && 0 <= r < b && a == q * b + r
    ensures a / b == q && a % b == r
  {
    var q' := a / b;
    assert a == q' * b + a % b;
    MulDist(q, 1, b);
    MulDist(q', 1, b);
    MulCancelLess(q, q', b);
    MulCancelLess(q', q, b);
  }

  lemma DivBounds(x: int, b: int)
    requires b > 0
    ensures x == (x / b) * b + x % b && 0 <= x % b < b
    ensures x >= 0 ==> x / b >= 0
  {}

  lemma DigitBound(lo: int, a: int, hi: int, b: int)
    requires 0 <= lo < a && 0 <= hi < b
    ensures 0 <= lo + a * hi < a * b
  {
    assert a * (hi + 1) <= a * b by { MulMono(hi + 1, b, a); }
    assert a * (hi + 1) == a * hi + a;
    assert 0 <= a * hi by { MulMono(0, hi, a); }
  }

  /** Splitting off a low part of size a and then one of size b is splitting off a * b. */
  lemma DivDiv(x: nat, a: nat, b: nat)
    requires a > 0 && b > 0
    ensures a * b > 0 && x / (a * b) == x / a / b
    ensures x % (a * b) == x % a + a * (x / a % b)
  {
    var q, r := x / a, x % a;
    var q2, r2 := q / b, q % b;
    DivBounds(x, a);
    DivBounds(q, b);
    MulDist(q2 * b, r2, a);
    MulAssoc(q2, b, a);
    DigitBound(r, a, r2, b);
    MulMono(1, b, a);
    DivModUnique(x, a * b, q2, r + a * r2);
  }

  lemma ModMod(x: nat, a: nat, b: nat)
    requires a > 0 && b > 0
    ensures a * b > 0 && x % (a * b) % a == x % a
  {
    DivDiv(x, a, b);
    var k := x / a % b;
    DivModUnique(x % (a * b), a, k, x % a);
  }
}
