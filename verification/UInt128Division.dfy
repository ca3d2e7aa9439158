/** The shift-and-subtract division of uint128.cpp. */
module UInt128Division {
  import opened Powers
  import opened BitFields
  import opened UInt128

  datatype Division = DivideByZero | Divided(quotient: Words, remainder: Words)

  /**
   * The numerator N is a * D + n; d is D shifted with the bit x = 2^k, n is below 2 * d, and every bit
   * of a lies above x.
   */
  ghost predicate Dividing(N: nat, D: nat, n: nat, d: nat, x: nat, a: nat, k: nat, m: nat) {
    D > 0 && x == Pow2(k) && d == D * x && n < 2 * d && N == a * D + n && a == m * (2 * x)
  }

  lemma DoublesFit(D: nat, k: nat, d: nat)
    requires D > 0 && d == D * Pow2(k) && d < Pow2(127)
    ensures k < 127 && 2 * d == D * Pow2(k + 1) && Pow2(k + 1) < MOD && 2 * d < MOD
  {
    MulMono(1, D, Pow2(k));
    if k >= 127 { Pow2Monotone(127, k); }
    Pow2Monotone(k + 1, 127);
    HalfModulus();
    MulAssoc(D, 2, Pow2(k));
  }

  lemma HalfModulus()
    ensures 2 * Pow2(127) == MOD
  {
    Pow2Add(64, 64);
    WordSquared();
  }

  /** The top bit alone says whether a value is at least 2^127. */
  lemma TopBit(v: nat, hi: nat, lo: nat)
    requires v < MOD && hi * WORD + lo == v / Pow2(127)
    ensures v < Pow2(127) <==> lo % 2 == 0
  {
    HalfModulus();
    var q := if v < Pow2(127) then 0 else 1;
    DivModUnique(v, Pow2(127), q, v - q * Pow2(127));
  }

  /** Taking the bit x when it fits: the remainder drops below d. */
  lemma TakeBit(N: nat, D: nat, n: nat, d: nat, x: nat, a: nat, k: nat, m: nat)
    requires Dividing(N, D, n, d, x, a, k, m) && n >= d
    ensures n - d < d && N == (a + x) * D + (n - d) && a + x == (2 * m + 1) * x && Or(a, x) == a + x
  {
    MulDist(a, x, D);
    MulAssoc(m, 2, x);
    MulDist(2 * m, 1, x);
    OrAligned(m, k);
  }

  lemma NextBit(N: nat, D: nat, n: nat, d: nat, x: nat, a: nat, k: nat, m: nat)
    requires D > 0 && x == Pow2(k) && d == D * x && n < d && N == a * D + n && a == m * x
    ensures k == 0 ==> x / 2 == 0 && n < D
    ensures k > 0 ==> Dividing(N, D, n, d / 2, x / 2, a, k - 1, m)
  {
    if k > 0 {
      MulAssoc(D, 2, Pow2(k - 1));
    }
  }

  lemma SameBitCount(a: nat, m: nat, x: nat)
    requires a == m * (2 * x)
    ensures a == (2 * m) * x
  {}

  lemma DifferenceFits(n: nat, d: nat)
    requires d <= n < MOD
    ensures (n - d) % MOD == n - d
  {}

  method AtLeast(n: UInt128, d: UInt128) returns (b: bool)
    requires n.Valid() && d.Valid()
    ensures b <==> n.Value() >= d.Value()
  {
    var less := n.Less(Words(d.hi, d.lo));
    b := !less;
  }

  /** The guard of the first loop: n >= d and the top bit of d is clear. */
  method CanDouble(n: UInt128, d: UInt128) returns (b: bool)
    requires n.Valid() && d.Valid()
    ensures b <==> n.Value() >= d.Value() && d.Value() < Pow2(127)
  {
    WordsOf(d.hi, d.lo);
    var atLeast := AtLeast(n, d);
    var t := new UInt128(d.hi, d.lo);
    ghost var v := t.Value();
    t.ShiftRight(127);
    TopBit(v, t.hi, t.lo);
    b := atLeast && t.lo % 2 == 0;
  }

  method Halve(u: UInt128)
    requires u.Valid()
    modifies u
    ensures u.Valid() && u.Value() == old(u.Value()) / 2
  {
    assert Pow2(1) == 2;
    u.ShiftRight(1);
  }

  method Double(u: UInt128)
    requires u.Valid() && 2 * u.Value() < MOD
    modifies u
    ensures u.Valid() && u.Value() == 2 * old(u.Value())
  {
    assert Pow2(1) == 2;
    u.ShiftLeft(1);
  }

  /** Shifts the denominator up until it exceeds the numerator or its top bit is set. */
  method ShiftUp(n: UInt128, d: UInt128, x: UInt128, ghost D: nat) returns (ghost k: nat)
    requires n != d && n != x && d != x && n.Valid() && d.Valid() && x.Valid()
    requires D > 0 && d.Value() == D && x.Value() == 1
    modifies d, x
    ensures d.Valid() && x.Valid()
    ensures Dividing(n.Value(), D, n.Value(), d.Value(), x.Value(), 0, k, 0)
  {
    k := 0;
    WordsOf(n.hi, n.lo);
    var go := CanDouble(n, d);
    while go
      invariant d.Valid() && x.Valid()
      invariant x.Value() == Pow2(k) && d.Value() == D * x.Value()
      invariant go <==> n.Value() >= d.Value() && d.Value() < Pow2(127)
      decreases 128 - k, go
    {
      DoublesFit(D, k, d.Value());
      Double(x);
      Double(d);
      k := k + 1;
      go := CanDouble(n, d);
    }
    HalfModulus();
  }

  /** One turn of the second loop, before the halving. */
  method TryBit(n: UInt128, d: UInt128, x: UInt128, answer: UInt128, ghost N: nat, ghost D: nat, ghost k: nat, ghost m: nat)
    returns (ghost m': nat)
    requires n != d && n != x && n != answer && d != answer && x != answer
    requires n.Valid() && d.Valid() && x.Valid() && answer.Valid() && N < MOD
    requires Dividing(N, D, n.Value(), d.Value(), x.Value(), answer.Value(), k, m)
    modifies n, answer
    ensures n.Valid() && answer.Valid()
    ensures n.Value() < d.Value() && N == answer.Value() * D + n.Value() && answer.Value() == m' * x.Value()
  {
    WordsOf(n.hi, n.lo);
    var fits := AtLeast(n, d);
    if fits {
      ghost var vn, vd := n.Value(), d.Value();
      TakeBit(N, D, vn, vd, x.Value(), answer.Value(), k, m);
      DifferenceFits(vn, vd);
      n.Subtract(Words(d.hi, d.lo));
      answer.OrWith(Words(x.hi, x.lo));
      m' := 2 * m + 1;
    } else {
      SameBitCount(answer.Value(), m, x.Value());
      m' := 2 * m;
    }
  }

  /** Quotient and remainder of any two numbers, unless the denominator is zero. */
  method Divide(numerator: Words, denominator: Words) returns (r: Division)
    requires numerator.Valid() && denominator.Valid()
    ensures r.DivideByZero? <==> denominator.Value() == 0
    ensures r.Divided? ==> r.quotient.Valid() && r.remainder.Valid()
    ensures r.Divided? ==> numerator.Value() == r.quotient.Value() * denominator.Value() + r.remainder.Value()
    ensures r.Divided? ==> r.remainder.Value() < denominator.Value()
  {
    if denominator.hi == 0 && denominator.lo == 0 {
      return DivideByZero;
    }
    var n := new UInt128(numerator.hi, numerator.lo);
    var d := new UInt128(denominator.hi, denominator.lo);
    var x := new UInt128(0, 1);
    var answer := new UInt128(0, 0);
    ghost var N, D := n.Value(), d.Value();
    WordsOf(n.hi, n.lo);
    ghost var k := ShiftUp(n, d, x, D);
    ghost var m: nat := 0;
    while x.hi != 0 || x.lo != 0
      invariant n.Valid() && d.Valid() && x.Valid() && answer.Valid()
      invariant x.Value() == 0 ==> n.Value() < D && N == answer.Value() * D + n.Value()
      invariant x.Value() != 0 ==> Dividing(N, D, n.Value(), d.Value(), x.Value(), answer.Value(), k, m)
      decreases x.Value()
    {
      m := TryBit(n, d, x, answer, N, D, k, m);
      NextBit(N, D, n.Value(), d.Value(), x.Value(), answer.Value(), k, m);
      Halve(x);
      Halve(d);
      if k > 0 { k := k - 1; }
    }
    r := Divided(Words(answer.hi, answer.lo), Words(n.hi, n.lo));
  }
}
