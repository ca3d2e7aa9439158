/** fc::uint128 (uint128.hpp and uint128.cpp): two 64-bit words as an integer modulo 2^128. */
module UInt128 {
  import opened Powers
  import opened BitFields

  const WORD := 0x1_0000_0000_0000_0000
  const MOD := 0x1_0000_0000_0000_0000_0000_0000_0000_0000
  const HALF := 0x1_0000_0000 // one 32-bit limb

  lemma WordSquared()
    ensures WORD * WORD == MOD && HALF * HALF == WORD && Pow2(64) == WORD && Pow2(32) == HALF
  {
    Pow2Values();
  }

  /** The two words, as an argument is passed. */
  datatype Words = Words(hi: nat, lo: nat) {
    ghost predicate Valid() {
      hi < WORD && lo < WORD
    }

    ghost function Value(): nat {
      hi * WORD + lo
    }
  }

  /** What is congruent modulo M and below M is the remainder. */
  lemma ModIs(x: int, m: int, k: int, r: int)
    requires m > 0 && 0 <= r < m && x == k * m + r
    ensures x % m == r
  {
    DivModUnique(x, m, k, r);
  }

  lemma ModAddLeft(x: int, y: int)
    ensures (x % MOD + y) % MOD == (x + y) % MOD
  {
    var q, r := x / MOD, x % MOD;
    ModIs(x + y, MOD, q + (r + y) / MOD, (r + y) % MOD);
  }

  lemma ModMulLeft(x: int, y: nat)
    ensures (x % MOD * y) % MOD == (x * y) % MOD
  {
    var q, r := x / MOD, x % MOD;
    MulDist(q * MOD, r, y);
    MulAssoc(y, q, MOD);
    var z := r * y;
    assert x * y == (y * q) * MOD + z;
    MulDist(y * q, z / MOD, MOD);
    ModIs(x * y, MOD, y * q + z / MOD, z % MOD);
  }

  lemma AddCarry(h: nat, l: nat, h': nat, l': nat)
    requires h < WORD && l < WORD && h' < WORD && l' < WORD
    ensures var lo := (l + l') % WORD;
            var hi := (h + (h' + (if lo < l then 1 else 0))) % WORD;
            hi * WORD + lo == (h * WORD + l + (h' * WORD + l')) % MOD
  {
    var lo := (l + l') % WORD;
    LowCarry(l, l');
    var c := if lo < l then 1 else 0;
    var s := h + h' + c;
    var k := if s >= WORD then 1 else 0;
    var r := s - k * WORD;
    assert s % WORD == r;
    CarryOut(h * WORD + l + (h' * WORD + l'), s, lo, k, r);
  }

  lemma CarryOut(x: nat, s: nat, lo: nat, k: nat, r: nat)
    requires x == s * WORD + lo && s == k * WORD + r && r < WORD && lo < WORD
    ensures r * WORD + lo == x % MOD
  {
    ModIs(x, MOD, k, r * WORD + lo);
  }

  /** A word sum wraps exactly when it comes out below its first operand. */
  lemma LowCarry(l: nat, l': nat)
    requires l < WORD && l' < WORD
    ensures l + l' == (if (l + l') % WORD < l then WORD else 0) + (l + l') % WORD
  {}

  // ---------- Shifts ----------

  /** Left shift of both words by 0 < n < 64, with p = 2^n and q = 2^(64 - n). */
  lemma ShiftLeftValue(hi: nat, lo: nat, p: nat, q: nat)
    requires hi < WORD && lo < WORD && p > 0 && q > 0 && p * q == WORD
    ensures var h := hi * p % WORD + lo / q; var l := lo * p % WORD;
            h < WORD && l < WORD && h * WORD + l == (hi * WORD + lo) * p % MOD
  {
    var a, b, c, d := hi / q, hi % q, lo / q, lo % q;
    ShiftWord(hi, p, q);
    ShiftWord(lo, p, q);
    DigitBound(c, p, b, q);
    WordSquared();
    var h, l := b * p + c, d * p;
    assert (hi * WORD + lo) * p == (hi * p) * WORD + lo * p by {
      MulDist(hi * WORD, lo, p);
      MulAssoc(p, hi, WORD);
    }
    MulDist(a * WORD, b * p, WORD);
    assert (hi * p) * WORD + lo * p == a * MOD + (h * WORD + l);
    ModIs((hi * WORD + lo) * p, MOD, a, h * WORD + l);
  }

  /** A word times p: the top bits leave, the rest moves up. */
  lemma ShiftWord(x: nat, p: nat, q: nat)
    requires x < WORD && p > 0 && q > 0 && p * q == WORD
    ensures x / q < p && x * p == x / q * WORD + x % q * p && x % q * p < WORD && x * p % WORD == x % q * p
  {
    var a, b := x / q, x % q;
    MulDist(a * q, b, p);
    MulAssoc(a, q, p);
    MulMono(b + 1, q, p);
    MulDist(b, 1, p);
    ModIs(x * p, WORD, a, b * p);
    if a >= p { MulMono(p, a, q); }
  }

  /** Right shift of both words. */
  lemma ShiftRightValue(hi: nat, lo: nat, p: nat, q: nat)
    requires hi < WORD && lo < WORD && p > 0 && q > 0 && p * q == WORD
    ensures var h := hi / p; var l := lo / p + hi % p * q;
            h < WORD && l < WORD && h * WORD + l == (hi * WORD + lo) / p
  {
    var a, b, c, d := hi / p, hi % p, lo / p, lo % p;
    ShiftWord(lo, q, p);
    DigitBound(c, q, b, p);
    MulDist(a * p, b, WORD);
    MulAssoc(a, WORD, p);
    MulAssoc(a, p, WORD);
    MulAssoc(b, q, p);
    var v := a * WORD + (c + b * q);
    MulDist(a * WORD, c + b * q, p);
    MulDist(c, b * q, p);
    assert hi * WORD + lo == v * p + d;
    DivModUnique(hi * WORD + lo, p, v, d);
    MulMono(1, p, a);
  }

  lemma ShiftRightWords(hi: nat, lo: nat, p: nat, q: nat, h: int, l: int)
    requires hi < WORD && lo < WORD && p > 0 && q > 0 && p * q == WORD && h == hi / p && l == lo / p + hi % p * q
    ensures 0 <= h < WORD && 0 <= l < WORD && h * WORD + l == (hi * WORD + lo) / p
  {
    ShiftRightValue(hi, lo, p, q);
  }

  lemma OrOfWords(hi: nat, lo: nat, hi': nat, lo': nat)
    requires hi < WORD && lo < WORD && hi' < WORD && lo' < WORD
    ensures Or(hi, hi') < WORD && Or(lo, lo') < WORD
    ensures Or(hi * WORD + lo, hi' * WORD + lo') == Or(hi, hi') * WORD + Or(lo, lo')
  {
    WordSquared();
    OrFits(hi, hi', 64);
    OrFits(lo, lo', 64);
    OrConcat(hi, lo, hi', lo', 64, hi * WORD + lo, hi' * WORD + lo', Or(hi, hi') * WORD);
  }

  // ---------- Products ----------

  /** A number in four limbs. */
  ghost function Limbs(a0: nat, a1: nat, a2: nat, a3: nat): nat {
    a0 + HALF * (a1 + HALF * (a2 + HALF * a3))
  }

  lemma LimbsTimes(a0: nat, a1: nat, a2: nat, a3: nat, y: nat)
    ensures Limbs(a0, a1, a2, a3) * y == a0 * y + HALF * (a1 * y + HALF * (a2 * y + HALF * (a3 * y)))
  {
    MulDist(a2, HALF * a3, y);
    MulAssoc(HALF, a3, y);
    MulDist(a1, HALF * (a2 + HALF * a3), y);
    MulAssoc(HALF, a2 + HALF * a3, y);
    MulDist(a0, HALF * (a1 + HALF * (a2 + HALF * a3)), y);
    MulAssoc(HALF, a1 + HALF * (a2 + HALF * a3), y);
  }

  lemma TimesLimbs(x: nat, b0: nat, b1: nat, b2: nat, b3: nat)
    ensures x * Limbs(b0, b1, b2, b3) == x * b0 + HALF * (x * b1 + HALF * (x * b2 + HALF * (x * b3)))
  {
    LimbsTimes(b0, b1, b2, b3, x);
  }

  // The sums of limb products of equal weight.

  ghost function Column4(a0: nat, a1: nat, a2: nat, a3: nat, b0: nat, b1: nat, b2: nat, b3: nat): nat {
    a3 * b0 + a2 * b1 + a1 * b2 + a0 * b3
  }

  ghost function Column3(a0: nat, a1: nat, a2: nat, b0: nat, b1: nat, b2: nat): nat {
    a2 * b0 + a1 * b1 + a0 * b2
  }

  ghost function Column2(a0: nat, a1: nat, b0: nat, b1: nat): nat {
    a1 * b0 + a0 * b1
  }

  /** The terms that the limb multiplication leaves out are multiples of 2^128. */
  lemma LimbProduct(a0: nat, a1: nat, a2: nat, a3: nat, b0: nat, b1: nat, b2: nat, b3: nat, e: nat)
    requires e == HALF * (HALF * (HALF * Column4(a0, a1, a2, a3, b0, b1, b2, b3) + Column3(a0, a1, a2, b0, b1, b2)) + Column2(a0, a1, b0, b1))
    ensures Limbs(a0, a1, a2, a3) * Limbs(b0, b1, b2, b3) % MOD == (e + a0 * b0) % MOD
  {
    var y := Limbs(b0, b1, b2, b3);
    LimbsTimes(a0, a1, a2, a3, y);
    TimesLimbs(a0, b0, b1, b2, b3);
    TimesLimbs(a1, b0, b1, b2, b3);
    TimesLimbs(a2, b0, b1, b2, b3);
    TimesLimbs(a3, b0, b1, b2, b3);
    var high := a1 * b3 + a2 * b2 + a3 * b1 + HALF * (a2 * b3 + a3 * b2 + HALF * (a3 * b3));
    var low := e + a0 * b0;
    assert Limbs(a0, a1, a2, a3) * y == low + high * MOD;
    ModIs(low + high * MOD, MOD, high + low / MOD, low % MOD);
  }

  lemma LimbsOf(hi: nat, lo: nat)
    requires hi < WORD && lo < WORD
    ensures Limbs(lo % HALF, lo / HALF, hi % HALF, hi / HALF) == hi * WORD + lo
  {}

  lemma LimbProductFits(a: nat, b: nat)
    requires a < HALF && b < HALF
    ensures a * b < WORD
  {
    DigitBound(0, 1, a, HALF);
    MulMono(a, HALF, b);
    MulMono(b + 1, HALF, HALF);
  }

  lemma WordProductFits(a: nat, b: nat)
    requires a < WORD && b < WORD
    ensures a * b <= (WORD - 1) * (WORD - 1) < MOD
  {
    MulMono(a, WORD - 1, b);
    MulMono(b, WORD - 1, WORD - 1);
    WordSquared();
  }

  // ---------- The class ----------

  class UInt128 {
    var hi: nat
    var lo: nat

    ghost predicate Valid()
      reads this
    {
      hi < WORD && lo < WORD
    }

    ghost function Value(): nat
      reads this
    {
      hi * WORD + lo
    }

    constructor (h: nat, l: nat)
      requires h < WORD && l < WORD
      ensures Valid() && hi == h && lo == l
    {
      hi, lo := h, l;
    }

    /** operator += : the carry is seen from the low word coming out smaller. */
    method Add(u: Words)
      requires Valid() && u.Valid()
      modifies this
      ensures Valid() && Value() == (old(Value()) + u.Value()) % MOD
    {
      AddCarry(hi, lo, u.hi, u.lo);
      var oldLo := lo;
      lo := (lo + u.lo) % WORD;
      hi := (hi + (u.hi + (if lo < oldLo then 1 else 0))) % WORD;
    }

    /** operator ++ */
    method Increment()
      requires Valid()
      modifies this
      ensures Valid() && Value() == (old(Value()) + 1) % MOD
    {
      AddCarry(hi, lo, 0, 1);
      lo := (lo + 1) % WORD;
      hi := (hi + (if lo == 0 then 1 else 0)) % WORD;
    }

    /** unary minus: complement both words and add one. */
    method Negated() returns (r: Words)
      requires Valid()
      ensures r.Valid() && r.Value() == (MOD - Value()) % MOD
    {
      var t := new UInt128(WORD - 1 - hi, WORD - 1 - lo);
      t.Increment();
      WordSquared();
      r := Words(t.hi, t.lo);
    }

    /** operator -= adds the negation. */
    method Subtract(u: Words)
      requires Valid() && u.Valid()
      modifies this
      ensures Valid() && Value() == (old(Value()) - u.Value()) % MOD
    {
      ghost var v := Value();
      var t := new UInt128(u.hi, u.lo);
      var n := t.Negated();
      Add(n);
      SubtractIsAdd(v, u.Value());
    }

    /** operator < compares the words in turn. */
    method Less(u: Words) returns (less: bool)
      requires Valid() && u.Valid()
      ensures less <==> Value() < u.Value()
    {
      less := if hi == u.hi then lo < u.lo else hi < u.hi;
      if hi < u.hi { MulMono(hi + 1, u.hi, WORD); }
      if u.hi < hi { MulMono(u.hi + 1, hi, WORD); }
    }

    /** operator |= */
    method OrWith(u: Words)
      requires Valid() && u.Valid()
      modifies this
      ensures Valid() && Value() == Or(old(Value()), u.Value())
    {
      OrOfWords(hi, lo, u.hi, u.lo);
      hi, lo := Or(hi, u.hi), Or(lo, u.lo);
    }

    /** Both words by fewer than 64 places. */
    method ShiftLeftWithin(n: nat)
      requires Valid() && n < 64
      modifies this
      ensures Valid() && Value() == old(Value()) * Pow2(n) % MOD
    {
      if n != 0 {
        HalvesOfWord(n);
        ShiftLeftValue(hi, lo, Pow2(n), Pow2(64 - n));
        hi := hi * Pow2(n) % WORD + lo / Pow2(64 - n);
        lo := lo * Pow2(n) % WORD;
      } else {
        Unshifted(hi, lo);
      }
    }

    /** operator <<= */
    method ShiftLeft(count: nat)
      requires Valid()
      modifies this
      ensures Valid() && Value() == old(Value()) * Pow2(count) % MOD
    {
      if count >= 128 {
        AllShiftedOut(Value(), count);
        hi, lo := 0, 0;
      } else {
        ghost var v := Value();
        var n := count;
        WordsOf(hi, lo);
        if n >= 64 {
          n := n - 64;
          hi, lo := lo, 0;
        }
        ShiftedByWord(v, Value(), count, n);
        ShiftLeftWithin(n);
      }
    }

    method ShiftRightWithin(n: nat)
      requires Valid() && n < 64
      modifies this
      ensures Valid() && Value() == old(Value()) / Pow2(n)
    {
      if n != 0 {
        var p, q := Pow2(n), Pow2(64 - n);
        var h, l := hi / p, lo / p + hi % p * q;
        HalvesOfWord(n);
        ShiftRightWords(hi, lo, p, q, h, l);
        hi, lo := h, l;
      } else {
        assert Pow2(0) == 1;
      }
    }

    /** operator >>= */
    method ShiftRight(count: nat)
      requires Valid()
      modifies this
      ensures Valid() && Value() == old(Value()) / Pow2(count)
    {
      WordsOf(hi, lo);
      if count >= 128 {
        NothingLeft(Value(), count);
        hi, lo := 0, 0;
      } else {
        ghost var v := Value();
        var n := count;
        if n >= 64 {
          n := n - 64;
          lo, hi := hi, 0;
        }
        DroppedWord(v, Value(), count, n);
        ShiftRightWithin(n);
      }
    }

    /** operator *= : limb products, added up from the top. */
    method Multiply(b: Words)
      requires Valid() && b.Valid()
      modifies this
      ensures Valid() && Value() == old(Value()) * b.Value() % MOD
    {
      var a0, a1, a2, a3 := lo % HALF, lo / HALF, hi % HALF, hi / HALF;
      var b0, b1, b2, b3 := b.lo % HALF, b.lo / HALF, b.hi % HALF, b.hi / HALF;
      LimbsOf(hi, lo);
      LimbsOf(b.hi, b.lo);
      MultiplyLimbs(a0, a1, a2, a3, b0, b1, b2, b3);
    }

    method MultiplyLimbs(a0: nat, a1: nat, a2: nat, a3: nat, b0: nat, b1: nat, b2: nat, b3: nat)
      requires a0 < HALF && a1 < HALF && a2 < HALF && a3 < HALF && b0 < HALF && b1 < HALF && b2 < HALF && b3 < HALF
      modifies this
      ensures Valid() && Value() == Limbs(a0, a1, a2, a3) * Limbs(b0, b1, b2, b3) % MOD
    {
      ghost var s3, s2, s1 := Column4(a0, a1, a2, a3, b0, b1, b2, b3), Column3(a0, a1, a2, b0, b1, b2), Column2(a0, a1, b0, b1);
      PutColumn4(a0, a1, a2, a3, b0, b1, b2, b3);
      ShiftLimb(s3);
      ghost var e: nat := HALF * s3;
      AddColumn3(a0, a1, a2, b0, b1, b2, e);
      e := e + s2;
      ShiftLimb(e);
      e := HALF * e;
      AddColumn2(a0, a1, b0, b1, e);
      e := e + s1;
      ShiftLimb(e);
      e := HALF * e;
      AddProduct(a0, b0, e);
      LimbProduct(a0, a1, a2, a3, b0, b1, b2, b3, e);
    }

    method PutColumn4(a0: nat, a1: nat, a2: nat, a3: nat, b0: nat, b1: nat, b2: nat, b3: nat)
      requires a0 < HALF && a1 < HALF && a2 < HALF && a3 < HALF && b0 < HALF && b1 < HALF && b2 < HALF && b3 < HALF
      modifies this
      ensures Valid() && Value() == Column4(a0, a1, a2, a3, b0, b1, b2, b3) % MOD
    {
      SetProduct(a3, b0);
      ghost var e := a3 * b0;
      AddProduct(a2, b1, e);
      e := e + a2 * b1;
      AddProduct(a1, b2, e);
      e := e + a1 * b2;
      AddProduct(a0, b3, e);
    }

    method AddColumn3(a0: nat, a1: nat, a2: nat, b0: nat, b1: nat, b2: nat, ghost e: nat)
      requires a0 < HALF && a1 < HALF && a2 < HALF && b0 < HALF && b1 < HALF && b2 < HALF
      requires Valid() && Value() == e % MOD
      modifies this
      ensures Valid() && Value() == (e + Column3(a0, a1, a2, b0, b1, b2)) % MOD
    {
      AddProduct(a2, b0, e);
      ghost var f := e + a2 * b0;
      AddProduct(a1, b1, f);
      f := f + a1 * b1;
      AddProduct(a0, b2, f);
    }

    method AddColumn2(a0: nat, a1: nat, b0: nat, b1: nat, ghost e: nat)
      requires a0 < HALF && a1 < HALF && b0 < HALF && b1 < HALF && Valid() && Value() == e % MOD
      modifies this
      ensures Valid() && Value() == (e + Column2(a0, a1, b0, b1)) % MOD
    {
      AddProduct(a1, b0, e);
      ghost var f := e + a1 * b0;
      AddProduct(a0, b1, f);
    }

    method SetProduct(x: nat, y: nat)
      requires x < HALF && y < HALF
      modifies this
      ensures Valid() && Value() == x * y % MOD
    {
      LimbProductFits(x, y);
      hi, lo := 0, x * y;
    }

    /** Adds a limb product to what is congruent to e. */
    method AddProduct(x: nat, y: nat, ghost e: nat)
      requires Valid() && x < HALF && y < HALF && Value() == e % MOD
      modifies this
      ensures Valid() && Value() == (e + x * y) % MOD
    {
      LimbProductFits(x, y);
      ModAddLeft(e, x * y);
      Add(Words(0, x * y));
    }

    method ShiftLimb(ghost e: nat)
      requires Valid() && Value() == e % MOD
      modifies this
      ensures Valid() && Value() == (HALF * e) % MOD
    {
      WordSquared();
      ModMulLeft(e, HALF);
      ShiftLeft(32);
    }
  }

  /** full_product: the exact 256-bit product of two 128-bit numbers. */
  method FullProduct(a: Words, b: Words) returns (high: Words, low: Words)
    requires a.Valid() && b.Valid()
    ensures high.Valid() && low.Valid() && high.Value() * MOD + low.Value() == a.Value() * b.Value()
  {
    var s := WordProduct(a.lo, b.lo);
    var r := WordProduct(a.hi, b.lo);
    var q := WordProduct(a.lo, b.hi);
    var p := WordProduct(a.hi, b.hi);
    CrossProducts(a, b);
    var y0 := s.lo;
    var y1, c1 := AddThree(s.hi, q.lo, r.lo, 0);
    var y2, c2 := AddThree(c1, q.hi, r.hi, p.lo);
    NoLostCarry(s, r, q, p, y1, c1, y2, c2, a.Value() * b.Value());
    var y3 := c2 + p.hi;
    high, low := Words(y3, y2), Words(y1, y0);
  }

  /** The 128-bit product of two words. */
  method WordProduct(x: nat, y: nat) returns (w: Words)
    requires x < WORD && y < WORD
    ensures w.Valid() && w.Value() == x * y <= (WORD - 1) * (WORD - 1)
  {
    WordProductFits(x, y);
    var t := new UInt128(0, x);
    t.Multiply(Words(0, y));
    w := Words(t.hi, t.lo);
  }

  /** The accumulator: up to four words added; low and high word of the sum. */
  method AddThree(x: nat, y: nat, z: nat, w: nat) returns (lo: nat, hi: nat)
    requires x < WORD && y < WORD && z < WORD && w < WORD
    ensures lo < WORD && hi <= 3 && hi * WORD + lo == x + y + z + w
  {
    var acc := new UInt128(0, x);
    SmallSum(x + y);
    acc.Add(Words(0, y));
    SmallSum(x + y + z);
    acc.Add(Words(0, z));
    SmallSum(x + y + z + w);
    acc.Add(Words(0, w));
    lo, hi := acc.lo, acc.hi;
  }

  lemma SmallSum(s: nat)
    requires s < 4 * WORD
    ensures s % MOD == s
  {}

  lemma CrossProducts(a: Words, b: Words)
    ensures a.Value() * b.Value() == (a.hi * b.hi) * MOD + (a.lo * b.hi + a.hi * b.lo) * WORD + a.lo * b.lo
  {
    var ah, al, bh, bl := a.hi, a.lo, b.hi, b.lo;
    MulDist(ah * WORD, al, bh * WORD + bl);
    MulDist(bh * WORD, bl, ah * WORD);
    MulDist(bh * WORD, bl, al);
    MulAssoc(WORD * ah, WORD, bh);
    MulAssoc(ah, WORD, bl);
    MulAssoc(al, bh, WORD);
    WordSquared();
    MulAssoc(ah, bh, MOD);
    assert (ah * WORD) * (bh * WORD) == (ah * bh) * MOD by {
      MulAssoc(ah * WORD, bh, WORD);
      MulAssoc(bh, ah, WORD);
      MulAssoc(bh * ah, WORD, WORD);
    }
    assert (ah * WORD) * bl == (ah * bl) * WORD by { MulAssoc(bl, ah, WORD); }
    assert al * (bh * WORD) == (al * bh) * WORD;
    MulDist(al * bh, ah * bl, WORD);
  }

  /** The top word does not overflow: the product has 256 bits. */
  lemma NoLostCarry(s: Words, r: Words, q: Words, p: Words, y1: nat, c1: nat, y2: nat, c2: nat, product: nat)
    requires s.Valid() && r.Valid() && q.Valid() && p.Valid() && y1 < WORD && y2 < WORD && c2 <= 3
    requires c1 * WORD + y1 == s.hi + q.lo + r.lo && c2 * WORD + y2 == c1 + q.hi + r.hi + p.lo
    requires product == p.Value() * MOD + (q.Value() + r.Value()) * WORD + s.Value()
    requires p.Value() <= (WORD - 1) * (WORD - 1) && q.Value() <= (WORD - 1) * (WORD - 1) && r.Value() <= (WORD - 1) * (WORD - 1)
    ensures c2 + p.hi < WORD
    ensures ((c2 + p.hi) * WORD + y2) * MOD + (y1 * WORD + s.lo) == product
  {
    WordSquared();
  }

  lemma Unshifted(hi: nat, lo: nat)
    requires hi < WORD && lo < WORD
    ensures (hi * WORD + lo) * Pow2(0) % MOD == hi * WORD + lo
  {
    WordSquared();
    assert Pow2(0) == 1;
  }

  lemma WordsOf(hi: nat, lo: nat)
    requires hi < WORD && lo < WORD
    ensures (hi * WORD + lo) % WORD == lo && (hi * WORD + lo) / WORD == hi && hi * WORD + lo < MOD
  {
    DivModUnique(hi * WORD + lo, WORD, hi, lo);
    WordSquared();
  }

  lemma SubtractIsAdd(v: nat, u: nat)
    requires v < MOD && u < MOD
    ensures (v + (MOD - u) % MOD) % MOD == (v - u) % MOD
  {}

  lemma HalvesOfWord(n: nat)
    requires n <= 64
    ensures Pow2(n) * Pow2(64 - n) == WORD
  {
    Pow2Add(n, 64 - n);
    WordSquared();
  }

  lemma AllShiftedOut(v: nat, n: nat)
    requires n >= 128
    ensures v * Pow2(n) % MOD == 0
  {
    Pow2Add(n - 128, 128);
    Pow2Add(64, 64);
    WordSquared();
    MulAssoc(v, Pow2(n - 128), MOD);
    ModIs(v * Pow2(n), MOD, v * Pow2(n - 128), 0);
  }

  /** Shifting by a whole word moves the low word up. */
  lemma ShiftedByWord(v: nat, w: nat, count: nat, n: nat)
    requires v < MOD && w < MOD
    requires if count >= 64 then n == count - 64 && w == v % WORD * WORD else n == count && w == v
    ensures w * Pow2(n) % MOD == v * Pow2(count) % MOD
  {
    if count >= 64 {
      Pow2Add(64, n);
      WordSquared();
      MulAssoc(v, WORD, Pow2(n));
      var a, b := v / WORD, v % WORD;
      assert v * WORD == a * MOD + w;
      ModIs(v * WORD, MOD, a, w);
      ModMulLeft(v * WORD, Pow2(n));
    }
  }

  lemma NothingLeft(v: nat, n: nat)
    requires v < MOD && n >= 128
    ensures v / Pow2(n) == 0
  {
    Pow2Monotone(128, n);
    Pow2Add(64, 64);
    WordSquared();
    DivModUnique(v, Pow2(n), 0, v);
  }

  lemma DroppedWord(v: nat, w: nat, count: nat, n: nat)
    requires if count >= 64 then n == count - 64 && w == v / WORD else n == count && w == v
    ensures w / Pow2(n) == v / Pow2(count)
  {
    if count >= 64 {
      Pow2Add(64, n);
      WordSquared();
      DivDiv(v, WORD, Pow2(n));
    }
  }
}
