/** Shifts and masks of natural numbers, defined one bit at a time. */
module BitFields {
  import opened Powers

  /** x >> n */
  function Shr(x: nat, n: nat): nat
    decreases n, x
  {
    if n == 0 then x else Shr(x / 2, n - 1)
  }

  /** x & ((1 << n) - 1) */
  function Low(x: nat, n: nat): nat
    decreases n, x
  {
    if n == 0 then 0 else x % 2 + 2 * Low(x / 2, n - 1)
  }

  /** The mask and the shift are remainder and quotient. */
  lemma {:induction false} LowShr(x: nat, n: nat)
    ensures x == Low(x, n) + Pow2(n) * Shr(x, n)
    ensures Low(x, n) < Pow2(n)
    decreases n
  {
    if n > 0 {
      LowShr(x / 2, n - 1);
      MulAssoc(2, Pow2(n - 1), Shr(x / 2, n - 1));
    }
  }

  lemma LowIsMod(x: nat, n: nat)
    ensures Low(x, n) == x % Pow2(n) && Shr(x, n) == x / Pow2(n)
  {
    LowShr(x, n);
    DivModUnique(x, Pow2(n), Shr(x, n), Low(x, n));
  }

  lemma {:induction false} LowOfSmall(x: nat, n: nat)
    requires x < Pow2(n)
    ensures Low(x, n) == x && Shr(x, n) == 0
    decreases n
  {
    if n > 0 { LowOfSmall(x / 2, n - 1); }
  }

  lemma {:induction false} LowLow(x: nat, d: nat, n: nat)
    requires d <= n
    ensures Low(Low(x, n), d) == Low(x, d)
    decreases d
  {
    if d > 0 { LowLow(x / 2, d - 1, n - 1); }
  }

  /** The next bit extends the low part. */
  lemma {:induction false} LowStep(x: nat, n: nat)
    ensures Low(x, n + 1) == Low(x, n) + (if Shr(x, n) % 2 == 1 then Pow2(n) else 0)
    ensures Shr(x, n + 1) == Shr(x, n) / 2
    decreases n
  {
    if n > 0 { LowStep(x / 2, n - 1); }
  }

  lemma HalveSum(p: nat, r: nat)
    ensures (2 * p + r) % 2 == r % 2 && (2 * p + r) / 2 == p + r / 2
  {}

  /** A multiple of 2^k does not show in fewer than k bits. */
  lemma {:induction false} LowIgnoresHigh(r: nat, k: nat, d: nat)
    requires d <= k
    ensures Low(Pow2(k) + r, d) == Low(r, d)
    decreases d
  {
    if d > 0 {
      HalveSum(Pow2(k - 1), r);
      LowIgnoresHigh(r / 2, k - 1, d - 1);
    }
  }

  /** Putting `rest` above the n bits of r: the low part is r and the shift gives back rest. */
  lemma {:induction false} LowShrAppend(r: nat, n: nat, rest: nat)
    requires r < Pow2(n)
    ensures Low(r + Pow2(n) * rest, n) == r && Shr(r + Pow2(n) * rest, n) == rest
    decreases n
  {
    if n > 0 {
      MulAssoc(2, Pow2(n - 1), rest);
      LowShrAppend(r / 2, n - 1, rest);
      HalveSum(Pow2(n - 1) * rest, r);
    }
  }

  lemma {:induction false} ShrBelow(x: nat, n: nat, d: nat)
    requires x < Pow2(n + d)
    ensures Shr(x, n) < Pow2(d)
    decreases n
  {
    if n > 0 { ShrBelow(x / 2, n - 1, d); }
  }

  lemma {:induction false} ShrAtLeast(c: nat, x: nat, n: nat)
    requires x * Pow2(n) <= c
    ensures x <= Shr(c, n)
    decreases n
  {
    if n > 0 {
      MulAssoc(x, Pow2(n - 1), 2);
      ShrAtLeast(c / 2, x, n - 1);
    }
  }

  // ---------- Bitwise or ----------

  function Or(a: nat, b: nat): nat
    decreases a, b
  {
    if a == 0 then b else if b == 0 then a else (if a % 2 == 1 || b % 2 == 1 then 1 else 0) + 2 * Or(a / 2, b / 2)
  }

  lemma OrUnfold(a: nat, b: nat)
    ensures Or(a, b) == (if a % 2 == 1 || b % 2 == 1 then 1 else 0) + 2 * Or(a / 2, b / 2)
  {}

  /** x is h above the n low bits l; halved, above the n - 1 low bits l / 2. */
  lemma Halved(h: nat, l: nat, p: nat, x: nat)
    requires x == h * (2 * p) + l
    ensures x % 2 == l % 2 && x / 2 == h * p + l / 2
  {
    var H := h * p;
    assert h * (2 * p) == 2 * H;
    HalveSum(H, l);
  }

  /** Or works on the high and on the low n bits apart. */
  lemma {:induction false} OrConcat(h: nat, l: nat, h': nat, l': nat, n: nat, x: nat, x': nat, top: nat)
    requires l < Pow2(n) && l' < Pow2(n)
    requires x == h * Pow2(n) + l && x' == h' * Pow2(n) + l' && top == Or(h, h') * Pow2(n)
    ensures Or(x, x') == top + Or(l, l')
    decreases n
  {
    if n > 0 {
      var p := Pow2(n - 1);
      Halved(h, l, p, x);
      Halved(h', l', p, x');
      Halved(Or(h, h'), 0, p, top);
      OrConcat(h, l / 2, h', l' / 2, n - 1, x / 2, x' / 2, top / 2);
      OrUnfold(x, x');
      OrUnfold(l, l');
    } else {
      assert Pow2(0) == 1 && l == 0 && l' == 0;
    }
  }

  lemma {:induction false} OrFits(l: nat, l': nat, n: nat)
    requires l < Pow2(n) && l' < Pow2(n)
    ensures Or(l, l') < Pow2(n)
    decreases n
  {
    if n > 0 {
      OrFits(l / 2, l' / 2, n - 1);
      OrUnfold(l, l');
    }
  }

  lemma OddTimes(m: nat, p: nat)
    ensures (2 * m) * p == m * (2 * p) && (2 * m + 1) * p == m * (2 * p) + p
  {
    MulAssoc(m, 2, p);
    MulDist(2 * m, 1, p);
  }

  lemma OrOne(m: nat)
    ensures Or(2 * m, 1) == 2 * m + 1
  {
    OrUnfold(2 * m, 1);
  }

  /** A single bit below all bits of a is added. */
  lemma OrAligned(m: nat, k: nat)
    ensures Or(m * Pow2(k + 1), Pow2(k)) == m * Pow2(k + 1) + Pow2(k)
  {
    var p := Pow2(k);
    OddTimes(m, p);
    OrOne(m);
    var x, top := m * Pow2(k + 1), (2 * m + 1) * p;
    OrConcat(2 * m, 0, 1, 0, k, x, p, top);
  }

  /** The n low bits of a ^ b. */
  function Xor(a: nat, b: nat, n: nat): (x: nat)
    ensures x < Pow2(n)
    decreases n, a
  {
    if n == 0 then 0 else (if a % 2 != b % 2 then 1 else 0) + 2 * Xor(a / 2, b / 2, n - 1)
  }

  /** Each bit of the result is one exactly when the bits of a and b differ. */
  lemma {:induction false} XorBit(a: nat, b: nat, n: nat, i: nat)
    requires i < n
    ensures Shr(Xor(a, b, n), i) % 2 == 1 <==> Shr(a, i) % 2 != Shr(b, i) % 2
    decreases i
  {
    if i > 0 { XorBit(a / 2, b / 2, n - 1, i - 1); }
  }

  lemma XorStep(a: nat, b: nat, n: nat, c: nat)
    requires n > 0 && Xor(a / 2, b / 2, n - 1) == c
    ensures Xor(a, b, n) == 2 * c + (if a % 2 != b % 2 then 1 else 0)
  {}

  lemma {:induction false} XorNone(n: nat)
    ensures Xor(0, 0, n) == 0
    decreases n
  {
    if n > 0 { XorNone(n - 1); }
  }
}
