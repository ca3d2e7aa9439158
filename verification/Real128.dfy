/** fc::real128 (real128.cpp): decimal fractions with 18 places, held as an integer multiple of 10^-18. */
module Real128 {
  import opened Powers
  import opened UInt128
  import opened UInt128Division
  import opened UInt128Text

  const PRECISION := 1_000_000_000_000_000_000
  const PLACES := 18

  function ToWords(v: nat): (w: Words)
    requires v < MOD
    ensures w.Valid() && w.Value() == v
  {
    Words(v / WORD, v % WORD)
  }

  datatype Reading = AssertFailed | Read(fixed: nat)

  // ---------- Text ----------

  /** What remains when the trailing zeros are popped. */
  function StripZeros(s: string): string {
    if s != "" && s[|s| - 1] == '0' then StripZeros(s[..|s| - 1]) else s
  }

  /** r with exactly n digits. */
  function Padded(r: nat, n: nat): (s: string)
    ensures |s| == n
    decreases n, r
  {
    if n == 0 then "" else Padded(r / 10, n - 1) + [DigitChar(r % 10)]
  }

  /** The printed form: all of the integer part, a point, and the places up to the last that is not zero. */
  function Text(fixed: nat): string {
    Decimal(fixed / PRECISION) + "." + StripZeros(Padded(fixed % PRECISION, PLACES))
  }

  /** What a text denotes. Integer part and fraction are read into 64-bit words, which wrap. */
  function Reals(s: string): Reading {
    var n := DigitRun(s, 10);
    if n == 0 && (s == "" || s[0] != '.') then AssertFailed
    else
      var whole := Number(s[..n], 10) % WORD * PRECISION;
      if n == |s| || s[n] != '.' then Read(whole) else Fraction(whole, s[n + 1..])
  }

  function Fraction(whole: nat, t: string): Reading {
    var k := DigitRun(t, 10);
    var magnitude := Pow10(k) % WORD;
    if k == 0 then Read(whole)
    else if magnitude == 0 then AssertFailed
    else Read((whole + Number(t[..k], 10) % WORD * PRECISION / magnitude) % MOD)
  }

  /** A text of digits alone denotes its number in units of 10^-18; one that begins with neither a digit nor a point is refused. */
  lemma WholeInUnits(s: string)
    requires s != "" && forall k :: 0 <= k < |s| ==> '0' <= s[k] <= '9'
    ensures Reals(s) == Read(Number(s, 10) % 0x1_0000_0000_0000_0000 * 1_000_000_000_000_000_000)
    ensures Reals("-" + s) == AssertFailed
  {
    forall k | 0 <= k < |s| ensures DigitValue(s[k]) < 10 {}
    DigitRunIs(s, 10, |s|);
    assert s[..|s|] == s;
    assert DigitValue('-') >= 10;
    DigitRunIs("-" + s, 10, 0);
  }

  // ---------- Printing and parsing agree ----------

  lemma {:induction false} StripAfterPoint(a: string, f: string)
    ensures StripZeros(a + "." + f) == a + "." + StripZeros(f)
  {
    var s := a + "." + f;
    if f == "" {
      assert s[|s| - 1] == '.';
    } else {
      assert s[..|s| - 1] == a + "." + f[..|f| - 1];
      StripAfterPoint(a, f[..|f| - 1]);
    }
  }

  lemma {:induction false} PaddedNumber(r: nat, n: nat)
    requires r < Pow10(n)
    ensures Number(Padded(r, n), 10) == r
    ensures forall k :: 0 <= k < n ==> DigitValue(Padded(r, n)[k]) < 10
    decreases n
  {
    if n > 0 {
      PaddedNumber(r / 10, n - 1);
      var s := Padded(r, n);
      assert s[..n - 1] == Padded(r / 10, n - 1);
      assert DigitValue(s[n - 1]) == r % 10;
    }
  }

  lemma TenMore(p: nat, r: nat, q: nat, d: nat)
    requires r == q * 10 + d
    ensures 10 * p + r == (p + q) * 10 + d
  {}

  lemma {:induction false} DigitsAfterOne(r: nat, n: nat)
    requires r < Pow10(n)
    ensures Digits(Pow10(n) + r) == "1" + Padded(r, n)
    decreases n
  {
    if n == 0 {
      assert Digits(1) == Digits(0) + [DigitChar(1)];
    } else {
      var q, d := r / 10, r % 10;
      DigitsAfterOne(q, n - 1);
      TenMore(Pow10(n - 1), r, q, d);
      SplitDigit(Pow10(n) + r, Pow10(n - 1) + q, d);
      assert "1" + Padded(r, n) == ("1" + Padded(q, n - 1)) + [DigitChar(d)];
    }
  }

  /** Dropping trailing zeros divides by a power of ten. */
  lemma {:induction false} StripScales(s: string)
    ensures var t := StripZeros(s);
            |t| <= |s| && t == s[..|t|] && Number(s, 10) == Number(t, 10) * Pow10(|s| - |t|)
  {
    if s != "" && s[|s| - 1] == '0' {
      var u := s[..|s| - 1];
      StripScales(u);
      var t := StripZeros(s);
      assert u[..|t|] == s[..|t|];
      var e: nat := |u| - |t|;
      assert Pow10(e + 1) == Pow10(e) * 10;
      MulAssoc(Number(t, 10), Pow10(e), 10);
    } else {
      assert s[..|s|] == s;
    }
  }

  lemma {:induction false} DecimalRun(w: nat, rest: string)
    ensures var s := Decimal(w);
            DigitRun(s + "." + rest, 10) == |s| > 0 && Number(s, 10) == w
  {
    var s := Decimal(w);
    if w > 0 { DigitsShape(w); } else { assert Number(s[..0], 10) == 0; }
    forall k | 0 <= k < |s| ensures DigitValue(s[k]) < 10 {}
    DigitRunIs(s + "." + rest, 10, |s|);
  }

  /** n / p of 10^18 units are n * q units when p * q is 10^18. */
  lemma ExactFraction(n: nat, p: nat, q: nat)
    requires p > 0 && p * q == PRECISION
    ensures n * PRECISION / p == n * q
  {
    MulAssoc(n, q, p);
    DivModUnique(n * PRECISION, p, n * q, 0);
  }

  lemma Pow10Small(k: nat)
    requires k <= PLACES
    ensures 0 < Pow10(k) <= PRECISION < WORD && Pow10(k) * Pow10(PLACES - k) == PRECISION
  {
    Pow10Add(k, PLACES - k);
    Pow10Values();
    MulMono(1, Pow10(PLACES - k), Pow10(k));
  }

  lemma FractionOfPlaces(whole: nat, r: nat)
    requires whole + r < MOD && r < PRECISION
    ensures Fraction(whole, StripZeros(Padded(r, PLACES))) == Read(whole + r)
  {
    Pow10Values();
    PaddedNumber(r, PLACES);
    var s := Padded(r, PLACES);
    var t := StripZeros(s);
    StripScales(s);
    forall j | 0 <= j < |t| ensures DigitValue(t[j]) < 10 { assert t[j] == s[j]; }
    var n, k := Number(t, 10), |t|;
    Pow10Small(k);
    FractionOfDigits(whole, t, r, n, k, Pow10(k), Pow10(PLACES - k));
  }

  lemma FractionOfDigits(whole: nat, t: string, r: nat, n: nat, k: nat, p: nat, q: nat)
    requires k == |t| && (forall j :: 0 <= j < k ==> DigitValue(t[j]) < 10) && n == Number(t, 10) && p == Pow10(k)
    requires r == n * q && r < PRECISION && whole + r < MOD && 0 < p < WORD && p * q == PRECISION
    ensures Fraction(whole, t) == Read(whole + r)
  {
    DigitRunIs(t, 10, k);
    assert t[..k] == t;
    if k > 0 {
      ExactFraction(n, p, q);
      Factors(n, p, q);
      SmallWords(n, p);
    } else {
      assert n == 0;
    }
  }

  lemma Factors(n: nat, p: nat, q: nat)
    requires p * q == PRECISION && n * q < PRECISION
    ensures n < WORD
  {
    if q == 0 { assert false; }
    MulMono(1, q, n);
  }

  lemma SmallWords(n: nat, p: nat)
    requires n < WORD && p < WORD
    ensures n % WORD == n && p % WORD == p
  {}

  /** Parsing a printed number: the integer part has passed through a 64-bit word. */
  lemma ReadPrinted(fixed: nat)
    requires fixed < MOD
    ensures Reals(Text(fixed)) == Read(fixed / PRECISION % WORD * PRECISION + fixed % PRECISION)
  {
    var w, r := fixed / PRECISION, fixed % PRECISION;
    DivBounds(fixed, PRECISION);
    PrintedParts(w, r);
  }

  lemma PrintedParts(w: nat, r: nat)
    requires r < PRECISION
    ensures Reals(Decimal(w) + "." + StripZeros(Padded(r, PLACES))) == Read(w % WORD * PRECISION + r)
  {
    var a, t := Decimal(w), StripZeros(Padded(r, PLACES));
    DecimalRun(w, t);
    FractionOfPlaces(w % WORD * PRECISION, r);
    ReadsAround(a + "." + t, a, t, w);
  }

  lemma ReadsAround(s: string, a: string, t: string, w: nat)
    requires s == a + "." + t && DigitRun(s, 10) == |a| > 0 && Number(a, 10) == w
    ensures Reals(s) == Fraction(w % WORD * PRECISION, t)
  {
    assert s[..|a|] == a && s[|a|] == '.' && s[|a| + 1..] == t;
  }

  /** The round trip is exact precisely when the integer part fits the 64 bits it is read into. */
  lemma RoundTripIff(fixed: nat)
    requires fixed < MOD
    ensures Reals(Text(fixed)) == Read(fixed) <==> fixed / PRECISION < WORD
  {
    ReadPrinted(fixed);
    WrapIsExact(Reals(Text(fixed)), fixed / PRECISION, fixed % PRECISION, fixed);
  }

  lemma WrapIsExact(x: Reading, w: nat, r: nat, v: nat)
    requires x == Read(w % WORD * PRECISION + r) && v == w * PRECISION + r
    ensures x == Read(v) <==> w < WORD
  {
    assert w >= WORD ==> w % WORD < w;
  }

  /** 2^64 itself is printed as "18446744073709551616." and read back as zero. */
  lemma WholePartWraps(fixed: nat)
    requires fixed == WORD * PRECISION
    ensures fixed < MOD && Reals(Text(fixed)) == Read(0)
  {
    DivModUnique(fixed, PRECISION, WORD, 0);
    ReadPrinted(fixed);
  }

  /** uint128(const bigint&): through the decimal text. */
  method FromBigint(n: nat) returns (w: Words)
    ensures w.Valid() && w.Value() == n % MOD
  {
    ParsePrinted(n);
    w := Parse(Decimal(n));
  }

  // ---------- The class ----------

  class Real128 {
    var fixed: Words

    ghost predicate Valid()
      reads this
    {
      fixed.Valid()
    }

    ghost function Fixed(): nat
      reads this
    {
      fixed.Value()
    }

    constructor (integer: nat)
      requires integer < WORD
      ensures Valid() && Fixed() == integer * PRECISION
    {
      var u := new UInt128(0, integer);
      u.Multiply(Words(0, PRECISION));
      WholeFits(integer);
      fixed := Words(u.hi, u.lo);
    }

    method Add(o: Words)
      requires Valid() && o.Valid()
      modifies this
      ensures Valid() && Fixed() == (old(Fixed()) + o.Value()) % MOD
    {
      var u := new UInt128(fixed.hi, fixed.lo);
      u.Add(o);
      fixed := Words(u.hi, u.lo);
    }

    /** operator /= in big integers */
    method DivideBy(o: Words) returns (ok: bool)
      requires Valid() && o.Valid()
      modifies this
      ensures ok <==> o.Value() > 0
      ensures !ok ==> fixed == old(fixed)
      ensures ok ==> Valid() && Fixed() == old(Fixed()) * PRECISION / o.Value() % MOD
    {
      ok := o.hi != 0 || o.lo != 0;
      if ok {
        var self: nat, other: nat := fixed.hi * WORD + fixed.lo, o.hi * WORD + o.lo;
        self := self * PRECISION;
        DivBounds(self, other);
        self := self / other;
        fixed := FromBigint(self);
      }
    }

    /** operator *= */
    method MultiplyBy(o: Words)
      requires Valid() && o.Valid()
      modifies this
      ensures Valid() && Fixed() == old(Fixed()) * o.Value() / PRECISION % MOD
    {
      var self: nat, other: nat := fixed.hi * WORD + fixed.lo, o.hi * WORD + o.lo;
      MulMono(0, self, other);
      self := self * other;
      self := self / PRECISION;
      fixed := FromBigint(self);
    }

    /** operator std::string */
    method ToText() returns (number: string)
      requires Valid()
      ensures number == Text(Fixed())
    {
      var q := Divide(fixed, Words(0, PRECISION));
      DivModUnique(fixed.Value(), PRECISION, q.quotient.Value(), q.remainder.Value());
      number := UInt128Text.ToText(q.quotient);
      number := number + ".";
      var places := FracText(q.remainder);
      ghost var whole := Decimal(Fixed() / PRECISION);
      number := number + places;
      StripAfterPoint(whole, places);
      assert number[|whole|] == '.';
      while number[|number| - 1] == '0'
        invariant '.' in number
        invariant StripZeros(number) == Text(Fixed())
        decreases |number|
      {
        PointStays(number);
        number := number[..|number| - 1];
      }
    }
  }

  lemma WholeFits(integer: nat)
    requires integer < WORD
    ensures integer * PRECISION % MOD == integer * PRECISION
  {
    MulMono(integer, WORD, PRECISION);
  }

  lemma PointStays(s: string)
    requires '.' in s && s[|s| - 1] == '0'
    ensures '.' in s[..|s| - 1]
  {
    var i :| 0 <= i < |s| && s[i] == '.';
    assert s[..|s| - 1][i] == '.';
  }

  /** The 18 places: a one in front keeps their zeros, and is cut off. */
  method FracText(r: Words) returns (places: string)
    requires r.Valid() && r.Value() < PRECISION
    ensures places == Padded(r.Value(), PLACES)
  {
    PlacesText(r.Value());
    var frac := WithUnit(r);
    var text := UInt128Text.ToText(frac);
    places := text[1..];
  }

  method WithUnit(r: Words) returns (frac: Words)
    requires r.Valid() && r.Value() < PRECISION
    ensures frac.Valid() && frac.Value() == r.Value() + PRECISION
  {
    var u := new UInt128(r.hi, r.lo);
    u.Add(Words(0, PRECISION));
    frac := Words(u.hi, u.lo);
  }

  lemma PlacesText(r: nat)
    requires r < PRECISION
    ensures (r + PRECISION) % MOD == r + PRECISION
    ensures |Decimal(r + PRECISION)| == PLACES + 1 && Decimal(r + PRECISION)[1..] == Padded(r, PLACES)
  {
    Pow10Values();
    DigitsAfterOne(r, PLACES);
  }

  // ---------- The parser ----------

  /** The character at i; the string is terminated by a zero. */
  function At(s: string, i: nat): char {
    if i < |s| then s[i] else '\0'
  }

  /** real128(const std::string&) */
  method Parse128(s: string) returns (r: Reading)
    ensures r == Reals(s)
  {
    var whole: nat := 0;
    var i: nat := 0;
    if '0' <= At(s, 0) <= '9' {
      var intPart;
      intPart, i := ReadWhole(s);
      var u := new Real128(intPart);
      whole := u.fixed.hi * WORD + u.fixed.lo;
    } else {
      DigitRunIs(s, 10, 0);
      if At(s, 0) != '.' { return AssertFailed; }
    }
    assert i == DigitRun(s, 10) && whole == Number(s[..i], 10) % WORD * PRECISION;
    r := if At(s, i) == '.' then AssertFailed else Read(whole);
    if At(s, i) == '.' {
      r := ReadFraction(whole, s[i + 1..]);
    }
  }

  method ReadWhole(s: string) returns (intPart: nat, i: nat)
    requires '0' <= At(s, 0) <= '9'
    ensures i == DigitRun(s, 10) > 0 && intPart == Number(s[..i], 10) % WORD
  {
    intPart := (At(s, 0) - '0') as nat;
    i := 1;
    NumberStep(s, 0, 10);
    while '0' <= At(s, i) <= '9'
      invariant 1 <= i <= |s| && intPart == Number(s[..i], 10) % WORD
      invariant forall k :: 0 <= k < i ==> DigitValue(s[k]) < 10
      decreases |s| - i
    {
      NumberStep(s, i, 10);
      WrapStep(Number(s[..i], 10), DigitValue(s[i]));
      intPart := (intPart * 10 + (At(s, i) - '0') as nat) % WORD;
      i := i + 1;
    }
    DigitRunIs(s, 10, i);
  }

  lemma WrapStep(e: nat, d: nat)
    ensures (e % WORD * 10 + d) % WORD == (e * 10 + d) % WORD
  {
    var q := e / WORD;
    ModIs(e * 10 + d, WORD, 10 * q + (e % WORD * 10 + d) / WORD, (e % WORD * 10 + d) % WORD);
  }

  method ReadFraction(whole: nat, t: string) returns (r: Reading)
    requires whole <= WORD * PRECISION
    ensures r == Fraction(whole, t)
  {
    if !('0' <= At(t, 0) <= '9') {
      DigitRunIs(t, 10, 0);
      return Read(whole);
    }
    var fracPart, magnitude, k := ReadPlaces(t);
    var ok, f := Ratio(fracPart, magnitude);
    if !ok { return AssertFailed; }
    var sum := new Real128(0);
    sum.fixed := ToWords(whole);
    sum.Add(f);
    r := Read(sum.fixed.hi * WORD + sum.fixed.lo);
  }

  /** real128(n) / real128(m) */
  method Ratio(n: nat, m: nat) returns (ok: bool, f: Words)
    requires n < WORD && m < WORD
    ensures ok <==> m > 0
    ensures ok ==> f.Valid() && f.Value() == n * PRECISION / m
  {
    var a := new Real128(n);
    var b := new Real128(m);
    ghost var x, y := a.Fixed(), b.Fixed();
    ok := a.DivideBy(b.fixed);
    f := a.fixed;
    QuotientFits(n, m, x, y);
  }

  /** A fraction over a positive word cancels exactly and leaves no more than 128 bits. */
  lemma QuotientFits(n: nat, m: nat, x: nat, y: nat)
    requires n < WORD && x == n * PRECISION && y == m * PRECISION
    ensures y > 0 <==> m > 0
    ensures m > 0 ==> x * PRECISION / y % MOD == n * PRECISION / m
  {
    if m > 0 {
      CancelFactor(x, m, PRECISION);
      MulMono(n, WORD, PRECISION);
      var q := x / m;
      DivBounds(x, m);
      MulMono(1, m, q);
      assert q < MOD;
    }
  }

  lemma CancelFactor(a: nat, m: nat, p: nat)
    requires m > 0 && p > 0
    ensures m * p > 0 && a * p / (m * p) == a / m
  {
    MulMono(1, m, p);
    var q, r := a / m, a % m;
    MulDist(q * m, r, p);
    MulAssoc(q, m, p);
    MulMono(r + 1, m, p);
    MulDist(r, 1, p);
    DivModUnique(a * p, m * p, q, r * p);
  }

  /** The fraction's digits and ten to their number, in words that wrap. */
  method ReadPlaces(t: string) returns (fracPart: nat, magnitude: nat, k: nat)
    requires '0' <= At(t, 0) <= '9'
    ensures k == DigitRun(t, 10) > 0
    ensures fracPart == Number(t[..k], 10) % WORD && magnitude == Pow10(k) % WORD
  {
    fracPart, magnitude, k := (At(t, 0) - '0') as nat, 10, 1;
    NumberStep(t, 0, 10);
    assert Pow10(1) == 10 * Pow10(0);
    while '0' <= At(t, k) <= '9'
      invariant 1 <= k <= |t| && fracPart == Number(t[..k], 10) % WORD && magnitude == Pow10(k) % WORD
      invariant forall j :: 0 <= j < k ==> DigitValue(t[j]) < 10
      decreases |t| - k
    {
      NumberStep(t, k, 10);
      WrapStep(Number(t[..k], 10), DigitValue(t[k]));
      WrapStep(Pow10(k), 0);
      fracPart := (fracPart * 10 + (At(t, k) - '0') as nat) % WORD;
      magnitude := magnitude * 10 % WORD;
      k := k + 1;
    }
    DigitRunIs(t, 10, k);
  }
}
