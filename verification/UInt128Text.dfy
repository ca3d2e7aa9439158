/** The string conversions of uint128.cpp: the decimal printer and the parser with sign and radix prefix. */
module UInt128Text {
  import opened Powers
  import opened UInt128
  import opened UInt128Division

  const SIZE := 129 // the printer's static buffer

  // ---------- What the printer writes ----------

  function DigitChar(d: nat): char
    requires d < 10
  {
    "0123456789"[d]
  }

  /** The decimal digits of v, none for zero. */
  function Digits(v: nat): string
    decreases v, 0
  {
    if v == 0 then "" else Digits(v / 10) + [DigitChar(v % 10)]
  }

  function Decimal(v: nat): string {
    if v == 0 then "0" else Digits(v)
  }

  function Pow10(n: nat): (p: nat)
    ensures p > 0
    decreases n, 0
  {
    if n == 0 then 1 else 10 * Pow10(n - 1)
  }

  lemma {:induction false} DigitsLength(v: nat, n: nat)
    requires v < Pow10(n)
    ensures |Digits(v)| <= n
    decreases n
  {
    if v > 0 { DigitsLength(v / 10, n - 1); }
  }

  lemma {:induction false} Pow10Add(a: nat, b: nat)
    ensures Pow10(a + b) == Pow10(a) * Pow10(b)
  {
    if a > 0 {
      Pow10Add(a - 1, b);
      MulAssoc(10, Pow10(a - 1), Pow10(b));
    }
  }

  lemma Pow10Values()
    ensures Pow10(1) == 10 && Pow10(4) == 10000 && Pow10(5) == 100000 && Pow10(9) == 1_000_000_000 && Pow10(18) == 1_000_000_000_000_000_000
    ensures Pow10(39) == 1_000_000_000_000_000_000_000_000_000_000_000_000_000 > MOD
  {
    assert Pow10(1) == 10 * Pow10(0);
    Pow10Add(1, 1);
    Pow10Add(2, 2);
    Pow10Add(4, 1);
    Pow10Add(4, 5);
    Pow10Add(9, 9);
    Pow10Add(18, 18);
    Pow10Add(36, 2);
    Pow10Add(38, 1);
  }

  /** operator std::string: the digits are stored backwards from the end of the buffer. */
  method ToText(v: Words) returns (text: string)
    requires v.Valid()
    ensures text == Decimal(v.Value())
  {
    if v.hi == 0 && v.lo == 0 { return "0"; }
    var sz := new char[SIZE](_ => '\0');
    var ii := v;
    var i: nat := 127;
    Pow10Values();
    WordsOf(v.hi, v.lo);
    ghost var all := Digits(v.Value());
    DigitsLength(v.Value(), 39);
    while (ii.hi != 0 || ii.lo != 0) && i != 0
      invariant ii.Valid() && i <= 127
      invariant all == Digits(ii.Value()) + sz[i..127]
      decreases i
    {
      var q, d := LastDigit(ii);
      i := i - 1;
      sz[i] := d;
      ii := q;
    }
    assert i >= 88; // so the loop has ended because ii is zero
    text := sz[i..127];
  }

  method LastDigit(v: Words) returns (q: Words, d: char)
    requires v.Valid() && v.Value() > 0
    ensures q.Valid() && Digits(v.Value()) == Digits(q.Value()) + [d]
  {
    var r := Divide(v, Words(0, 10));
    ghost var n, x, y := v.Value(), r.quotient.Value(), r.remainder.Value();
    SmallRemainder(r.remainder, y);
    SplitDigit(n, x, y);
    q, d := r.quotient, DigitChar(r.remainder.lo);
  }

  lemma SmallRemainder(r: Words, y: nat)
    requires r.Valid() && r.Value() == y < 10
    ensures r.lo == y
  {}

  lemma SplitDigit(v: nat, q: nat, r: nat)
    requires v > 0 && v == q * 10 + r && r < 10
    ensures Digits(v) == Digits(q) + [DigitChar(r)]
  {}

  // ---------- What the parser reads ----------

  /** The value of a character as a digit, at least 36 when it is no digit in any radix. */
  function DigitValue(ch: char): nat {
    if 'A' <= ch <= 'Z' then (ch - 'A') as nat + 10
    else if 'a' <= ch <= 'z' then (ch - 'a') as nat + 10
    else if '0' <= ch <= '9' then (ch - '0') as nat
    else 36
  }

  /** Digits in numbers: what is printed for a digit and what a character is read as. */
  lemma DigitsInNumbers(d: nat, k: nat)
    requires d < 10 && k < 26
    ensures DigitChar(d) == (48 + d) as char && DigitValue((48 + d) as char) == d
    ensures DigitValue((65 + k) as char) == 10 + k && DigitValue((97 + k) as char) == 10 + k
  {}

  /** The number that a string of digits denotes. */
  function Number(s: string, radix: nat): nat {
    if s == "" then 0 else Number(s[..|s| - 1], radix) * radix + DigitValue(s[|s| - 1])
  }

  /** The length of the longest prefix that consists of digits. */
  function DigitRun(s: string, radix: nat): (n: nat)
    ensures n <= |s|
    ensures forall k :: 0 <= k < n ==> DigitValue(s[k]) < radix
    ensures n < |s| ==> DigitValue(s[n]) >= radix
  {
    if s == "" || DigitValue(s[0]) >= radix then 0 else 1 + DigitRun(s[1..], radix)
  }

  lemma DigitRunIs(s: string, radix: nat, n: nat)
    requires n <= |s| && (forall k :: 0 <= k < n ==> DigitValue(s[k]) < radix) && (n < |s| ==> DigitValue(s[n]) >= radix)
    ensures DigitRun(s, radix) == n
  {
    var m := DigitRun(s, radix);
    if m < n { assert false; }
    if n < m { assert false; }
  }

  function Radix(s: string): nat {
    if s == "" || s[0] != '0' then 10 else if |s| > 1 && s[1] == 'x' then 16 else 8
  }

  function Body(s: string): string {
    if s == "" || s[0] != '0' then s else if |s| > 1 && s[1] == 'x' then s[2..] else s[1..]
  }

  function Magnitude(s: string): nat {
    Number(Body(s)[..DigitRun(Body(s), Radix(s))], Radix(s))
  }

  /** The number a string stands for: a sign, a radix prefix, and digits up to the first other character. */
  function Parsed(s: string): nat {
    if s != "" && s[0] == '-' then (0 - Magnitude(s[1..])) % MOD else Magnitude(s) % MOD
  }

  /** The prefixes in words: 0x is hexadecimal, another zero octal, and anything else decimal. */
  lemma Prefixes(t: string)
    ensures Radix("0x" + t) == 16 && Body("0x" + t) == t
    ensures t == "" || t[0] != 'x' ==> Radix("0" + t) == 8 && Body("0" + t) == t
    ensures t == "" || t[0] != '0' ==> Radix(t) == 10 && Body(t) == t
  {
    assert ("0x" + t)[2..] == t && ("0" + t)[1..] == t;
  }

  /** One character of the digit loop, whose three cases break off on anything that is no digit. */
  method ReadDigit(ch: char, radix: nat) returns (ok: bool, n: nat)
    requires radix <= 16
    ensures ok <==> DigitValue(ch) < radix
    ensures ok ==> n == DigitValue(ch)
  {
    n := 0;
    if 'A' <= ch <= 'Z' {
      ok := (ch - 'A') as int + 10 < radix;
      if ok { n := (ch - 'A') as nat + 10; }
    } else if 'a' <= ch <= 'z' {
      ok := (ch - 'a') as int + 10 < radix;
      if ok { n := (ch - 'a') as nat + 10; }
    } else if '0' <= ch <= '9' {
      ok := (ch - '0') as int < radix;
      if ok { n := (ch - '0') as nat; }
    } else {
      ok := false;
    }
  }

  lemma HornerStep(e: nat, radix: nat, n: nat)
    ensures (e % MOD * radix % MOD + n) % MOD == (e * radix + n) % MOD
  {
    ModMulLeft(e, radix);
    ModAddLeft(e * radix, n);
  }

  lemma NumberStep(s: string, i: nat, radix: nat)
    requires i < |s|
    ensures Number(s[..i + 1], radix) == Number(s[..i], radix) * radix + DigitValue(s[i])
  {
    assert s[..i + 1][..i] == s[..i];
  }

  method AppendDigit(v: UInt128, radix: nat, n: nat, ghost e: nat)
    requires v.Valid() && radix <= 16 && n < 16 && v.Value() == e % MOD
    modifies v
    ensures v.Valid() && v.Value() == (e * radix + n) % MOD
  {
    HornerStep(e, radix, n);
    v.Multiply(Words(0, radix));
    v.Add(Words(0, n));
  }

  /** The digit loop, from position i on. */
  method ReadDigits(s: string, radix: nat) returns (v: UInt128)
    requires 2 <= radix <= 16
    ensures fresh(v) && v.Valid()
    ensures v.Value() == Number(s[..DigitRun(s, radix)], radix) % MOD
  {
    v := new UInt128(0, 0);
    var i: nat := 0;
    while i < |s|
      invariant i <= |s| && fresh(v) && v.Valid()
      invariant v.Value() == Number(s[..i], radix) % MOD
      invariant forall k :: 0 <= k < i ==> DigitValue(s[k]) < radix
    {
      var ok, n := ReadDigit(s[i], radix);
      if !ok { break; }
      NumberStep(s, i, radix);
      AppendDigit(v, radix, n, Number(s[..i], radix));
      i := i + 1;
    }
    DigitRunIs(s, radix, i);
  }

  /** uint128(const std::string&) */
  method Parse(sz: string) returns (r: Words)
    ensures r.Valid() && r.Value() == Parsed(sz)
  {
    var minus := sz != "" && sz[0] == '-';
    var s := if minus then sz[1..] else sz;
    var v := ReadMagnitude(s);
    r := Words(v.hi, v.lo);
    if minus {
      NegatedMod(Magnitude(s));
      r := v.Negated();
    }
  }

  method ReadMagnitude(s: string) returns (v: UInt128)
    ensures fresh(v) && v.Valid() && v.Value() == Magnitude(s) % MOD
  {
    var radix, i := ReadPrefix(s);
    v := ReadDigits(s[i..], radix);
  }

  method ReadPrefix(s: string) returns (radix: nat, i: nat)
    ensures i <= |s| && radix == Radix(s) && 2 <= radix <= 16 && s[i..] == Body(s)
  {
    radix, i := 10, 0;
    if s != "" && s[0] == '0' {
      radix, i := 8, 1;
      if i != |s| && s[i] == 'x' {
        radix, i := 16, 2;
      }
    }
  }

  lemma NegatedMod(m: nat)
    ensures (MOD - m % MOD) % MOD == (0 - m) % MOD
  {
    var q := if m % MOD == 0 then 0 - m / MOD else 0 - m / MOD - 1;
    ModIs(0 - m, MOD, q, (MOD - m % MOD) % MOD);
  }

  // ---------- Print then parse ----------

  lemma {:induction false} DigitsShape(v: nat)
    ensures v > 0 ==> Digits(v) != "" && Digits(v)[0] != '0'
    ensures Number(Digits(v), 10) == v
    ensures forall k :: 0 <= k < |Digits(v)| ==> '0' <= Digits(v)[k] <= '9'
  {
    if v > 0 {
      DigitsShape(v / 10);
      var s := Digits(v);
      assert s[..|s| - 1] == Digits(v / 10);
    }
  }

  /** Printing any number and parsing the text gives the number modulo 2^128. */
  lemma ParsePrinted(v: nat)
    ensures Parsed(Decimal(v)) == v % MOD
  {
    if v == 0 {
      assert Body("0") == "" && Number("", 8) == 0;
    } else {
      ParseDigits(v);
    }
  }

  lemma ParseDigits(v: nat)
    requires v > 0
    ensures Parsed(Digits(v)) == v % MOD
  {
    DigitsShape(v);
    ParsePlain(Digits(v));
  }

  /** A string of decimal digits with no leading zero has neither sign nor prefix and is read to its end. */
  lemma ParsePlain(s: string)
    requires s != "" && s[0] != '0' && forall k :: 0 <= k < |s| ==> '0' <= s[k] <= '9'
    ensures Parsed(s) == Number(s, 10) % MOD
  {
    assert s[0] != '-';
    forall k | 0 <= k < |s| ensures DigitValue(s[k]) < 10 {}
    DigitRunIs(s, 10, |s|);
    assert s[..|s|] == s;
    assert Body(s) == s && Radix(s) == 10;
  }

  method PrintThenParse(v: Words) returns (r: Words)
    requires v.Valid()
    ensures r == v
  {
    var text := ToText(v);
    ParsePrinted(v.Value());
    r := Parse(text);
    SameWords(v, r);
  }

  lemma SameWords(v: Words, r: Words)
    requires v.Valid() && r.Valid() && r.Value() == v.Value() % MOD
    ensures r == v
  {
    WordsOf(v.hi, v.lo);
    WordsOf(r.hi, r.lo);
  }
}
