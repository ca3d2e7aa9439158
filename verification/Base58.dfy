/** Base58 encoding of byte strings (base58.cpp). */
module Base58 {
  import opened Positional
  import opened Wrappers

  // ---------- The alphabet ----------

  const RADIX := 58

  /** Digit d of the alphabet: the decimal digits but zero, and the letters but I, O and l. */
  function Symbol(d: nat): char
    requires d < RADIX
  {
    if d < 9 then '1' + d as char
    else if d < 17 then 'A' + (d - 9) as char
    else if d < 22 then 'J' + (d - 17) as char
    else if d < 33 then 'P' + (d - 22) as char
    else if d < 44 then 'a' + (d - 33) as char
    else 'm' + (d - 44) as char
  }

  /** The alphabet written out. */
  lemma Alphabet(d: nat)
    requires d < 58
    ensures RADIX == 58
    ensures d < 9 ==> Symbol(d) == "123456789"[d]
    ensures 9 <= d < 33 ==> Symbol(d) == "ABCDEFGHJKLMNPQRSTUVWXYZ"[d - 9]
    ensures 33 <= d ==> Symbol(d) == "abcdefghijkmnopqrstuvwxyz"[d - 33]
  {}

  /** The characters that isspace takes: tab, line feed, vertical tab, form feed, carriage return, and blank. */
  lemma Spaces(c: char)
    ensures IsSpace(c) <==> c as int in {9, 10, 11, 12, 13, 32}
  {}

  /** strchr in the alphabet, from a position on; RADIX when the character is not found. */
  function Index(c: char, from: nat): (d: nat)
    requires from <= RADIX
    ensures from <= d <= RADIX && (d < RADIX ==> Symbol(d) == c)
    decreases RADIX - from, c
  {
    if from == RADIX || Symbol(from) == c then from else Index(c, from + 1)
  }

  lemma {:induction false} IndexOfSymbol(d: nat, from: nat)
    requires from <= d < RADIX
    ensures Index(Symbol(d), from) == d
    decreases d - from
  {
    if from < d {
      assert Symbol(from) < Symbol(d);
      IndexOfSymbol(d, from + 1);
    }
  }

  predicate IsSymbol(c: char) {
    Index(c, 0) < RADIX
  }

  function Symbols(d: seq<nat>): (s: string)
    requires DigitsBelow(d, RADIX)
    ensures |s| == |d|
  {
    seq(|d|, k requires 0 <= k < |d| => Symbol(d[k]))
  }

  function Indices(s: string): (d: seq<nat>)
    requires forall k :: 0 <= k < |s| ==> IsSymbol(s[k])
    ensures |d| == |s| && DigitsBelow(d, RADIX)
  {
    var d := seq(|s|, k requires 0 <= k < |s| => Index(s[k], 0));
    assert forall k :: 0 <= k < |s| ==> IsSymbol(s[k]) && d[k] == Index(s[k], 0);
    d
  }

  lemma IndicesOfSymbols(d: seq<nat>)
    requires DigitsBelow(d, RADIX)
    ensures forall k :: 0 <= k < |d| ==> IsSymbol(Symbols(d)[k])
    ensures Indices(Symbols(d)) == d
  {
    var s := Symbols(d);
    forall k | 0 <= k < |d| ensures Index(s[k], 0) == d[k] { IndexOfSymbol(d[k], 0); }
    assert Indices(s) == d;
  }

  lemma SymbolsOfIndices(s: string)
    requires forall k :: 0 <= k < |s| ==> IsSymbol(s[k])
    ensures Symbols(Indices(s)) == s
  {}

  // ---------- What is computed ----------

  ghost predicate Bytes(b: seq<nat>) {
    DigitsBelow(b, 256)
  }

  function Encoded(b: seq<nat>): string {
    var n := Num(b, 256);
    NumOfRep(n, RADIX);
    Symbols(Zeros(LeadingZeros(b)) + Rep(n, RADIX))
  }

  predicate IsSpace(c: char) {
    c == ' ' || '\t' <= c <= '\r'
  }

  function SpaceRun(s: string): (n: nat)
    ensures n <= |s| && (forall k :: 0 <= k < n ==> IsSpace(s[k])) && (n < |s| ==> !IsSpace(s[n]))
  {
    if s == "" || !IsSpace(s[0]) then 0 else 1 + SpaceRun(s[1..])
  }

  function Terminator(s: string): (n: nat)
    ensures n <= |s| && (forall k :: 0 <= k < n ==> s[k] != '\0') && (n < |s| ==> s[n] == '\0')
  {
    if s == "" || s[0] == '\0' then 0 else 1 + Terminator(s[1..])
  }

  /** The string up to its terminator, without leading white space. */
  function Trimmed(s: string): string {
    var t := s[SpaceRun(s)..];
    t[..Terminator(t)]
  }

  function SymbolRun(s: string): (n: nat)
    ensures n <= |s| && (forall k :: 0 <= k < n ==> IsSymbol(s[k])) && (n < |s| ==> !IsSymbol(s[n]))
  {
    if s == "" || !IsSymbol(s[0]) then 0 else 1 + SymbolRun(s[1..])
  }

  /** Digits and then at most white space: zeros in front stand for zero bytes, the rest for a number. */
  function Decoded(s: string): Option<seq<nat>> {
    Reading(Trimmed(s))
  }

  function Reading(t: string): Option<seq<nat>> {
    var n := SymbolRun(t);
    if forall k :: n <= k < |t| ==> IsSpace(t[k]) then
      var d := Indices(t[..n]);
      Some(Zeros(LeadingZeros(d)) + Rep(Num(d, RADIX), 256))
    else None
  }

  // ---------- The two directions undo each other ----------

  lemma SymbolNotSpace(d: nat)
    requires d < RADIX
    ensures !IsSpace(Symbol(d)) && Symbol(d) != '\0'
  {}

  lemma SymbolsStayWhole(s: string)
    requires forall k :: 0 <= k < |s| ==> IsSymbol(s[k])
    ensures Decoded(s) == Some(Zeros(LeadingZeros(Indices(s))) + Rep(Num(Indices(s), RADIX), 256))
  {
    forall k | 0 <= k < |s| ensures !IsSpace(s[k]) && s[k] != '\0' { SymbolNotSpace(Index(s[k], 0)); }
    if SpaceRun(s) > 0 { assert false; }
    assert s[0..] == s;
    if Terminator(s) < |s| { assert false; }
    assert s[..|s|] == s;
    if SymbolRun(s) < |s| { assert false; }
  }

  /** Decoding an encoding returns the bytes, for every byte string. */
  lemma DecodeEncoded(b: seq<nat>)
    requires Bytes(b)
    ensures Decoded(Encoded(b)) == Some(b)
  {
    var n, z := Num(b, 256), LeadingZeros(b);
    LeadingOfZerosThenRep(z, n, RADIX);
    IndicesOfSymbols(Zeros(z) + Rep(n, RADIX));
    SymbolsStayWhole(Encoded(b));
    ZerosThenRep(b, 256);
  }

  /** Encoding a decoding returns the string, for every string over the alphabet. */
  lemma EncodeDecoded(s: string)
    requires forall k :: 0 <= k < |s| ==> IsSymbol(s[k])
    ensures Decoded(s).Some? && Bytes(Decoded(s).value) && Encoded(Decoded(s).value) == s
  {
    var d := Indices(s);
    var z, n := LeadingZeros(d), Num(d, RADIX);
    SymbolsStayWhole(s);
    LeadingOfZerosThenRep(z, n, 256);
    ZerosThenRep(d, RADIX);
    SymbolsOfIndices(s);
  }

  // ---------- Big numbers as byte vectors ----------

  function Reversed<T>(s: seq<T>): (r: seq<T>)
    ensures |r| == |s| && forall k :: 0 <= k < |s| ==> r[k] == s[|s| - 1 - k]
  {
    seq(|s|, k requires 0 <= k < |s| => s[|s| - 1 - k])
  }

  /** The multiprecision format: a big-endian magnitude whose top bit is the sign. */
  function FromMpi(m: seq<nat>): int {
    if m == [] then 0
    else if m[0] >= 0x80 then -(Num([m[0] - 0x80] + m[1..], 256) as int)
    else Num(m, 256)
  }

  /** A zero byte keeps a magnitude whose top bit is set from reading as negative. */
  function Padded(magnitude: seq<nat>): seq<nat> {
    if magnitude != [] && magnitude[0] >= 0x80 then [0] + magnitude else magnitude
  }

  function ToMpi(n: int): seq<nat> {
    var padded := Padded(Rep(if n < 0 then -n else n, 256));
    if n < 0 && padded != [] then [padded[0] + 0x80] + padded[1..] else padded
  }

  /** setvch: the vector holds the format backwards. */
  function FromVector(vch: seq<nat>): int {
    FromMpi(Reversed(vch))
  }

  /** getvch */
  function ToVector(n: int): seq<nat> {
    Reversed(ToMpi(n))
  }

  lemma ReversedTwice<T>(s: seq<T>)
    ensures Reversed(Reversed(s)) == s
  {}

  /** setvch undoes getvch, for negative numbers and set top bits as well. */
  lemma VectorRoundTrip(n: int)
    ensures FromVector(ToVector(n)) == n
  {
    var a: nat := if n < 0 then -n else n;
    NumOfRep(a, 256);
    PaddedNum(Rep(a, 256));
    ReversedTwice(ToMpi(n));
    SignBit(Padded(Rep(a, 256)));
  }

  lemma PaddedNum(m: seq<nat>)
    requires DigitsBelow(m, 256)
    ensures Num(Padded(m), 256) == Num(m, 256) && (Padded(m) != [] ==> Padded(m)[0] < 0x80)
  {
    NumWithZeros(1, m, 256);
    assert Zeros(1) == [0];
  }

  lemma SignBit(m: seq<nat>)
    requires m != [] ==> m[0] < 0x80
    ensures FromMpi(m) == Num(m, 256)
    ensures m != [] ==> FromMpi([m[0] + 0x80] + m[1..]) == -(Num(m, 256) as int)
  {
    if m != [] {
      var s := [m[0] + 0x80] + m[1..];
      assert [s[0] - 0x80] + s[1..] == m;
    }
  }

  /** A zero byte at the end of the vector keeps the number positive. */
  lemma PositiveVector(b: seq<nat>)
    ensures FromVector(Reversed(b) + [0]) == Num(b, 256)
  {
    NumWithZeros(1, b, 256);
    assert Reversed(Reversed(b) + [0]) == Zeros(1) + b;
  }

  /** Without the sign byte a positive number's vector holds its digits backwards. */
  lemma TrimmedVector(n: nat)
    ensures TrimSign(ToVector(n)) == Reversed(Rep(n, 256))
  {
    NumOfRep(n, 256);
    TrimPadded(Rep(n, 256));
  }

  function TrimSign(v: seq<nat>): seq<nat> {
    if |v| >= 2 && v[|v| - 1] == 0 && v[|v| - 2] >= 0x80 then v[..|v| - 1] else v
  }

  lemma TrimPadded(m: seq<nat>)
    requires m != [] ==> m[0] != 0
    ensures TrimSign(Reversed(Padded(m))) == Reversed(m)
  {
    var v := Reversed(Padded(m));
    if m != [] {
      assert m[0] >= 0x80 ==> v[..|v| - 1] == Reversed(m);
    }
  }

  // ---------- The procedures ----------

  lemma DigitStep(e: seq<nat>, r: nat, str: string)
    requires DigitsBelow(e, RADIX) && r < RADIX
    ensures Symbols(e + [r]) + Reversed(str) == Symbols(e) + Reversed(str + [Symbol(r)])
  {
    var c := Symbol(r);
    assert Symbols(e + [r]) == Symbols(e) + [c];
    assert Reversed(str + [c]) == [c] + Reversed(str);
  }

  /** EncodeBase58: digits by repeated division, least significant first, then the zeros, then turned round. */
  method Encode(b: seq<nat>) returns (text: string)
    requires Bytes(b)
    ensures text == Encoded(b)
  {
    var vchTmp := Reversed(b) + [0];
    PositiveVector(b);
    var bn := FromVector(vchTmp);
    ghost var n := bn;
    NumOfRep(n, RADIX);
    ghost var digits := Symbols(Rep(n, RADIX));
    var str := "";
    while bn > 0
      invariant bn >= 0 && DigitsBelow(Rep(bn, RADIX), RADIX)
      invariant digits == Symbols(Rep(bn, RADIX)) + Reversed(str)
    {
      var dv, c := bn / RADIX, bn % RADIX;
      QuotientSmaller(bn, RADIX);
      NumOfRep(dv, RADIX);
      DigitStep(Rep(dv, RADIX), c, str);
      bn := dv;
      str := str + [Symbol(c)];
    }
    assert digits == Reversed(str);
    str := AppendOnes(b, str);
    ZerosInFront(LeadingZeros(b), Rep(n, RADIX));
    text := Reversed(str);
  }

  lemma ZerosInFront(z: nat, e: seq<nat>)
    requires DigitsBelow(e, RADIX)
    ensures Symbols(Zeros(z) + e) == Symbols(Zeros(z)) + Symbols(e)
  {}

  /** One more digit zero for every zero byte in front. */
  method AppendOnes(b: seq<nat>, digits: string) returns (str: string)
    ensures Reversed(str) == Symbols(Zeros(LeadingZeros(b))) + Reversed(digits)
  {
    str := digits;
    var p: nat := 0;
    while p < |b| && b[p] == 0
      invariant p <= LeadingZeros(b) && Reversed(str) == Symbols(Zeros(p)) + Reversed(digits)
    {
      assert Reversed(str + ['1']) == ['1'] + Reversed(str);
      assert Symbols(Zeros(p + 1)) == ['1'] + Symbols(Zeros(p));
      str := str + [Symbol(0)];
      p := p + 1;
    }
  }

  function At(s: string, i: nat): char {
    if i < |s| then s[i] else '\0'
  }

  method SkipSpace(s: string, from: nat) returns (i: nat)
    requires from <= |s|
    ensures from <= i <= |s| && !IsSpace(At(s, i)) && forall k :: from <= k < i ==> IsSpace(s[k])
  {
    i := from;
    while IsSpace(At(s, i))
      invariant from <= i <= |s| && forall k :: from <= k < i ==> IsSpace(s[k])
      decreases |s| - i
    {
      i := i + 1;
    }
  }

  lemma IndicesStep(t: string, p: nat)
    requires p < |t| && forall k :: 0 <= k <= p ==> IsSymbol(t[k])
    ensures Num(Indices(t[..p + 1]), RADIX) == Num(Indices(t[..p]), RADIX) * RADIX + Index(t[p], 0)
  {
    var d := Indices(t[..p + 1]);
    assert d[..p] == Indices(t[..p]);
  }

  /** The digits of the string, as a big number. */
  method ReadDigits(t: string) returns (bn: nat, p: nat)
    ensures p <= |t| && (forall k :: 0 <= k < p ==> IsSymbol(t[k])) && !IsSymbol(At(t, p))
    ensures bn == Num(Indices(t[..p]), RADIX)
  {
    bn, p := 0, 0;
    while At(t, p) != '\0'
      invariant p <= |t| && forall k :: 0 <= k < p ==> IsSymbol(t[k])
      invariant bn == Num(Indices(t[..p]), RADIX)
      decreases |t| - p
    {
      var p1 := Index(At(t, p), 0);
      if p1 == RADIX { return; }
      IndicesStep(t, p);
      bn := bn * RADIX + p1;
      p := p + 1;
    }
    NoTerminatorSymbol();
  }

  lemma NoTerminatorSymbol()
    ensures !IsSymbol('\0')
  {
    var d := Index('\0', 0);
    if d < RADIX { SymbolNotSpace(d); }
  }

  lemma SpaceRunIs(s: string, i: nat)
    requires i <= |s| && !IsSpace(At(s, i)) && forall k :: 0 <= k < i ==> IsSpace(s[k])
    ensures SpaceRun(s) == i
  {
    var n := SpaceRun(s);
    if n < i { assert false; }
    if i < n { assert false; }
  }

  /** How the two positions at which reading stops decide. */
  lemma ReadingIs(t: string, p: nat, q: nat)
    requires p <= q <= |t| && (forall k :: 0 <= k < p ==> IsSymbol(t[k])) && !IsSymbol(At(t, p))
    requires (forall k :: p <= k < q ==> IsSpace(t[k])) && !IsSpace(At(t, q))
    ensures var d := Indices(t[..p]);
            Reading(t[..Terminator(t)]) == if At(t, q) != '\0' then None else Some(Zeros(LeadingZeros(d)) + Rep(Num(d, RADIX), 256))
  {
    var m := Terminator(t);
    var u := t[..m];
    NoTerminatorSymbol();
    if m < p { assert false; }
    if m < q { assert false; }
    SymbolRunIs(u, p);
    if At(t, q) != '\0' {
      assert !IsSpace(u[q]);
    } else {
      assert m == q && u[..p] == t[..p];
    }
  }

  lemma SymbolRunIs(s: string, n: nat)
    requires n <= |s| && (forall k :: 0 <= k < n ==> IsSymbol(s[k])) && (n < |s| ==> !IsSymbol(s[n]))
    ensures SymbolRun(s) == n
  {
    var m := SymbolRun(s);
    if m < n { assert false; }
    if n < m { assert false; }
  }

  lemma SymbolZero(c: char)
    ensures c == '1' <==> Index(c, 0) == 0
  {}

  method CountOnes(t: string, ghost p: nat) returns (n: nat)
    requires p <= |t| && (forall k :: 0 <= k < p ==> IsSymbol(t[k])) && !IsSymbol(At(t, p))
    ensures n == LeadingZeros(Indices(t[..p]))
  {
    ghost var d := Indices(t[..p]);
    n := 0;
    IndexOfSymbol(0, 0);
    while At(t, n) == '1'
      invariant n <= p && forall k :: 0 <= k < n ==> d[k] == 0
      decreases p - n
    {
      SymbolZero(t[n]);
      n := n + 1;
    }
    if n < p { SymbolZero(t[n]); }
    Positional.LeadingZerosIs(d, n);
  }

  /** DecodeBase58 of the characters before the terminator. */
  method Decode(s: string) returns (r: Option<seq<nat>>)
    ensures r == Decoded(s)
  {
    var psz := SkipSpace(s, 0);
    SpaceRunIs(s, psz);
    var t := s[psz..];
    var bn, p := ReadDigits(t);
    var q := SkipSpace(t, p);
    ReadingIs(t, p, q);
    if At(t, q) != '\0' { return None; }
    var vchTmp := TrimSign(ToVector(bn));
    TrimmedVector(bn);
    var nLeadingZeros := CountOnes(t, p);
    ReversedTwice(Rep(bn, 256));
    r := Some(Zeros(nLeadingZeros) + Reversed(vchTmp));
  }
}
