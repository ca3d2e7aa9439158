/** Numbers as sequences of digits in any base, most significant first. */
module Positional {
  import opened Powers

  ghost predicate DigitsBelow(d: seq<nat>, base: nat) {
    forall k :: 0 <= k < |d| ==> d[k] < base
  }

  /** The number that a sequence of digits denotes. */
  function Num(d: seq<nat>, base: nat): nat {
    if d == [] then 0 else Num(d[..|d| - 1], base) * base + d[|d| - 1]
  }

  /** The digits of n, without leading zeros. */
  function Rep(n: nat, base: nat): seq<nat>
    requires base >= 2
    decreases n, base
  {
    if n == 0 then [] else
      QuotientSmaller(n, base);
      Rep(n / base, base) + [n % base]
  }

  lemma QuotientSmaller(n: nat, base: nat)
    requires n > 0 && base >= 2
    ensures 0 <= n / base < n && 0 <= n % base < base
  {
    DivBounds(n, base);
    if n / base >= n { MulMono(n, n / base, base); MulMono(2, base, n); }
  }

  function Zeros(z: nat): (d: seq<nat>)
    ensures |d| == z && forall k :: 0 <= k < z ==> d[k] == 0
  {
    seq(z, _ => 0)
  }

  /** The number of zeros at the front. */
  function LeadingZeros(d: seq<nat>): (z: nat)
    ensures z <= |d| && (forall k :: 0 <= k < z ==> d[k] == 0) && (z < |d| ==> d[z] != 0)
  {
    if d == [] || d[0] != 0 then 0 else 1 + LeadingZeros(d[1..])
  }

  lemma LeadingZerosIs(d: seq<nat>, z: nat)
    requires z <= |d| && (forall k :: 0 <= k < z ==> d[k] == 0) && (z < |d| ==> d[z] != 0)
    ensures LeadingZeros(d) == z
  {
    var y := LeadingZeros(d);
    if y < z { assert false; }
    if z < y { assert false; }
  }

  lemma {:induction false} NumOfRep(n: nat, base: nat)
    requires base >= 2
    ensures Num(Rep(n, base), base) == n && DigitsBelow(Rep(n, base), base)
    ensures n > 0 ==> Rep(n, base) != [] && Rep(n, base)[0] != 0
    decreases n
  {
    if n > 0 {
      QuotientSmaller(n, base);
      NumOfRep(n / base, base);
      var d := Rep(n, base);
      assert d[..|d| - 1] == Rep(n / base, base);
      DivBounds(n, base);
    }
  }

  lemma RepStep(q: nat, r: nat, base: nat)
    requires base >= 2 && r < base && q * base + r > 0
    ensures Rep(q * base + r, base) == Rep(q, base) + [r]
  {
    DivModUnique(q * base + r, base, q, r);
  }

  /** Digits that do not start with a zero are the digits of their number. */
  lemma {:induction false} RepOfNum(d: seq<nat>, base: nat)
    requires base >= 2 && DigitsBelow(d, base) && (d != [] ==> d[0] != 0)
    ensures Rep(Num(d, base), base) == d
    ensures d != [] ==> Num(d, base) > 0
    decreases |d|
  {
    if d != [] {
      var e := d[..|d| - 1];
      RepOfNum(e, base);
      var q := Num(e, base);
      if e != [] { MulMono(1, q, base); }
      RepStep(q, d[|d| - 1], base);
    }
  }

  lemma {:induction false} NumWithZeros(z: nat, d: seq<nat>, base: nat)
    ensures Num(Zeros(z) + d, base) == Num(d, base)
    decreases z + |d|
  {
    var s := Zeros(z) + d;
    if d != [] {
      assert s[..|s| - 1] == Zeros(z) + d[..|d| - 1];
      NumWithZeros(z, d[..|d| - 1], base);
    } else if z > 0 {
      assert s[..|s| - 1] == Zeros(z - 1) + d;
      NumWithZeros(z - 1, d, base);
    }
  }

  /** Any digits are their leading zeros and then the digits of their number. */
  lemma ZerosThenRep(d: seq<nat>, base: nat)
    requires base >= 2 && DigitsBelow(d, base)
    ensures d == Zeros(LeadingZeros(d)) + Rep(Num(d, base), base)
  {
    var z := LeadingZeros(d);
    assert d == Zeros(z) + d[z..];
    NumWithZeros(z, d[z..], base);
    RepOfNum(d[z..], base);
  }

  /** Zeros in front of a number's digits are all its leading zeros. */
  lemma LeadingOfZerosThenRep(z: nat, n: nat, base: nat)
    requires base >= 2
    ensures LeadingZeros(Zeros(z) + Rep(n, base)) == z && Num(Zeros(z) + Rep(n, base), base) == n
    ensures DigitsBelow(Zeros(z) + Rep(n, base), base)
  {
    NumOfRep(n, base);
    NumWithZeros(z, Rep(n, base), base);
    LeadingZerosIs(Zeros(z) + Rep(n, base), z);
  }
}
