/** The lossy 64-bit key of a string (stringToName.cpp), which the award contract uses for its tables. */
module Names {
  import opened Powers
  import opened BitFields

  /** char_to_symbol: five bits for a to z and 1 to 5, zero for everything else. */
  function Symbol(c: char): (n: nat)
    ensures n < 32
  {
    if 'a' <= c <= 'z' then (c - 'a') as nat + 6
    else if '1' <= c <= '5' then (c - '1') as nat + 1
    else 0
  }

  function At(s: string, i: nat): char {
    if i < |s| then s[i] else '\0'
  }

  /** No terminator among the first i characters. */
  predicate Alive(s: string, i: nat)
    decreases i, s
  {
    i == 0 || (Alive(s, i - 1) && At(s, i - 1) != '\0')
  }

  /** The symbol at position i, zero from the terminator on. */
  function SymbolAt(s: string, i: nat): (n: nat)
    ensures n < 32
  {
    if Alive(s, i) then Symbol(At(s, i)) else 0
  }

  /** The first n symbols as one number. */
  function Packed(s: string, n: nat): nat
    decreases n, s
  {
    if n == 0 then 0 else Packed(s, n - 1) * 32 + SymbolAt(s, n - 1)
  }

  /** Twelve symbols of five bits, then four bits of the thirteenth. */
  function Key(s: string): nat {
    Packed(s, 12) * 16 + SymbolAt(s, 12) % 16
  }

  lemma {:induction false} AliveTo(s: string, n: nat)
    requires n <= |s| && forall i :: 0 <= i < |s| ==> s[i] != '\0'
    ensures Alive(s, n)
    decreases n
  {
    if n > 0 { AliveTo(s, n - 1); }
  }

  lemma SymbolIs(s: string, i: nat)
    requires forall i :: 0 <= i < |s| ==> s[i] != '\0'
    ensures SymbolAt(s, i) == if i < |s| then Symbol(s[i]) else 0
  {
    if i < |s| { AliveTo(s, i); } else if i > |s| { DeadStays(s, |s|, i); }
  }

  lemma PackedNext(s: string, i: nat, packed: nat, symbol: nat)
    requires (forall i :: 0 <= i < |s| ==> s[i] != '\0') && Packed(s, i) == packed && symbol == if i < |s| then Symbol(s[i]) else 0
    ensures Packed(s, i + 1) == packed * 32 + symbol
  {
    SymbolIs(s, i);
  }

  /** The symbols in numbers. */
  lemma SymbolValues()
    ensures Symbol('a') == 6 && Symbol('z') == 31 && forall c :: 'a' <= c < 'z' ==> Symbol(c + 1 as char) == Symbol(c) + 1
    ensures Symbol('1') == 1 && Symbol('2') == 2 && Symbol('3') == 3 && Symbol('4') == 4 && Symbol('5') == 5
    ensures forall c :: c < '1' || '5' < c < 'a' || 'z' < c ==> Symbol(c) == 0
  {}

  /** The key of a name in full. */
  lemma KeyOfEosio(s: string)
    requires s == "eosio"
    ensures Key(s) == 6138663577826885632
  {
    PackedNext(s, 0, 0, 10);
    PackedNext(s, 1, 10, 20);
    PackedNext(s, 2, 340, 24);
    PackedNext(s, 3, 10904, 14);
    PackedNext(s, 4, 348942, 20);
    PackedNext(s, 5, 11166164, 0);
    PackedNext(s, 6, 357317248, 0);
    PackedNext(s, 7, 11434151936, 0);
    PackedNext(s, 8, 365892861952, 0);
    PackedNext(s, 9, 11708571582464, 0);
    PackedNext(s, 10, 374674290638848, 0);
    PackedNext(s, 11, 11989577300443136, 0);
    SymbolIs(s, 12);
  }

  lemma {:induction false} PackedBound(s: string, n: nat)
    ensures Packed(s, n) < Pow2(5 * n)
    decreases n
  {
    if n > 0 {
      PackedBound(s, n - 1);
      FiveMore(5 * (n - 1));
    }
  }

  lemma FiveMore(n: nat)
    ensures Pow2(n + 5) == 32 * Pow2(n)
  {
    assert Pow2(n + 1) == 2 * Pow2(n) && Pow2(n + 2) == 2 * Pow2(n + 1) && Pow2(n + 3) == 2 * Pow2(n + 2);
    assert Pow2(n + 4) == 2 * Pow2(n + 3);
  }

  lemma SameLast(a: nat, b: nat, x: nat, y: nat)
    requires x < 32 && y < 32
    ensures a * 32 + x == b * 32 + y <==> a == b && x == y
  {}

  lemma {:induction false} SamePacked(s: string, t: string, n: nat)
    ensures Packed(s, n) == Packed(t, n) <==> forall i :: 0 <= i < n ==> SymbolAt(s, i) == SymbolAt(t, i)
    decreases n
  {
    if n > 0 {
      SamePacked(s, t, n - 1);
      SameLast(Packed(s, n - 1), Packed(t, n - 1), SymbolAt(s, n - 1), SymbolAt(t, n - 1));
    }
  }

  /** Two strings collide exactly when their first twelve symbols agree, and the thirteenth in its low four bits. */
  lemma SameKeyIff(s: string, t: string)
    ensures Key(s) == Key(t)
      <==> (forall i :: 0 <= i < 12 ==> SymbolAt(s, i) == SymbolAt(t, i)) && SymbolAt(s, 12) % 16 == SymbolAt(t, 12) % 16
  {
    var n: nat := 12;
    SamePacked(s, t, n);
    SameNibble(Packed(s, n), Packed(t, n), SymbolAt(s, n) % 16, SymbolAt(t, n) % 16);
  }

  lemma SameNibble(a: nat, b: nat, x: nat, y: nat)
    requires x < 16 && y < 16
    ensures a * 16 + x == b * 16 + y <==> a == b && x == y
  {}

  lemma KeyBound(s: string)
    ensures Key(s) < 0x1_0000_0000_0000_0000
  {
    var n: nat := 12;
    PackedBound(s, n);
    Pow2Values();
    Pow2Add(5 * n, 4);
  }

  /** Position 64 - 5 * i: what is above it has been filled, the next symbol goes right below. */
  lemma NextField(s: string, i: nat, name: nat)
    requires i < 12 && name == Packed(s, i) * Pow2(64 - 5 * i)
    ensures Or(name, SymbolAt(s, i) % 32 * Pow2(64 - 5 * (i + 1))) == Packed(s, i + 1) * Pow2(64 - 5 * (i + 1))
  {
    var d: nat := 64 - 5 * (i + 1);
    FiveMore(d);
    AppendField(Packed(s, i), SymbolAt(s, i), d, name);
  }

  lemma AppendField(a: nat, x: nat, d: nat, name: nat)
    requires x < 32 && name == a * (32 * Pow2(d))
    ensures Or(name, x * Pow2(d)) == (a * 32 + x) * Pow2(d)
  {
    var p := Pow2(d);
    MulAssoc(a, 32, p);
    OrLowFive(a, x);
    var b := a * 32;
    OrConcat(b, 0, x, 0, d, name, x * p, (b + x) * p);
  }

  lemma OrLowFive(a: nat, x: nat)
    requires x < 32
    ensures Or(a * 32, x) == a * 32 + x
  {
    Pow2Values();
    assert Pow2(1) == 2;
    Pow2Add(4, 1);
    var five: nat := 5;
    OrConcat(a, 0, 0, x, five, a * 32, x, a * 32);
  }

  lemma {:induction false} DeadFromHere(s: string, i: nat, n: nat)
    requires i <= n && At(s, i) == '\0' && Alive(s, i)
    ensures Packed(s, n) == Packed(s, i) * Pow2(5 * (n - i)) && SymbolAt(s, n) == 0
    decreases n
  {
    if n == i {
      assert Pow2(0) == 1;
    } else {
      DeadFromHere(s, i, n - 1);
      DeadStays(s, i, n);
      var m: nat := 5 * (n - 1 - i);
      var a, p, q := Packed(s, i), Pow2(m), Pow2(5 * (n - i));
      assert q == 32 * p by { FiveMore(m); }
      assert Packed(s, n) == a * p * 32;
      ThirtyTwo(a, p, q);
    }
  }

  lemma ThirtyTwo(a: nat, p: nat, q: nat)
    requires q == 32 * p
    ensures a * p * 32 == a * q
  {
    MulAssoc(a, p, 32);
  }

  lemma {:induction false} DeadStays(s: string, i: nat, n: nat)
    requires i < n && At(s, i) == '\0'
    ensures !Alive(s, n)
    decreases n
  {
    if i < n - 1 { DeadStays(s, i, n - 1); }
  }

  /** string_to_name, or-ing field after field into a 64-bit word. */
  method StringToName(str: string) returns (name: nat)
    ensures name == Key(str) && name < 0x1_0000_0000_0000_0000
  {
    KeyBound(str);
    name := 0;
    var i: nat := 0;
    while At(str, i) != '\0' && i < 12
      invariant i <= 12 && Alive(str, i) && name == Packed(str, i) * Pow2(64 - 5 * i)
      decreases 12 - i
    {
      NextField(str, i, name);
      name := Or(name, Symbol(At(str, i)) % 32 * Pow2(64 - 5 * (i + 1)));
      i := i + 1;
    }
    if i == 12 {
      LastField(Packed(str, i), Symbol(At(str, i)));
      name := Or(name, Symbol(At(str, i)) % 16);
    } else {
      EndedEarly(str, i);
    }
  }

  lemma LastField(a: nat, x: nat)
    ensures Pow2(4) == 16 && Or(a * Pow2(4), x % 16) == a * 16 + x % 16
  {
    Pow2Values();
    var four: nat := 4;
    OrConcat(a, 0, 0, x % 16, four, a * 16, x % 16, a * 16);
  }

  lemma EndedEarly(s: string, i: nat)
    requires i < 12 && Alive(s, i) && At(s, i) == '\0'
    ensures Packed(s, i) * Pow2(64 - 5 * i) == Key(s)
  {
    var n: nat := 12;
    DeadFromHere(s, i, n);
    Pow2Values();
    Pow2Add(5 * (n - i), 4);
    MulAssoc(Packed(s, i), Pow2(5 * (n - i)), 16);
  }
}
