/** Canonical Huffman codes (section 3.2.2 of RFC 1951) as both halves of miniz.c assign them:
    codes of one length are consecutive in symbol order, and are stored bit-reversed. */
module CanonicalCode {
  import opened Powers
  import opened BitFields

  const MAX_BITS := 15
  const CODE_SPACE := 0x1_0000 // 2^16: what the inflater's running total must reach

  /** How many of the first k symbols have code size `len`. */
  ghost function CountTo(sizes: seq<nat>, k: nat, len: nat): nat
    requires k <= |sizes|
  {
    if k == 0 then 0 else CountTo(sizes, k - 1, len) + (if sizes[k - 1] == len then 1 else 0)
  }

  ghost function Count(sizes: seq<nat>, len: nat): nat {
    CountTo(sizes, |sizes|, len)
  }

  /** The first code of length len. */
  ghost function FirstCode(sizes: seq<nat>, len: nat): nat {
    if len <= 1 then 0 else 2 * (FirstCode(sizes, len - 1) + Count(sizes, len - 1))
  }

  /** The code of symbol s, most significant bit first. */
  ghost function Code(sizes: seq<nat>, s: nat): nat
    requires s < |sizes|
  {
    FirstCode(sizes, sizes[s]) + CountTo(sizes, s, sizes[s])
  }

  /** The len low bits of code in reverse order. */
  ghost function Reversed(code: nat, len: nat): (r: nat)
    ensures r < Pow2(len)
    decreases len
  {
    if len == 0 then 0 else (if code % 2 == 1 then Pow2(len - 1) else 0) + Reversed(code / 2, len - 1)
  }

  /** What is emitted for symbol s: its code bits, first bit lowest. */
  ghost function Bits(sizes: seq<nat>, s: nat): nat
    requires s < |sizes|
  {
    Reversed(Code(sizes, s), sizes[s])
  }

  ghost predicate ValidSizes(sizes: seq<nat>) {
    forall s :: 0 <= s < |sizes| ==> sizes[s] <= MAX_BITS
  }

  /** The codes do not overlap: their Kraft sum is at most one. */
  ghost predicate Decodable(sizes: seq<nat>) {
    ValidSizes(sizes) && FirstCode(sizes, MAX_BITS + 1) <= CODE_SPACE
  }

  lemma {:induction false} CountToMonotone(sizes: seq<nat>, a: nat, b: nat, len: nat)
    requires a <= b <= |sizes|
    ensures CountTo(sizes, a, len) <= CountTo(sizes, b, len)
    decreases b
  {
    if a < b { CountToMonotone(sizes, a, b - 1, len); }
  }

  /** Codes of length len end below 2^len, and stay clear of all longer codes. */
  lemma {:induction false} CodeSpace(sizes: seq<nat>, len: nat, longer: nat)
    requires 1 <= len <= longer
    ensures (FirstCode(sizes, len) + Count(sizes, len)) * Pow2(longer - len) <= FirstCode(sizes, longer) + Count(sizes, longer)
    ensures len < longer ==> (FirstCode(sizes, len) + Count(sizes, len)) * Pow2(longer - len) <= FirstCode(sizes, longer)
    decreases longer
  {
    if len < longer {
      CodeSpace(sizes, len, longer - 1);
      var x, p := FirstCode(sizes, len) + Count(sizes, len), Pow2(longer - 1 - len);
      assert Pow2(longer - len) == 2 * p;
      MulAssoc(x, p, 2);
    }
  }

  /** If the codes of length 16 start within the code space, every code fits its length. */
  lemma CodeFits(sizes: seq<nat>, len: nat)
    requires Decodable(sizes) && 1 <= len <= MAX_BITS
    ensures FirstCode(sizes, len) + Count(sizes, len) <= Pow2(len)
  {
    CodeSpace(sizes, len, MAX_BITS + 1);
    var k := MAX_BITS + 1 - len;
    Pow2Add(len, k);
    Pow2Values();
    WithinSpace(FirstCode(sizes, len) + Count(sizes, len), Pow2(len), Pow2(k), CODE_SPACE);
  }

  lemma WithinSpace(x: nat, p: nat, q: nat, space: nat)
    requires p * q == space && x * q <= space && q > 0
    ensures x <= p
  {
    MulDist(p, 1, q);
    MulCancelLess(x, p, q);
  }

  lemma CodeInRange(sizes: seq<nat>, s: nat)
    requires s < |sizes|
    ensures FirstCode(sizes, sizes[s]) <= Code(sizes, s) < FirstCode(sizes, sizes[s]) + Count(sizes, sizes[s])
  {
    CountToMonotone(sizes, s + 1, |sizes|, sizes[s]);
  }

  // ---------- Bit reversal ----------

  /** The first d bits read of a reversed code are the top d bits of the code. */
  lemma {:induction false} ReversedPrefix(code: nat, len: nat, d: nat)
    requires d <= len
    ensures Low(Reversed(code, len), d) == Reversed(Shr(code, len - d), d)
    decreases len
  {
    if d == len {
      LowOfSmall(Reversed(code, len), len);
    } else {
      ReversedPrefix(code / 2, len - 1, d);
      LowIgnoresHigh(Reversed(code / 2, len - 1), len - 1, d);
    }
  }

  lemma {:induction false} ReversedInjective(a: nat, b: nat, len: nat)
    requires a < Pow2(len) && b < Pow2(len) && Reversed(a, len) == Reversed(b, len)
    ensures a == b
    decreases len
  {
    if len > 0 {
      ReversedInjective(a / 2, b / 2, len - 1);
    }
  }

  // ---------- Prefix freedom ----------

  lemma CodeBelow(sizes: seq<nat>, s: nat)
    requires Decodable(sizes) && s < |sizes| && 1 <= sizes[s]
    ensures Code(sizes, s) < Pow2(sizes[s])
  {
    CodeInRange(sizes, s);
    CodeFits(sizes, sizes[s]);
  }

  /** The top bits of a code are never a shorter code, nor another code of the same length. */
  lemma TopBitsDiffer(sizes: seq<nat>, s: nat, t: nat)
    requires s < |sizes| && t < |sizes| && s != t && 1 <= sizes[t] <= sizes[s]
    ensures Shr(Code(sizes, s), sizes[s] - sizes[t]) != Code(sizes, t)
  {
    CodeInRange(sizes, s);
    CodeInRange(sizes, t);
    if sizes[s] == sizes[t] {
      SameLengthDiffer(sizes, s, t);
    } else {
      CodeSpace(sizes, sizes[t], sizes[s]);
      ShrAtLeast(Code(sizes, s), FirstCode(sizes, sizes[t]) + Count(sizes, sizes[t]), sizes[s] - sizes[t]);
    }
  }

  /** Main result: no code is a prefix of another, so at most one symbol's bits start any bit buffer. */
  lemma PrefixFree(sizes: seq<nat>, s: nat, t: nat)
    requires Decodable(sizes) && s < |sizes| && t < |sizes| && s != t
    requires 1 <= sizes[t] <= sizes[s]
    ensures Low(Bits(sizes, s), sizes[t]) != Bits(sizes, t)
  {
    var lt, code := sizes[t], Code(sizes, t);
    var top := FirstBitsOf(sizes, s, lt);
    CodeBelow(sizes, t);
    TopBitsDiffer(sizes, s, t);
    if Reversed(top, lt) == Reversed(code, lt) { ReversedInjective(top, code, lt); }
  }

  /** The first n bits of a code are its top bits. */
  lemma FirstBitsOf(sizes: seq<nat>, s: nat, n: nat) returns (top: nat)
    requires Decodable(sizes) && s < |sizes| && 1 <= n <= sizes[s]
    ensures top == Shr(Code(sizes, s), sizes[s] - n) < Pow2(n) && Low(Bits(sizes, s), n) == Reversed(top, n)
  {
    var code, d: nat := Code(sizes, s), sizes[s] - n;
    top := Shr(code, d);
    ReversedPrefix(code, sizes[s], n);
    CodeBelow(sizes, s);
    assert sizes[s] == d + n;
    ShrBelow(code, d, n);
  }

  lemma SameLengthDiffer(sizes: seq<nat>, s: nat, t: nat)
    requires s < |sizes| && t < |sizes| && s != t && sizes[s] == sizes[t]
    ensures Code(sizes, s) != Code(sizes, t)
  {
    if s < t {
      CountToMonotone(sizes, s + 1, t, sizes[s]);
    } else {
      CountToMonotone(sizes, t + 1, s, sizes[s]);
    }
  }

  // ---------- Exhaustiveness ----------

  /** The i-th symbol of length len. */
  lemma {:induction false} SymbolOfLength(sizes: seq<nat>, k: nat, len: nat, i: nat) returns (s: nat)
    requires k <= |sizes| && i < CountTo(sizes, k, len)
    ensures s < k && sizes[s] == len && CountTo(sizes, s, len) == i
    decreases k
  {
    if i < CountTo(sizes, k - 1, len) { s := SymbolOfLength(sizes, k - 1, len, i); } else { s := k - 1; }
  }

  /** Read with the first bit highest, x is past all codes shorter than len; some code is met at len or later. */
  lemma {:induction false} CodeFrom(sizes: seq<nat>, x: nat, len: nat) returns (s: nat)
    requires ValidSizes(sizes) && FirstCode(sizes, MAX_BITS + 1) == CODE_SPACE
    requires 1 <= len <= MAX_BITS + 1 && FirstCode(sizes, len) <= Reversed(x, len)
    ensures s < |sizes| && len <= sizes[s] && Low(x, sizes[s]) == Bits(sizes, s)
    decreases MAX_BITS + 1 - len
  {
    var v := Reversed(x, len);
    if len == MAX_BITS + 1 {
      Pow2Values();
      assert false;
    } else if v < FirstCode(sizes, len) + Count(sizes, len) {
      s := SymbolOfLength(sizes, |sizes|, len, v - FirstCode(sizes, len));
      ReversedTwice(x, len);
    } else {
      ReversedStep(x, len);
      s := CodeFrom(sizes, x, len + 1);
    }
  }

  /** Main result: if the code is complete, any bits whatever start with the code of some symbol. */
  lemma CompleteIsExhaustive(sizes: seq<nat>, x: nat) returns (s: nat)
    requires ValidSizes(sizes) && FirstCode(sizes, MAX_BITS + 1) == CODE_SPACE
    ensures s < |sizes| && sizes[s] > 0 && Low(x, sizes[s]) == Bits(sizes, s)
  {
    var one: nat := 1;
    s := CodeFrom(sizes, x, one);
  }

  // ---------- Assigning the codes ----------

  /** One more bit of the code becomes one more low bit of the reversed code. */
  lemma {:induction false} ReversedStep(code: nat, n: nat)
    ensures Reversed(code, n + 1) == 2 * Reversed(code, n) + Shr(code, n) % 2
    decreases n
  {
    if n > 0 { ReversedStep(code / 2, n - 1); }
  }

  lemma {:induction false} ReversedTwice(x: nat, n: nat)
    ensures Reversed(Reversed(x, n), n) == Low(x, n)
    decreases n
  {
    if n > 0 {
      ReversedStep(x, n - 1);
      ReversedTwice(x, n - 1);
      LowStep(x, n - 1);
    }
  }

  method ReverseBits(code: nat, len: nat) returns (rev: nat)
    ensures rev == Reversed(code, len)
  {
    rev := 0;
    var cur, l := code, len;
    while l > 0
      invariant 0 <= l <= len && cur == Shr(code, len - l) && rev == Reversed(code, len - l)
    {
      ReversedStep(code, len - l);
      LowStep(code, len - l);
      rev, cur, l := 2 * rev + cur % 2, cur / 2, l - 1;
    }
  }

  /** The codes that the next symbols of each length up to `limit` get, after the symbols below n. */
  ghost predicate NextCodes(sizes: seq<nat>, n: nat, nextCode: seq<int>, limit: nat) {
    n <= |sizes| && |nextCode| > limit
    && forall len :: 1 <= len <= limit ==> nextCode[len] == FirstCode(sizes, len) + CountTo(sizes, n, len)
  }

  lemma NextCodesStep(sizes: seq<nat>, n: nat, nextCode: seq<int>, limit: nat)
    requires NextCodes(sizes, n, nextCode, limit) && n < |sizes| && sizes[n] <= limit
    ensures NextCodes(sizes, n + 1, nextCode[sizes[n] := nextCode[sizes[n]] + 1], limit)
  {
    var next' := nextCode[sizes[n] := nextCode[sizes[n]] + 1];
    var n' := n + 1;
    forall len | 1 <= len <= limit
      ensures next'[len] == FirstCode(sizes, len) + CountTo(sizes, n', len)
    {}
  }

  lemma NextCodesSkip(sizes: seq<nat>, n: nat, nextCode: seq<int>, limit: nat)
    requires NextCodes(sizes, n, nextCode, limit) && n < |sizes| && sizes[n] == 0
    ensures NextCodes(sizes, n + 1, nextCode, limit)
  {
    var n' := n + 1;
    forall len | 1 <= len <= limit
      ensures nextCode[len] == FirstCode(sizes, len) + CountTo(sizes, n', len)
    {}
  }
}
