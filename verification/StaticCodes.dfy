/** The fixed Huffman codes (section 3.2.6 of RFC 1951). */
module StaticCodes {
  import opened Powers
  import opened CanonicalCode
  import opened InflateTableSpec
  import opened InflateTableRoom
  import opened LzSymbols
  import opened Lz
  import opened LzCodeBuffer
  import opened BlockCodec

  function STATIC_LIT(): (s: seq<nat>)
    ensures |s| == 288
    ensures forall i :: 0 <= i < |s| ==> s[i] == StaticSize(i)
  {
    seq(288, i requires 0 <= i < 288 => StaticSize(i))
  }

  function StaticSize(i: nat): nat {
    if i <= 143 then 8 else if i <= 255 then 9 else if i <= 279 then 7 else 8
  }

  function STATIC_DIST(): (s: seq<nat>)
    ensures |s| == 32
    ensures forall i :: 0 <= i < |s| ==> s[i] == 5
  {
    seq(32, _ => 5)
  }

  lemma StaticValid()
    ensures ValidSizes(STATIC_LIT()) && ValidSizes(STATIC_DIST())
  {}

  /** A stretch of equal sizes. */
  lemma {:induction false} CountRun(sizes: seq<nat>, a: nat, b: nat, x: nat, len: nat)
    requires a <= b <= |sizes| && forall i :: a <= i < b ==> sizes[i] == x
    ensures CountTo(sizes, b, len) == CountTo(sizes, a, len) + (if x == len then b - a else 0)
    decreases b
  {
    if a < b { CountRun(sizes, a, b - 1, x, len); }
  }

  lemma StaticCounts(len: nat)
    ensures Count(STATIC_LIT(), len) == if len == 7 then 24 else if len == 8 then 152 else if len == 9 then 112 else 0
    ensures Count(STATIC_DIST(), len) == if len == 5 then 32 else 0
  {
    var s := STATIC_LIT();
    CountRun(s, 0, 144, 8, len);
    CountRun(s, 144, 256, 9, len);
    CountRun(s, 256, 280, 7, len);
    CountRun(s, 280, 288, 8, len);
    CountRun(STATIC_DIST(), 0, 32, 5, len);
  }

  /** From the given length on the running total just doubles. */
  lemma {:induction false} DoublesFrom(sizes: seq<nat>, from: nat, len: nat)
    requires 1 <= from <= len && forall l :: from <= l ==> Count(sizes, l) == 0
    ensures FirstCode(sizes, len) == FirstCode(sizes, from) * Pow2(len - from)
    decreases len
  {
    if from < len {
      DoublesFrom(sizes, from, len - 1);
      assert Pow2(len - from) == 2 * Pow2(len - 1 - from);
      MulAssoc(FirstCode(sizes, from), Pow2(len - 1 - from), 2);
    }
  }

  lemma NoCodesFrom(sizes: seq<nat>, from: nat)
    requires (sizes == STATIC_LIT() && from == 10) || (sizes == STATIC_DIST() && from == 6)
    ensures forall l :: from <= l ==> Count(sizes, l) == 0
  {
    forall l | from <= l
      ensures Count(sizes, l) == 0
    {
      StaticCounts(l);
    }
  }

  lemma StaticLitStart()
    ensures FirstCode(STATIC_LIT(), 10) == 1024
  {
    var s := STATIC_LIT();
    forall l: nat ensures Count(s, l) == if l == 7 then 24 else if l == 8 then 152 else if l == 9 then 112 else 0 { StaticCounts(l); }
    assert FirstCode(s, 3) == 0;
    assert FirstCode(s, 5) == 0;
    assert FirstCode(s, 7) == 0;
    assert FirstCode(s, 8) == 48;
    assert FirstCode(s, 9) == 400;
  }

  lemma StaticDistStart()
    ensures FirstCode(STATIC_DIST(), 6) == 64
  {
    var s := STATIC_DIST();
    forall l: nat ensures Count(s, l) == if l == 5 then 32 else 0 { StaticCounts(l); }
    assert FirstCode(s, 3) == 0;
    assert FirstCode(s, 5) == 0;
  }

  /** Both fixed codes are complete. */
  lemma StaticAcceptable()
    ensures Acceptable(STATIC_LIT()) && Acceptable(STATIC_DIST())
  {
    StaticLitStart();
    StaticDistStart();
    NoCodesFrom(STATIC_LIT(), 10);
    NoCodesFrom(STATIC_DIST(), 6);
    DoublesFrom(STATIC_LIT(), 10, MAX_BITS + 1);
    DoublesFrom(STATIC_DIST(), 6, MAX_BITS + 1);
    assert Pow2(6) == 64 && Pow2(10) == 1024;
  }

  lemma StaticStarts()
    ensures FirstCode(STATIC_LIT(), 7) == 0 && FirstCode(STATIC_LIT(), 8) == 48 && FirstCode(STATIC_LIT(), 9) == 400
    ensures FirstCode(STATIC_DIST(), 5) == 0
  {
    var s, t := STATIC_LIT(), STATIC_DIST();
    forall l: nat ensures Count(s, l) == if l == 7 then 24 else if l == 8 then 152 else if l == 9 then 112 else 0 { StaticCounts(l); }
    forall l: nat ensures Count(t, l) == if l == 5 then 32 else 0 { StaticCounts(l); }
    assert FirstCode(s, 3) == 0 == FirstCode(t, 3);
    assert FirstCode(s, 5) == 0 == FirstCode(t, 5);
    assert FirstCode(s, 7) == 0;
  }

  /** The fixed codes in numbers, as section 3.2.6 of RFC 1951 lists them. */
  lemma StaticCodeInNumbers(n: nat)
    requires n < 288
    ensures STATIC_LIT()[n] == if n <= 143 then 8 else if n <= 255 then 9 else if n <= 279 then 7 else 8
    ensures Code(STATIC_LIT(), n)
      == if n <= 143 then 48 + n else if n <= 255 then 400 + (n - 144) else if n <= 279 then n - 256 else 192 + (n - 280)
  {
    var s := STATIC_LIT();
    var len := s[n];
    StaticStarts();
    var zero: nat := 0;
    CountRun(s, zero, if n < 144 then n else 144, 8, len);
    if n >= 144 { CountRun(s, 144, if n < 256 then n else 256, 9, len); }
    if n >= 256 { CountRun(s, 256, if n < 280 then n else 280, 7, len); }
    if n >= 280 { CountRun(s, 280, n, 8, len); }
  }

  lemma StaticDistInNumbers(n: nat)
    requires n < 32
    ensures STATIC_DIST()[n] == 5 && Code(STATIC_DIST(), n) == n
  {
    StaticStarts();
    var zero: nat := 0;
    CountRun(STATIC_DIST(), zero, n, 5, 5);
  }

  /** They have a code for everything. */
  lemma StaticCodesAll(ops: seq<Op>)
    requires AllRecordable(ops)
    ensures CanCodeAll(STATIC_LIT(), STATIC_DIST(), ops) && Used(STATIC_LIT(), END_OF_BLOCK)
  {
    forall i | 0 <= i < |ops|
      ensures CanCode(STATIC_LIT(), STATIC_DIST(), ops[i])
    {
      match ops[i]
      case Literal(byte) =>
      case Match(l, d) =>
        LenRoundTrip(l - MIN_MATCH_LEN);
        DistRoundTrip(d - 1);
    }
  }
}
