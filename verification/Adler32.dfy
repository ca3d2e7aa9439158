/** mz_adler32 of miniz.c: Adler-32 (sections 2.2 and 9 of RFC 1950) with the reduction put off for up to 5552 bytes. */
module Adler32 {
  import opened Powers

  const MOD := 65521
  const NMAX := 5552

  /** The two sums. */
  datatype Sums = Sums(s1: nat, s2: nat)

  ghost predicate Bytes(s: seq<nat>) {
    forall i :: 0 <= i < |s| ==> s[i] < 256
  }

  /** By definition: both sums are reduced after every byte. */
  ghost function Adler(start: Sums, data: seq<nat>): Sums {
    if data == [] then start
    else
      var before := Adler(start, data[..|data| - 1]);
      var s1 := (before.s1 + data[|data| - 1]) % MOD;
      Sums(s1, (before.s2 + s1) % MOD)
  }

  /** Without any reduction. */
  ghost function Exact(start: Sums, data: seq<nat>): Sums {
    if data == [] then start
    else
      var before := Exact(start, data[..|data| - 1]);
      var s1 := before.s1 + data[|data| - 1];
      Sums(s1, before.s2 + s1)
  }

  ghost function Reduced(s: Sums): Sums {
    Sums(s.s1 % MOD, s.s2 % MOD)
  }

  lemma ReduceStep(s1: nat, s2: nat, b: nat)
    ensures var t1 := (s1 % MOD + b) % MOD;
            t1 == (s1 + b) % MOD && (s2 % MOD + t1) % MOD == (s2 + (s1 + b)) % MOD
  {
    ModAdd(s1, b);
    ModAdd(s2, s1 + b);
    ModAdd((s1 + b), s2 % MOD);
  }

  lemma ModAdd(x: nat, y: nat)
    ensures (x % MOD + y) % MOD == (x + y) % MOD
  {
    var q, r := x / MOD, x % MOD;
    var q', r' := (r + y) / MOD, (r + y) % MOD;
    DivModUnique(x + y, MOD, q + q', r');
  }

  /** Reducing at the end is reducing all along. */
  lemma {:induction false} ReduceLater(start: Sums, data: seq<nat>)
    ensures Reduced(Exact(start, data)) == Adler(Reduced(start), data)
    decreases |data|
  {
    if data != [] {
      var n := |data| - 1;
      ReduceLater(start, data[..n]);
      var before := Exact(start, data[..n]);
      ReduceStep(before.s1, before.s2, data[n]);
    }
  }

  /** Checksumming in pieces. */
  lemma {:induction false} AdlerAppend(start: Sums, a: seq<nat>, b: seq<nat>)
    ensures Adler(start, a + b) == Adler(Adler(start, a), b)
    decreases |b|
  {
    if b == [] {
      assert a + b == a;
    } else {
      var n := |b| - 1;
      AdlerAppend(start, a, b[..n]);
      assert (a + b)[..|a + b| - 1] == a + b[..n];
    }
  }

  lemma AdlerStaysReduced(start: Sums, data: seq<nat>)
    requires start.s1 < MOD && start.s2 < MOD
    ensures Adler(start, data).s1 < MOD && Adler(start, data).s2 < MOD
  {}

  // ---------- No wrap-around ----------

  /** The largest the second sum can get after n bytes. */
  ghost function Largest(n: nat): nat {
    if n == 0 then 0xFFFF else Largest(n - 1) + 0xFFFF + 255 * n
  }

  lemma {:induction false} LargestClosed(n: nat)
    ensures 2 * Largest(n) == 0x1_FFFE * (n + 1) + 255 * (n * (n + 1))
  {
    if n > 0 {
      LargestClosed(n - 1);
      assert n * (n + 1) == (n - 1) * n + 2 * n;
    }
  }

  lemma {:induction false} LargestGrows(a: nat, b: nat)
    requires a <= b
    ensures Largest(a) <= Largest(b)
    decreases b
  {
    if a < b { LargestGrows(a, b - 1); }
  }

  /** 5552 is the largest block for which both sums stay within 32 bits. */
  lemma BlockFits(n: nat)
    requires n <= NMAX
    ensures Largest(n) < 0x1_0000_0000
    ensures Largest(NMAX + 1) >= 0x1_0000_0000
  {
    LargestClosed(NMAX);
    LargestClosed(NMAX + 1);
    LargestGrows(n, NMAX);
  }

  lemma {:induction false} ExactBound(start: Sums, data: seq<nat>)
    requires start.s1 <= 0xFFFF && start.s2 <= 0xFFFF && Bytes(data)
    ensures Exact(start, data).s1 <= 0xFFFF + 255 * |data| && Exact(start, data).s2 <= Largest(|data|)
    decreases |data|
  {
    if data != [] { ExactBound(start, data[..|data| - 1]); }
  }

  // ---------- The method ----------

  /** One byte; neither sum leaves 32 bits. */
  method AddByte(s1: nat, s2: nat, b: nat, ghost start: Sums, ghost data: seq<nat>, ghost i: nat) returns (t1: nat, t2: nat)
    requires start.s1 <= 0xFFFF && start.s2 <= 0xFFFF && Bytes(data) && i < |data| <= NMAX && b == data[i]
    requires Sums(s1, s2) == Exact(start, data[..i])
    ensures Sums(t1, t2) == Exact(start, data[..i + 1]) && t1 < 0x1_0000_0000 && t2 < 0x1_0000_0000
  {
    assert data[..i + 1][..i] == data[..i];
    ExactBound(start, data[..i + 1]);
    BlockFits(i + 1);
    t1 := s1 + b;
    t2 := s2 + t1;
  }

  method AddEight(s1: nat, s2: nat, block: seq<nat>, i: nat, ghost start: Sums) returns (t1: nat, t2: nat)
    requires start.s1 <= 0xFFFF && start.s2 <= 0xFFFF && Bytes(block) && i + 8 <= |block| <= NMAX
    requires Sums(s1, s2) == Exact(start, block[..i])
    ensures Sums(t1, t2) == Exact(start, block[..i + 8])
  {
    t1, t2 := AddByte(s1, s2, block[i], start, block, i);
    t1, t2 := AddByte(t1, t2, block[i + 1], start, block, i + 1);
    t1, t2 := AddByte(t1, t2, block[i + 2], start, block, i + 2);
    t1, t2 := AddByte(t1, t2, block[i + 3], start, block, i + 3);
    t1, t2 := AddByte(t1, t2, block[i + 4], start, block, i + 4);
    t1, t2 := AddByte(t1, t2, block[i + 5], start, block, i + 5);
    t1, t2 := AddByte(t1, t2, block[i + 6], start, block, i + 6);
    t1, t2 := AddByte(t1, t2, block[i + 7], start, block, i + 7);
  }

  /** One block without reduction. */
  method AddBlock(start: Sums, block: seq<nat>) returns (sums: Sums)
    requires start.s1 <= 0xFFFF && start.s2 <= 0xFFFF && Bytes(block) && |block| <= NMAX
    ensures sums == Exact(start, block)
  {
    var s1, s2, i := start.s1, start.s2, 0;
    assert block[..0] == [];
    while i + 7 < |block|
      invariant 0 <= i <= |block| && Sums(s1, s2) == Exact(start, block[..i])
    {
      s1, s2 := AddEight(s1, s2, block, i, start);
      i := i + 8;
    }
    while i < |block|
      invariant 0 <= i <= |block| && Sums(s1, s2) == Exact(start, block[..i])
    {
      s1, s2 := AddByte(s1, s2, block[i], start, block, i);
      i := i + 1;
    }
    assert block[..i] == block;
    sums := Sums(s1, s2);
  }

  ghost function Start(adler: nat): Sums {
    Sums(adler % 0x1_0000, adler / 0x1_0000)
  }

  function Packed(s: Sums): nat {
    s.s2 * 0x1_0000 + s.s1
  }

  // ---------- The definition in numbers ----------

  /** Both sums are taken modulo 65521: the first of the bytes and 1, the second of the first sums. */
  lemma AdlerNext(start: Sums, data: seq<nat>, i: nat, s: Sums)
    requires i < |data| && Adler(start, data[..i]) == s
    ensures var s1 := (s.s1 + data[i]) % 65521; Adler(start, data[..i + 1]) == Sums(s1, (s.s2 + s1) % 65521)
  {
    assert data[..i + 1][..i] == data[..i];
  }

  /** A text and its checksum: "abc" has 0x024D0127. */
  lemma KnownChecksum(data: seq<nat>)
    requires |data| == 3 && data[0] == 97 && data[1] == 98 && data[2] == 99
    ensures Packed(Adler(Start(1), data)) == 0x024D0127
  {
    var one := Start(1);
    assert data[..0] == [] && data[..3] == data && one == Sums(1, 0);
    AdlerNext(one, data, 0, Sums(1, 0));
    AdlerNext(one, data, 1, Sums(98, 98));
    AdlerNext(one, data, 2, Sums(196, 294));
  }

  /** One block, reduced at its end. */
  method ReduceBlock(s: Sums, ghost start: Sums, data: seq<nat>, p: nat, n: nat) returns (s': Sums)
    requires s.s1 <= 0xFFFF && s.s2 <= 0xFFFF && Bytes(data) && p + n <= |data| && n <= NMAX
    requires Reduced(s) == Adler(Reduced(start), data[..p])
    ensures s' == Reduced(s') && s'.s1 <= 0xFFFF && s'.s2 <= 0xFFFF
    ensures Reduced(s') == Adler(Reduced(start), data[..p + n])
  {
    var block := data[p..p + n];
    s' := AddBlock(s, block);
    NextBlock(start, s, data, p, n);
    ReducedTwice(s');
    s' := Sums(s'.s1 % MOD, s'.s2 % MOD);
  }

  lemma ReducedTwice(s: Sums)
    ensures Reduced(Reduced(s)) == Reduced(s) && Reduced(s).s1 <= 0xFFFF && Reduced(s).s2 <= 0xFFFF
  {}

  /** Main result: for every 32-bit starting value, the checksum by definition; an empty buffer changes nothing
      and a null pointer gives the initial value. */
  method Adler32(adler: nat, isNull: bool, data: seq<nat>) returns (result: nat)
    requires adler < 0x1_0000_0000 && Bytes(data)
    ensures isNull ==> result == 1
    ensures !isNull && data == [] ==> result == adler
    ensures !isNull && data != [] ==> result == Packed(Adler(Reduced(Start(adler)), data))
  {
    var s := Sums(adler % 0x1_0000, adler / 0x1_0000);
    if isNull { return 1; }
    var p, blockLen := 0, |data| % NMAX;
    ghost var start := s;
    assert data[..0] == [];
    while p < |data|
      invariant 0 <= p <= |data| && (|data| - p) % NMAX == blockLen % NMAX && (p == 0 || blockLen == NMAX) && blockLen <= NMAX
      invariant s.s1 <= 0xFFFF && s.s2 <= 0xFFFF && Reduced(s) == Adler(Reduced(start), data[..p])
      invariant s == Reduced(s) || (p == 0 && s == start)
      invariant data == [] ==> s == start
      decreases |data| - p, NMAX - blockLen
    {
      BlockInside(|data| - p, blockLen);
      s := ReduceBlock(s, start, data, p, blockLen);
      BlockTaken(|data| - p, blockLen);
      p, blockLen := p + blockLen, NMAX;
    }
    assert data[..p] == data;
    result := s.s2 * 0x1_0000 + s.s1;
  }

  lemma BlockInside(left: nat, blockLen: nat)
    requires left > 0 && left % NMAX == blockLen % NMAX && blockLen <= NMAX
    ensures blockLen <= left
  {}

  lemma BlockTaken(left: nat, blockLen: nat)
    requires blockLen <= left && left % NMAX == blockLen % NMAX
    ensures (left - blockLen) % NMAX == NMAX % NMAX
  {}

  lemma NextBlock(start: Sums, s: Sums, data: seq<nat>, p: nat, n: nat)
    requires p + n <= |data| && Reduced(s) == Adler(Reduced(start), data[..p])
    ensures Reduced(Exact(s, data[p..p + n])) == Adler(Reduced(start), data[..p + n])
  {
    ReduceLater(s, data[p..p + n]);
    AdlerAppend(Reduced(start), data[..p], data[p..p + n]);
    assert data[..p + n] == data[..p] + data[p..p + n];
  }

  /** Any chunking: a checksum continued over a second buffer is that of both, if the sums it starts from are reduced. */
  lemma Chunking(adler: nat, a: seq<nat>, b: seq<nat>, middle: Sums)
    requires Start(adler) == Reduced(Start(adler)) && middle == Adler(Start(adler), a)
    ensures Start(Packed(middle)) == middle == Reduced(middle)
    ensures Adler(Reduced(Start(Packed(middle))), b) == Adler(Start(adler), a + b)
  {
    AdlerStaysReduced(Start(adler), a);
    AdlerAppend(Start(adler), a, b);
  }
}
