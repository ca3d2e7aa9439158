/** CRC-32C: the slicing-by-8 form of crc.cpp against the definition one bit at a time. */
module Crc32c {
  import opened XorLinear

  const POLY: bv32 := 0x82f63b78 // 0x1EDC6F41 reversed

  function Xor(a: bv32, b: bv32): bv32 {
    a ^ b
  }

  /** One bit of the division. */
  function Step(c: bv32): bv32 {
    (c >> 1) ^ (if c & 1 == 1 then POLY else 0)
  }

  /** Eight bits of the division. */
  function ByteStep(): bv32 -> bv32 {
    Twice(Twice(Twice(Step)))
  }

  // ---------- Linearity ----------

  lemma ShiftXor(a: bv32, b: bv32)
    ensures (a ^ b) >> 1 == (a >> 1) ^ (b >> 1)
  {}

  lemma LowBit(a: bv32, b: bv32)
    ensures a & 1 == 0 || a & 1 == 1
    ensures (a ^ b) & 1 == (a & 1) ^ (b & 1)
  {}

  lemma Shuffle(a: bv32, b: bv32, p: bv32, q: bv32)
    ensures (a ^ b) ^ (p ^ q) == (a ^ p) ^ (b ^ q)
  {}

  lemma StepXor(a: bv32, b: bv32)
    ensures Step(a ^ b) == Step(a) ^ Step(b)
  {
    ShiftXor(a, b);
    LowBit(a, b);
    LowBit(b, a);
    Shuffle(a >> 1, b >> 1, if a & 1 == 1 then POLY else 0, if b & 1 == 1 then POLY else 0);
  }

  lemma StepIsLinear()
    ensures Linear(Step, Xor)
  {
    forall a, b
      ensures LinearAt(Step, Xor, a, b)
    {
      StepXor(a, b);
    }
  }

  lemma ByteStepIsLinear()
    ensures Linear(ByteStep(), Xor)
  {
    StepIsLinear();
    TwiceIsLinear(Step, Xor);
    TwiceIsLinear(Twice(Step), Xor);
    TwiceIsLinear(Twice(Twice(Step)), Xor);
  }

  lemma ByteStepIsEight(c: bv32)
    ensures ByteStep()(c) == Step(Step(Step(Step(Step(Step(Step(Step(c))))))))
  {
    var f2, f4 := Twice(Step), Twice(Twice(Step));
    assert f2(c) == Step(Step(c)) && f2(f2(c)) == Step(Step(Step(Step(c))));
    var d := f4(c);
    assert f4(d) == f2(f2(d));
  }

  lemma EightSteps(a: bv32)
    requires a < 0x100_0000
    ensures Step(Step(Step(Step(Step(Step(Step(Step(a << 8)))))))) == a
  {}

  /** A zero byte at the bottom is shifted out. */
  lemma ByteStepShifts(a: bv32)
    requires a < 0x100_0000
    ensures ByteStep()(a << 8) == a
  {
    ByteStepIsEight(a << 8);
    EightSteps(a);
  }

  // ---------- Bytes and words ----------

  /** The CRC of a buffer, byte by byte. */
  ghost function Crc(crc: bv32, bytes: seq<bv8>): bv32 {
    if bytes == [] then crc else ByteStep()(Xor(Crc(crc, bytes[..|bytes| - 1]), bytes[|bytes| - 1] as bv32))
  }

  lemma StepsShift(k: nat, a: bv32)
    requires k > 0 && a < 0x100_0000
    ensures Steps(ByteStep(), k, a << 8) == Steps(ByteStep(), k - 1, a)
  {
    ByteStepShifts(a);
  }

  /** A byte further up has to go through fewer steps. */
  lemma StepsShift2(k: nat, a: bv32)
    requires k > 1 && a < 0x100
    ensures Steps(ByteStep(), k, a << 16) == Steps(ByteStep(), k - 2, a)
  {
    StepsShift(k, a << 8);
    assert (a << 8) << 8 == a << 16;
    StepsShift(k - 1, a);
  }

  lemma StepsShift3(k: nat, a: bv32)
    requires k > 2 && a < 0x100
    ensures Steps(ByteStep(), k, a << 24) == Steps(ByteStep(), k - 3, a)
  {
    StepsShift(k, a << 16);
    assert (a << 16) << 8 == a << 24;
    StepsShift2(k - 1, a);
  }

  /** The steps of a word are those of its four bytes. */
  lemma StepsOfWord(k: nat, x: bv32, x0: bv32, x1: bv32, x2: bv32, x3: bv32)
    requires k >= 4 && x0 == x & 0xFF && x1 == (x >> 8) & 0xFF && x2 == (x >> 16) & 0xFF && x3 == (x >> 24) & 0xFF
    ensures Steps(ByteStep(), k, x) == Xor(Xor(Steps(ByteStep(), k, x0), Steps(ByteStep(), k - 1, x1)),
                                           Xor(Steps(ByteStep(), k - 2, x2), Steps(ByteStep(), k - 3, x3)))
  {
    var f := ByteStep();
    ByteStepIsLinear();
    StepsShift(k, x1);
    StepsShift2(k, x2);
    StepsShift3(k, x3);
    StepsFour(f, Xor, k, x0, x1 << 8, x2 << 16, x3 << 24, Steps(f, k, x0), Steps(f, k - 1, x1), Steps(f, k - 2, x2), Steps(f, k - 3, x3));
    WordOfBytes(x, x0, x1, x2, x3);
  }

  lemma WordOfBytes(x: bv32, x0: bv32, x1: bv32, x2: bv32, x3: bv32)
    requires x0 == x & 0xFF && x1 == (x >> 8) & 0xFF && x2 == (x >> 16) & 0xFF && x3 == (x >> 24) & 0xFF
    ensures Xor(Xor(x0, x1 << 8), Xor(x2 << 16, x3 << 24)) == x
  {}

  lemma CrcNext(crc: bv32, s: seq<bv8>, i: nat)
    requires i < |s|
    ensures Crc(crc, s[..i + 1]) == ByteStep()(Xor(Crc(crc, s[..i]), s[i] as bv32))
  {
    assert s[..i + 1][..i] == s[..i];
  }

  /** A little-endian word. */
  function Word(b0: bv8, b1: bv8, b2: bv8, b3: bv8): bv32 {
    (b0 as bv32) | ((b1 as bv32) << 8) | ((b2 as bv32) << 16) | ((b3 as bv32) << 24)
  }

  lemma XorOr(c: bv32, p: bv8, q: bv8, r: bv8, s: bv8)
    ensures (((c ^ (p as bv32)) ^ ((q as bv32) << 8)) ^ ((r as bv32) << 16)) ^ ((s as bv32) << 24)
         == c ^ ((p as bv32) | ((q as bv32) << 8) | ((r as bv32) << 16) | ((s as bv32) << 24))
  {}

  lemma XorChain(x0: bv32, q: bv32, r: bv32, s: bv32, x1: bv32, x2: bv32, x3: bv32)
    requires x1 == Xor(x0, q) && x2 == Xor(x1, r) && x3 == Xor(x2, s)
    ensures x3 == ((x0 ^ q) ^ r) ^ s
  {}

  /** Adding the bytes of a word one by one, each in its place, is adding the word. */
  lemma WordChain(c: bv32, b0: bv8, b1: bv8, b2: bv8, b3: bv8, x0: bv32, x1: bv32, x2: bv32, x3: bv32)
    requires x0 == Xor(c, b0 as bv32) && x1 == Xor(x0, (b1 as bv32) << 8)
    requires x2 == Xor(x1, (b2 as bv32) << 16) && x3 == Xor(x2, (b3 as bv32) << 24)
    ensures x3 == Xor(c, Word(b0, b1, b2, b3))
  {
    XorOr(c, b0, b1, b2, b3);
    XorChain(x0, (b1 as bv32) << 8, (b2 as bv32) << 16, (b3 as bv32) << 24, x1, x2, x3);
  }

  lemma ByteIsSmall(b: bv8)
    ensures (b as bv32) < 0x100
  {}

  /** Four bytes of input are one word of input and four bytes of zeros. */
  lemma FourBytes(c: bv32, b0: bv8, b1: bv8, b2: bv8, b3: bv8)
    ensures var f := ByteStep();
            f(Xor(f(Xor(f(Xor(f(Xor(c, b0 as bv32)), b1 as bv32)), b2 as bv32)), b3 as bv32)) == Steps(f, 4, Xor(c, Word(b0, b1, b2, b3)))
  {
    var p, q, r, s := b0 as bv32, b1 as bv32, b2 as bv32, b3 as bv32;
    var x0 := Xor(c, p);
    var x1 := Xor(x0, q << 8);
    var x2 := Xor(x1, r << 16);
    var x3 := Xor(x2, s << 24);
    ByteIsSmall(b1);
    ByteIsSmall(b2);
    ByteIsSmall(b3);
    AbsorbFour(x0, x1, x2, x3, q, r, s);
    WordChain(c, b0, b1, b2, b3, x0, x1, x2, x3);
  }

  lemma AbsorbFour(x0: bv32, x1: bv32, x2: bv32, x3: bv32, q: bv32, r: bv32, s: bv32)
    requires q < 0x100 && r < 0x100 && s < 0x100
    requires x1 == Xor(x0, q << 8) && x2 == Xor(x1, r << 16) && x3 == Xor(x2, s << 24)
    ensures var f := ByteStep(); f(Xor(f(Xor(f(Xor(f(x0), q)), r)), s)) == Steps(f, 4, x3)
  {
    var f := ByteStep();
    ByteStepIsLinear();
    StepsShift(1, q);
    StepsShift2(2, r);
    StepsShift3(3, s);
    assert f(x0) == Steps(f, 1, x0);
    Absorb(f, Xor, 1, x0, q << 8, q);
    Absorb(f, Xor, 2, x1, r << 16, r);
    Absorb(f, Xor, 3, x2, s << 24, s);
  }

  lemma CrcFour(crc: bv32, s: seq<bv8>, i: nat)
    requires i + 4 <= |s|
    ensures Crc(crc, s[..i + 4]) == Steps(ByteStep(), 4, Xor(Crc(crc, s[..i]), Word(s[i], s[i + 1], s[i + 2], s[i + 3])))
  {
    CrcNext(crc, s, i);
    CrcNext(crc, s, i + 1);
    CrcNext(crc, s, i + 2);
    CrcNext(crc, s, i + 3);
    FourBytes(Crc(crc, s[..i]), s[i], s[i + 1], s[i + 2], s[i + 3]);
  }

  // ---------- The tables ----------

  /** Entry i of table j is what j + 1 byte steps make of i. */
  ghost predicate EntryOk(t: seq<seq<bv32>>, j: nat, i: nat) {
    j < |t| && i < |t[j]| && i < 256 && t[j][i] == Steps(ByteStep(), j + 1, i as bv32)
  }

  ghost predicate Square(t: seq<seq<bv32>>) {
    |t| == 8 && forall j :: 0 <= j < 8 ==> |t[j]| == 256
  }

  ghost predicate Tables(t: seq<seq<bv32>>) {
    Square(t) && forall j: nat, i: nat {:trigger EntryOk(t, j, i)} :: j < 8 && i < 256 ==> EntryOk(t, j, i)
  }

  /** The entry for the byte x. */
  function At(row: seq<bv32>, x: bv32): bv32
    requires |row| == 256 && x < 0x100
  {
    Index(x);
    row[x as nat]
  }

  lemma Index(x: bv32)
    requires x < 0x100
    ensures (x as nat) < 256 && (x as nat) as bv32 == x
  {}

  lemma LookUp(t: seq<seq<bv32>>, j: nat, x: bv32)
    requires Tables(t) && j < 8 && x < 0x100
    ensures At(t[j], x) == Steps(ByteStep(), j + 1, x)
  {
    Index(x);
    assert EntryOk(t, j, x as nat);
  }

  lemma LowByte(x: bv32)
    ensures x & 0xFF < 0x100 && x >> 8 < 0x100_0000 && Xor(x & 0xFF, (x >> 8) << 8) == x
  {}

  lemma ByteStepSplit(x: bv32, lo: bv32, hi: bv32)
    requires x == Xor(lo, hi << 8) && hi < 0x100_0000
    ensures ByteStep()(x) == Xor(Steps(ByteStep(), 1, lo), hi)
  {
    var f := ByteStep();
    ByteStepIsLinear();
    assert LinearAt(f, Xor, lo, hi << 8);
    ByteStepShifts(hi);
    assert Steps(f, 1, lo) == f(lo);
  }

  /** One look-up in the first table is one byte step. */
  lemma OneByte(t: seq<seq<bv32>>, x: bv32)
    requires Tables(t)
    ensures Xor(At(t[0], x & 0xFF), x >> 8) == ByteStep()(x)
  {
    LowByte(x);
    LookUp(t, 0, x & 0xFF);
    ByteStepSplit(x, x & 0xFF, x >> 8);
  }

  lemma ShiftPast(crc: bv32, b: bv8)
    ensures (crc ^ (b as bv32)) >> 8 == crc >> 8
  {}

  lemma MaskIsByte(x: bv32)
    ensures x & 0xFF < 0x100
  {}

  method NextByte(t: seq<seq<bv32>>, crc: bv32, b: bv8) returns (crc': bv32)
    requires Tables(t)
    ensures crc' == ByteStep()(Xor(crc, b as bv32))
  {
    var x := crc ^ (b as bv32);
    OneByte(t, x);
    ShiftPast(crc, b);
    MaskIsByte(x);
    crc' := At(t[0], x & 0xFF) ^ (crc >> 8);
  }

  /** The four table entries of a word, from table j + 3 for its low byte down to table j. */
  function SliceXor(t: seq<seq<bv32>>, j: nat, x: bv32): bv32
    requires Square(t) && j <= 4
  {
    MaskIsByte(x);
    MaskIsByte(x >> 8);
    MaskIsByte(x >> 16);
    MaskIsByte((x >> 16) >> 8);
    Xor(Xor(At(t[j + 3], x & 0xFF), At(t[j + 2], (x >> 8) & 0xFF)),
        Xor(At(t[j + 1], (x >> 16) & 0xFF), At(t[j], ((x >> 16) >> 8) & 0xFF)))
  }

  lemma ShiftTwice(x: bv32)
    ensures (x >> 16) >> 8 == x >> 24
  {}

  lemma SliceIsSteps(t: seq<seq<bv32>>, j: nat, x: bv32)
    requires Tables(t) && j <= 4
    ensures SliceXor(t, j, x) == Steps(ByteStep(), j + 4, x)
  {
    var y1, y2, y3 := x >> 8, x >> 16, (x >> 16) >> 8;
    LookUpMasked(t, j + 3, x);
    LookUpMasked(t, j + 2, y1);
    LookUpMasked(t, j + 1, y2);
    LookUpMasked(t, j, y3);
    ShiftTwice(x);
    StepsOfWord(j + 4, x, x & 0xFF, y1 & 0xFF, y2 & 0xFF, y3 & 0xFF);
  }

  lemma LookUpMasked(t: seq<seq<bv32>>, j: nat, x: bv32)
    requires Tables(t) && j < 8
    ensures x & 0xFF < 0x100 && At(t[j], x & 0xFF) == Steps(ByteStep(), j + 1, x & 0xFF)
  {
    MaskIsByte(x);
    LookUp(t, j, x & 0xFF);
  }

  /** The two words of eight bytes, one table for each byte. */
  lemma EightBytes(t: seq<seq<bv32>>, x: bv32, w: bv32)
    requires Tables(t)
    ensures Xor(SliceXor(t, 4, x), SliceXor(t, 0, w)) == Steps(ByteStep(), 4, Xor(Steps(ByteStep(), 4, x), w))
  {
    var f := ByteStep();
    SliceIsSteps(t, 4, x);
    SliceIsSteps(t, 0, w);
    ByteStepIsLinear();
    StepsXor(f, Xor, 4, Steps(f, 4, x), w);
    StepsAdd(f, 4, 4, x);
  }

  // ---------- The generator of the tables ----------

  lemma MaskedStep(x: bv32)
    ensures (x >> 1) ^ (POLY & (0 - (x & 1))) == Step(x)
  {}

  lemma ByteStepIsSteps(x: bv32)
    ensures Steps(Step, 8, x) == ByteStep()(x)
  {
    ByteStepIsEight(x);
  }

  /** The bits of one byte. */
  method DivideByte(i: bv32) returns (x: bv32)
    ensures x == Steps(ByteStep(), 1, i)
  {
    x := i;
    var j := 0;
    while j < 8
      invariant 0 <= j <= 8 && x == Steps(Step, j, i)
    {
      MaskedStep(x);
      StepsLast(Step, j, i);
      x := (x >> 1) ^ (POLY & (0 - (x & 1)));
      j := j + 1;
    }
    ByteStepIsSteps(i);
    assert Steps(ByteStep(), 1, i) == ByteStep()(i);
  }

  /** The first i columns are right, and the first j rows of column i. */
  ghost predicate FilledTo(t: seq<seq<bv32>>, j: nat, i: nat) {
    Square(t) && forall r: nat, c: nat {:trigger EntryOk(t, r, c)} :: r < 8 && c < 256 && (c < i || (c == i && r < j)) ==> EntryOk(t, r, c)
  }

  lemma FillOne(t: seq<seq<bv32>>, j: nat, i: nat, x: bv32)
    requires FilledTo(t, j, i) && j < 8 && i < 256 && x == Steps(ByteStep(), j + 1, i as bv32)
    ensures FilledTo(t[j := t[j][i := x]], j + 1, i)
  {
    var t' := t[j := t[j][i := x]];
    forall r: nat, c: nat | r < 8 && c < 256 && (c < i || (c == i && r < j + 1))
      ensures EntryOk(t', r, c)
    {
      if r != j || c != i { assert EntryOk(t, r, c); }
    }
  }

  lemma NextColumn(t: seq<seq<bv32>>, i: nat)
    requires FilledTo(t, 8, i)
    ensures FilledTo(t, 0, i + 1)
  {}

  /** The code given with the tables generates them. (There the first table is filled in a loop of its own.) */
  method GenerateTables() returns (t: seq<seq<bv32>>)
    ensures Tables(t)
  {
    t := seq(8, _ => seq(256, _ => 0));
    var first := FirstTable();
    var i := 0;
    while i < 256
      invariant 0 <= i <= 256 && FilledTo(t, 0, i)
    {
      t := GenerateColumn(t, i, first);
      i := i + 1;
    }
  }

  method FirstTable() returns (row: seq<bv32>)
    ensures |row| == 256 && forall i: nat :: i < 256 ==> row[i] == Steps(ByteStep(), 1, i as bv32)
  {
    row := [];
    var i := 0;
    while i < 256
      invariant |row| == i <= 256 && forall k: nat :: k < i ==> row[k] == Steps(ByteStep(), 1, k as bv32)
    {
      var x := DivideByte(i as bv32);
      row := row + [x];
      i := i + 1;
    }
  }

  method GenerateColumn(t0: seq<seq<bv32>>, i: nat, first: seq<bv32>) returns (t: seq<seq<bv32>>)
    requires FilledTo(t0, 0, i) && i < 256 && |first| == 256
    requires forall k: nat :: k < 256 ==> first[k] == Steps(ByteStep(), 1, k as bv32)
    ensures FilledTo(t, 0, i + 1)
  {
    var c := first[i];
    FillOne(t0, 0, i, c);
    t := t0[0 := t0[0][i := c]];
    var j := 1;
    while j < 8
      invariant 1 <= j <= 8 && FilledTo(t, j, i) && c == Steps(ByteStep(), j, i as bv32)
    {
      c := NextSlice(first, c);
      StepsLast(ByteStep(), j, i as bv32);
      FillOne(t, j, i, c);
      t := t[j := t[j][i := c]];
      j := j + 1;
    }
    NextColumn(t, i);
  }

  method NextSlice(first: seq<bv32>, c: bv32) returns (c': bv32)
    requires |first| == 256 && forall k: nat :: k < 256 ==> first[k] == Steps(ByteStep(), 1, k as bv32)
    ensures c' == ByteStep()(c)
  {
    LowByte(c);
    FirstAt(first, c & 0xFF);
    ByteStepSplit(c, c & 0xFF, c >> 8);
    c' := Xor(At(first, c & 0xFF), c >> 8);
  }

  lemma FirstAt(first: seq<bv32>, x: bv32)
    requires |first| == 256 && x < 0x100 && forall k: nat :: k < 256 ==> first[k] == Steps(ByteStep(), 1, k as bv32)
    ensures At(first, x) == Steps(ByteStep(), 1, x)
  {
    Index(x);
    var k := x as nat;
    assert first[k] == Steps(ByteStep(), 1, k as bv32);
  }

  // ---------- Slicing ----------

  /** One round of the main loop. */
  method NextEight(t: seq<seq<bv32>>, crc: bv32, w0: bv32, w1: bv32) returns (crc': bv32)
    requires Tables(t)
    ensures crc' == Steps(ByteStep(), 4, Xor(Steps(ByteStep(), 4, Xor(crc, w0)), w1))
  {
    var x := crc ^ w0;
    EightBytes(t, x, w1);
    crc' := SliceXor(t, 4, x);
    crc' := crc' ^ SliceXor(t, 0, w1);
  }

  method NextEightBytes(t: seq<seq<bv32>>, ghost start: bv32, crc: bv32, data: seq<bv8>, p: nat) returns (crc': bv32)
    requires Tables(t) && p + 8 <= |data| && crc == Crc(start, data[..p])
    ensures crc' == Crc(start, data[..p + 8])
  {
    CrcFour(start, data, p);
    CrcFour(start, data, p + 4);
    var w0, w1 := Word(data[p], data[p + 1], data[p + 2], data[p + 3]), Word(data[p + 4], data[p + 5], data[p + 6], data[p + 7]);
    crc' := NextEight(t, crc, w0, w1);
  }

  /** Main result: for every buffer, alignment and starting value the fast form gives the CRC by definition. */
  method Crc32cSlicingBy8(t: seq<seq<bv32>>, crc: bv32, data: seq<bv8>, address: nat) returns (result: bv32)
    requires Tables(t)
    ensures result == Crc(crc, data)
  {
    result := crc;
    var initialBytes := (4 - address) % 4;
    if |data| < initialBytes { initialBytes := |data|; }
    assert data[..0] == [];
    result := SingleBytes(t, crc, result, data, 0, initialBytes);
    var length := |data| - initialBytes;
    var running := length / 8 * 8;
    var p, li := initialBytes, 0;
    while li < running / 8
      invariant 0 <= li <= running / 8 && p == initialBytes + 8 * li && result == Crc(crc, data[..p])
    {
      result := NextEightBytes(t, crc, result, data, p);
      p, li := p + 8, li + 1;
    }
    result := SingleBytes(t, crc, result, data, p, |data|);
    assert data[..|data|] == data;
  }

  method NextSingle(t: seq<seq<bv32>>, ghost start: bv32, crc: bv32, data: seq<bv8>, p: nat) returns (crc': bv32)
    requires Tables(t) && p < |data| && crc == Crc(start, data[..p])
    ensures crc' == Crc(start, data[..p + 1])
  {
    CrcNext(start, data, p);
    crc' := NextByte(t, crc, data[p]);
  }

  method SingleBytes(t: seq<seq<bv32>>, ghost start: bv32, crc: bv32, data: seq<bv8>, from: nat, to: nat) returns (result: bv32)
    requires Tables(t) && from <= to <= |data| && crc == Crc(start, data[..from])
    ensures result == Crc(start, data[..to])
  {
    result := crc;
    var p := from;
    while p < to
      invariant from <= p <= to && result == Crc(start, data[..p])
    {
      result := NextSingle(t, start, result, data, p);
      p := p + 1;
    }
  }

  // ---------- A check value ----------

  lemma EightFrom(a: bv32, b: bv32, c: bv32, d: bv32, e: bv32, f: bv32, g: bv32, h: bv32, i: bv32)
    requires Step(a) == b && Step(b) == c && Step(c) == d && Step(d) == e
    requires Step(e) == f && Step(f) == g && Step(g) == h && Step(h) == i
    ensures ByteStep()(a) == i
  {
    ByteStepIsEight(a);
  }

  lemma CrcKnown(crc: bv32, bytes: seq<bv8>, n: nat, before: bv32, byte: bv8, x: bv32, after: bv32)
    requires n < |bytes| && bytes[n] == byte && Crc(crc, bytes[..n]) == before
    requires Xor(before, byte as bv32) == x && ByteStep()(x) == after
    ensures Crc(crc, bytes[..n + 1]) == after
  {
    assert bytes[..n + 1][..n] == bytes[..n];
  }

  lemma CheckByte1(bytes: seq<bv8>)
    requires |bytes| >= 1 && bytes[0] == 49 && Crc(0xffffffff, bytes[..0]) == 0xffffffff
    ensures Crc(0xffffffff, bytes[..1]) == 0x6f0a661c
  {
    assert Xor(0xffffffff, 49) == 0xffffffce;
    EightFrom(0xffffffce, 0x7fffffe7, 0xbd09c48b, 0xdc72d93d, 0xeccf57e6, 0x7667abf3, 0xb9c5ee81, 0xde14cc38, 0x6f0a661c);
    CrcKnown(0xffffffff, bytes, 0, 0xffffffff, 49, 0xffffffce, 0x6f0a661c);
  }

  lemma CheckByte2(bytes: seq<bv8>)
    requires |bytes| >= 2 && bytes[1] == 50 && Crc(0xffffffff, bytes[..1]) == 0x6f0a661c
    ensures Crc(0xffffffff, bytes[..2]) == 0x8caa3b9f
  {
    assert Xor(0x6f0a661c, 50) == 0x6f0a662e;
    EightFrom(0x6f0a662e, 0x37853317, 0x9934a2f3, 0xce6c6a01, 0xe5c00e78, 0x72e0073c, 0x3970039e, 0x1cb801cf, 0x8caa3b9f);
    CrcKnown(0xffffffff, bytes, 1, 0x6f0a661c, 50, 0x6f0a662e, 0x8caa3b9f);
  }

  lemma CheckByte3(bytes: seq<bv8>)
    requires |bytes| >= 3 && bytes[2] == 51 && Crc(0xffffffff, bytes[..2]) == 0x8caa3b9f
    ensures Crc(0xffffffff, bytes[..3]) == 0xef84d04d
  {
    assert Xor(0x8caa3b9f, 51) == 0x8caa3bac;
    EightFrom(0x8caa3bac, 0x46551dd6, 0x232a8eeb, 0x93637c0d, 0xcb47857e, 0x65a3c2bf, 0xb027da27, 0xdae5d66b, 0xef84d04d);
    CrcKnown(0xffffffff, bytes, 2, 0x8caa3b9f, 51, 0x8caa3bac, 0xef84d04d);
  }

  lemma CheckByte4(bytes: seq<bv8>)
    requires |bytes| >= 4 && bytes[3] == 52 && Crc(0xffffffff, bytes[..3]) == 0xef84d04d
    ensures Crc(0xffffffff, bytes[..4]) == 0x09c50b11
  {
    assert Xor(0xef84d04d, 52) == 0xef84d079;
    EightFrom(0xef84d079, 0xf5345344, 0x7a9a29a2, 0x3d4d14d1, 0x9c50b110, 0x4e285888, 0x27142c44, 0x138a1622, 0x09c50b11);
    CrcKnown(0xffffffff, bytes, 3, 0xef84d04d, 52, 0xef84d079, 0x09c50b11);
  }

  lemma CheckByte5(bytes: seq<bv8>)
    requires |bytes| >= 5 && bytes[4] == 53 && Crc(0xffffffff, bytes[..4]) == 0x09c50b11
    ensures Crc(0xffffffff, bytes[..5]) == 0xe72edcca
  {
    assert Xor(0x09c50b11, 53) == 0x09c50b24;
    EightFrom(0x09c50b24, 0x04e28592, 0x027142c9, 0x83ce9a1c, 0x41e74d0e, 0x20f3a687, 0x928fe83b, 0xcbb1cf65, 0xe72edcca);
    CrcKnown(0xffffffff, bytes, 4, 0x09c50b11, 53, 0x09c50b24, 0xe72edcca);
  }

  lemma CheckByte6(bytes: seq<bv8>)
    requires |bytes| >= 6 && bytes[5] == 54 && Crc(0xffffffff, bytes[..5]) == 0xe72edcca
    ensures Crc(0xffffffff, bytes[..6]) == 0xbeca8e79
  {
    assert Xor(0xe72edcca, 54) == 0xe72edcfc;
    EightFrom(0xe72edcfc, 0x73976e7e, 0x39cbb73f, 0x9e13e0e7, 0xcdffcb0b, 0xe409defd, 0xf0f2d406, 0x78796a03, 0xbeca8e79);
    CrcKnown(0xffffffff, bytes, 5, 0xe72edcca, 54, 0xe72edcfc, 0xbeca8e79);
  }

  lemma CheckByte7(bytes: seq<bv8>)
    requires |bytes| >= 7 && bytes[6] == 55 && Crc(0xffffffff, bytes[..6]) == 0xbeca8e79
    ensures Crc(0xffffffff, bytes[..7]) == 0xedbd6815
  {
    assert Xor(0xbeca8e79, 55) == 0xbeca8e4e;
    EightFrom(0xbeca8e4e, 0x5f654727, 0xad4498eb, 0xd454770d, 0xe8dc00fe, 0x746e007f, 0xb8c13b47, 0xde96a6db, 0xedbd6815);
    CrcKnown(0xffffffff, bytes, 6, 0xbeca8e79, 55, 0xbeca8e4e, 0xedbd6815);
  }

  lemma CheckByte8(bytes: seq<bv8>)
    requires |bytes| >= 8 && bytes[7] == 56 && Crc(0xffffffff, bytes[..7]) == 0xedbd6815
    ensures Crc(0xffffffff, bytes[..8]) == 0x9f787f65
  {
    assert Xor(0xedbd6815, 56) == 0xedbd682d;
    EightFrom(0xedbd682d, 0xf4288f6e, 0x7a1447b7, 0xbffc18a3, 0xdd083729, 0xec7220ec, 0x76391076, 0x3b1c883b, 0x9f787f65);
    CrcKnown(0xffffffff, bytes, 7, 0xedbd6815, 56, 0xedbd682d, 0x9f787f65);
  }

  lemma CheckByte9(bytes: seq<bv8>)
    requires |bytes| >= 9 && bytes[8] == 57 && Crc(0xffffffff, bytes[..8]) == 0x9f787f65
    ensures Crc(0xffffffff, bytes[..9]) == 0x1cf96d7c
  {
    assert Xor(0x9f787f65, 57) == 0x9f787f5c;
    EightFrom(0x9f787f5c, 0x4fbc3fae, 0x27de1fd7, 0x91193493, 0xca7aa131, 0xe7cb6be0, 0x73e5b5f0, 0x39f2daf8, 0x1cf96d7c);
    CrcKnown(0xffffffff, bytes, 8, 0x9f787f65, 57, 0x9f787f5c, 0x1cf96d7c);
  }

  /** The check value of the polynomial: the digits 1 to 9, from all ones (0xE3069283 with its bits inverted). */
  lemma CheckValue(digits: seq<bv8>)
    requires |digits| == 9 && digits[0] == 49 && digits[1] == 50 && digits[2] == 51 && digits[3] == 52
    requires digits[4] == 53 && digits[5] == 54 && digits[6] == 55 && digits[7] == 56 && digits[8] == 57
    ensures Crc(0xffffffff, digits) == 0x1cf96d7c == !0xe3069283
  {
    assert digits[..0] == [] && digits[..9] == digits;
    CheckByte1(digits);
    CheckByte2(digits);
    CheckByte3(digits);
    CheckByte4(digits);
    CheckByte5(digits);
    CheckByte6(digits);
    CheckByte7(digits);
    CheckByte8(digits);
    CheckByte9(digits);
  }
}
