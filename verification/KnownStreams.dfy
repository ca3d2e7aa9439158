/** Whole streams in numbers: the bytes of RFC 1951 for a text, worked out by hand for each type of block. */
module KnownStreams {
  import opened Powers
  import opened BitStream
  import opened CanonicalCode
  import opened InflateTableSpec
  import opened InflateTableRoom
  import opened HuffmanIo
  import opened CodeLengthRle
  import opened LzSymbols
  import opened Lz
  import opened LzCodeBuffer
  import opened BlockCodec
  import opened BlockHeader
  import opened StaticCodes
  import opened DeflateFormat

  // ---------- Bits as numbers ----------

  /** The n bits of x, and above them the k bits of rest, are those of one number. */
  lemma Above(x: nat, n: nat, p: nat, rest: nat, k: nat, all: nat)
    requires p == Pow2(n) && x < p && all == x + p * rest
    ensures BitsOf(all, n + k) == BitsOf(x, n) + BitsOf(rest, k)
  {
    BitsPlus(x, n, rest, k);
  }

  /** The number that the bytes from i on make up, lowest byte first. */
  ghost function Number(bytes: seq<nat>, i: nat): nat
    requires i <= |bytes|
    decreases |bytes| - i, i
  {
    if i == |bytes| then 0 else bytes[i] + 256 * Number(bytes, i + 1)
  }

  lemma {:induction false} BitsOfNumber(bytes: seq<nat>, i: nat)
    requires i <= |bytes| && forall j :: 0 <= j < |bytes| ==> bytes[j] < 256
    ensures ByteBits(bytes[i..]) == BitsOf(Number(bytes, i), 8 * (|bytes| - i))
    decreases |bytes| - i
  {
    if i < |bytes| {
      assert bytes[i..][0] == bytes[i] && bytes[i..][1..] == bytes[i + 1..];
      BitsOfNumber(bytes, i + 1);
      Pow2Values();
      var eight: nat := 8;
      Above(bytes[i], eight, 256, Number(bytes, i + 1), 8 * (|bytes| - i - 1), Number(bytes, i));
    }
  }

  lemma NumberStep(bytes: seq<nat>, i: nat, rest: nat)
    requires i < |bytes| && Number(bytes, i + 1) == rest
    ensures Number(bytes, i) == bytes[i] + 256 * rest
  {}

  lemma OneChunk(c: Chunk)
    requires BlockOk(c.block)
    ensures ChunksOk([c]) && StreamBits([c]) == ChunkBits(c, 0) && StreamOps([c]) == BlockOps(c.block)
  {
    StreamAppend([], c);
    assert [] + [c] == [c];
    assert [] + ChunkBits(c, 0) == ChunkBits(c, 0);
    assert [] + BlockOps(c.block) == BlockOps(c.block);
  }

  // ---------- A block with the fixed codes ----------

  /** A literal up to 143 takes eight bits, its code 48 places on. */
  lemma LiteralAbove(ops: seq<Op>, i: nat, byte: nat, plain: nat, eight: nat, code: nat, rest: nat, k: nat, all: nat)
    requires Codable(STATIC_LIT(), STATIC_DIST(), ops) && i < |ops| && ops[i] == Literal(byte) && byte < 144
    requires plain == 48 + byte && eight == 8 && code == Reversed(plain, eight) && all == code + 256 * rest
    requires BodyBits(STATIC_LIT(), STATIC_DIST(), ops, i + 1) == BitsOf(rest, k)
    ensures BodyBits(STATIC_LIT(), STATIC_DIST(), ops, i) == BitsOf(all, 8 + k)
  {
    StaticCodeInNumbers(byte);
    Pow2Values();
    assert OpBits(STATIC_LIT(), STATIC_DIST(), ops[i]) == BitsOf(code, eight);
    Above(code, eight, 256, rest, k, all);
  }

  /** The code of the end of a block is seven zeros. */
  lemma EndBits(ops: seq<Op>, k: nat)
    requires Codable(STATIC_LIT(), STATIC_DIST(), ops) && k == 7
    ensures BodyBits(STATIC_LIT(), STATIC_DIST(), ops, |ops|) == BitsOf(0, k)
  {
    StaticCodeInNumbers(256);
    assert Reversed(0, 7) == 0;
  }

  lemma SymbolsOfMatch()
    ensures LenSym(11) == 266 && LenExtra(11) == 1 && DistSym(5) == 4 && DistExtra(5) == 1
    ensures Field(11, 1) == BitsOf(1, 1) && Field(5, 1) == BitsOf(1, 1)
  {
    assert LenSlot(11) == 4 + LenSlot(5);
  }

  /** Symbol 266 with one more bit, and symbol 4 with one more. */
  lemma CodesOfMatch()
    ensures CodeBits(STATIC_LIT(), 266) == BitsOf(40, 7) && CodeBits(STATIC_DIST(), 4) == BitsOf(4, 5)
  {
    StaticCodeInNumbers(266);
    StaticDistInNumbers(4);
    assert Reversed(10, 7) == 40 && Reversed(4, 5) == 4;
  }

  lemma FourFields(one: nat, five: nat, seven: nat)
    requires one == 1 && five == 5 && seven == 7
    ensures (BitsOf(40, seven) + BitsOf(1, one)) + (BitsOf(4, five) + BitsOf(1, one)) == BitsOf(9384, 14)
  {
    assert Pow2(1) == 2 && Pow2(5) == 32 && Pow2(7) == 128;
    Above(4, five, 32, 1, one, 36);
    Above(1, one, 2, 36, five + one, 73);
    Above(40, seven, 128, 73, one + five + one, 9384);
    Assoc(BitsOf(40, seven), BitsOf(1, one), BitsOf(4, five) + BitsOf(1, one));
  }

  /** A match of length 14 at distance 6 takes fourteen bits. */
  lemma MatchInBits(ops: seq<Op>, i: nat)
    requires Codable(STATIC_LIT(), STATIC_DIST(), ops) && i < |ops| && ops[i] == Match(14, 6)
    ensures OpBits(STATIC_LIT(), STATIC_DIST(), ops[i]) == BitsOf(9384, 14)
  {
    SymbolsOfMatch();
    CodesOfMatch();
    FourFields(1, 5, 7);
  }

  lemma MatchAbove(ops: seq<Op>, i: nat, rest: nat, k: nat, all: nat)
    requires Codable(STATIC_LIT(), STATIC_DIST(), ops) && i < |ops| && ops[i] == Match(14, 6) && all == 9384 + 0x4000 * rest
    requires BodyBits(STATIC_LIT(), STATIC_DIST(), ops, i + 1) == BitsOf(rest, k)
    ensures BodyBits(STATIC_LIT(), STATIC_DIST(), ops, i) == BitsOf(all, 14 + k)
  {
    MatchInBits(ops, i);
    Pow2Values();
    assert Pow2(15) == 2 * Pow2(14);
    Above(9384, 14, 0x4000, rest, k, all);
  }

  /** The text of the stream below, and the operations that stand for it. */
  ghost predicate RepeatedLetters(text: seq<nat>) {
    |text| == 20 && forall i :: 0 <= i < 20 ==> text[i] == if i % 6 == 5 then 98 else 97
  }

  ghost predicate LettersAndMatch(ops: seq<Op>) {
    |ops| == 7 && (forall i :: 0 <= i < 6 ==> ops[i] == Literal(if i == 5 then 98 else 97)) && ops[6] == Match(14, 6)
  }

  ghost predicate LettersBytes(bytes: seq<nat>) {
    |bytes| == 9 && bytes[0] == 0x4b && bytes[1] == 0x4c && bytes[2] == 0x4c && bytes[3] == 0x4c && bytes[4] == 0x4c
    && bytes[5] == 0x4c && bytes[6] == 0x42 && bytes[7] == 0x25 && bytes[8] == 0x01
  }

  lemma LettersCodable(ops: seq<Op>)
    requires LettersAndMatch(ops)
    ensures Codable(STATIC_LIT(), STATIC_DIST(), ops)
  {
    StaticCodesAll(ops);
  }

  lemma LettersRepeat(text: seq<nat>)
    requires RepeatedLetters(text)
    ensures IsMatch(text, 6, 14, 6)
  {
    forall p | 6 <= p < 20 ensures Repeats(text, p, 6) { assert (p - 6) % 6 == p % 6; }
  }

  lemma SixLetters(ops: seq<Op>, six: seq<nat>)
    requires LettersAndMatch(ops) && |six| == 6 && forall i :: 0 <= i < 6 ==> six[i] == if i == 5 then 98 else 97
    ensures Expand(ops[..6]) == six && OpsOk(ops[..6])
  {
    ExpandLiterals([], six);
    assert [] + LiteralsOf(six) == ops[..6];
    assert Expand([]) + six == six;
  }

  lemma LettersExpand(ops: seq<Op>, text: seq<nat>)
    requires LettersAndMatch(ops) && RepeatedLetters(text)
    ensures Expand(ops) == text && OpsOk(ops)
  {
    SixLetters(ops, text[..6]);
    LettersRepeat(text);
    CopyMatch(text, 6, 14, 6);
    ExpandAppend(ops[..6], ops[6]);
    assert ops[..6] + [ops[6]] == ops && text[..20] == text;
  }

  lemma SevenPowers()
    ensures Pow2(0) == 1 && Pow2(1) == 2 && Pow2(2) == 4 && Pow2(3) == 8 && Pow2(4) == 16
    ensures Pow2(5) == 32 && Pow2(6) == 64 && Pow2(7) == 128 && Pow2(14) == 0x4000
  {}

  lemma CodeOfA() returns (plain: nat, eight: nat)
    ensures plain == 145 && eight == 8 && Reversed(plain, eight) == 137
  {
    plain, eight := 145, 8;
    SevenPowers();
    assert Reversed(145, 8) == 137;
  }

  lemma CodeOfB() returns (plain: nat, eight: nat)
    ensures plain == 146 && eight == 8 && Reversed(plain, eight) == 73
  {
    plain, eight := 146, 8;
    SevenPowers();
    assert Reversed(146, 8) == 73;
  }

  lemma LetterA(ops: seq<Op>, i: nat, rest: nat, k: nat, all: nat)
    requires Codable(STATIC_LIT(), STATIC_DIST(), ops) && i < |ops| && ops[i] == Literal(97) && all == 137 + 256 * rest
    requires BodyBits(STATIC_LIT(), STATIC_DIST(), ops, i + 1) == BitsOf(rest, k)
    ensures BodyBits(STATIC_LIT(), STATIC_DIST(), ops, i) == BitsOf(all, 8 + k)
  {
    var plain, eight := CodeOfA();
    LiteralAbove(ops, i, 97, plain, eight, 137, rest, k, all);
  }

  lemma LetterB(ops: seq<Op>, i: nat, rest: nat, k: nat, all: nat)
    requires Codable(STATIC_LIT(), STATIC_DIST(), ops) && i < |ops| && ops[i] == Literal(98) && all == 73 + 256 * rest
    requires BodyBits(STATIC_LIT(), STATIC_DIST(), ops, i + 1) == BitsOf(rest, k)
    ensures BodyBits(STATIC_LIT(), STATIC_DIST(), ops, i) == BitsOf(all, 8 + k)
  {
    var plain, eight := CodeOfB();
    LiteralAbove(ops, i, 98, plain, eight, 73, rest, k, all);
  }

  lemma LastLetters(ops: seq<Op>, three: nat, k: nat)
    requires LettersAndMatch(ops) && Codable(STATIC_LIT(), STATIC_DIST(), ops) && three == 3 && k == 7
    ensures BodyBits(STATIC_LIT(), STATIC_DIST(), ops, three) == BitsOf(157442214281, k + 38)
  {
    EndBits(ops, k);
    MatchAbove(ops, 6, 0, k, 9384);
    LetterB(ops, 5, 9384, k + 14, 2402377);
    LetterA(ops, 4, 2402377, k + 22, 615008649);
    LetterA(ops, 3, 615008649, k + 30, 157442214281);
  }

  lemma ThreeLetters(ops: seq<Op>, i: nat, v0: nat, v1: nat, v2: nat, v3: nat, k: nat)
    requires Codable(STATIC_LIT(), STATIC_DIST(), ops) && i + 3 <= |ops|
    requires ops[i] == Literal(97) && ops[i + 1] == Literal(97) && ops[i + 2] == Literal(97)
    requires v1 == 137 + 256 * v0 && v2 == 137 + 256 * v1 && v3 == 137 + 256 * v2
    requires BodyBits(STATIC_LIT(), STATIC_DIST(), ops, i + 3) == BitsOf(v0, k)
    ensures BodyBits(STATIC_LIT(), STATIC_DIST(), ops, i) == BitsOf(v3, k + 24)
  {
    LetterA(ops, i + 2, v0, k, v1);
    LetterA(ops, i + 1, v1, k + 8, v2);
    LetterA(ops, i, v2, k + 16, v3);
  }

  lemma LettersInBits(bytes: seq<nat>)
    requires LettersBytes(bytes)
    ensures ByteBits(bytes) == BitsOf(21131536292157082699, 72)
  {
    assert bytes[0..] == bytes;
    BitsOfNumber(bytes, 0);
    NumberStep(bytes, 8, 0);
    NumberStep(bytes, 7, 1);
    NumberStep(bytes, 6, 293);
    NumberStep(bytes, 5, 75074);
    NumberStep(bytes, 4, 19219020);
    NumberStep(bytes, 3, 4920069196);
    NumberStep(bytes, 2, 1259537714252);
    NumberStep(bytes, 1, 322441654848588);
    NumberStep(bytes, 0, 82545063641238604);
  }

  lemma LettersBody(ops: seq<Op>, i: nat, three: nat, k: nat)
    requires LettersAndMatch(ops) && Codable(STATIC_LIT(), STATIC_DIST(), ops) && i == 0 && three == 3 && k == 45
    ensures BodyBits(STATIC_LIT(), STATIC_DIST(), ops, i) == BitsOf(2641442036519635337, k + 24)
  {
    LastLetters(ops, three, k - 38);
    ThreeLetters(ops, i, 157442214281, 40305206856073, 10318132955154825, 2641442036519635337, k);
  }

  lemma LettersChunk(ops: seq<Op>, one: nat, two: nat, k: nat)
    requires BlockOk(Static(ops)) && BodyBits(STATIC_LIT(), STATIC_DIST(), ops, 0) == BitsOf(2641442036519635337, k)
    requires one == 1 && two == 2
    ensures ChunkBits(Chunk(true, Static(ops)), 0) == BitsOf(21131536292157082699, one + (two + k))
  {
    SevenPowers();
    Above(1, two, 4, 2641442036519635337, k, 10565768146078541349);
    Above(1, one, 2, 10565768146078541349, two + k, 21131536292157082699);
  }

  /** The final flag and the type 1 come first, the lowest bits of the first byte. */
  lemma StaticStream(ops: seq<Op>, text: seq<nat>, bytes: seq<nat>)
    requires LettersAndMatch(ops) && RepeatedLetters(text) && LettersBytes(bytes)
    ensures ChunksOk([Chunk(true, Static(ops))]) && StreamBits([Chunk(true, Static(ops))]) == ByteBits(bytes)
    ensures OpsOk(ops) && Expand(StreamOps([Chunk(true, Static(ops))])) == text
  {
    LettersCodable(ops);
    LettersExpand(ops, text);
    OneChunk(Chunk(true, Static(ops)));
    LettersBody(ops, 0, 3, 45);
    LettersChunk(ops, 1, 2, 69);
    LettersInBits(bytes);
  }

  // ---------- A stored block ----------

  ghost predicate StoredBytes(bytes: seq<nat>) {
    |bytes| == 7 && bytes[0] == 0x01 && bytes[1] == 0x02 && bytes[2] == 0x00 && bytes[3] == 0xfd && bytes[4] == 0xff
    && bytes[5] == 0x61 && bytes[6] == 0x62
  }

  /** A final block of type 0: five bits of padding, the length and its complement, low byte first, and the text. */
  lemma StoredStream(text: seq<nat>, bytes: seq<nat>)
    requires |text| == 2 && text[0] == 0x61 && text[1] == 0x62 && StoredBytes(bytes)
    ensures ChunksOk([Chunk(true, Stored(text))]) && StreamBits([Chunk(true, Stored(text))]) == ByteBits(bytes)
    ensures OpsOk(StreamOps([Chunk(true, Stored(text))])) && Expand(StreamOps([Chunk(true, Stored(text))])) == text
  {
    var c := Chunk(true, Stored(text));
    OneChunk(c);
    ExpandLiterals([], text);
    assert [] + LiteralsOf(text) == LiteralsOf(text) && Expand([]) + text == text;
    StoredInBits(text, 16);
    StoredTypeInBits(text, 1, 2, 5);
    StoredBytesInBits(bytes);
  }

  lemma StoredInBits(text: seq<nat>, n: nat)
    requires |text| == 2 && text[0] == 0x61 && text[1] == 0x62 && n == 16
    ensures StoredContent(text) == BitsOf(108173046120450, n + (n + n))
  {
    assert text[0..] == text;
    BitsOfNumber(text, 0);
    NumberStep(text, 1, 0);
    NumberStep(text, 0, 0x62);
    Pow2Values();
    Above(0xfffd, n, 0x1_0000, 0x6261, n, 1650589693);
    Above(2, n, 0x1_0000, 1650589693, n + n, 108173046120450);
  }

  lemma StoredTypeInBits(text: seq<nat>, one: nat, two: nat, five: nat)
    requires |text| == 2 && one == 1 && two == 2 && five == 5 && StoredContent(text) == BitsOf(108173046120450, 48)
    requires BlockOk(Stored(text))
    ensures ChunkBits(Chunk(true, Stored(text)), 0) == BitsOf(27692299806835201, 56)
  {
    assert Pow2(1) == 2 && Pow2(2) == 4 && Pow2(5) == 32;
    Above(0, five, 32, 108173046120450, 48, 3461537475854400);
    Above(0, two, 4, 3461537475854400, five + 48, 13846149903417600);
    Above(1, one, 2, 13846149903417600, two + (five + 48), 27692299806835201);
  }

  lemma StoredBytesInBits(bytes: seq<nat>)
    requires StoredBytes(bytes)
    ensures ByteBits(bytes) == BitsOf(27692299806835201, 56)
  {
    assert bytes[0..] == bytes;
    BitsOfNumber(bytes, 0);
    NumberStep(bytes, 6, 0);
    NumberStep(bytes, 5, 98);
    NumberStep(bytes, 4, 25185);
    NumberStep(bytes, 3, 6447615);
    NumberStep(bytes, 2, 1650589693);
    NumberStep(bytes, 1, 422550961408);
    NumberStep(bytes, 0, 108173046120450);
  }

  // ---------- A block with its own codes ----------

  /** Powers that are too large to be worked out one by one. */
  lemma ProductOfPowers(a: nat, b: nat, p: nat, q: nat, n: nat, r: nat)
    requires Pow2(a) == p && Pow2(b) == q && n == a + b && r == p * q
    ensures Pow2(n) == r
  {
    Pow2Add(a, b);
  }

  lemma StartingPowers(six: nat, seven: nat, sixteen: nat)
    requires six == 6 && seven == 7 && sixteen == 16
    ensures Pow2(six) == 0x40 && Pow2(seven) == 0x80 && Pow2(sixteen) == 0x1_0000
  {
    SevenPowers();
    Pow2Values();
  }

  lemma MiddlePowers(a: nat, b: nat, c: nat)
    requires a == 22 && b == 32 && c == 44
    ensures Pow2(a) == 0x40_0000 && Pow2(b) == 0x1_0000_0000 && Pow2(c) == 0x1000_0000_0000
  {
    var six, seven, sixteen: nat := 6, 7, 16;
    StartingPowers(six, seven, sixteen);
    ProductOfPowers(sixteen, six, 0x1_0000, 0x40, a, 0x40_0000);
    ProductOfPowers(sixteen, sixteen, 0x1_0000, 0x1_0000, b, 0x1_0000_0000);
    ProductOfPowers(a, a, 0x40_0000, 0x40_0000, c, 0x1000_0000_0000);
  }

  lemma LargePowers(a: nat, b: nat, c: nat)
    requires a == 39 && b == 54 && c == 98
    ensures Pow2(a) == 0x80_0000_0000 && Pow2(b) == 0x40_0000_0000_0000 && Pow2(c) == 0x4_0000_0000_0000_0000_0000_0000
  {
    var six, seven, sixteen: nat := 6, 7, 16;
    var twentyTwo, thirtyTwo, fortyFour: nat := 22, 32, 44;
    StartingPowers(six, seven, sixteen);
    MiddlePowers(twentyTwo, thirtyTwo, fortyFour);
    ProductOfPowers(thirtyTwo, seven, 0x1_0000_0000, 0x80, a, 0x80_0000_0000);
    ProductOfPowers(thirtyTwo, twentyTwo, 0x1_0000_0000, 0x40_0000, b, 0x40_0000_0000_0000);
    ProductOfPowers(b, fortyFour, 0x40_0000_0000_0000, 0x1000_0000_0000, c, 0x4_0000_0000_0000_0000_0000_0000);
  }

  /** The code-length code has one bit for 18 and two for each of 0 and 1. */
  ghost predicate ThreeCodes(cl: seq<nat>) {
    |cl| == 19 && cl[0] == 2 && cl[1] == 2 && cl[18] == 1 && forall i :: 2 <= i < 18 ==> cl[i] == 0
  }

  /** 97 zeros, a one, 138 and 20 zeros, a one; and no distance code. */
  ghost predicate SixItems(items: seq<Item>) {
    |items| == 6 && items[0] == Item(18, 86) && items[1] == Item(1, 0) && items[2] == Item(18, 127)
    && items[3] == Item(18, 9) && items[4] == Item(1, 0) && items[5] == Item(0, 0)
  }

  /** One bit each for the letter a and the end of the block. */
  ghost predicate TwoCodes(lit: seq<nat>) {
    |lit| == 257 && lit[97] == 1 && lit[256] == 1 && forall i :: 0 <= i < 257 && i != 97 && i != 256 ==> lit[i] == 0
  }

  lemma CountThree(cl: seq<nat>, len: nat)
    requires ThreeCodes(cl) && len > 0
    ensures Count(cl, len) == if len == 1 then 1 else if len == 2 then 2 else 0
    ensures CountTo(cl, 18, 1) == 0
  {
    var zero: nat := 0;
    CountRun(cl, zero, 2, 2, len);
    CountRun(cl, 2, 18, 0, len);
    CountRun(cl, zero, 2, 2, 1);
    CountRun(cl, 2, 18, 0, 1);
  }

  lemma ThreeStarts(cl: seq<nat>)
    requires ThreeCodes(cl)
    ensures FirstCode(cl, 1) == 0 && FirstCode(cl, 2) == 2 && FirstCode(cl, 3) == 8
    ensures Acceptable(cl)
  {
    forall len: nat | len > 0 ensures Count(cl, len) == if len == 1 then 1 else if len == 2 then 2 else 0 { CountThree(cl, len); }
    assert FirstCode(cl, 2) == 2;
    assert FirstCode(cl, 3) == 8;
    DoublesFrom(cl, 3, MAX_BITS + 1);
    SevenPowers();
    assert Pow2(13) == 0x2000;
  }

  /** 0 for 18, and 10 and 11 for 0 and 1. */
  lemma ThreeInBits(cl: seq<nat>, one: nat, two: nat)
    requires ThreeCodes(cl) && one == 1 && two == 2
    ensures CodeBits(cl, 18) == BitsOf(0, one) && CodeBits(cl, 0) == BitsOf(1, two) && CodeBits(cl, 1) == BitsOf(3, two)
  {
    ThreeStarts(cl);
    CountThree(cl, two);
    assert CountTo(cl, 1, 2) == 1;
    assert Reversed(0, 1) == 0 && Reversed(2, 2) == 1 && Reversed(3, 2) == 3;
  }

  lemma CountTwo(lit: seq<nat>, len: nat)
    requires TwoCodes(lit) && len > 0
    ensures Count(lit, len) == (if len == 1 then 2 else 0) && CountTo(lit, 97, 1) == 0 && CountTo(lit, 256, 1) == 1
  {
    var zero: nat := 0;
    CountRun(lit, zero, 97, 0, len);
    CountRun(lit, 98, 256, 0, len);
    CountRun(lit, zero, 97, 0, 1);
    CountRun(lit, 98, 256, 0, 1);
    assert CountTo(lit, 98, len) == CountTo(lit, 97, len) + (if len == 1 then 1 else 0);
    assert CountTo(lit, 98, 1) == CountTo(lit, 97, 1) + 1;
  }

  lemma TwoInBits(lit: seq<nat>, one: nat)
    requires TwoCodes(lit) && one == 1
    ensures Acceptable(lit) && CodeBits(lit, 97) == BitsOf(0, one) && CodeBits(lit, 256) == BitsOf(1, one)
  {
    forall len: nat | len > 0 ensures Count(lit, len) == if len == 1 then 2 else 0 { CountTwo(lit, len); }
    CountTwo(lit, one);
    assert FirstCode(lit, 2) == 4;
    DoublesFrom(lit, 2, MAX_BITS + 1);
    SevenPowers();
    assert Reversed(0, 1) == 0 && Reversed(1, 1) == 1;
  }

  lemma NoDistances()
    ensures Acceptable([0])
  {
    assert UsedTo([0], 1, MAX_BITS) == 0;
  }

  /** What one more item adds. */
  lemma ItemsTo(items: seq<Item>, i: nat, before: seq<nat>)
    requires i < |items| && Unpacked(items[..i]) == before
    ensures Unpacked(items[..i + 1]) == before + ItemSizes(items[i], before)
  {
    Append(items[..i], items[i]);
    assert items[..i] + [items[i]] == items[..i + 1];
  }

  lemma SixUnpacked(items: seq<Item>, lit: seq<nat>)
    requires SixItems(items) && TwoCodes(lit)
    ensures Unpacked(items) == lit + [0]
  {
    ItemsTo(items, 0, []);
    ItemsTo(items, 1, lit[..97]) by { assert lit[..97] == [] + Same(0, 97); }
    ItemsTo(items, 2, lit[..98]) by { assert lit[..98] == lit[..97] + [1]; }
    ItemsTo(items, 3, lit[..236]) by { assert lit[..236] == lit[..98] + Same(0, 138); }
    ItemsTo(items, 4, lit[..256]) by { assert lit[..256] == lit[..236] + Same(0, 20); }
    ItemsTo(items, 5, lit) by { assert lit == lit[..256] + [1]; }
    assert items[..6] == items;
  }

  lemma ItemAbove(cl: seq<nat>, items: seq<Item>, i: nat, x: nat, n: nat, p: nat, rest: nat, k: nat, all: nat)
    requires ItemsCoded(cl, items) && i < |items| && ItemBits(cl, items[i]) == BitsOf(x, n) && p == Pow2(n)
    requires x < p && all == x + p * rest && ItemsBits(cl, items, i + 1) == BitsOf(rest, k)
    ensures ItemsBits(cl, items, i) == BitsOf(all, n + k)
  {
    Above(x, n, p, rest, k, all);
  }

  /** 18 and its seven bits. */
  lemma ZerosInBits(cl: seq<nat>, extra: nat, one: nat, seven: nat)
    requires ThreeCodes(cl) && extra < 128 && one == 1 && seven == 7
    ensures ItemBits(cl, Item(18, extra)) == BitsOf(2 * extra, one + seven)
  {
    ThreeInBits(cl, one, 2);
    SevenPowers();
    Above(0, one, 2, extra, seven, 2 * extra);
  }

  lemma PlainInBits(cl: seq<nat>, two: nat)
    requires ThreeCodes(cl) && two == 2
    ensures ItemBits(cl, Item(1, 0)) == BitsOf(3, two) && ItemBits(cl, Item(0, 0)) == BitsOf(1, two)
  {
    ThreeInBits(cl, 1, two);
    assert BitsOf(3, two) + [] == BitsOf(3, two) && BitsOf(1, two) + [] == BitsOf(1, two);
  }

  lemma TwoPowers(two: nat, eight: nat)
    requires two == 2 && eight == 8
    ensures Pow2(two) == 4 && Pow2(eight) == 256
  {
    SevenPowers();
    Pow2Values();
  }

  lemma SixInBits(cl: seq<nat>, items: seq<Item>, two: nat, eight: nat)
    requires ThreeCodes(cl) && SixItems(items) && ItemsCoded(cl, items) && two == 2 && eight == 8
    ensures ItemsBits(cl, items, 0) == BitsOf(474741676, eight + (two + (eight + (eight + (two + (two + 0))))))
  {
    TwoPowers(two, eight);
    PlainInBits(cl, two);
    ZerosInBits(cl, 86, 1, 7);
    ZerosInBits(cl, 127, 1, 7);
    ZerosInBits(cl, 9, 1, 7);
    ItemAbove(cl, items, 5, 1, two, 4, 0, 0, 1);
    ItemAbove(cl, items, 4, 3, two, 4, 1, two + 0, 7);
    ItemAbove(cl, items, 3, 18, eight, 256, 7, two + (two + 0), 1810);
    ItemAbove(cl, items, 2, 254, eight, 256, 1810, eight + (two + (two + 0)), 463614);
    ItemAbove(cl, items, 1, 3, two, 4, 463614, eight + (eight + (two + (two + 0))), 1854459);
    ItemAbove(cl, items, 0, 172, eight, 256, 1854459, two + (eight + (eight + (two + (two + 0)))), 474741676);
  }

  lemma FieldAbove(cl: seq<nat>, i: nat, place: nat, x: nat, three: nat, rest: nat, k: nat, all: nat)
    requires i < 18 && |cl| == 19 && place == if i < 3 then 16 + i else if i == 3 then 0 else if i % 2 == 0 then 6 + i / 2 else 9 - i / 2
    requires cl[place] == x < 8 && three == 3 && all == x + 8 * rest
    requires ClBits(cl, i + 1, 18) == BitsOf(rest, k)
    ensures ClBits(cl, i, 18) == BitsOf(all, three + k)
  {
    Places(i);
    SevenPowers();
    Above(x, three, 8, rest, k, all);
  }

  lemma Eightfold(n: nat)
    ensures Pow2(n + 3) == 8 * Pow2(n)
  {
    assert Pow2(n + 3) == 2 * Pow2(n + 2) && Pow2(n + 2) == 2 * Pow2(n + 1);
  }

  lemma EmptyField(cl: seq<nat>, i: nat, rest: nat, k: nat)
    requires ThreeCodes(cl) && 4 <= i < 17 && ClBits(cl, i + 1, 18) == BitsOf(rest, k)
    ensures ClBits(cl, i, 18) == BitsOf(8 * rest, 3 + k)
  {
    var place := if i % 2 == 0 then 6 + i / 2 else 9 - i / 2;
    FieldAbove(cl, i, place, 0, 3, rest, k, 8 * rest);
  }

  lemma FieldOfOne(cl: seq<nat>, i: nat, three: nat)
    requires ThreeCodes(cl) && i == 17 && three == 3
    ensures ClBits(cl, i, 18) == BitsOf(2, three)
  {
    var zero: nat := 0;
    FieldAbove(cl, i, 1, 2, three, zero, zero, 2);
  }

  /** The fields of symbols that are not used, and above them that of 1. */
  lemma {:induction false} EmptyFields(cl: seq<nat>, i: nat, n: nat) returns (all: nat)
    requires ThreeCodes(cl) && 4 <= i <= 17 && n == 3 * (17 - i)
    ensures all == 2 * Pow2(n) && ClBits(cl, i, 18) == BitsOf(all, 3 + n)
    decreases 17 - i
  {
    if i < 17 {
      var rest := EmptyFields(cl, i + 1, n - 3);
      all := 8 * rest;
      EmptyField(cl, i, rest, n);
      Eightfold(n - 3);
    } else {
      all := 2;
      FieldOfOne(cl, i, 3 + n);
    }
  }

  lemma LastFieldsInBits(cl: seq<nat>, three: nat, two: nat, n: nat)
    requires ThreeCodes(cl) && three == 3 && two == 2 && n == 42
    ensures ClBits(cl, two, 18) == BitsOf(70368744177681, three + (three + n))
  {
    var k: nat := 39;
    var all := EmptyFields(cl, 4, k);
    LargePowers(k, 54, 98);
    FieldAbove(cl, two + 1, 0, 2, three, all, n, 8796093022210);
    FieldAbove(cl, two, 18, 1, three, 8796093022210, three + n, 70368744177681);
  }

  lemma FieldsInBits(cl: seq<nat>, three: nat, zero: nat, n: nat)
    requires ThreeCodes(cl) && three == 3 && zero == 0 && n == 54
    ensures ClBits(cl, zero, 18) == BitsOf(4503599627371584, n)
  {
    LastFieldsInBits(cl, three, 2, 42);
    FieldAbove(cl, zero + 1, 17, 0, three, 70368744177681, three + (three + 42), 562949953421448);
    FieldAbove(cl, zero, 16, 0, three, 562949953421448, three + (three + (three + 42)), 4503599627371584);
  }

  lemma SmallHeaderOk(cl: seq<nat>, items: seq<Item>, lit: seq<nat>)
    requires ThreeCodes(cl) && SixItems(items) && TwoCodes(lit)
    ensures HeaderOk(257, 1, 18, cl, items)
  {
    ThreeStarts(cl);
    SixUnpacked(items, lit);
    Places(18);
  }

  lemma SmallHeaderInBits(cl: seq<nat>, items: seq<Item>, four: nat, five: nat, n: nat, k: nat)
    requires ThreeCodes(cl) && SixItems(items) && HeaderOk(257, 1, 18, cl, items) && four == 4 && five == 5 && n == 54 && k == 30
    ensures HeaderBits(257, 1, 18, cl, items) == BitsOf(140119011246522017437069621248, five + (five + (four + (n + k))))
  {
    SixInBits(cl, items, 2, 8);
    FieldsInBits(cl, 3, 0, n);
    LargePowers(39, n, 98);
    SevenPowers();
    Above(4503599627371584, n, 0x40_0000_0000_0000, 474741676, k, 8552185745026978603336768);
    Above(14, four, 16, 8552185745026978603336768, n + k, 136834971920431657653388302);
    Above(0, five, 32, 136834971920431657653388302, four + (n + k), 4378719101453813044908425664);
    Above(0, five, 32, 4378719101453813044908425664, five + (four + (n + k)), 140119011246522017437069621248);
  }

  /** The letter and the end of the block, one bit each. */
  lemma LetterAndEnd(lit: seq<nat>, ops: seq<Op>, one: nat)
    requires TwoCodes(lit) && ops == [Literal(97)] && Codable(lit, [0], ops) && one == 1
    ensures BodyBits(lit, [0], ops, 0) == BitsOf(2, one + one)
  {
    TwoInBits(lit, one);
    SevenPowers();
    Above(0, one, 2, 1, one, 2);
    assert BodyBits(lit, [0], ops, 1) == BitsOf(1, one);
  }

  ghost predicate SmallBytes(bytes: seq<nat>) {
    |bytes| == 13 && bytes[0] == 0x05 && bytes[1] == 0xc0 && bytes[2] == 0x81 && bytes[3] == 0x08 && bytes[4] == 0x00
    && bytes[5] == 0x00 && bytes[6] == 0x00 && bytes[7] == 0x00 && bytes[8] == 0x20 && bytes[9] == 0xd6 && bytes[10] == 0xfd
    && bytes[11] == 0x25 && bytes[12] == 0x4e
  }

  lemma SmallInBits(bytes: seq<nat>)
    requires SmallBytes(bytes)
    ensures ByteBits(bytes) == BitsOf(6191554490885093745483369791493, 104)
  {
    assert bytes[0..] == bytes;
    BitsOfNumber(bytes, 0);
    NumberStep(bytes, 12, 0);
    NumberStep(bytes, 11, 78);
    NumberStep(bytes, 10, 20005);
    NumberStep(bytes, 9, 5121533);
    NumberStep(bytes, 8, 1311112662);
    NumberStep(bytes, 7, 335644841504);
    NumberStep(bytes, 6, 85925079425024);
    NumberStep(bytes, 5, 21996820332806144);
    NumberStep(bytes, 4, 5631186005198372864);
    NumberStep(bytes, 3, 1441583617330783453184);
    NumberStep(bytes, 2, 369045406036680564015112);
    NumberStep(bytes, 1, 94475623945390224387868801);
    NumberStep(bytes, 0, 24185759730019897443294413248);
  }

  lemma SmallBlockOk(h: Header, lit: seq<nat>, ops: seq<Op>)
    requires TwoCodes(lit) && ThreeCodes(h.cl) && SixItems(h.items) && ops == [Literal(97)]
    requires h.numLit == 257 && h.numDist == 1 && h.numCl == 18
    ensures BlockOk(Dynamic(h, lit, [0], ops))
  {
    SmallHeaderOk(h.cl, h.items, lit);
    SixUnpacked(h.items, lit);
    assert (lit + [0])[..257] == lit && (lit + [0])[257..] == [0];
    TwoInBits(lit, 1);
    NoDistances();
  }

  lemma DynamicInBits(h: Header, lit: seq<nat>, ops: seq<Op>, one: nat, two: nat, n: nat, k: nat)
    requires TwoCodes(lit) && ThreeCodes(h.cl) && SixItems(h.items) && ops == [Literal(97)]
    requires h.numLit == 257 && h.numDist == 1 && h.numCl == 18 && BlockOk(Dynamic(h, lit, [0], ops))
    requires one == 1 && two == 2 && n == 98 && k == 103
    ensures ChunkBits(Chunk(true, Dynamic(h, lit, [0], ops)), 0) == BitsOf(6191554490885093745483369791493, k)
  {
    SmallHeaderInBits(h.cl, h.items, 4, 5, 54, 30);
    LargePowers(39, 54, n);
    LetterAndEnd(lit, ops, one);
    Above(140119011246522017437069621248, n, 316912650057057350374175801344, 2, two, 773944311360636718185421223936);
    SevenPowers();
    Above(2, two, 4, 773944311360636718185421223936, n + two, 3095777245442546872741684895746);
    Above(1, one, 2, 3095777245442546872741684895746, two + (n + two), 6191554490885093745483369791493);
  }

  lemma LastBit(x: nat, n: nat)
    requires n == 103 && x < 0x80_0000_0000_0000_0000_0000_0000
    ensures BitsOf(x, n) + [false] == BitsOf(x, n + 1)
  {
    LargePowers(39, 54, n - 5);
    SevenPowers();
    ProductOfPowers(n - 5, 5, 0x4_0000_0000_0000_0000_0000_0000, 32, n, 0x80_0000_0000_0000_0000_0000_0000);
    var zero, one: nat := 0, 1;
    Above(x, n, Pow2(n), zero, one, x);
    assert BitsOf(zero, one) == [false];
  }

  /** The letter a alone with codes of its own: after the type 2 come the numbers of codes, the code-length code and the items. */
  lemma DynamicStream(h: Header, lit: seq<nat>, ops: seq<Op>, bytes: seq<nat>)
    requires TwoCodes(lit) && ThreeCodes(h.cl) && SixItems(h.items) && ops == [Literal(97)] && SmallBytes(bytes)
    requires h.numLit == 257 && h.numDist == 1 && h.numCl == 18
    ensures var chunks := [Chunk(true, Dynamic(h, lit, [0], ops))];
            ChunksOk(chunks) && StreamBits(chunks) + [false] == ByteBits(bytes) && Expand(StreamOps(chunks)) == [97]
  {
    var c := Chunk(true, Dynamic(h, lit, [0], ops));
    SmallBlockOk(h, lit, ops);
    OneChunk(c);
    var k: nat := 103;
    DynamicInBits(h, lit, ops, 1, 2, 98, k);
    SmallInBits(bytes);
    LastBit(6191554490885093745483369791493, k);
    ExpandAppend([], Literal(97));
    assert [] + [Literal(97)] == ops;
  }
}
