/** The Blowfish block cipher over arbitrary boxes, in its textbook form, and why decryption undoes encryption. */
module BlowfishCipher {
  type Word = bv32

  datatype Block = Block(left: Word, right: Word)

  const ROUNDS := 16
  const PSIZE := 18
  const SSIZE := 1024 // the four S boxes of 256 words, one after the other

  function Xor(a: Word, b: Word): Word {
    a ^ b
  }

  lemma XorTwice(a: Word, b: Word)
    ensures Xor(Xor(a, b), b) == a && Xor(b, Xor(b, a)) == a
  {}

  lemma XorSwap(a: Word, b: Word)
    ensures Xor(a, b) == Xor(b, a)
  {}

  lemma XorAssoc(a: Word, b: Word, c: Word)
    ensures Xor(Xor(a, b), c) == Xor(a, Xor(b, c))
  {}

  function Byte(u: Word): bv8 {
    (u & 0xff) as bv8
  }

  function Plus(a: Word, b: Word): Word {
    a + b
  }

  lemma AddAssoc(a: Word, b: Word, c: Word)
    ensures (a + b) + c == a + (b + c)
  {}

  lemma PlusIsAdd(a: Word, b: Word)
    ensures Plus(a, b) == a + b
  {}

  lemma PlusAssoc(a: Word, b: Word, c: Word)
    ensures Plus(Plus(a, b), c) == Plus(a, Plus(b, c))
  {
    AddAssoc(a, b, c);
    PlusIsAdd(a, b);
    PlusIsAdd(b, c);
    PlusIsAdd(a + b, c);
    PlusIsAdd(a, b + c);
  }

  lemma ZeroChangesNothing(a: Word)
    ensures Plus(a, 0) == a == Xor(a, 0)
  {}

  function FromBytes(a: bv8, b: bv8, c: bv8, d: bv8): Word {
    (a as Word << 24) | (b as Word << 16) | (c as Word << 8) | d as Word
  }

  lemma BytesOfWord(w: Word)
    ensures FromBytes(Byte(w >> 24), Byte(w >> 16), Byte(w >> 8), Byte(w)) == w
  {}

  lemma WordOfBytes(a: bv8, b: bv8, c: bv8, d: bv8)
    ensures var w := FromBytes(a, b, c, d);
            Byte(w >> 24) == a && Byte(w >> 16) == b && Byte(w >> 8) == c && Byte(w) == d
  {}

  /** The order of the bytes in a number. */
  lemma FirstByteIsHighest()
    ensures FromBytes(0x12, 0x34, 0x56, 0x78) == 0x12345678
  {}

  function Mix(w: Word, x: Word, y: Word, z: Word): Word {
    Plus(Xor(Plus(w, x), y), z)
  }

  /** The four bytes of a word select one word from each S box. */
  function F(s: seq<Word>, u: Word): Word
    requires |s| == SSIZE
  {
    var a, b, c, d := Byte(u >> 24) as nat, Byte(u >> 16) as nat, Byte(u >> 8) as nat, Byte(u) as nat;
    Mix(s[a], s[256 + b], s[512 + c], s[768 + d])
  }

  // ---------- Laws that leave no choice of F ----------

  lemma Selected(s: seq<Word>, u: Word, a: bv8, b: bv8, c: bv8, d: bv8)
    requires |s| == SSIZE && Byte(u >> 24) == a && Byte(u >> 16) == b && Byte(u >> 8) == c && Byte(u) == d
    ensures F(s, u) == Mix(s[a as nat], s[256 + b as nat], s[512 + c as nat], s[768 + d as nat])
  {}

  lemma SelectedByBytes(s: seq<Word>, a: bv8, b: bv8, c: bv8, d: bv8)
    requires |s| == SSIZE
    ensures F(s, FromBytes(a, b, c, d)) == Mix(s[a as nat], s[256 + b as nat], s[512 + c as nat], s[768 + d as nat])
  {
    WordOfBytes(a, b, c, d);
    Selected(s, FromBytes(a, b, c, d), a, b, c, d);
  }

  lemma AddedLast(w: Word, x: Word, y: Word, z: Word, z': Word, e: Word)
    requires z' == Plus(z, e)
    ensures Mix(w, x, y, z') == Plus(Mix(w, x, y, z), e)
  {
    PlusAssoc(Xor(Plus(w, x), y), z, e);
  }

  lemma PlusInFourthBox(s: seq<Word>, t: seq<Word>, a: bv8, b: bv8, c: bv8, d: bv8, x: Word)
    requires |s| == |t| == 1024
    requires s[a as nat] == t[a as nat] && s[256 + b as nat] == t[256 + b as nat] && s[512 + c as nat] == t[512 + c as nat]
    requires t[768 + d as nat] == Plus(s[768 + d as nat], x)
    ensures F(t, FromBytes(a, b, c, d)) == Plus(F(s, FromBytes(a, b, c, d)), x)
  {
    SelectedByBytes(s, a, b, c, d);
    SelectedByBytes(t, a, b, c, d);
    AddedLast(s[a as nat], s[256 + b as nat], s[512 + c as nat], s[768 + d as nat], t[768 + d as nat], x);
  }

  /** What is added to the word that the last byte selects from the fourth box is added to F. */
  lemma FourthBoxAdds(s: seq<Word>, t: seq<Word>, a: bv8, b: bv8, c: bv8, d: bv8, x: Word)
    requires |s| == |t| == 1024
    requires s[a as nat] == t[a as nat] && s[256 + b as nat] == t[256 + b as nat] && s[512 + c as nat] == t[512 + c as nat]
    requires t[768 + d as nat] == s[768 + d as nat] + x
    ensures F(t, FromBytes(a, b, c, d)) == F(s, FromBytes(a, b, c, d)) + x
  {
    PlusIsAdd(s[768 + d as nat], x);
    PlusInFourthBox(s, t, a, b, c, d, x);
    PlusIsAdd(F(s, FromBytes(a, b, c, d)), x);
  }

  /** With nothing there, what is xored into the word that the third byte selects is xored into F. */
  lemma ThirdBoxXors(s: seq<Word>, t: seq<Word>, a: bv8, b: bv8, c: bv8, d: bv8, x: Word)
    requires |s| == |t| == 1024
    requires s[a as nat] == t[a as nat] && s[256 + b as nat] == t[256 + b as nat]
    requires t[512 + c as nat] == Xor(s[512 + c as nat], x) && s[768 + d as nat] == 0 == t[768 + d as nat]
    ensures F(t, FromBytes(a, b, c, d)) == Xor(F(s, FromBytes(a, b, c, d)), x)
  {
    SelectedByBytes(s, a, b, c, d);
    SelectedByBytes(t, a, b, c, d);
    var y, m := s[512 + c as nat], Plus(s[a as nat], s[256 + b as nat]);
    XorAssoc(m, y, x);
    ZeroChangesNothing(Xor(m, y));
    ZeroChangesNothing(Xor(m, Xor(y, x)));
  }

  /** And with nothing in either, F is the sum of the words that the first two bytes select. */
  lemma FirstBoxesAdd(s: seq<Word>, a: bv8, b: bv8, c: bv8, d: bv8)
    requires |s| == 1024
    requires s[512 + c as nat] == 0 == s[768 + d as nat]
    ensures F(s, FromBytes(a, b, c, d)) == s[a as nat] + s[256 + b as nat]
  {
    SelectedByBytes(s, a, b, c, d);
    var m := Plus(s[a as nat], s[256 + b as nat]);
    ZeroChangesNothing(m);
    ZeroChangesNothing(Xor(m, 0));
  }

  /** The textbook state after n rounds: xor a subkey into the left half, F of it into the right, and swap. */
  function Rounds(p: seq<Word>, s: seq<Word>, b: Block, n: nat): Block
    requires |p| == PSIZE && |s| == SSIZE && n <= ROUNDS
    decreases n, b
  {
    if n == 0 then b else
      var r := Rounds(p, s, b, n - 1);
      var x := Xor(r.left, p[n - 1]);
      Block(Xor(F(s, x), r.right), x)
  }

  /** Sixteen rounds, the last swap undone, and the last two subkeys. */
  function Crypt(p: seq<Word>, s: seq<Word>, b: Block): Block
    requires |p| == PSIZE && |s| == SSIZE
  {
    var r := Rounds(p, s, b, ROUNDS);
    Block(Xor(r.right, p[17]), Xor(r.left, p[16]))
  }

  // ---------- A known block ----------

  /** Boxes of eight words, each filling half a box, and multiples of 0x9e3779b9 for subkeys. */
  ghost predicate TestBoxes(s: seq<Word>) {
    |s| == SSIZE
    && (forall k :: 0 <= k < 128 ==> s[k] == 0x01234567)
    && (forall k :: 128 <= k < 256 ==> s[k] == 0x89abcdef)
    && (forall k :: 256 <= k < 384 ==> s[k] == 0x0f1e2d3c)
    && (forall k :: 384 <= k < 512 ==> s[k] == 0x4b5a6978)
    && (forall k :: 512 <= k < 640 ==> s[k] == 0x13579bdf)
    && (forall k :: 640 <= k < 768 ==> s[k] == 0x2468ace0)
    && (forall k :: 768 <= k < 896 ==> s[k] == 0x76543210)
    && (forall k :: 896 <= k < 1024 ==> s[k] == 0xfedcba98)
  }

  ghost predicate TestKeys(p: seq<Word>) {
    |p| == PSIZE
    && p[0] == 0x9e3779b9 && p[1] == 0x3c6ef372 && p[2] == 0xdaa66d2b && p[3] == 0x78dde6e4 && p[4] == 0x1715609d && p[5] == 0xb54cda56
    && p[6] == 0x5384540f && p[7] == 0xf1bbcdc8 && p[8] == 0x8ff34781 && p[9] == 0x2e2ac13a && p[10] == 0xcc623af3 && p[11] == 0x6a99b4ac
    && p[12] == 0x08d12e65 && p[13] == 0xa708a81e && p[14] == 0x454021d7 && p[15] == 0xe3779b90 && p[16] == 0x81af1549 && p[17] == 0x1fe68f02
  }

  lemma TestF(s: seq<Word>, a: bv8, b: bv8, c: bv8, d: bv8, w: Word, x: Word, y: Word, z: Word, u: Word, f: Word)
    requires TestBoxes(s) && u == FromBytes(a, b, c, d)
    requires w == s[a as nat] && x == s[256 + b as nat] && y == s[512 + c as nat] && z == s[768 + d as nat]
    requires f == Mix(w, x, y, z)
    ensures F(s, u) == f
  {
    SelectedByBytes(s, a, b, c, d);
  }

  lemma OneRound(p: seq<Word>, s: seq<Word>, b: Block, n: nat, r: Block, x: Word, t: Block)
    requires |p| == PSIZE && |s| == SSIZE && n < ROUNDS && Rounds(p, s, b, n) == r
    requires x == Xor(r.left, p[n]) && t == Block(Xor(F(s, x), r.right), x)
    ensures Rounds(p, s, b, n + 1) == t
  {}

  lemma TestRounds1(p: seq<Word>, s: seq<Word>, b: Block, n: nat)
    requires TestKeys(p) && TestBoxes(s) && n == 0 && Rounds(p, s, b, n) == Block(0x01020304, 0x05060708)
    ensures Rounds(p, s, b, n + 4) == Block(0x2b9362e5, 0x0ee06e42)
  {
    TestF(s, 0x9f, 0x35, 0x7a, 0xbd, 0x89abcdef, 0x0f1e2d3c, 0x13579bdf, 0xfedcba98, 0x9f357abd, 0x8a7b1b8c);
    OneRound(p, s, b, n, Block(0x01020304, 0x05060708), 0x9f357abd, Block(0x8f7d1c84, 0x9f357abd));
    TestF(s, 0xb3, 0x13, 0xef, 0xf6, 0x89abcdef, 0x0f1e2d3c, 0x2468ace0, 0xfedcba98, 0xb313eff6, 0xbb7e1263);
    OneRound(p, s, b, n + 1, Block(0x8f7d1c84, 0x9f357abd), 0xb313eff6, Block(0x244b68de, 0xb313eff6));
    TestF(s, 0xfe, 0xed, 0x05, 0xf5, 0x89abcdef, 0x4b5a6978, 0x13579bdf, 0xfedcba98, 0xfeed05f5, 0xc52e6750);
    OneRound(p, s, b, n + 2, Block(0x244b68de, 0xb313eff6), 0xfeed05f5, Block(0x763d88a6, 0xfeed05f5));
    TestF(s, 0x0e, 0xe0, 0x6e, 0x42, 0x01234567, 0x4b5a6978, 0x13579bdf, 0x76543210, 0x0ee06e42, 0xd57e6710);
    OneRound(p, s, b, n + 3, Block(0x763d88a6, 0xfeed05f5), 0x0ee06e42, Block(0x2b9362e5, 0x0ee06e42));
  }

  lemma TestRounds2(p: seq<Word>, s: seq<Word>, b: Block, n: nat)
    requires TestKeys(p) && TestBoxes(s) && n == 4 && Rounds(p, s, b, n) == Block(0x2b9362e5, 0x0ee06e42)
    ensures Rounds(p, s, b, n + 4) == Block(0x41203427, 0x9e9b8dc8)
  {
    TestF(s, 0x3c, 0x86, 0x02, 0x78, 0x01234567, 0x4b5a6978, 0x13579bdf, 0x76543210, 0x3c860278, 0xd57e6710);
    OneRound(p, s, b, n, Block(0x2b9362e5, 0x0ee06e42), 0x3c860278, Block(0xdb9e0952, 0x3c860278));
    TestF(s, 0x6e, 0xd2, 0xd3, 0x04, 0x01234567, 0x4b5a6978, 0x2468ace0, 0x76543210, 0x6ed2d304, 0xde69344f);
    OneRound(p, s, b, n + 1, Block(0xdb9e0952, 0x3c860278), 0x6ed2d304, Block(0xe2ef3637, 0x6ed2d304));
    TestF(s, 0xb1, 0x6b, 0x62, 0x38, 0x89abcdef, 0x0f1e2d3c, 0x13579bdf, 0x76543210, 0xb16b6238, 0x01f29304);
    OneRound(p, s, b, n + 2, Block(0xe2ef3637, 0x6ed2d304), 0xb16b6238, Block(0x6f204000, 0xb16b6238));
    TestF(s, 0x9e, 0x9b, 0x8d, 0xc8, 0x89abcdef, 0x4b5a6978, 0x2468ace0, 0xfedcba98, 0x9e9b8dc8, 0xf04b561f);
    OneRound(p, s, b, n + 3, Block(0x6f204000, 0xb16b6238), 0x9e9b8dc8, Block(0x41203427, 0x9e9b8dc8));
  }

  lemma TestRounds3(p: seq<Word>, s: seq<Word>, b: Block, n: nat)
    requires TestKeys(p) && TestBoxes(s) && n == 8 && Rounds(p, s, b, n) == Block(0x41203427, 0x9e9b8dc8)
    ensures Rounds(p, s, b, n + 4) == Block(0x02b14955, 0x79f723d9)
  {
    TestF(s, 0xce, 0xd3, 0x73, 0xa6, 0x89abcdef, 0x4b5a6978, 0x13579bdf, 0xfedcba98, 0xced373a6, 0xc52e6750);
    OneRound(p, s, b, n, Block(0x41203427, 0x9e9b8dc8), 0xced373a6, Block(0x5bb5ea98, 0xced373a6));
    TestF(s, 0x75, 0x9f, 0x2b, 0xa2, 0x01234567, 0x4b5a6978, 0x13579bdf, 0xfedcba98, 0x759f2ba2, 0x5e06ef98);
    OneRound(p, s, b, n + 1, Block(0x5bb5ea98, 0xced373a6), 0x759f2ba2, Block(0x90d59c3e, 0x759f2ba2));
    TestF(s, 0x5c, 0xb7, 0xa6, 0xcd, 0x01234567, 0x4b5a6978, 0x2468ace0, 0xfedcba98, 0x5cb7a6cd, 0x66f1bcd7);
    OneRound(p, s, b, n + 2, Block(0x90d59c3e, 0x759f2ba2), 0x5cb7a6cd, Block(0x136e9775, 0x5cb7a6cd));
    TestF(s, 0x79, 0xf7, 0x23, 0xd9, 0x01234567, 0x4b5a6978, 0x13579bdf, 0xfedcba98, 0x79f723d9, 0x5e06ef98);
    OneRound(p, s, b, n + 3, Block(0x136e9775, 0x5cb7a6cd), 0x79f723d9, Block(0x02b14955, 0x79f723d9));
  }

  lemma TestRounds4(p: seq<Word>, s: seq<Word>, b: Block, n: nat)
    requires TestKeys(p) && TestBoxes(s) && n == 12 && Rounds(p, s, b, n) == Block(0x02b14955, 0x79f723d9)
    ensures Rounds(p, s, b, n + 4) == Block(0xedccec20, 0x9a8a3f94)
  {
    TestF(s, 0x0a, 0x60, 0x67, 0x30, 0x01234567, 0x0f1e2d3c, 0x13579bdf, 0x76543210, 0x0a606730, 0x796b1b8c);
    OneRound(p, s, b, n, Block(0x02b14955, 0x79f723d9), 0x0a606730, Block(0x009c3855, 0x0a606730));
    TestF(s, 0xa7, 0x94, 0x90, 0x4b, 0x89abcdef, 0x4b5a6978, 0x2468ace0, 0x76543210, 0xa794904b, 0x67c2cd97);
    OneRound(p, s, b, n + 1, Block(0x009c3855, 0x0a606730), 0xa794904b, Block(0x6da2aaa7, 0xa794904b));
    TestF(s, 0x28, 0xe2, 0x8b, 0x70, 0x01234567, 0x4b5a6978, 0x2468ace0, 0x76543210, 0x28e28b70, 0xde69344f);
    OneRound(p, s, b, n + 2, Block(0x6da2aaa7, 0xa794904b), 0x28e28b70, Block(0x79fda404, 0x28e28b70));
    TestF(s, 0x9a, 0x8a, 0x3f, 0x94, 0x89abcdef, 0x4b5a6978, 0x13579bdf, 0xfedcba98, 0x9a8a3f94, 0xc52e6750);
    OneRound(p, s, b, n + 3, Block(0x79fda404, 0x28e28b70), 0x9a8a3f94, Block(0xedccec20, 0x9a8a3f94));
  }

  /** One block in numbers. */
  lemma KnownBlock(p: seq<Word>, s: seq<Word>)
    requires TestKeys(p) && TestBoxes(s)
    ensures Crypt(p, s, Block(0x01020304, 0x05060708)) == Block(0x856cb096, 0x6c63f969)
    ensures Decipher(p, s, Block(0x856cb096, 0x6c63f969)) == Block(0x01020304, 0x05060708)
  {
    var b := Block(0x01020304, 0x05060708);
    var n: nat := 0;
    TestRounds1(p, s, b, n);
    TestRounds2(p, s, b, n + 4);
    TestRounds3(p, s, b, n + 8);
    TestRounds4(p, s, b, n + 12);
    DecryptEncrypted(p, s, b);
  }

  function Backwards(p: seq<Word>): (q: seq<Word>)
    requires |p| == PSIZE
    ensures |q| == PSIZE && forall k :: 0 <= k < PSIZE ==> q[k] == p[17 - k]
  {
    seq(PSIZE, k requires 0 <= k < PSIZE => p[17 - k])
  }

  /** Decryption is encryption with the subkeys in reverse order. */
  function Decipher(p: seq<Word>, s: seq<Word>, b: Block): Block
    requires |p| == PSIZE && |s| == SSIZE
  {
    Crypt(Backwards(p), s, b)
  }

  /** One round of decryption takes the state of round n, masked with subkeys, to that of round n - 1. */
  lemma RoundBack(f: Word, l: Word, r: Word, x: Word, pn: Word, pPrev: Word, pNext: Word)
    requires x == Xor(l, pPrev)
    ensures Xor(Xor(x, pNext), pNext) == x
    ensures Xor(f, Xor(Xor(f, r), pn)) == Xor(r, pn)
  {
    XorTwice(x, pNext);
    XorAssoc(f, r, pn);
    XorTwice(Xor(r, pn), f);
  }

  /** After k rounds of decryption the state is that of round 16 - k, swapped and masked. */
  lemma {:induction false} DecryptRounds(p: seq<Word>, s: seq<Word>, b: Block, k: nat)
    requires |p| == PSIZE && |s| == SSIZE && k <= ROUNDS
    ensures var r := Rounds(p, s, b, ROUNDS - k);
            Rounds(Backwards(p), s, Crypt(p, s, b), k) == Block(Xor(r.right, p[17 - k]), Xor(r.left, p[16 - k]))
    decreases k
  {
    if k > 0 {
      DecryptRounds(p, s, b, k - 1);
      var n: nat := 17 - k;
      var q := Rounds(p, s, b, n - 1);
      var x := Xor(q.left, p[n - 1]);
      RoundBack(F(s, x), q.left, q.right, x, p[n], p[n - 1], p[n + 1]);
    }
  }

  /** For all boxes: decrypting an encrypted block gives the block. */
  lemma DecryptEncrypted(p: seq<Word>, s: seq<Word>, b: Block)
    requires |p| == PSIZE && |s| == SSIZE
    ensures Decipher(p, s, Crypt(p, s, b)) == b
  {
    var n: nat := ROUNDS;
    DecryptRounds(p, s, b, n);
    XorTwice(b.right, p[1]);
    XorTwice(b.left, p[0]);
  }

  /** And encrypting a decrypted block. */
  lemma EncryptDecrypted(p: seq<Word>, s: seq<Word>, b: Block)
    requires |p| == PSIZE && |s| == SSIZE
    ensures Crypt(p, s, Decipher(p, s, b)) == b
  {
    DecryptEncrypted(Backwards(p), s, b);
    assert Backwards(Backwards(p)) == p;
  }
}
