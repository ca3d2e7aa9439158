/** The Blowfish class (blowfish.cpp): key schedule, block procedures, and the three buffer modes. */
module Blowfish {
  import opened Powers
  import opened BlowfishCipher

  const ECB := 0
  const CBC := 1
  const CFB := 2

  // ---------- Bytes and blocks ----------

  /** Block k of a buffer. */
  function BlockAt(t: seq<bv8>, k: nat): Block
    requires 8 * k + 8 <= |t|
  {
    var i := 8 * k;
    Block(FromBytes(t[i], t[i + 1], t[i + 2], t[i + 3]), FromBytes(t[i + 4], t[i + 5], t[i + 6], t[i + 7]))
  }

  lemma SameWord(a: bv8, b: bv8, c: bv8, d: bv8, a': bv8, b': bv8, c': bv8, d': bv8)
    requires FromBytes(a, b, c, d) == FromBytes(a', b', c', d')
    ensures a == a' && b == b' && c == c' && d == d'
  {
    WordOfBytes(a, b, c, d);
    WordOfBytes(a', b', c', d');
  }

  /** Buffers with the same blocks have the same bytes. */
  lemma SameBlocks(t: seq<bv8>, u: seq<bv8>, n: nat)
    requires 8 * n <= |t| && 8 * n <= |u|
    requires forall k {:trigger BlockAt(t, k)} {:trigger BlockAt(u, k)} :: 0 <= k < n ==> BlockAt(t, k) == BlockAt(u, k)
    ensures t[..8 * n] == u[..8 * n]
  {
    forall j | 0 <= j < 8 * n ensures t[j] == u[j] {
      var k := j / 8;
      var i := 8 * k;
      assert BlockAt(t, k) == BlockAt(u, k);
      SameWord(t[i], t[i + 1], t[i + 2], t[i + 3], u[i], u[i + 1], u[i + 2], u[i + 3]);
      SameWord(t[i + 4], t[i + 5], t[i + 6], t[i + 7], u[i + 4], u[i + 5], u[i + 6], u[i + 7]);
    }
  }

  // ---------- The modes ----------

  function XorBlock(a: Block, b: Block): Block {
    Block(Xor(a.left, b.left), Xor(a.right, b.right))
  }

  lemma XorBlockTwice(a: Block, b: Block)
    ensures XorBlock(XorBlock(a, b), b) == a
  {
    XorTwice(a.left, b.left);
    XorTwice(a.right, b.right);
  }

  /** The boxes and the initial chaining block. */
  datatype Key = Key(p: seq<Word>, s: seq<Word>, chain: Block) {
    ghost predicate Valid() {
      |p| == PSIZE && |s| == SSIZE
    }
  }

  /** One block, given the ciphertext block before it. */
  function EncryptStep(key: Key, mode: int, b: Block, previous: Block): Block
    requires key.Valid()
  {
    if mode == CBC then Crypt(key.p, key.s, XorBlock(b, previous))
    else if mode == CFB then XorBlock(b, Crypt(key.p, key.s, previous))
    else Crypt(key.p, key.s, b)
  }

  function DecryptStep(key: Key, mode: int, b: Block, previous: Block): Block
    requires key.Valid()
  {
    if mode == CBC then XorBlock(Decipher(key.p, key.s, b), previous)
    else if mode == CFB then XorBlock(b, Crypt(key.p, key.s, previous))
    else Decipher(key.p, key.s, b)
  }

  lemma DecryptOfEncryptStep(key: Key, mode: int, b: Block, previous: Block)
    requires key.Valid()
    ensures DecryptStep(key, mode, EncryptStep(key, mode, b, previous), previous) == b
    ensures EncryptStep(key, mode, DecryptStep(key, mode, b, previous), previous) == b
  {
    DecryptEncrypted(key.p, key.s, b);
    DecryptEncrypted(key.p, key.s, XorBlock(b, previous));
    EncryptDecrypted(key.p, key.s, b);
    XorBlockTwice(b, previous);
    XorBlockTwice(b, Crypt(key.p, key.s, previous));
    XorBlockTwice(Decipher(key.p, key.s, b), previous);
  }

  /** Block k of the ciphertext of t, chained from block to block. */
  function Cipher(key: Key, mode: int, t: seq<bv8>, k: nat): Block
    requires key.Valid() && 8 * k + 8 <= |t|
    decreases k, t
  {
    EncryptStep(key, mode, BlockAt(t, k), if k == 0 then key.chain else Cipher(key, mode, t, k - 1))
  }

  /** Block k of the plaintext of c, which needs the ciphertext block before it only. */
  function Plain(key: Key, mode: int, c: seq<bv8>, k: nat): Block
    requires key.Valid() && 8 * k + 8 <= |c|
  {
    DecryptStep(key, mode, BlockAt(c, k), if k == 0 then key.chain else BlockAt(c, k - 1))
  }

  /** The first blocks of the ciphertext, and of the plaintext. */
  ghost predicate AllCipher(key: Key, mode: int, t: seq<bv8>, out: seq<Block>) {
    key.Valid() && 8 * |out| <= |t| && forall j {:trigger out[j]} :: 0 <= j < |out| ==> out[j] == Cipher(key, mode, t, j)
  }

  ghost predicate AllPlain(key: Key, mode: int, c: seq<bv8>, out: seq<Block>) {
    key.Valid() && 8 * |out| <= |c| && forall j {:trigger out[j]} :: 0 <= j < |out| ==> out[j] == Plain(key, mode, c, j)
  }

  ghost function Previous(key: Key, out: seq<Block>): Block {
    if out == [] then key.chain else out[|out| - 1]
  }

  ghost function PreviousIn(key: Key, c: seq<bv8>, k: nat): Block
    requires 8 * k <= |c|
  {
    if k == 0 then key.chain else BlockAt(c, k - 1)
  }

  lemma NextCipher(key: Key, mode: int, t: seq<bv8>, out: seq<Block>, work: Block)
    requires AllCipher(key, mode, t, out) && 8 * |out| + 8 <= |t|
    requires work == EncryptStep(key, mode, BlockAt(t, |out|), Previous(key, out))
    ensures AllCipher(key, mode, t, out + [work])
  {
    var k := |out|;
    assert k > 0 ==> out[k - 1] == Cipher(key, mode, t, k - 1);
  }

  lemma CfbStep(key: Key, b: Block, previous: Block, work: Block)
    requires key.Valid() && work == XorBlock(b, Crypt(key.p, key.s, previous))
    ensures work == DecryptStep(key, CFB, b, previous)
  {}

  lemma NextPlain(key: Key, mode: int, c: seq<bv8>, out: seq<Block>, work: Block)
    requires AllPlain(key, mode, c, out) && 8 * |out| + 8 <= |c|
    requires work == DecryptStep(key, mode, BlockAt(c, |out|), PreviousIn(key, c, |out|))
    ensures AllPlain(key, mode, c, out + [work])
  {}

  lemma EncryptedBy(key: Key, mode: int, t: seq<bv8>, c: seq<bv8>, out: seq<Block>)
    requires AllCipher(key, mode, t, out) && Stored(c, out)
    ensures Encrypted(key, mode, t, c, |out|)
  {
    forall k | 0 <= k < |out| ensures BlockAt(c, k) == Cipher(key, mode, t, k) {
      assert BlockAt(c, k) == out[k];
    }
  }

  lemma DecryptedBy(key: Key, mode: int, c: seq<bv8>, t: seq<bv8>, out: seq<Block>)
    requires AllPlain(key, mode, c, out) && Stored(t, out)
    ensures Decrypted(key, mode, c, t, |out|)
  {
    forall k | 0 <= k < |out| ensures BlockAt(t, k) == Plain(key, mode, c, k) {
      assert BlockAt(t, k) == out[k];
    }
  }

  ghost predicate Encrypted(key: Key, mode: int, t: seq<bv8>, c: seq<bv8>, n: nat) {
    key.Valid() && 8 * n <= |t| && 8 * n <= |c|
    && forall k {:trigger BlockAt(c, k)} :: 0 <= k < n ==> BlockAt(c, k) == Cipher(key, mode, t, k)
  }

  ghost predicate Decrypted(key: Key, mode: int, c: seq<bv8>, t: seq<bv8>, n: nat) {
    key.Valid() && 8 * n <= |t| && 8 * n <= |c|
    && forall k {:trigger BlockAt(t, k)} :: 0 <= k < n ==> BlockAt(t, k) == Plain(key, mode, c, k)
  }

  /**
   * The modes in words: 1 xors each block with the encrypted block before it and encrypts; 2 encrypts the block before
   * it and xors; any other encrypts the block alone.
   */
  lemma EncryptedBlocks(key: Key, mode: int, t: seq<bv8>, c: seq<bv8>, n: nat, k: nat)
    requires Encrypted(key, mode, t, c, n) && k < n
    ensures var b, last := BlockAt(t, k), if k == 0 then key.chain else BlockAt(c, k - 1);
            var pad := Crypt(key.p, key.s, last);
            (mode == 1 ==> BlockAt(c, k) == Crypt(key.p, key.s, Block(Xor(b.left, last.left), Xor(b.right, last.right))))
            && (mode == 2 ==> BlockAt(c, k) == Block(Xor(b.left, pad.left), Xor(b.right, pad.right)))
            && (mode != 1 && mode != 2 ==> BlockAt(c, k) == Crypt(key.p, key.s, b))
  {
    assert BlockAt(c, k) == Cipher(key, mode, t, k);
    assert k > 0 ==> BlockAt(c, k - 1) == Cipher(key, mode, t, k - 1);
  }

  lemma PlainOfCipher(key: Key, mode: int, t: seq<bv8>, c: seq<bv8>, n: nat, k: nat)
    requires Encrypted(key, mode, t, c, n) && k < n
    ensures Plain(key, mode, c, k) == BlockAt(t, k)
  {
    var previous := if k == 0 then key.chain else Cipher(key, mode, t, k - 1);
    assert k > 0 ==> BlockAt(c, k - 1) == previous;
    assert BlockAt(c, k) == Cipher(key, mode, t, k);
    DecryptOfEncryptStep(key, mode, BlockAt(t, k), previous);
  }

  /** In every mode, decrypting the encryption of a buffer of n blocks gives the buffer. */
  lemma DecryptUndoesEncrypt(key: Key, mode: int, t: seq<bv8>, c: seq<bv8>, u: seq<bv8>, n: nat)
    requires Encrypted(key, mode, t, c, n) && Decrypted(key, mode, c, u, n)
    ensures u[..8 * n] == t[..8 * n]
  {
    forall k {:trigger BlockAt(t, k)} | 0 <= k < n ensures BlockAt(t, k) == BlockAt(u, k) {
      PlainOfCipher(key, mode, t, c, n, k);
      assert BlockAt(u, k) == Plain(key, mode, c, k);
    }
    SameBlocks(u, t, n);
  }

  lemma {:induction false} CipherOfPlain(key: Key, mode: int, c: seq<bv8>, t: seq<bv8>, n: nat, k: nat)
    requires Decrypted(key, mode, c, t, n) && k < n
    ensures Cipher(key, mode, t, k) == BlockAt(c, k)
    decreases k
  {
    if k > 0 { CipherOfPlain(key, mode, c, t, n, k - 1); }
    assert BlockAt(t, k) == Plain(key, mode, c, k);
    DecryptOfEncryptStep(key, mode, BlockAt(c, k), if k == 0 then key.chain else BlockAt(c, k - 1));
  }

  /** And encrypting its decryption. */
  lemma EncryptUndoesDecrypt(key: Key, mode: int, c: seq<bv8>, t: seq<bv8>, d: seq<bv8>, n: nat)
    requires Decrypted(key, mode, c, t, n) && Encrypted(key, mode, t, d, n)
    ensures d[..8 * n] == c[..8 * n]
  {
    forall k {:trigger BlockAt(c, k)} | 0 <= k < n ensures BlockAt(c, k) == BlockAt(d, k) {
      CipherOfPlain(key, mode, c, t, n, k);
      assert BlockAt(d, k) == Cipher(key, mode, t, k);
    }
    SameBlocks(d, c, n);
  }

  // ---------- The buffer procedures ----------

  method BytesToBlock(buf: array<bv8>, k: nat) returns (b: Block)
    requires 8 * k + 8 <= buf.Length
    ensures b == BlockAt(buf[..], k)
  {
    var i := 8 * k;
    b := Block(FromBytes(buf[i], buf[i + 1], buf[i + 2], buf[i + 3]), FromBytes(buf[i + 4], buf[i + 5], buf[i + 6], buf[i + 7]));
  }

  method WordToBytes(w: Word, buf: array<bv8>, i: nat)
    requires i + 4 <= buf.Length
    modifies buf
    ensures FromBytes(buf[i], buf[i + 1], buf[i + 2], buf[i + 3]) == w
    ensures forall j :: 0 <= j < buf.Length && !(i <= j < i + 4) ==> buf[j] == old(buf[j])
  {
    BytesOfWord(w);
    buf[i + 3] := Byte(w);
    buf[i + 2] := Byte(w >> 8);
    buf[i + 1] := Byte(w >> 16);
    buf[i] := Byte(w >> 24);
  }

  method BlockToBytes(b: Block, buf: array<bv8>, k: nat)
    requires 8 * k + 8 <= buf.Length
    modifies buf
    ensures BlockAt(buf[..], k) == b
    ensures forall j :: 0 <= j < buf.Length && !(8 * k <= j < 8 * k + 8) ==> buf[j] == old(buf[j])
  {
    WordToBytes(b.right, buf, 8 * k + 4);
    WordToBytes(b.left, buf, 8 * k);
  }

  // ---------- The key schedule ----------

  const MAXKEY: nat := 56

  /** Four key bytes from position 4 * i on, the key repeated as often as needed. */
  function KeyWord(key: seq<bv8>, i: nat): Word
    requires |key| > 0
  {
    FromBytes(key[4 * i % |key|], key[(4 * i + 1) % |key|], key[(4 * i + 2) % |key|], key[(4 * i + 3) % |key|])
  }

  /** A key of five bytes in the first five subkeys. */
  lemma KeyInNumbers(key: seq<bv8>)
    requires |key| == 5 && key[0] == 0x11 && key[1] == 0x22 && key[2] == 0x33 && key[3] == 0x44 && key[4] == 0x55
    ensures KeyWord(key, 0) == 0x11223344 && KeyWord(key, 1) == 0x55112233 && KeyWord(key, 2) == 0x44551122
    ensures KeyWord(key, 3) == 0x33445511 && KeyWord(key, 4) == 0x22334455
  {}

  function KeyUsed(key: seq<bv8>): seq<bv8> {
    if |key| > MAXKEY then key[..MAXKEY] else key
  }

  ghost predicate Keyed(key: seq<bv8>, init: seq<Word>, p: seq<Word>) {
    |key| > 0 && |init| == |p| == PSIZE && forall i :: 0 <= i < PSIZE ==> p[i] == Xor(init[i], KeyWord(key, i))
  }

  /** Pair i of a box holds the encryption of the pair before it, by what the boxes were when it was written. */
  ghost predicate PairOfP(k: seq<Word>, s: seq<Word>, p: seq<Word>, i: nat)
    requires |k| == |p| == PSIZE && |s| == SSIZE && i < 9
  {
    Block(p[2 * i], p[2 * i + 1])
      == Crypt(p[..2 * i] + k[2 * i..], s, if i == 0 then Block(0, 0) else Block(p[2 * i - 2], p[2 * i - 1]))
  }

  ghost predicate PairOfS(p: seq<Word>, init: seq<Word>, s: seq<Word>, i: nat)
    requires |p| == PSIZE && |init| == |s| == SSIZE && i < 512
  {
    Block(s[2 * i], s[2 * i + 1])
      == Crypt(p, s[..2 * i] + init[2 * i..], if i == 0 then Block(p[16], p[17]) else Block(s[2 * i - 2], s[2 * i - 1]))
  }

  ghost predicate PairsOfP(k: seq<Word>, s: seq<Word>, p: seq<Word>, n: nat) {
    |k| == |p| == PSIZE && |s| == SSIZE && n <= 9
    && forall i {:trigger PairOfP(k, s, p, i)} :: 0 <= i < n ==> PairOfP(k, s, p, i)
  }

  ghost predicate PairsOfS(p: seq<Word>, init: seq<Word>, s: seq<Word>, n: nat) {
    |p| == PSIZE && |init| == |s| == SSIZE && n <= 512
    && forall i {:trigger PairOfS(p, init, s, i)} :: 0 <= i < n ==> PairOfS(p, init, s, i)
  }

  /** The boxes that a key and the initial boxes give. */
  ghost predicate Schedule(key: seq<bv8>, initP: seq<Word>, initS: seq<Word>, p: seq<Word>, s: seq<Word>) {
    PairsOfS(p, initS, s, 512) && exists k :: Keyed(key, initP, k) && PairsOfP(k, initS, p, 9)
  }

  lemma NextPairOfP(k: seq<Word>, s: seq<Word>, p: seq<Word>, q: seq<Word>, previous: Block, b: Block, n: nat)
    requires PairsOfP(k, s, p, n) && n < 9 && p[2 * n..] == k[2 * n..]
    requires previous == if n == 0 then Block(0, 0) else Block(p[2 * n - 2], p[2 * n - 1])
    requires b == Crypt(p, s, previous) && q == p[2 * n := b.left][2 * n + 1 := b.right]
    ensures PairsOfP(k, s, q, n + 1) && q[2 * n + 2..] == k[2 * n + 2..]
  {
    assert p == q[..2 * n] + k[2 * n..];
    forall i | 0 <= i < n ensures PairOfP(k, s, q, i) { StillPairOfP(k, s, p, q, n, i); }
    assert PairOfP(k, s, q, n);
    SameTail(p, q, k, 2 * n);
  }

  lemma StillPairOfP(k: seq<Word>, s: seq<Word>, p: seq<Word>, q: seq<Word>, n: nat, i: nat)
    requires PairsOfP(k, s, p, n) && i < n && |q| == PSIZE && forall j :: 0 <= j < 2 * n ==> q[j] == p[j]
    ensures PairOfP(k, s, q, i)
  {
    assert PairOfP(k, s, p, i);
    Agree(p, q, 2 * n, i);
  }

  lemma SameTail(p: seq<Word>, q: seq<Word>, k: seq<Word>, m: nat)
    requires m + 2 <= |p| == |q| == |k| && p[m..] == k[m..] && forall j :: m + 2 <= j < |p| ==> q[j] == p[j]
    ensures q[m + 2..] == k[m + 2..]
  {
    assert p[m..][2..] == k[m..][2..];
    assert p[m + 2..] == p[m..][2..] && k[m + 2..] == k[m..][2..];
  }

  lemma NextPairOfS(p: seq<Word>, init: seq<Word>, s: seq<Word>, q: seq<Word>, previous: Block, b: Block, n: nat)
    requires PairsOfS(p, init, s, n) && n < 512 && s[2 * n..] == init[2 * n..]
    requires previous == if n == 0 then Block(p[16], p[17]) else Block(s[2 * n - 2], s[2 * n - 1])
    requires b == Crypt(p, s, previous) && q == s[2 * n := b.left][2 * n + 1 := b.right]
    ensures PairsOfS(p, init, q, n + 1) && q[2 * n + 2..] == init[2 * n + 2..]
  {
    assert s == q[..2 * n] + init[2 * n..];
    forall i | 0 <= i < n ensures PairOfS(p, init, q, i) { StillPairOfS(p, init, s, q, n, i); }
    assert PairOfS(p, init, q, n);
    SameTail(s, q, init, 2 * n);
  }

  lemma StillPairOfS(p: seq<Word>, init: seq<Word>, s: seq<Word>, q: seq<Word>, n: nat, i: nat)
    requires PairsOfS(p, init, s, n) && i < n && |q| == SSIZE && forall j :: 0 <= j < 2 * n ==> q[j] == s[j]
    ensures PairOfS(p, init, q, i)
  {
    assert PairOfS(p, init, s, i);
    Agree(s, q, 2 * n, i);
  }

  lemma Agree(p: seq<Word>, q: seq<Word>, n: nat, i: nat)
    requires |p| == |q| && 2 * i + 1 < n <= |p| && forall j :: 0 <= j < n ==> p[j] == q[j]
    ensures p[2 * i] == q[2 * i] && p[2 * i + 1] == q[2 * i + 1] && p[..2 * i] == q[..2 * i]
    ensures i > 0 ==> p[2 * i - 2] == q[2 * i - 2] && p[2 * i - 1] == q[2 * i - 1]
  {}

  /** A key written twice over is the same key, as long as no byte of it is cut off. */
  lemma RepeatedKey(key: seq<bv8>, i: nat)
    requires |key| > 0
    ensures KeyWord(key + key, i) == KeyWord(key, i)
  {
    RepeatedByte(key, 4 * i);
    RepeatedByte(key, 4 * i + 1);
    RepeatedByte(key, 4 * i + 2);
    RepeatedByte(key, 4 * i + 3);
  }

  /** The keyed subkeys depend on the key words alone. */
  lemma RepeatedKeyed(key: seq<bv8>, init: seq<Word>, p: seq<Word>)
    requires |key| > 0
    ensures Keyed(key + key, init, p) <==> Keyed(key, init, p)
  {
    forall i: nat ensures KeyWord(key + key, i) == KeyWord(key, i) { RepeatedKey(key, i); }
  }

  lemma SameKeyed(key: seq<bv8>, init: seq<Word>, k: seq<Word>, k': seq<Word>)
    requires Keyed(key, init, k) && Keyed(key, init, k')
    ensures k == k'
  {}

  /** The key and the initial boxes determine the boxes. */
  lemma ScheduleUnique(key: seq<bv8>, initP: seq<Word>, initS: seq<Word>, p: seq<Word>, s: seq<Word>, p': seq<Word>, s': seq<Word>)
    requires Schedule(key, initP, initS, p, s) && Schedule(key, initP, initS, p', s')
    ensures p == p' && s == s'
  {
    var k :| Keyed(key, initP, k) && PairsOfP(k, initS, p, 9);
    var k' :| Keyed(key, initP, k') && PairsOfP(k', initS, p', 9);
    SameKeyed(key, initP, k, k');
    SameP(k, initS, p, p', 9);
    WholeBox(p, p', PSIZE);
    SameS(p, initS, s, s', 512);
    WholeBox(s, s', SSIZE);
  }

  lemma WholeBox(p: seq<Word>, q: seq<Word>, n: nat)
    requires |p| == |q| == n && p[..n] == q[..n]
    ensures p == q
  {
    assert p[..n] == p && q[..n] == q;
  }

  /** A key of up to 28 bytes and the key written twice give the same boxes. */
  lemma RepeatedKeySameBoxes(key: seq<bv8>, initP: seq<Word>, initS: seq<Word>, p: seq<Word>, s: seq<Word>, p': seq<Word>, s': seq<Word>)
    requires 0 < |key| <= 28
    requires Schedule(KeyUsed(key), initP, initS, p, s) && Schedule(KeyUsed(key + key), initP, initS, p', s')
    ensures p == p' && s == s'
  {
    var k' :| Keyed(key + key, initP, k') && PairsOfP(k', initS, p', 9);
    RepeatedKeyed(key, initP, k');
    ScheduleUnique(key, initP, initS, p, s, p', s');
  }

  /** The boxes are determined pair by pair. */
  lemma {:induction false} SameP(k: seq<Word>, s: seq<Word>, p: seq<Word>, q: seq<Word>, n: nat)
    requires n <= 9 && PairsOfP(k, s, p, n) && PairsOfP(k, s, q, n)
    ensures p[..2 * n] == q[..2 * n]
    decreases n
  {
    if n > 0 {
      SameP(k, s, p, q, n - 1);
      assert PairOfP(k, s, p, n - 1) && PairOfP(k, s, q, n - 1);
      TwoMore(p, q, n - 1);
    }
  }

  lemma {:induction false} SameS(p: seq<Word>, init: seq<Word>, s: seq<Word>, t: seq<Word>, n: nat)
    requires n <= 512 && PairsOfS(p, init, s, n) && PairsOfS(p, init, t, n)
    ensures s[..2 * n] == t[..2 * n]
    decreases n
  {
    if n > 0 {
      SameS(p, init, s, t, n - 1);
      assert PairOfS(p, init, s, n - 1) && PairOfS(p, init, t, n - 1);
      TwoMore(s, t, n - 1);
    }
  }

  lemma TwoMore(p: seq<Word>, q: seq<Word>, n: nat)
    requires 2 * n + 2 <= |p| && |q| == |p| && p[..2 * n] == q[..2 * n]
    ensures n > 0 ==> p[2 * n - 2] == q[2 * n - 2] && p[2 * n - 1] == q[2 * n - 1]
    ensures p[2 * n] == q[2 * n] && p[2 * n + 1] == q[2 * n + 1] ==> p[..2 * n + 2] == q[..2 * n + 2]
  {
    if n > 0 {
      assert p[..2 * n][2 * n - 2] == q[..2 * n][2 * n - 2] && p[..2 * n][2 * n - 1] == q[..2 * n][2 * n - 1];
    }
    if p[2 * n] == q[2 * n] && p[2 * n + 1] == q[2 * n + 1] {
      assert p[..2 * n + 2] == p[..2 * n] + [p[2 * n], p[2 * n + 1]];
      assert q[..2 * n + 2] == q[..2 * n] + [q[2 * n], q[2 * n + 1]];
    }
  }

  lemma RepeatedByte(key: seq<bv8>, j: nat)
    requires |key| > 0
    ensures (key + key)[j % |key + key|] == key[j % |key|]
  {
    var n := |key|;
    ModMod(j, n, 2);
    var m := j % (n * 2);
    if m >= n { DivModUnique(m, n, 1, m - n); } else { DivModUnique(m, n, 0, m); }
  }

  // ---------- Storing block after block ----------

  ghost predicate Same(a: seq<bv8>, b: seq<bv8>, from: nat) {
    |a| == |b| && forall j {:trigger a[j]} :: from <= j < |a| ==> a[j] == b[j]
  }

  ghost predicate Stored(d: seq<bv8>, out: seq<Block>) {
    8 * |out| <= |d| && forall j {:trigger BlockAt(d, j)} :: 0 <= j < |out| ==> BlockAt(d, j) == out[j]
  }

  /** After some blocks, out: they are in the destination, and source and destination are untouched from there on. */
  ghost predicate Progress(src: seq<bv8>, dst: seq<bv8>, t: seq<bv8>, d: seq<bv8>, out: seq<Block>) {
    Stored(dst, out) && Same(src, t, 8 * |out|) && Same(dst, d, 8 * |out|)
  }

  lemma SameBlock(a: seq<bv8>, b: seq<bv8>, k: nat)
    requires Same(a, b, 8 * k) && 8 * k + 8 <= |a|
    ensures BlockAt(a, k) == BlockAt(b, k)
  {
    var i := 8 * k;
    assert a[i] == b[i] && a[i + 1] == b[i + 1] && a[i + 2] == b[i + 2] && a[i + 3] == b[i + 3];
    assert a[i + 4] == b[i + 4] && a[i + 5] == b[i + 5] && a[i + 6] == b[i + 6] && a[i + 7] == b[i + 7];
  }

  lemma EarlierBlocks(d: seq<bv8>, e: seq<bv8>, out: seq<Block>)
    requires Stored(d, out) && |e| == |d| && forall j :: 0 <= j < 8 * |out| ==> e[j] == d[j]
    ensures Stored(e, out)
  {
    forall k | 0 <= k < |out| ensures BlockAt(e, k) == out[k] {
      assert BlockAt(d, k) == out[k];
    }
  }

  method LoadNext(src: array<bv8>, k: nat, ghost dst: seq<bv8>, ghost t: seq<bv8>, ghost d: seq<bv8>, ghost out: seq<Block>)
    returns (b: Block)
    requires Progress(src[..], dst, t, d, out) && k == |out| && 8 * k + 8 <= src.Length
    ensures b == BlockAt(t, k)
  {
    SameBlock(src[..], t, k);
    b := BytesToBlock(src, k);
  }

  /** Stores the next block; the source may be the same array. */
  method StoreNext(b: Block, src: array<bv8>, dst: array<bv8>, k: nat, ghost t: seq<bv8>, ghost d: seq<bv8>, ghost out: seq<Block>)
    requires Progress(src[..], dst[..], t, d, out) && k == |out| && 8 * k + 8 <= dst.Length
    modifies dst
    ensures Progress(src[..], dst[..], t, d, out + [b])
  {
    ghost var before := dst[..];
    BlockToBytes(b, dst, k);
    EarlierBlocks(before, dst[..], out);
  }

  class Blowfish {
    const p: array<Word>
    const s: array<Word>
    var chain0: Block
    var chain: Block

    ghost predicate Valid() {
      p.Length == PSIZE && s.Length == SSIZE && p != s
    }

    ghost function TheKey(): Key
      reads this, p, s
    {
      Key(p[..], s[..], chain)
    }

    constructor ()
      ensures Valid() && fresh(p) && fresh(s)
    {
      p := new Word[PSIZE];
      s := new Word[SSIZE];
      chain0, chain := Block(0, 0), Block(0, 0);
    }

    /** Encrypts one block; the two halves take turns instead of being swapped. */
    method EncryptBlock(b: Block) returns (r: Block)
      requires Valid()
      ensures r == Crypt(p[..], s[..], b)
    {
      var left, right := Xor(b.left, p[0]), b.right;
      var i: nat := 0;
      while i < 16
        invariant i <= 16 && i % 2 == 0
        invariant left == Xor(Rounds(p[..], s[..], b, i).left, p[i]) && right == Rounds(p[..], s[..], b, i).right
      {
        ghost var q := Rounds(p[..], s[..], b, i);
        Interleaved(q.right, F(s[..], left), p[i + 1]);
        right := Xor(right, Xor(F(s[..], left), p[i + 1]));
        assert right == Xor(Rounds(p[..], s[..], b, i + 1).left, p[i + 1]);
        Interleaved(left, F(s[..], right), p[i + 2]);
        left := Xor(left, Xor(F(s[..], right), p[i + 2]));
        i := i + 2;
      }
      right := Xor(right, p[17]);
      r := Block(right, left);
    }

    /** The same with the subkeys from the other end. */
    method DecryptBlock(b: Block) returns (r: Block)
      requires Valid()
      ensures r == Decipher(p[..], s[..], b)
    {
      ghost var back := Backwards(p[..]);
      var left, right := Xor(b.left, p[17]), b.right;
      var i: nat := 0;
      while i < 16
        invariant i <= 16 && i % 2 == 0
        invariant left == Xor(Rounds(back, s[..], b, i).left, p[17 - i]) && right == Rounds(back, s[..], b, i).right
      {
        ghost var q := Rounds(back, s[..], b, i);
        Interleaved(q.right, F(s[..], left), p[16 - i]);
        right := Xor(right, Xor(F(s[..], left), p[16 - i]));
        assert right == Xor(Rounds(back, s[..], b, i + 1).left, p[16 - i]);
        Interleaved(left, F(s[..], right), p[15 - i]);
        left := Xor(left, Xor(F(s[..], right), p[15 - i]));
        i := i + 2;
      }
      right := Xor(right, p[0]);
      r := Block(right, left);
    }

    /** Xors the subkeys with the key, going round its bytes. */
    method MixKey(key: seq<bv8>)
      requires Valid() && |key| > 0
      modifies p
      ensures Keyed(key, old(p[..]), p[..])
    {
      var at, i: nat := 0, 0;
      while i < PSIZE
        invariant i <= PSIZE && at == 4 * i % |key|
        invariant forall j :: 0 <= j < i ==> p[j] == Xor(old(p[j]), KeyWord(key, j))
        invariant forall j :: i <= j < PSIZE ==> p[j] == old(p[j])
      {
        var x;
        x, at := ReadWord(key, i, at);
        p[i] := Xor(p[i], x);
        i := i + 1;
      }
    }

    /** Fills p with the evolving encryption of zeros. */
    method EvolveP(ghost k: seq<Word>) returns (block: Block)
      requires Valid() && p[..] == k
      modifies p
      ensures PairsOfP(k, s[..], p[..], 9)
      ensures block == Block(p[16], p[17])
    {
      block := Block(0, 0);
      var i: nat := 0;
      while i < 9
        invariant i <= 9 && p[2 * i..] == k[2 * i..]
        invariant block == if i == 0 then Block(0, 0) else Block(p[2 * i - 2], p[2 * i - 1])
        invariant PairsOfP(k, s[..], p[..], i)
      {
        ghost var before, previous := p[..], block;
        block := EncryptBlock(block);
        p[2 * i] := block.left;
        p[2 * i + 1] := block.right;
        NextPairOfP(k, s[..], before, p[..], previous, block, i);
        i := i + 1;
      }
    }

    /** And goes on through the S boxes. */
    method EvolveS(start: Block, ghost init: seq<Word>)
      requires Valid() && s[..] == init && start == Block(p[16], p[17])
      modifies s
      ensures PairsOfS(p[..], init, s[..], 512)
    {
      var block := start;
      var i: nat := 0;
      while i < 512
        invariant i <= 512 && s[2 * i..] == init[2 * i..]
        invariant block == if i == 0 then Block(p[16], p[17]) else Block(s[2 * i - 2], s[2 * i - 1])
        invariant PairsOfS(p[..], init, s[..], i)
      {
        ghost var before, previous := s[..], block;
        block := EncryptBlock(block);
        s[2 * i] := block.left;
        s[2 * i + 1] := block.right;
        NextPairOfS(p[..], init, before, s[..], previous, block, i);
        i := i + 1;
      }
    }

    /** start: the initial boxes are parameters; an empty key is an error, found after the chain is set. */
    method Start(ucKey: seq<bv8>, roChain: Block, initP: seq<Word>, initS: seq<Word>) returns (ok: bool)
      requires Valid() && |initP| == PSIZE && |initS| == SSIZE
      modifies this, p, s
      ensures Valid() && chain0 == roChain && chain == roChain
      ensures ok <==> ucKey != []
      ensures ok ==> Schedule(KeyUsed(ucKey), initP, initS, p[..], s[..])
      ensures !ok ==> p[..] == old(p[..]) && s[..] == old(s[..])
    {
      chain0, chain := roChain, roChain;
      if |ucKey| < 1 { return false; }
      var key := KeyUsed(ucKey);
      forall i | 0 <= i < PSIZE { p[i] := initP[i]; }
      forall i | 0 <= i < SSIZE { s[i] := initS[i]; }
      assert p[..] == initP && s[..] == initS;
      MixKey(key);
      ghost var k := p[..];
      var block := EvolveP(k);
      EvolveS(block, initS);
      return true;
    }

    // The three modes. A buffer may be worked in place: src and dst may be the same array.

    method EncryptCbc(src: array<bv8>, dst: array<bv8>, n: nat)
      requires Valid() && 8 * n <= src.Length && 8 * n <= dst.Length
      modifies dst
      ensures TheKey() == old(TheKey()) && Encrypted(TheKey(), CBC, old(src[..]), dst[..], n) && Same(dst[..], old(dst[..]), 8 * n)
    {
      ghost var t, d, key, out := src[..], dst[..], TheKey(), [];
      var link := chain;
      var k: nat := 0;
      while k < n
        invariant k == |out| <= n && TheKey() == key && Progress(src[..], dst[..], t, d, out)
        invariant AllCipher(key, CBC, t, out)
        invariant link == Previous(key, out)
      {
        var work := LoadNext(src, k, dst[..], t, d, out);
        work := XorBlock(work, link);
        work := EncryptBlock(work);
        link := work;
        NextCipher(key, CBC, t, out, work);
        StoreNext(work, src, dst, k, t, d, out);
        out := out + [work];
        k := k + 1;
      }
      EncryptedBy(key, CBC, t, dst[..], out);
    }

    method EncryptCfb(src: array<bv8>, dst: array<bv8>, n: nat)
      requires Valid() && 8 * n <= src.Length && 8 * n <= dst.Length
      modifies dst
      ensures TheKey() == old(TheKey()) && Encrypted(TheKey(), CFB, old(src[..]), dst[..], n) && Same(dst[..], old(dst[..]), 8 * n)
    {
      ghost var t, d, key, out := src[..], dst[..], TheKey(), [];
      var link := chain;
      var k: nat := 0;
      while k < n
        invariant k == |out| <= n && TheKey() == key && Progress(src[..], dst[..], t, d, out)
        invariant AllCipher(key, CFB, t, out)
        invariant link == Previous(key, out)
      {
        link := EncryptBlock(link);
        var work := LoadNext(src, k, dst[..], t, d, out);
        work := XorBlock(work, link);
        link := work;
        NextCipher(key, CFB, t, out, work);
        StoreNext(work, src, dst, k, t, d, out);
        out := out + [work];
        k := k + 1;
      }
      EncryptedBy(key, CFB, t, dst[..], out);
    }

    method EncryptEcb(src: array<bv8>, dst: array<bv8>, n: nat)
      requires Valid() && 8 * n <= src.Length && 8 * n <= dst.Length
      modifies dst
      ensures TheKey() == old(TheKey()) && Encrypted(TheKey(), ECB, old(src[..]), dst[..], n) && Same(dst[..], old(dst[..]), 8 * n)
    {
      ghost var t, d, key, out := src[..], dst[..], TheKey(), [];
      var k: nat := 0;
      while k < n
        invariant k == |out| <= n && TheKey() == key && Progress(src[..], dst[..], t, d, out)
        invariant AllCipher(key, ECB, t, out)
      {
        var work := LoadNext(src, k, dst[..], t, d, out);
        work := EncryptBlock(work);
        NextCipher(key, ECB, t, out, work);
        StoreNext(work, src, dst, k, t, d, out);
        out := out + [work];
        k := k + 1;
      }
      EncryptedBy(key, ECB, t, dst[..], out);
    }

    method DecryptCbc(src: array<bv8>, dst: array<bv8>, n: nat)
      requires Valid() && 8 * n <= src.Length && 8 * n <= dst.Length
      modifies dst
      ensures TheKey() == old(TheKey()) && Decrypted(TheKey(), CBC, old(src[..]), dst[..], n) && Same(dst[..], old(dst[..]), 8 * n)
    {
      ghost var t, d, key, out := src[..], dst[..], TheKey(), [];
      var link := chain;
      var k: nat := 0;
      while k < n
        invariant k == |out| <= n && TheKey() == key && Progress(src[..], dst[..], t, d, out)
        invariant AllPlain(key, CBC, t, out)
        invariant link == PreviousIn(key, t, k)
      {
        var work := LoadNext(src, k, dst[..], t, d, out);
        var crypt := work;
        work := DecryptBlock(work);
        work := XorBlock(work, link);
        link := crypt;
        NextPlain(key, CBC, t, out, work);
        StoreNext(work, src, dst, k, t, d, out);
        out := out + [work];
        k := k + 1;
      }
      DecryptedBy(key, CBC, t, dst[..], out);
    }

    method DecryptCfb(src: array<bv8>, dst: array<bv8>, n: nat)
      requires Valid() && 8 * n <= src.Length && 8 * n <= dst.Length
      modifies dst
      ensures TheKey() == old(TheKey()) && Decrypted(TheKey(), CFB, old(src[..]), dst[..], n) && Same(dst[..], old(dst[..]), 8 * n)
    {
      ghost var t, d, key, out := src[..], dst[..], TheKey(), [];
      var link := chain;
      var k: nat := 0;
      while k < n
        invariant k == |out| <= n && TheKey() == key && Progress(src[..], dst[..], t, d, out)
        invariant AllPlain(key, CFB, t, out)
        invariant link == PreviousIn(key, t, k)
      {
        var work := LoadNext(src, k, dst[..], t, d, out);
        ghost var previous := link;
        link := EncryptBlock(link);
        var crypt := work;
        work := XorBlock(work, link);
        CfbStep(key, crypt, previous, work);
        link := crypt;
        NextPlain(key, CFB, t, out, work);
        StoreNext(work, src, dst, k, t, d, out);
        out := out + [work];
        k := k + 1;
      }
      DecryptedBy(key, CFB, t, dst[..], out);
    }

    method DecryptEcb(src: array<bv8>, dst: array<bv8>, n: nat)
      requires Valid() && 8 * n <= src.Length && 8 * n <= dst.Length
      modifies dst
      ensures TheKey() == old(TheKey()) && Decrypted(TheKey(), ECB, old(src[..]), dst[..], n) && Same(dst[..], old(dst[..]), 8 * n)
    {
      ghost var t, d, key, out := src[..], dst[..], TheKey(), [];
      var k: nat := 0;
      while k < n
        invariant k == |out| <= n && TheKey() == key && Progress(src[..], dst[..], t, d, out)
        invariant AllPlain(key, ECB, t, out)
      {
        var work := LoadNext(src, k, dst[..], t, d, out);
        work := DecryptBlock(work);
        NextPlain(key, ECB, t, out, work);
        StoreNext(work, src, dst, k, t, d, out);
        out := out + [work];
        k := k + 1;
      }
      DecryptedBy(key, ECB, t, dst[..], out);
    }

    /** encrypt: false, with nothing changed, unless n is positive and a multiple of 8; any other mode is ECB. */
    method Encrypt(src: array<bv8>, dst: array<bv8>, n: nat, mode: int) returns (ok: bool)
      requires Valid() && n <= src.Length && n <= dst.Length
      modifies dst
      ensures ok <==> n > 0 && n % 8 == 0
      ensures TheKey() == old(TheKey()) && Same(dst[..], old(dst[..]), if ok then n else 0)
      ensures ok ==> Encrypted(TheKey(), mode, old(src[..]), dst[..], n / 8)
    {
      if n == 0 || n % 8 != 0 { return false; }
      if mode == CBC { EncryptCbc(src, dst, n / 8); }
      else if mode == CFB { EncryptCfb(src, dst, n / 8); }
      else {
        EncryptEcb(src, dst, n / 8);
        OtherModes(TheKey(), mode, old(src[..]), dst[..], n / 8);
      }
      return true;
    }

    method Decrypt(src: array<bv8>, dst: array<bv8>, n: nat, mode: int) returns (ok: bool)
      requires Valid() && n <= src.Length && n <= dst.Length
      modifies dst
      ensures ok <==> n > 0 && n % 8 == 0
      ensures TheKey() == old(TheKey()) && Same(dst[..], old(dst[..]), if ok then n else 0)
      ensures ok ==> Decrypted(TheKey(), mode, old(src[..]), dst[..], n / 8)
    {
      if n == 0 || n % 8 != 0 { return false; }
      if mode == CBC { DecryptCbc(src, dst, n / 8); }
      else if mode == CFB { DecryptCfb(src, dst, n / 8); }
      else { DecryptEcb(src, dst, n / 8); }
      return true;
    }

    /** What is encrypted in place and decrypted in place is as before, for every mode and length that is accepted. */
    method EncryptThenDecrypt(buf: array<bv8>, n: nat, mode: int)
      requires Valid() && n <= buf.Length
      modifies buf
      ensures buf[..] == old(buf[..])
    {
      ghost var t := buf[..];
      var done := Encrypt(buf, buf, n, mode);
      ghost var c := buf[..];
      var undone := Decrypt(buf, buf, n, mode);
      if done {
        DecryptUndoesEncrypt(TheKey(), mode, t, c, buf[..], n / 8);
        WholeBuffer(t, c, buf[..], n);
      }
    }
  }

  lemma WholeBuffer(t: seq<bv8>, c: seq<bv8>, u: seq<bv8>, n: nat)
    requires n <= |t| && Same(c, t, n) && Same(u, c, n) && u[..n] == t[..n]
    ensures u == t
  {
    forall j | 0 <= j < |t| ensures u[j] == t[j] {
      if j < n { assert u[..n][j] == t[..n][j]; } else { assert u[j] == c[j] && c[j] == t[j]; }
    }
  }

  /** Every mode but CBC and CFB is ECB. */
  lemma {:induction false} OtherModes(key: Key, mode: int, t: seq<bv8>, c: seq<bv8>, n: nat)
    requires Encrypted(key, ECB, t, c, n) && mode != CBC && mode != CFB
    ensures Encrypted(key, mode, t, c, n)
  {
    forall k | 0 <= k < n ensures BlockAt(c, k) == Cipher(key, mode, t, k) {
      assert BlockAt(c, k) == Cipher(key, ECB, t, k);
    }
  }

  function ShiftIn(x: Word, b: bv8): Word {
    (x << 8) | b as Word
  }

  /** The first n of the four bytes of key word i. */
  ghost function PartWord(key: seq<bv8>, i: nat, n: nat): Word
    requires |key| > 0 && n <= 4
    decreases n, i
  {
    if n == 0 then 0 else ShiftIn(PartWord(key, i, n - 1), key[(4 * i + n - 1) % |key|])
  }

  lemma WholeWord(key: seq<bv8>, i: nat, n: nat)
    requires |key| > 0 && n == 4
    ensures PartWord(key, i, n) == KeyWord(key, i)
  {
    var a, b, c, d := key[4 * i % |key|], key[(4 * i + 1) % |key|], key[(4 * i + 2) % |key|], key[(4 * i + 3) % |key|];
    assert PartWord(key, i, n - 3) == ShiftIn(0, a);
    assert PartWord(key, i, n - 2) == ShiftIn(ShiftIn(0, a), b);
    assert PartWord(key, i, n - 1) == ShiftIn(ShiftIn(ShiftIn(0, a), b), c);
    ShiftedIn(a, b, c, d);
  }

  lemma ShiftedIn(a: bv8, b: bv8, c: bv8, d: bv8)
    ensures ShiftIn(ShiftIn(ShiftIn(ShiftIn(0, a), b), c), d) == FromBytes(a, b, c, d)
  {}

  /** The next four key bytes; the position starts over at the end of the key. */
  method ReadWord(key: seq<bv8>, ghost i: nat, from: nat) returns (x: Word, at: nat)
    requires |key| > 0 && from == 4 * i % |key|
    ensures x == KeyWord(key, i) && at == 4 * (i + 1) % |key|
  {
    x, at := 0, from;
    var n: nat := 0;
    while n < 4
      invariant n <= 4 && at == (4 * i + n) % |key|
      invariant x == PartWord(key, i, n)
    {
      NextByte(4 * i + n, |key|);
      x := ShiftIn(x, key[at]);
      at := at + 1;
      if at == |key| { at := 0; }
      n := n + 1;
    }
    WholeWord(key, i, n);
  }

  lemma NextByte(j: nat, n: nat)
    requires n > 0
    ensures (j + 1) % n == if j % n + 1 == n then 0 else j % n + 1
  {
    DivBounds(j, n);
    if j % n + 1 == n { MulDist(j / n, 1, n); DivModUnique(j + 1, n, j / n + 1, 0); }
    else { DivModUnique(j + 1, n, j / n, j % n + 1); }
  }

  lemma Interleaved(r: Word, f: Word, k: Word)
    ensures Xor(r, Xor(f, k)) == Xor(Xor(f, r), k)
  {
    XorAssoc(r, f, k);
    XorSwap(r, f);
  }
}
