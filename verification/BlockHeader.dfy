/** The header of a dynamic block (section 3.2.7 of RFC 1951) as bits, and facts both ends need about it. */
module BlockHeader {
  import opened Powers
  import opened BitStream
  import opened CanonicalCode
  import opened InflateTableSpec
  import opened InflateTableRoom
  import opened HuffmanIo
  import opened CodeLengthRle
  import opened SymbolCost

  /** The order in which the code-length code sizes are sent. */
  const SWIZZLE: seq<nat> := [16, 17, 18, 0, 8, 7, 9, 6, 10, 5, 11, 4, 12, 3, 13, 2, 14, 1, 15]
  const CODE_LENGTH_SYMBOLS := 19

  lemma SwizzleIsPermutation(c: nat)
    requires c < CODE_LENGTH_SYMBOLS
    ensures exists k :: 0 <= k < |SWIZZLE| && SWIZZLE[k] == c
  {
    assert SWIZZLE[0] == 16 && SWIZZLE[1] == 17 && SWIZZLE[2] == 18 && SWIZZLE[3] == 0 && SWIZZLE[4] == 8 && SWIZZLE[5] == 7;
    assert SWIZZLE[6] == 9 && SWIZZLE[7] == 6 && SWIZZLE[8] == 10 && SWIZZLE[9] == 5 && SWIZZLE[10] == 11 && SWIZZLE[11] == 4;
    assert SWIZZLE[12] == 12 && SWIZZLE[13] == 3 && SWIZZLE[14] == 13 && SWIZZLE[15] == 2 && SWIZZLE[16] == 14;
    assert SWIZZLE[17] == 1 && SWIZZLE[18] == 15;
  }

  lemma SwizzleDistinct(k: nat, k': nat)
    requires k < k' < |SWIZZLE|
    ensures SWIZZLE[k] != SWIZZLE[k'] && SWIZZLE[k] < CODE_LENGTH_SYMBOLS
  {}

  // ---------- Trailing unused symbols ----------

  ghost predicate UnusedFrom(sizes: seq<nat>, n: nat) {
    n <= |sizes| && forall s :: n <= s < |sizes| ==> sizes[s] == 0
  }

  lemma {:induction false} CountTrimmed(sizes: seq<nat>, n: nat, k: nat, len: nat)
    requires UnusedFrom(sizes, n) && k <= |sizes| && len > 0
    ensures CountTo(sizes, k, len) == CountTo(sizes[..n], if k <= n then k else n, len)
    decreases k
  {
    if k > 0 { CountTrimmed(sizes, n, k - 1, len); }
  }

  lemma {:induction false} FirstCodeTrimmed(sizes: seq<nat>, n: nat, len: nat)
    requires UnusedFrom(sizes, n)
    ensures FirstCode(sizes, len) == FirstCode(sizes[..n], len)
    decreases len
  {
    if len > 1 {
      FirstCodeTrimmed(sizes, n, len - 1);
      CountTrimmed(sizes, n, |sizes|, len - 1);
    }
  }

  /** Leaving unused symbols off the end changes no code. */
  lemma BitsTrimmed(sizes: seq<nat>, n: nat, s: nat)
    requires UnusedFrom(sizes, n) && Used(sizes, s)
    ensures s < n && Used(sizes[..n], s) && Bits(sizes[..n], s) == Bits(sizes, s) && CodeBits(sizes[..n], s) == CodeBits(sizes, s)
  {
    FirstCodeTrimmed(sizes, n, sizes[s]);
    CountTrimmed(sizes, n, s, sizes[s]);
  }

  lemma {:induction false} UsedTrimmed(sizes: seq<nat>, n: nat, k: nat, len: nat)
    requires UnusedFrom(sizes, n) && k <= |sizes|
    ensures UsedTo(sizes, k, len) == UsedTo(sizes[..n], if k <= n then k else n, len)
    decreases k
  {
    if k > 0 { UsedTrimmed(sizes, n, k - 1, len); }
  }

  lemma AcceptableTrimmed(sizes: seq<nat>, n: nat)
    requires UnusedFrom(sizes, n) && Acceptable(sizes)
    ensures Acceptable(sizes[..n])
  {
    FirstCodeTrimmed(sizes, n, MAX_BITS + 1);
    UsedTrimmed(sizes, n, |sizes|, MAX_BITS);
  }

  // ---------- The bits ----------

  /** One code of the packed sizes with its payload. */
  ghost function ItemBits(cl: seq<nat>, item: Item): seq<bool>
    requires Used(cl, item.code)
  {
    CodeBits(cl, item.code) + BitsOf(item.extra, ExtraBits(item.code))
  }

  ghost predicate ItemsCoded(cl: seq<nat>, items: seq<Item>) {
    ItemsOk(items) && forall k :: 0 <= k < |items| ==> Used(cl, items[k].code)
  }

  ghost function ItemsBits(cl: seq<nat>, items: seq<Item>, i: nat): seq<bool>
    requires i <= |items| && ItemsCoded(cl, items)
    decreases |items| - i
  {
    if i == |items| then [] else ItemBits(cl, items[i]) + ItemsBits(cl, items, i + 1)
  }

  /** The sizes of the code-length code, three bits each, in swizzled order. */
  ghost function ClBits(cl: seq<nat>, i: nat, n: nat): seq<bool>
    requires i <= n <= CODE_LENGTH_SYMBOLS == |cl|
    decreases n - i
  {
    if i == n then [] else BitsOf(cl[SWIZZLE[i]], 3) + ClBits(cl, i + 1, n)
  }

  lemma {:induction false} FieldsLength(cl: seq<nat>, i: nat, n: nat)
    requires i <= n <= CODE_LENGTH_SYMBOLS == |cl|
    ensures |ClBits(cl, i, n)| == 3 * (n - i)
    decreases n - i
  {
    if i < n { FieldsLength(cl, i + 1, n); }
  }

  lemma {:induction false} FieldAt(cl: seq<nat>, i: nat, n: nat, k: nat)
    requires i <= k < n <= CODE_LENGTH_SYMBOLS == |cl|
    ensures |ClBits(cl, i, n)| == 3 * (n - i) && ClBits(cl, i, n)[3 * (k - i)..][..3] == BitsOf(cl[SWIZZLE[k]], 3)
    decreases k - i
  {
    var field, rest := BitsOf(cl[SWIZZLE[i]], 3), ClBits(cl, i + 1, n);
    FieldsLength(cl, i, n);
    if i < k {
      FieldAt(cl, i + 1, n, k);
      assert (field + rest)[3 * (k - i)..] == rest[3 * (k - i - 1)..];
    } else {
      assert (field + rest)[..3] == field;
    }
  }

  /**
   * Whose size each field holds, without the table: first those of 16, 17, 18 and 0, and then by turns those of 8, 9
   * and so on up to 15 and of 7, 6 and so on down to 1.
   */
  lemma FieldPlaces(cl: seq<nat>, n: nat, k: nat)
    requires k < n <= 19 == |cl|
    ensures var fields := ClBits(cl, 0, n);
            |fields| == 3 * n
            && fields[3 * k..][..3] == BitsOf(if k < 3 then cl[16 + k] else if k == 3 then cl[0]
                                              else if k % 2 == 0 then cl[6 + k / 2] else cl[9 - k / 2], 3)
  {
    var from: nat := 0;
    FieldAt(cl, from, n, k);
    Places(k);
  }

  lemma Places(k: nat)
    requires k < 19
    ensures SWIZZLE[k] == if k < 3 then 16 + k else if k == 3 then 0 else if k % 2 == 0 then 6 + k / 2 else 9 - k / 2
  {}

  /** What one dynamic block sends ahead of its body. */
  datatype Header = Header(numLit: nat, numDist: nat, numCl: nat, cl: seq<nat>, items: seq<Item>)

  /** How often each code of the packed sizes occurs. */
  ghost function CodeCounts(items: seq<Item>): (count: seq<nat>)
    ensures |count| == CODE_LENGTH_SYMBOLS && forall c :: 0 <= c < |count| ==> count[c] == CountCode(items, c)
  {
    seq(CODE_LENGTH_SYMBOLS, c requires 0 <= c => CountCode(items, c))
  }

  /** The sizes are packed in few items, with a code of least cost for them if one keeps to 7 bits. */
  ghost predicate PackedWell(items: seq<Item>, cl: seq<nat>) {
    Tight(items) && LeastIfWithin(CodeCounts(items), cl, 7)
  }

  /** The last of the n sizes sent is used, unless no fewer may be sent. */
  ghost predicate Trimmed(sizes: seq<nat>, n: nat, least: nat) {
    1 <= n <= |sizes| && (n == least || sizes[n - 1] > 0)
  }

  ghost predicate ClTrimmed(cl: seq<nat>, n: nat) {
    4 <= n <= CODE_LENGTH_SYMBOLS == |cl| && (n == 4 || cl[SWIZZLE[n - 1]] > 0)
  }

  /** No more is sent than must be: no trailing unused symbol above the least number, and the sizes packed well. */
  ghost predicate Compact(h: Header, lit: seq<nat>, dist: seq<nat>) {
    && Trimmed(lit, h.numLit, 257) && Trimmed(dist, h.numDist, 1) && ClTrimmed(h.cl, h.numCl)
    && PackedWell(h.items, h.cl)
  }

  /** The numbers of codes sent cover all codes used. */
  ghost predicate HeaderOk(numLit: nat, numDist: nat, numCl: nat, cl: seq<nat>, items: seq<Item>) {
    && 257 <= numLit <= 286 && 1 <= numDist <= 30 && 4 <= numCl <= CODE_LENGTH_SYMBOLS == |cl|
    && (forall c :: 0 <= c < |cl| ==> cl[c] < 8)
    && (forall k :: numCl <= k < CODE_LENGTH_SYMBOLS ==> cl[SWIZZLE[k]] == 0)
    && Acceptable(cl) && ItemsCoded(cl, items) && |Unpacked(items)| == numLit + numDist
  }

  ghost function HeaderBits(numLit: nat, numDist: nat, numCl: nat, cl: seq<nat>, items: seq<Item>): seq<bool>
    requires HeaderOk(numLit, numDist, numCl, cl, items)
  {
    BitsOf(numLit - 257, 5) + (BitsOf(numDist - 1, 5) + (BitsOf(numCl - 4, 4) + (ClBits(cl, 0, numCl) + ItemsBits(cl, items, 0))))
  }

  lemma ExtraFits(item: Item, first: bool)
    requires ItemOk(item, first)
    ensures item.extra < Pow2(ExtraBits(item.code))
  {
    assert Pow2(2) == 4 && Pow2(3) == 8 && Pow2(7) == 128 && Pow2(0) == 1;
  }
}
