/** Reading the header of a dynamic block: the type 2 branch of tinfl_decompress in miniz.c. */
module HeaderReader {
  import opened Powers
  import opened BitStream
  import opened BitIo
  import opened CanonicalCode
  import opened InflateTableSpec
  import opened InflateTableRoom
  import opened InflateTable
  import opened HuffmanIo
  import opened CodeLengthRle
  import opened BlockHeader

  method GetValue(r: BitReader, n: nat, ghost x: nat, ghost tail: seq<bool>) returns (b: nat)
    requires r.Valid() && n <= 24 && x < Pow2(n) && r.Remaining() == BitsOf(x, n) + tail
    modifies r`pos, r`bitBuf, r`numBits
    ensures r.Valid() && b == x && r.Remaining() == tail
  {
    TakeBits(BitsOf(x, n), tail);
    b := r.GetBits(n);
    GotIsPut(b, x, n);
  }

  /** A table for the given sizes, if they form an acceptable code. */
  method BuildTable(sizes: seq<nat>) returns (t: HuffTable, ok: bool)
    requires ValidSizes(sizes) && |sizes| <= MAX_SYMBOLS
    ensures fresh(t) && fresh(t.lookUp) && fresh(t.tree)
    ensures ok <==> Acceptable(sizes)
    ensures ok ==> t.Valid() && t.sizes == sizes
  {
    t := new HuffTable();
    t.sizes := sizes;
    ok := t.Build();
  }

  // ---------- The sizes of the code-length code ----------

  /** The first n sizes sent are in place, all others are zero. */
  ghost predicate Dezigzagged(sizes: seq<nat>, cl: seq<nat>, n: nat) {
    && |sizes| == |cl| == CODE_LENGTH_SYMBOLS && n <= CODE_LENGTH_SYMBOLS
    && (forall k :: 0 <= k < n ==> sizes[SWIZZLE[k]] == cl[SWIZZLE[k]])
    && (forall k :: n <= k < CODE_LENGTH_SYMBOLS ==> sizes[SWIZZLE[k]] == 0)
  }

  lemma DezigzagStep(sizes: seq<nat>, cl: seq<nat>, n: nat)
    requires Dezigzagged(sizes, cl, n) && n < CODE_LENGTH_SYMBOLS
    ensures Dezigzagged(sizes[SWIZZLE[n] := cl[SWIZZLE[n]]], cl, n + 1)
  {
    forall k | 0 <= k < CODE_LENGTH_SYMBOLS && k != n
      ensures SWIZZLE[k] != SWIZZLE[n]
    {
      if k < n { SwizzleDistinct(k, n); } else { SwizzleDistinct(n, k); }
    }
  }

  lemma DezigzagDone(sizes: seq<nat>, cl: seq<nat>, n: nat)
    requires Dezigzagged(sizes, cl, n) && forall k :: n <= k < CODE_LENGTH_SYMBOLS ==> cl[SWIZZLE[k]] == 0
    ensures sizes == cl
  {
    forall c: nat | c < CODE_LENGTH_SYMBOLS
      ensures sizes[c] == cl[c]
    {
      SwizzleIsPermutation(c);
    }
  }

  method ReadClSizes(r: BitReader, numCl: nat, ghost cl: seq<nat>, ghost tail: seq<bool>) returns (sizes: seq<nat>)
    requires r.Valid() && numCl <= CODE_LENGTH_SYMBOLS == |cl| && forall c :: 0 <= c < |cl| ==> cl[c] < 8
    requires forall k :: numCl <= k < CODE_LENGTH_SYMBOLS ==> cl[SWIZZLE[k]] == 0
    requires r.Remaining() == ClBits(cl, 0, numCl) + tail
    modifies r`pos, r`bitBuf, r`numBits
    ensures r.Valid() && r.Remaining() == tail && sizes == cl
  {
    sizes := seq(CODE_LENGTH_SYMBOLS, _ => 0);
    var counter := 0;
    while counter < numCl
      invariant 0 <= counter <= numCl && Dezigzagged(sizes, cl, counter)
      invariant r.Valid() && r.Remaining() == ClBits(cl, counter, numCl) + tail
    {
      ghost var x := cl[SWIZZLE[counter]];
      Assoc(BitsOf(x, 3), ClBits(cl, counter + 1, numCl), tail);
      assert Pow2(3) == 8;
      var s := GetValue(r, 3, x, ClBits(cl, counter + 1, numCl) + tail);
      DezigzagStep(sizes, cl, counter);
      sizes := sizes[SWIZZLE[counter] := s];
      counter := counter + 1;
    }
    DezigzagDone(sizes, cl, numCl);
  }

  // ---------- The packed sizes ----------

  lemma UnpackedStep(items: seq<Item>, i: nat)
    requires i < |items|
    ensures Unpacked(items[..i + 1]) == Unpacked(items[..i]) + ItemSizes(items[i], Unpacked(items[..i]))
  {
    assert items[..i + 1] == items[..i] + [items[i]];
    Append(items[..i], items[i]);
  }

  lemma {:induction false} UnpackedGrows(items: seq<Item>, i: nat)
    requires i <= |items|
    ensures |Unpacked(items[..i])| + (|items| - i) <= |Unpacked(items)|
    decreases |items| - i
  {
    if i < |items| {
      UnpackedStep(items, i);
      UnpackedGrows(items, i + 1);
    } else {
      assert items[..i] == items;
    }
  }

  /** One code of the packed sizes and its payload. */
  method ReadItem(r: BitReader, t: HuffTable, lens: seq<nat>, ghost items: seq<Item>, ghost i: nat, ghost tail: seq<bool>)
      returns (lens': seq<nat>)
    requires r.Valid() && t.Valid() && i < |items| && ItemsCoded(t.sizes, items)
    requires r.Remaining() == ItemsBits(t.sizes, items, i) + tail && lens == Unpacked(items[..i])
    modifies r`pos, r`bitBuf, r`numBits
    ensures r.Valid() && r.Remaining() == ItemsBits(t.sizes, items, i + 1) + tail && lens' == Unpacked(items[..i + 1])
  {
    ghost var item := items[i];
    assert ItemOk(item, i == 0);
    UnpackedStep(items, i);
    ghost var code, extra, later := CodeBits(t.sizes, item.code), BitsOf(item.extra, ExtraBits(item.code)), ItemsBits(t.sizes, items, i + 1) + tail;
    ItemSplit(code, extra, ItemsBits(t.sizes, items, i + 1), tail);
    TakeBits(code, extra + later);
    var dist := HuffDecode(r, t, item.code);
    if dist < 16 {
      lens' := lens + [dist];
      assert extra + later == later;
    } else {
      lens' := ReadRun(r, lens, items, i, later, dist);
    }
  }

  /** The extra bits of a repeat, and the run they stand for. */
  method ReadRun(r: BitReader, lens: seq<nat>, ghost items: seq<Item>, ghost i: nat, ghost later: seq<bool>, dist: nat) returns (lens': seq<nat>)
    requires r.Valid() && i < |items| && ItemsOk(items) && ItemOk(items[i], i == 0) && dist == items[i].code >= 16 && lens == Unpacked(items[..i])
    requires r.Remaining() == BitsOf(items[i].extra, ExtraBits(dist)) + later
    modifies r`pos, r`bitBuf, r`numBits
    ensures r.Valid() && r.Remaining() == later && lens' == lens + ItemSizes(items[i], lens)
  {
    NotFirst(items, i);
    ExtraFits(items[i], i == 0);
    var s := GetValue(r, ExtraBits(dist), items[i].extra, later);
    s := s + RunBase(dist);
    lens' := lens + Run(if dist == 16 then lens[|lens| - 1] else 0, s);
  }

  function Run(x: nat, n: nat): (s: seq<nat>)
    ensures s == Same(x, n)
  {
    seq(n, _ => x)
  }

  lemma ItemSplit(code: seq<bool>, extra: seq<bool>, next: seq<bool>, tail: seq<bool>)
    ensures code + extra + next + tail == code + (extra + (next + tail))
  {}

  lemma NotFirst(items: seq<Item>, i: nat)
    requires i < |items| && ItemsOk(items)
    ensures items[i].code == REPEAT ==> Unpacked(items[..i]) != []
  {
    assert ItemOk(items[i], i == 0);
    if i > 0 { UnpackedStep(items, i - 1); }
  }

  /** The loop that fills m_len_codes. */
  method ReadItems(r: BitReader, t: HuffTable, total: nat, ghost items: seq<Item>, ghost tail: seq<bool>) returns (lens: seq<nat>)
    requires r.Valid() && t.Valid() && ItemsCoded(t.sizes, items) && |Unpacked(items)| == total
    requires r.Remaining() == ItemsBits(t.sizes, items, 0) + tail
    modifies r`pos, r`bitBuf, r`numBits
    ensures r.Valid() && r.Remaining() == tail && lens == Unpacked(items)
  {
    lens := [];
    ghost var i := 0;
    assert items[..0] == [];
    while |lens| < total
      invariant i <= |items| && lens == Unpacked(items[..i])
      invariant r.Valid() && r.Remaining() == ItemsBits(t.sizes, items, i) + tail
      decreases |items| - i
    {
      assert i < |items| by { assert items[..|items|] == items; }
      lens := ReadItem(r, t, lens, items, i, tail);
      i := i + 1;
    }
    UnpackedGrows(items, i);
    assert items[..|items|] == items;
  }

  /** The three counts that open the header. */
  method ReadCounts(r: BitReader, ghost numLit: nat, ghost numDist: nat, ghost numCl: nat, ghost tail: seq<bool>)
      returns (lit: nat, dist: nat, cl: nat)
    requires r.Valid() && 257 <= numLit <= 286 && 1 <= numDist <= 30 && 4 <= numCl <= CODE_LENGTH_SYMBOLS
    requires r.Remaining() == BitsOf(numLit - 257, 5) + (BitsOf(numDist - 1, 5) + (BitsOf(numCl - 4, 4) + tail))
    modifies r`pos, r`bitBuf, r`numBits
    ensures r.Valid() && r.Remaining() == tail && lit == numLit && dist == numDist && cl == numCl
  {
    assert Pow2(5) == 32 && Pow2(4) == 16;
    lit := GetValue(r, 5, numLit - 257, BitsOf(numDist - 1, 5) + (BitsOf(numCl - 4, 4) + tail));
    lit := lit + 257;
    dist := GetValue(r, 5, numDist - 1, BitsOf(numCl - 4, 4) + tail);
    dist := dist + 1;
    cl := GetValue(r, 4, numCl - 4, tail);
    cl := cl + 4;
  }

  lemma HeaderSplit(a: seq<bool>, b: seq<bool>, c: seq<bool>, d: seq<bool>, e: seq<bool>, tail: seq<bool>)
    ensures a + (b + (c + (d + e))) + tail == a + (b + (c + (d + (e + tail))))
  {}

  /** The code sizes of both alphabets, and the tables built from them. */
  method ReadHeader(r: BitReader, ghost numLit: nat, ghost numDist: nat, ghost numCl: nat, ghost cl: seq<nat>, ghost items: seq<Item>,
                    ghost tail: seq<bool>) returns (lens: seq<nat>, lit: nat)
    requires r.Valid() && HeaderOk(numLit, numDist, numCl, cl, items)
    requires r.Remaining() == HeaderBits(numLit, numDist, numCl, cl, items) + tail
    modifies r`pos, r`bitBuf, r`numBits
    ensures r.Valid() && r.Remaining() == tail && lens == Unpacked(items) && lit == numLit
  {
    HeaderSplit(BitsOf(numLit - 257, 5), BitsOf(numDist - 1, 5), BitsOf(numCl - 4, 4), ClBits(cl, 0, numCl), ItemsBits(cl, items, 0), tail);
    var dist, n;
    lit, dist, n := ReadCounts(r, numLit, numDist, numCl, ClBits(cl, 0, numCl) + (ItemsBits(cl, items, 0) + tail));
    var clSizes := ReadClSizes(r, n, cl, ItemsBits(cl, items, 0) + tail);
    var t, ok := BuildTable(clSizes);
    lens := ReadItems(r, t, lit + dist, items, tail);
  }
}
