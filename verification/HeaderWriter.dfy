/** Writing the header of a dynamic block: tdefl_start_dynamic_block of miniz.c. */
module HeaderWriter {
  import opened Powers
  import opened BitStream
  import opened BitIo
  import opened CanonicalCode
  import opened InflateTableSpec
  import opened InflateTableRoom
  import opened HuffmanIo
  import opened HuffmanOptimality
  import opened HuffmanTableSteps
  import opened HuffmanTable
  import opened CodeLengthRle
  import opened BlockHeader
  import opened SymbolCost

  /** How many symbols have to be sent: all up to the last used one, but at least `least`. */
  method CountSent(sizes: seq<nat>, most: nat, least: nat) returns (n: nat)
    requires 1 <= least <= most <= |sizes| && UnusedFrom(sizes, most)
    ensures least <= n <= most && UnusedFrom(sizes, n) && Trimmed(sizes, n, least)
  {
    n := most;
    while n > least
      invariant least <= n <= most && UnusedFrom(sizes, n)
    {
      if sizes[n - 1] > 0 { break; }
      n := n - 1;
    }
  }

  /** The same in swizzled order for the code-length code. */
  method CountClSent(cl: seq<nat>) returns (numCl: nat)
    requires |cl| == CODE_LENGTH_SYMBOLS
    ensures 4 <= numCl <= CODE_LENGTH_SYMBOLS
    ensures forall k :: numCl <= k < CODE_LENGTH_SYMBOLS ==> cl[SWIZZLE[k]] == 0
    ensures ClTrimmed(cl, numCl)
  {
    var numBitLengths := 18;
    while numBitLengths >= 0
      invariant -1 <= numBitLengths <= 18
      invariant forall k :: numBitLengths < k < CODE_LENGTH_SYMBOLS ==> cl[SWIZZLE[k]] == 0
    {
      if cl[SWIZZLE[numBitLengths]] > 0 { break; }
      numBitLengths := numBitLengths - 1;
    }
    numCl := if numBitLengths + 1 < 4 then 4 else numBitLengths + 1;
  }

  method PutClSizes(w: BitWriter, cl: seq<nat>, numCl: nat)
    requires w.Valid() && numCl <= CODE_LENGTH_SYMBOLS == |cl| && forall c :: 0 <= c < |cl| ==> cl[c] < 8
    modifies w
    ensures w.Valid() && w.Stream() == old(w.Stream()) + ClBits(cl, 0, numCl)
  {
    var i := 0;
    ghost var goal := w.Stream() + ClBits(cl, 0, numCl);
    while i < numCl
      invariant 0 <= i <= numCl && w.Valid() && w.Stream() + ClBits(cl, i, numCl) == goal
    {
      assert Pow2(3) == 8;
      Assoc(w.Stream(), BitsOf(cl[SWIZZLE[i]], 3), ClBits(cl, i + 1, numCl));
      w.PutBits(cl[SWIZZLE[i]], 3);
      i := i + 1;
    }
  }

  /** The byte array of the packer holds, at `at`, the items from i on. */
  ghost predicate FlatAt(packed: seq<nat>, at: nat, items: seq<Item>, i: nat) {
    i <= |items| && packed == Flat(items) && at == |Flat(items[..i])|
  }

  lemma {:induction false} FlatPrefix(items: seq<Item>, i: nat)
    requires i <= |items|
    ensures Flat(items[..i]) <= Flat(items)
    decreases |items| - i
  {
    if i < |items| {
      FlatPrefix(items, i + 1);
      assert items[..i + 1] == items[..i] + [items[i]];
      Append(items[..i], items[i]);
    } else {
      assert items[..i] == items;
    }
  }

  lemma ItemAt(packed: seq<nat>, at: nat, items: seq<Item>, i: nat)
    requires FlatAt(packed, at, items, i) && ItemsOk(items)
    ensures at <= |packed| && (at < |packed| <==> i < |items|)
    ensures i < |items| ==> packed[at] == items[i].code
    ensures i < |items| && items[i].code >= REPEAT ==> at + 1 < |packed| && packed[at + 1] == items[i].extra
    ensures i < |items| ==> FlatAt(packed, at + (if items[i].code < REPEAT then 1 else 2), items, i + 1)
  {
    if i < |items| {
      assert items[..i + 1] == items[..i] + [items[i]];
      Append(items[..i], items[i]);
      FlatPrefix(items, i + 1);
    } else {
      assert items[..i] == items;
    }
  }

  /** The last loop: the packed sizes, each code with its payload. */
  method PutItems(w: BitWriter, cl: seq<nat>, clCodes: seq<nat>, packed: seq<nat>, ghost items: seq<Item>)
    requires w.Valid() && CodesOf(cl, clCodes) && ItemsCoded(cl, items) && packed == Flat(items)
    modifies w
    ensures w.Valid() && w.Stream() == old(w.Stream()) + ItemsBits(cl, items, 0)
  {
    var at: nat := 0;
    ghost var i: nat := 0;
    ghost var goal := w.Stream() + ItemsBits(cl, items, 0);
    assert items[..0] == [];
    ItemAt(packed, at, items, i);
    while at < |packed|
      invariant 0 <= i <= |items| && FlatAt(packed, at, items, i) && (at < |packed| <==> i < |items|)
      invariant w.Valid() && w.Stream() + ItemsBits(cl, items, i) == goal
      decreases |items| - i
    {
      Assoc(w.Stream(), ItemBits(cl, items[i]), ItemsBits(cl, items, i + 1));
      at := PutItem(w, cl, clCodes, packed, at, items, i);
      i := i + 1;
      ItemAt(packed, at, items, i);
    }
  }

  method PutItem(w: BitWriter, cl: seq<nat>, clCodes: seq<nat>, packed: seq<nat>, at: nat, ghost items: seq<Item>, ghost i: nat) returns (at': nat)
    requires w.Valid() && CodesOf(cl, clCodes) && ItemsCoded(cl, items) && FlatAt(packed, at, items, i) && i < |items|
    modifies w
    ensures w.Valid() && w.Stream() == old(w.Stream()) + ItemBits(cl, items[i])
    ensures FlatAt(packed, at', items, i + 1)
  {
    ItemAt(packed, at, items, i);
    assert ItemOk(items[i], i == 0);
    ExtraFits(items[i], i == 0);
    var code := packed[at];
    ghost var before := w.Stream();
    Assoc(before, CodeBits(cl, code), BitsOf(items[i].extra, ExtraBits(code)));
    PutSymbol(w, cl, clCodes, code);
    at' := at + 1;
    if code >= 16 {
      w.PutBits(packed[at'], ExtraBits(code));
      at' := at' + 1;
    } else {
      assert before + CodeBits(cl, code) + [] == before + CodeBits(cl, code);
    }
  }

  // ---------- The whole header ----------

  lemma {:induction false} SumBound(s: seq<nat>, most: nat)
    requires most <= MAX_SIZES && forall i :: 0 <= i < |s| ==> s[i] <= most
    ensures Sum(s) <= |s| * MAX_SIZES
  {
    if s != [] { SumBound(s[1..], most); }
  }

  /** Every code that occurs has been counted, so it gets a size. */
  lemma {:induction false} CountedIsUsed(items: seq<Item>, k: nat)
    requires k < |items|
    ensures CountCode(items, items[k].code) > 0
    decreases |items|
  {
    if k < |items| - 1 {
      CountedIsUsed(items[..|items| - 1], k);
    }
  }

  lemma ItemsAreCoded(items: seq<Item>, count: seq<nat>, cl: seq<nat>, limit: nat)
    requires ItemsOk(items) && |count| == CODE_LENGTH_SYMBOLS && Favours(count, cl, limit)
    requires forall c :: 0 <= c < |count| ==> count[c] == CountCode(items, c)
    ensures ItemsCoded(cl, items)
  {
    forall k | 0 <= k < |items|
      ensures Used(cl, items[k].code)
    {
      assert ItemOk(items[k], k == 0);
      CountedIsUsed(items, k);
    }
  }

  lemma CountsSum(items: seq<Item>, count: seq<nat>)
    requires |count| == CODE_LENGTH_SYMBOLS && |Flat(items)| <= MAX_SIZES
    requires forall c :: 0 <= c < |count| ==> count[c] == CountCode(items, c)
    ensures Sum(count) < 0x1_0000
  {
    forall c | 0 <= c < |count| ensures count[c] <= MAX_SIZES { CountsAreFew(items, c); }
    SumBound(count, MAX_SIZES);
  }

  /** Packs the sizes and chooses the code for the packed list. */
  method PackSizes(sizes: seq<nat>) returns (packed: seq<nat>, cl: seq<nat>, clCodes: seq<nat>, ghost items: seq<Item>)
    requires |sizes| <= MAX_SIZES && forall i :: 0 <= i < |sizes| ==> sizes[i] < REPEAT
    ensures packed == Flat(items) && Unpacked(items) == sizes
    ensures |cl| == CODE_LENGTH_SYMBOLS && Acceptable(cl) && CodesOf(cl, clCodes) && ItemsCoded(cl, items)
    ensures PackedWell(items, cl)
    ensures forall c :: 0 <= c < |cl| ==> cl[c] < 8
  {
    var packer := new Packer();
    packer.Pack(sizes);
    items := packer.items;
    packed := packer.packedCodeSizes[..packer.numPackedCodeSizes];
    var count := packer.huffCount[..];
    CountsSum(items, count);
    assert Pow2(7) == 128;
    var codeSizes, codes := OptimizeHuffmanTable(count, 7);
    cl, clCodes := codeSizes[..], codes[..];
    assert count == CodeCounts(items);
    ItemsAreCoded(items, count, cl, 7);
  }

  /** Writes the header for the two given codes. */
  method PutHeader(w: BitWriter, lit: seq<nat>, dist: seq<nat>) returns (ghost h: Header)
    requires w.Valid() && |lit| == 288 && |dist| == 32 && UnusedFrom(lit, 286) && UnusedFrom(dist, 30)
    requires ValidSizes(lit) && ValidSizes(dist)
    modifies w
    ensures w.Valid() && HeaderOk(h.numLit, h.numDist, h.numCl, h.cl, h.items)
    ensures w.Stream() == old(w.Stream()) + HeaderBits(h.numLit, h.numDist, h.numCl, h.cl, h.items)
    ensures UnusedFrom(lit, h.numLit) && UnusedFrom(dist, h.numDist)
    ensures Unpacked(h.items) == lit[..h.numLit] + dist[..h.numDist] && Compact(h, lit, dist)
  {
    var numLit, numDist, numCl, cl, clCodes, packed;
    numLit, numDist, numCl, cl, clCodes, packed, h := ChooseHeader(lit, dist);
    PutHeaderFields(w, h, numLit, numDist, numCl, cl, clCodes, packed);
  }

  /** What the header holds. */
  method ChooseHeader(lit: seq<nat>, dist: seq<nat>)
      returns (numLit: nat, numDist: nat, numCl: nat, cl: seq<nat>, clCodes: seq<nat>, packed: seq<nat>, ghost h: Header)
    requires |lit| == 288 && |dist| == 32 && UnusedFrom(lit, 286) && UnusedFrom(dist, 30) && ValidSizes(lit) && ValidSizes(dist)
    ensures h == Header(numLit, numDist, numCl, cl, h.items) && HeaderFor(h, lit, dist, clCodes, packed)
  {
    ghost var items;
    numLit := CountSent(lit, 286, 257);
    numDist := CountSent(dist, 30, 1);
    packed, cl, clCodes, items := PackSizes(lit[..numLit] + dist[..numDist]);
    numCl := CountClSent(cl);
    h := Header(numLit, numDist, numCl, cl, items);
    IsHeaderOk(h);
    IsCompact(h, lit, dist);
    IsHeaderFor(h, lit, dist, clCodes, packed);
  }

  ghost predicate HeaderFor(h: Header, lit: seq<nat>, dist: seq<nat>, clCodes: seq<nat>, packed: seq<nat>) {
    && HeaderOk(h.numLit, h.numDist, h.numCl, h.cl, h.items) && Compact(h, lit, dist)
    && UnusedFrom(lit, h.numLit) && UnusedFrom(dist, h.numDist) && Unpacked(h.items) == lit[..h.numLit] + dist[..h.numDist]
    && CodesOf(h.cl, clCodes) && packed == Flat(h.items)
  }

  lemma IsHeaderOk(h: Header)
    requires 257 <= h.numLit <= 286 && 1 <= h.numDist <= 30 && 4 <= h.numCl <= CODE_LENGTH_SYMBOLS == |h.cl|
    requires forall k :: h.numCl <= k < CODE_LENGTH_SYMBOLS ==> h.cl[SWIZZLE[k]] == 0
    requires Acceptable(h.cl) && ItemsCoded(h.cl, h.items) && forall c :: 0 <= c < |h.cl| ==> h.cl[c] < 8
    requires |Unpacked(h.items)| == h.numLit + h.numDist
    ensures HeaderOk(h.numLit, h.numDist, h.numCl, h.cl, h.items)
  {}

  lemma IsCompact(h: Header, lit: seq<nat>, dist: seq<nat>)
    requires Trimmed(lit, h.numLit, 257) && Trimmed(dist, h.numDist, 1) && ClTrimmed(h.cl, h.numCl)
    requires PackedWell(h.items, h.cl)
    ensures Compact(h, lit, dist)
  {}

  lemma IsHeaderFor(h: Header, lit: seq<nat>, dist: seq<nat>, clCodes: seq<nat>, packed: seq<nat>)
    requires HeaderOk(h.numLit, h.numDist, h.numCl, h.cl, h.items) && Compact(h, lit, dist)
    requires UnusedFrom(lit, h.numLit) && UnusedFrom(dist, h.numDist) && Unpacked(h.items) == lit[..h.numLit] + dist[..h.numDist]
    requires CodesOf(h.cl, clCodes) && packed == Flat(h.items)
    ensures HeaderFor(h, lit, dist, clCodes, packed)
  {}

  /** The three counts that open the header. */
  ghost function CountBits(numLit: nat, numDist: nat, numCl: nat, tail: seq<bool>): seq<bool>
    requires 257 <= numLit && 1 <= numDist && 4 <= numCl
  {
    BitsOf(numLit - 257, 5) + (BitsOf(numDist - 1, 5) + (BitsOf(numCl - 4, 4) + tail))
  }

  lemma CountParts(s: seq<bool>, a: seq<bool>, b: seq<bool>, c: seq<bool>, tail: seq<bool>)
    ensures s + a + b + c + tail == s + (a + (b + (c + tail)))
  {}

  method PutCounts(w: BitWriter, numLit: nat, numDist: nat, numCl: nat, ghost tail: seq<bool>)
    requires w.Valid() && 257 <= numLit <= 286 && 1 <= numDist <= 30 && 4 <= numCl <= CODE_LENGTH_SYMBOLS
    modifies w
    ensures w.Valid() && w.Stream() + tail == old(w.Stream()) + CountBits(numLit, numDist, numCl, tail)
  {
    CountParts(w.Stream(), BitsOf(numLit - 257, 5), BitsOf(numDist - 1, 5), BitsOf(numCl - 4, 4), tail);
    assert Pow2(5) == 32 && Pow2(4) == 16;
    w.PutBits(numLit - 257, 5);
    w.PutBits(numDist - 1, 5);
    w.PutBits(numCl - 4, 4);
  }

  method PutHeaderFields(w: BitWriter, ghost h: Header, numLit: nat, numDist: nat, numCl: nat, cl: seq<nat>, clCodes: seq<nat>, packed: seq<nat>)
    requires w.Valid() && HeaderOk(numLit, numDist, numCl, cl, h.items) && CodesOf(cl, clCodes) && packed == Flat(h.items)
    modifies w
    ensures w.Valid() && w.Stream() == old(w.Stream()) + HeaderBits(numLit, numDist, numCl, cl, h.items)
  {
    ghost var sizes, list := ClBits(cl, 0, numCl), ItemsBits(cl, h.items, 0);
    PutCounts(w, numLit, numDist, numCl, sizes + list);
    Assoc(w.Stream(), sizes, list);
    PutClSizes(w, cl, numCl);
    PutItems(w, cl, clCodes, packed, h.items);
  }
}
