/** Run-length packing of code sizes (section 3.2.7 of RFC 1951): the loop of tdefl_start_dynamic_block
    in miniz.c and the inflater's reading of it. */
module CodeLengthRle {

  const REPEAT := 16      // repeat the previous size 3..6 times
  const ZEROS := 17       // 3..10 zeros
  const MANY_ZEROS := 18  // 11..138 zeros
  const MAX_SIZES := 320  // 288 literal and length symbols, 32 distance symbols

  /** One code of the packed stream with its payload. */
  datatype Item = Item(code: nat, extra: nat)

  function ExtraBits(code: nat): nat {
    if code == REPEAT then 2 else if code == ZEROS then 3 else if code == MANY_ZEROS then 7 else 0
  }

  /** The smallest run a code stands for. */
  function RunBase(code: nat): nat {
    if code == MANY_ZEROS then 11 else 3
  }

  ghost function Same(x: nat, n: nat): (s: seq<nat>)
    ensures |s| == n && forall i :: 0 <= i < n ==> s[i] == x
  {
    seq(n, _ => x)
  }

  /** What reading the items produces. */
  ghost function Unpacked(items: seq<Item>): (sizes: seq<nat>)
  {
    if items == [] then []
    else
      var before, last := Unpacked(items[..|items| - 1]), items[|items| - 1];
      before + ItemSizes(last, before)
  }

  ghost function ItemSizes(item: Item, before: seq<nat>): seq<nat> {
    if item.code < REPEAT then [item.code]
    else if item.code == REPEAT then Same(if before == [] then 0 else before[|before| - 1], item.extra + 3)
    else Same(0, item.extra + RunBase(item.code))
  }

  /** The items in numbers: how many bits follow each code, and what code and bits stand for. */
  lemma ItemMeaning(code: nat, extra: nat, before: seq<nat>)
    ensures ExtraBits(code) == if code == 16 then 2 else if code == 17 then 3 else if code == 18 then 7 else 0
    ensures code < 16 ==> ItemSizes(Item(code, extra), before) == [code]
    ensures code == 16 && before != [] ==> ItemSizes(Item(code, extra), before) == seq(3 + extra, _ => before[|before| - 1])
    ensures code == 17 ==> ItemSizes(Item(code, extra), before) == seq(3 + extra, _ => 0)
    ensures code == 18 ==> ItemSizes(Item(code, extra), before) == seq(11 + extra, _ => 0)
  {}

  /** Payloads fit 2, 3 and 7 bits; the first item is not a repeat. */
  ghost predicate ItemOk(item: Item, first: bool) {
    && item.code <= MANY_ZEROS && (item.code == REPEAT ==> !first)
    && (if item.code == REPEAT then item.extra < 4 else if item.code == ZEROS then item.extra < 8
        else if item.code == MANY_ZEROS then item.extra < 128 else item.extra == 0)
  }

  ghost predicate ItemsOk(items: seq<Item>) {
    forall k :: 0 <= k < |items| ==> ItemOk(items[k], k == 0)
  }

  /** The byte array: every code, followed by its payload if it has one. */
  ghost function Flat(items: seq<Item>): seq<nat> {
    if items == [] then []
    else
      var last := items[|items| - 1];
      Flat(items[..|items| - 1]) + (if last.code < REPEAT then [last.code] else [last.code, last.extra])
  }

  ghost function CountCode(items: seq<Item>, code: nat): nat {
    if items == [] then 0 else CountCode(items[..|items| - 1], code) + (if items[|items| - 1].code == code then 1 else 0)
  }

  lemma Append(items: seq<Item>, x: Item)
    ensures Unpacked(items + [x]) == Unpacked(items) + ItemSizes(x, Unpacked(items))
    ensures Flat(items + [x]) == Flat(items) + (if x.code < REPEAT then [x.code] else [x.code, x.extra])
  {
    assert (items + [x])[..|items|] == items;
  }

  lemma AppendCount(items: seq<Item>, x: Item)
    ensures forall c: nat :: CountCode(items + [x], c) == CountCode(items, c) + (if x.code == c then 1 else 0)
  {
    assert (items + [x])[..|items|] == items;
  }

  /** Packing never needs more bytes than it packs sizes. */
  lemma {:induction false} FlatIsShort(items: seq<Item>)
    ensures |Flat(items)| <= |Unpacked(items)|
    decreases |items|
  {
    if items != [] { FlatIsShort(items[..|items| - 1]); }
  }

  lemma {:induction false} CountsAreFew(items: seq<Item>, code: nat)
    ensures CountCode(items, code) <= |Flat(items)|
    decreases |items|
  {
    if items != [] { CountsAreFew(items[..|items| - 1], code); }
  }

  /** The sizes not written yet: a run of the previous size, or a run of zeros. */
  ghost function Pending(prev: nat, repeats: nat, zeros: nat): seq<nat> {
    if repeats > 0 then Same(prev, repeats) else Same(0, zeros)
  }

  /** Items and pending runs make up the sizes seen so far. */
  ghost predicate Packs(sizes: seq<nat>, items: seq<Item>, prev: nat, repeats: nat, zeros: nat) {
    && ItemsOk(items)
    && Unpacked(items) + Pending(prev, repeats, zeros) == sizes
    && (repeats == 0 || zeros == 0)
    && (repeats > 0 ==> Unpacked(items) != [] && Unpacked(items)[|Unpacked(items)| - 1] == prev && prev < REPEAT)
  }

  lemma OneLess(before: seq<nat>, x: nat, n: nat)
    requires n > 0
    ensures before + Same(x, n) == before + [x] + Same(x, n - 1)
  {}

  lemma OneLonger(before: seq<nat>, x: nat, n: nat)
    ensures before + Same(x, n) + [x] == before + Same(x, n + 1)
  {}

  lemma NoMore(before: seq<nat>, x: nat)
    ensures before + Same(x, 0) == before
  {}

  lemma PlainStep(sizes: seq<nat>, items: seq<Item>, prev: nat, repeats: nat)
    requires Packs(sizes, items, prev, repeats, 0) && repeats > 0
    ensures Packs(sizes, items + [Item(prev, 0)], prev, repeats - 1, 0)
  {
    Append(items, Item(prev, 0));
    OneLess(Unpacked(items), prev, repeats);
    NoMore(Unpacked(items) + [prev], 0);
    NoMore(Unpacked(items) + [prev], prev);
  }

  lemma PlainZero(sizes: seq<nat>, items: seq<Item>, prev: nat, zeros: nat)
    requires Packs(sizes, items, prev, 0, zeros) && zeros > 0
    ensures Packs(sizes, items + [Item(0, 0)], prev, 0, zeros - 1)
  {
    Append(items, Item(0, 0));
    OneLess(Unpacked(items), 0, zeros);
  }

  lemma RepeatRun(sizes: seq<nat>, items: seq<Item>, prev: nat, repeats: nat)
    requires Packs(sizes, items, prev, repeats, 0) && 3 <= repeats <= 6
    ensures Packs(sizes, items + [Item(REPEAT, repeats - 3)], prev, 0, 0)
  {
    Append(items, Item(REPEAT, repeats - 3));
    NoMore(Unpacked(items) + Same(prev, repeats), 0);
  }

  lemma ZeroRun(sizes: seq<nat>, items: seq<Item>, prev: nat, zeros: nat, code: nat)
    requires Packs(sizes, items, prev, 0, zeros)
    requires (code == ZEROS && 3 <= zeros <= 10) || (code == MANY_ZEROS && 11 <= zeros <= 138)
    ensures Packs(sizes, items + [Item(code, zeros - RunBase(code))], prev, 0, 0)
  {
    Append(items, Item(code, zeros - RunBase(code)));
    NoMore(Unpacked(items) + Same(0, zeros), 0);
  }

  lemma NewSize(sizes: seq<nat>, items: seq<Item>, prev: nat, size: nat)
    requires Packs(sizes, items, prev, 0, 0) && size < REPEAT
    ensures Packs(sizes + [size], items + [Item(size, 0)], size, 0, 0)
    ensures Unpacked(items + [Item(size, 0)]) == Unpacked(items) + [size]
  {
    Append(items, Item(size, 0));
    NoMore(Unpacked(items), 0);
    NoMore(Unpacked(items) + [size], 0);
  }

  lemma OneMore(sizes: seq<nat>, items: seq<Item>, prev: nat, repeats: nat)
    requires Packs(sizes, items, prev, repeats, 0) && prev < REPEAT
    requires Unpacked(items) != [] && Unpacked(items)[|Unpacked(items)| - 1] == prev
    ensures Packs(sizes + [prev], items, prev, repeats + 1, 0)
  {
    NoMore(Unpacked(items), 0);
    NoMore(Unpacked(items), prev);
    OneLonger(Unpacked(items), prev, repeats);
  }

  lemma OneMoreZero(sizes: seq<nat>, items: seq<Item>, prev: nat, zeros: nat)
    requires Packs(sizes, items, prev, 0, zeros)
    ensures Packs(sizes + [0], items, prev, 0, zeros + 1)
  {
    OneLonger(Unpacked(items), 0, zeros);
  }

  lemma PackedFits(sizes: seq<nat>, items: seq<Item>, prev: nat, repeats: nat, zeros: nat)
    requires Packs(sizes, items, prev, repeats, zeros)
    ensures |Flat(items)| <= |sizes|
  {
    FlatIsShort(items);
  }

  // ---------- No run is left that an item could take in ----------

  /** A run of zeros that an item cut short. */
  ghost predicate ShortZeros(x: Item) {
    x.code == ZEROS || (x.code == MANY_ZEROS && x.extra < 127)
  }

  ghost predicate ShortRepeat(x: Item) {
    x.code == REPEAT && x.extra < 3
  }

  /** How many single zeros the items end with. */
  ghost function SingleZeros(items: seq<Item>): nat {
    if items == [] || items[|items| - 1].code != 0 then 0 else 1 + SingleZeros(items[..|items| - 1])
  }

  ghost predicate SameAsBefore(items: seq<Item>, x: Item) {
    0 < x.code < REPEAT && Unpacked(items) != [] && Unpacked(items)[|Unpacked(items)| - 1] == x.code
  }

  /** How many sizes the items end with that repeat the size before them one by one. */
  ghost function SingleRepeats(items: seq<Item>): nat {
    if items == [] then 0 else
      var n := |items| - 1;
      if SameAsBefore(items[..n], items[n]) then 1 + SingleRepeats(items[..n]) else 0
  }

  /** Zeros go on only after a full run or up to two single ones; so do repeats. */
  ghost predicate ZerosGoOn(items: seq<Item>, single: nat) {
    SingleZeros(items) <= single && (items == [] || !ShortZeros(items[|items| - 1]))
  }

  ghost predicate RepeatsGoOn(items: seq<Item>, single: nat) {
    SingleRepeats(items) <= single && (items == [] || !ShortRepeat(items[|items| - 1]))
  }

  ghost predicate TightAfter(items: seq<Item>, x: Item) {
    && (x.code == 0 ==> ZerosGoOn(items, 1)) && (x.code == ZEROS || x.code == MANY_ZEROS ==> ZerosGoOn(items, 0))
    && (SameAsBefore(items, x) ==> RepeatsGoOn(items, 1)) && (x.code == REPEAT ==> RepeatsGoOn(items, 0))
  }

  /** Each run is packed in as few items as the codes allow: full ones first, and then at most one short one, or one or two
      single sizes. */
  ghost predicate Tight(items: seq<Item>) {
    items == [] || (Tight(items[..|items| - 1]) && TightAfter(items[..|items| - 1], items[|items| - 1]))
  }

  /** Between sizes: what is pending may still be put. */
  ghost predicate Open(items: seq<Item>, prev: nat) {
    Tight(items) && ZerosGoOn(items, 0) && (prev > 0 ==> RepeatsGoOn(items, 0))
  }

  lemma TightAppend(items: seq<Item>, x: Item)
    requires Tight(items) && TightAfter(items, x)
    ensures Tight(items + [x])
    ensures SingleZeros(items + [x]) == if x.code == 0 then 1 + SingleZeros(items) else 0
    ensures SingleRepeats(items + [x]) == if SameAsBefore(items, x) then 1 + SingleRepeats(items) else 0
  {
    assert (items + [x])[..|items|] == items;
  }

  /** A size other than the last starts a run of its own. */
  lemma NewIsTight(sizes: seq<nat>, items: seq<Item>, prev: nat, size: nat)
    requires Packs(sizes, items, prev, 0, 0) && Tight(items) && 0 < size < REPEAT
    requires sizes == [] || sizes[|sizes| - 1] == prev != size
    ensures Open(items + [Item(size, 0)], size)
  {
    NoMore(Unpacked(items), 0);
    TightAppend(items, Item(size, 0));
  }

  lemma EndsWithLast(sizes: seq<nat>, items: seq<Item>, size: nat)
    requires Packs(sizes + [size], items, size, 0, 0)
    ensures Unpacked(items) != [] && Unpacked(items)[|Unpacked(items)| - 1] == size
  {
    NoMore(Unpacked(items), 0);
  }

  class Packer {
    const packedCodeSizes: array<nat>
    const huffCount: array<nat>
    var numPackedCodeSizes: nat
    var prevCodeSize: nat
    var rleRepeatCount: nat
    var rleZCount: nat
    ghost var items: seq<Item>

    /** The items written are those recorded, and each code is counted. */
    ghost predicate Valid()
      reads this, packedCodeSizes, huffCount
    {
      && packedCodeSizes.Length == MAX_SIZES && huffCount.Length == 19 && packedCodeSizes != huffCount
      && numPackedCodeSizes <= packedCodeSizes.Length
      && packedCodeSizes[..numPackedCodeSizes] == Flat(items)
      && forall c :: 0 <= c < huffCount.Length ==> huffCount[c] == CountCode(items, c)
    }

    /** The state after the given sizes. */
    ghost predicate Seen(sizes: seq<nat>)
      reads this, packedCodeSizes, huffCount
    {
      Valid() && |sizes| <= MAX_SIZES && rleRepeatCount <= 6 && rleZCount <= 138
      && Packs(sizes, items, prevCodeSize, rleRepeatCount, rleZCount)
    }

    constructor ()
      ensures Seen([]) && prevCodeSize == 0xFF && rleRepeatCount == 0 && rleZCount == 0 && items == []
      ensures fresh(packedCodeSizes) && fresh(huffCount)
    {
      packedCodeSizes := new nat[MAX_SIZES](_ => 0);
      huffCount := new nat[19](_ => 0);
      numPackedCodeSizes, prevCodeSize, rleRepeatCount, rleZCount, items := 0, 0xFF, 0, 0, [];
    }

    /** Writes one code and its payload, and counts it. */
    method Write(code: nat, extra: nat)
      requires Valid() && code <= MANY_ZEROS && |Flat(items + [Item(code, extra)])| <= MAX_SIZES
      modifies `items, `numPackedCodeSizes, packedCodeSizes, huffCount
      ensures Valid() && items == old(items) + [Item(code, extra)]
    {
      Append(items, Item(code, extra));
      AppendCount(items, Item(code, extra));
      huffCount[code] := huffCount[code] + 1;
      WriteBytes(code, extra);
      items := items + [Item(code, extra)];
    }

    method WriteBytes(code: nat, extra: nat)
      requires packedCodeSizes != huffCount && numPackedCodeSizes + (if code < REPEAT then 1 else 2) <= packedCodeSizes.Length
      modifies `numPackedCodeSizes, packedCodeSizes
      ensures numPackedCodeSizes == old(numPackedCodeSizes) + (if code < REPEAT then 1 else 2) <= packedCodeSizes.Length
      ensures packedCodeSizes[..numPackedCodeSizes]
        == old(packedCodeSizes[..numPackedCodeSizes]) + (if code < REPEAT then [code] else [code, extra])
    {
      packedCodeSizes[numPackedCodeSizes] := code;
      numPackedCodeSizes := numPackedCodeSizes + 1;
      if code >= REPEAT {
        packedCodeSizes[numPackedCodeSizes] := extra;
        numPackedCodeSizes := numPackedCodeSizes + 1;
      }
    }

    /** The same, when the item leaves runs of r and z sizes pending. */
    method Emit(code: nat, extra: nat, ghost sizes: seq<nat>, ghost r: nat, ghost z: nat)
      requires Valid() && |sizes| <= MAX_SIZES && Packs(sizes, items + [Item(code, extra)], prevCodeSize, r, z)
      requires code <= MANY_ZEROS
      modifies `items, `numPackedCodeSizes, packedCodeSizes, huffCount
      ensures Valid() && items == old(items) + [Item(code, extra)]
    {
      PackedFits(sizes, items + [Item(code, extra)], prevCodeSize, r, z);
      Write(code, extra);
    }

    /** TDEFL_RLE_PREV_CODE_SIZE */
    method FlushRepeats(ghost sizes: seq<nat>)
      requires Seen(sizes) && Tight(items) && (rleRepeatCount > 0 ==> prevCodeSize > 0 && RepeatsGoOn(items, 0))
      modifies `items, `numPackedCodeSizes, `rleRepeatCount, packedCodeSizes, huffCount
      ensures Seen(sizes) && Tight(items) && rleRepeatCount == 0
      ensures old(rleRepeatCount) == 0 ==> items == old(items)
      ensures old(rleRepeatCount) > 0 ==> ZerosGoOn(items, 0)
      ensures old(rleRepeatCount) == 6 ==> RepeatsGoOn(items, 0)
    {
      if rleRepeatCount > 0 {
        if rleRepeatCount < 3 {
          FlushFew(sizes);
        } else {
          RepeatRun(sizes, items, prevCodeSize, rleRepeatCount);
          TightAppend(items, Item(REPEAT, rleRepeatCount - 3));
          Emit(REPEAT, rleRepeatCount - 3, sizes, 0, 0);
        }
        rleRepeatCount := 0;
      }
    }

    method FlushFew(ghost sizes: seq<nat>)
      requires Seen(sizes) && rleZCount == 0 && prevCodeSize > 0
      requires Tight(items) && 0 < rleRepeatCount <= 2 && RepeatsGoOn(items, 0)
      modifies `items, `numPackedCodeSizes, `rleRepeatCount, packedCodeSizes, huffCount
      ensures Seen(sizes) && rleRepeatCount == 0 && Tight(items) && ZerosGoOn(items, 0)
    {
      ghost var n := rleRepeatCount;
      while rleRepeatCount > 0
        invariant Seen(sizes) && rleZCount == 0 && rleRepeatCount <= n && Tight(items) && RepeatsGoOn(items, 2 - rleRepeatCount)
        invariant rleRepeatCount < n ==> ZerosGoOn(items, 0)
      {
        EmitPlain(sizes);
      }
    }

    method EmitPlain(ghost sizes: seq<nat>)
      requires Seen(sizes) && rleZCount == 0 && prevCodeSize > 0
      requires 0 < rleRepeatCount <= 2 && Tight(items) && RepeatsGoOn(items, 2 - rleRepeatCount)
      modifies `items, `numPackedCodeSizes, `rleRepeatCount, packedCodeSizes, huffCount
      ensures Seen(sizes) && rleRepeatCount == old(rleRepeatCount) - 1 && Tight(items) && RepeatsGoOn(items, 2 - rleRepeatCount)
      ensures ZerosGoOn(items, 0)
    {
      PlainStep(sizes, items, prevCodeSize, rleRepeatCount);
      TightAppend(items, Item(prevCodeSize, 0));
      Emit(prevCodeSize, 0, sizes, rleRepeatCount - 1, 0);
      rleRepeatCount := rleRepeatCount - 1;
    }

    method FlushFewZeros(ghost sizes: seq<nat>)
      requires Seen(sizes) && rleRepeatCount == 0 && Tight(items) && 0 < rleZCount <= 2 && ZerosGoOn(items, 0)
      modifies `items, `numPackedCodeSizes, `rleZCount, packedCodeSizes, huffCount
      ensures Seen(sizes) && rleZCount == 0 && Tight(items)
    {
      while rleZCount > 0
        invariant Seen(sizes) && rleRepeatCount == 0 && rleZCount <= 2 && Tight(items) && ZerosGoOn(items, 2 - rleZCount)
      {
        EmitZero(sizes);
      }
    }

    method EmitZero(ghost sizes: seq<nat>)
      requires Seen(sizes) && rleRepeatCount == 0 && 0 < rleZCount <= 2 && Tight(items) && ZerosGoOn(items, 2 - rleZCount)
      modifies `items, `numPackedCodeSizes, `rleZCount, packedCodeSizes, huffCount
      ensures Seen(sizes) && rleZCount == old(rleZCount) - 1 && Tight(items) && ZerosGoOn(items, 2 - rleZCount)
    {
      PlainZero(sizes, items, prevCodeSize, rleZCount);
      TightAppend(items, Item(0, 0));
      Emit(0, 0, sizes, 0, rleZCount - 1);
      rleZCount := rleZCount - 1;
    }

    /** TDEFL_RLE_ZERO_CODE_SIZE */
    method FlushZeros(ghost sizes: seq<nat>)
      requires Seen(sizes) && Tight(items) && (rleZCount > 0 ==> ZerosGoOn(items, 0))
      modifies `items, `numPackedCodeSizes, `rleZCount, packedCodeSizes, huffCount
      ensures Seen(sizes) && Tight(items) && rleZCount == 0
      ensures old(rleZCount) == 0 ==> items == old(items)
      ensures old(rleZCount) == 138 ==> ZerosGoOn(items, 0)
    {
      if rleZCount > 0 {
        if rleZCount < 3 {
          FlushFewZeros(sizes);
        } else if rleZCount <= 10 {
          EmitZeros(ZEROS, rleZCount - 3, sizes);
        } else {
          EmitZeros(MANY_ZEROS, rleZCount - 11, sizes);
        }
        rleZCount := 0;
      }
    }

    method EmitZeros(code: nat, extra: nat, ghost sizes: seq<nat>)
      requires Seen(sizes) && Tight(items) && ZerosGoOn(items, 0) && rleRepeatCount == 0 && rleZCount == extra + RunBase(code)
      requires (code == ZEROS && rleZCount <= 10) || code == MANY_ZEROS
      modifies `items, `numPackedCodeSizes, packedCodeSizes, huffCount
      ensures Valid() && items == old(items) + [Item(code, extra)] && Tight(items) && Packs(sizes, items, prevCodeSize, 0, 0)
      ensures code == MANY_ZEROS && extra == 127 ==> ZerosGoOn(items, 0)
    {
      ZeroRun(sizes, items, prevCodeSize, rleZCount, code);
      TightAppend(items, Item(code, extra));
      Emit(code, extra, sizes, 0, 0);
    }

    /** What the loop knows between sizes: a run of the previous size can go on only if that size was just produced. */
    ghost predicate AtHead(sizes: seq<nat>)
      reads this, packedCodeSizes, huffCount
    {
      && Seen(sizes) && rleRepeatCount < 6 && rleZCount < 138
      && (if sizes == [] then prevCodeSize == 0xFF && items == [] else prevCodeSize == sizes[|sizes| - 1] < REPEAT)
      && (rleZCount > 0 ==> prevCodeSize == 0) && (rleRepeatCount > 0 ==> prevCodeSize > 0) && Open(items, prevCodeSize)
      && (sizes != [] && prevCodeSize > 0 ==> Unpacked(items) != [] && Unpacked(items)[|Unpacked(items)| - 1] == prevCodeSize)
    }

    method PackZero(ghost sizes: seq<nat>)
      requires AtHead(sizes) && |sizes| < MAX_SIZES
      modifies `items, `numPackedCodeSizes, `rleRepeatCount, `rleZCount, `prevCodeSize, packedCodeSizes, huffCount
      ensures AtHead(sizes + [0])
    {
      FlushRepeats(sizes);
      OneMoreZero(sizes, items, prevCodeSize, rleZCount);
      rleZCount := rleZCount + 1;
      if rleZCount == 138 { FlushZeros(sizes + [0]); }
      prevCodeSize := 0;
    }

    method PackSize(codeSize: nat, ghost sizes: seq<nat>)
      requires AtHead(sizes) && |sizes| < MAX_SIZES && 0 < codeSize < REPEAT
      modifies `items, `numPackedCodeSizes, `rleRepeatCount, `rleZCount, `prevCodeSize, packedCodeSizes, huffCount
      ensures AtHead(sizes + [codeSize])
    {
      FlushZeros(sizes);
      if codeSize != prevCodeSize {
        FlushRepeats(sizes);
        PackNew(codeSize, sizes);
      } else {
        PackAgain(codeSize, sizes);
      }
    }

    method PackNew(codeSize: nat, ghost sizes: seq<nat>)
      requires Seen(sizes) && Tight(items) && rleRepeatCount == 0 && rleZCount == 0 && |sizes| < MAX_SIZES
      requires 0 < codeSize < REPEAT && codeSize != prevCodeSize && (sizes == [] || prevCodeSize == sizes[|sizes| - 1])
      modifies `items, `numPackedCodeSizes, `prevCodeSize, packedCodeSizes, huffCount
      ensures AtHead(sizes + [codeSize])
    {
      NewSize(sizes, items, prevCodeSize, codeSize);
      NewIsTight(sizes, items, prevCodeSize, codeSize);
      prevCodeSize := codeSize;
      Emit(codeSize, 0, sizes + [codeSize], 0, 0);
    }

    method PackAgain(codeSize: nat, ghost sizes: seq<nat>)
      requires AtHead(sizes) && rleZCount == 0 && |sizes| < MAX_SIZES && 0 < codeSize < REPEAT && codeSize == prevCodeSize
      modifies `items, `numPackedCodeSizes, `rleRepeatCount, packedCodeSizes, huffCount
      ensures AtHead(sizes + [codeSize])
    {
      CountRepeat(codeSize, sizes);
      if rleRepeatCount == 6 { FlushSix(codeSize, sizes); }
      HeadAfter(sizes, codeSize);
    }

    method CountRepeat(codeSize: nat, ghost sizes: seq<nat>)
      requires AtHead(sizes) && rleZCount == 0 && |sizes| < MAX_SIZES && 0 < codeSize < REPEAT && codeSize == prevCodeSize
      modifies `rleRepeatCount
      ensures Seen(sizes + [codeSize]) && rleRepeatCount <= 6 && Open(items, prevCodeSize)
      ensures Unpacked(items) != [] && Unpacked(items)[|Unpacked(items)| - 1] == codeSize
    {
      OneMore(sizes, items, prevCodeSize, rleRepeatCount);
      rleRepeatCount := rleRepeatCount + 1;
    }

    method FlushSix(codeSize: nat, ghost sizes: seq<nat>)
      requires Seen(sizes + [codeSize]) && Open(items, prevCodeSize) && prevCodeSize == codeSize > 0
      requires rleRepeatCount == 6 && rleZCount == 0
      modifies `items, `numPackedCodeSizes, `rleRepeatCount, packedCodeSizes, huffCount
      ensures Seen(sizes + [codeSize]) && Open(items, prevCodeSize) && rleRepeatCount == 0
      ensures Unpacked(items) != [] && Unpacked(items)[|Unpacked(items)| - 1] == codeSize
    {
      FlushRepeats(sizes + [codeSize]);
      EndsWithLast(sizes, items, codeSize);
    }

    lemma HeadAfter(sizes: seq<nat>, last: nat)
      requires Seen(sizes + [last]) && rleRepeatCount < 6 && rleZCount == 0 && 0 < prevCodeSize == last < REPEAT
      requires Open(items, prevCodeSize) && Unpacked(items) != [] && Unpacked(items)[|Unpacked(items)| - 1] == last
      ensures AtHead(sizes + [last])
    {}

    /** Packs a whole list of sizes: reading the items back gives the list, every payload fits, and huff_count
        holds how often each code was written. No run is left that a repeat code could take in. */
    method Pack(sizes: seq<nat>)
      requires Seen([]) && prevCodeSize == 0xFF && rleRepeatCount == 0 && rleZCount == 0 && items == []
      requires |sizes| <= MAX_SIZES && forall i :: 0 <= i < |sizes| ==> sizes[i] < REPEAT
      modifies this, packedCodeSizes, huffCount
      ensures Valid() && ItemsOk(items) && Unpacked(items) == sizes && Tight(items)
    {
      var i := 0;
      while i < |sizes|
        invariant 0 <= i <= |sizes| && AtHead(sizes[..i])
      {
        assert sizes[..i + 1] == sizes[..i] + [sizes[i]];
        if sizes[i] == 0 { PackZero(sizes[..i]); } else { PackSize(sizes[i], sizes[..i]); }
        i := i + 1;
      }
      assert sizes[..i] == sizes;
      FlushEnd(sizes);
    }

    method FlushEnd(ghost sizes: seq<nat>)
      requires AtHead(sizes)
      modifies `items, `numPackedCodeSizes, `rleRepeatCount, `rleZCount, packedCodeSizes, huffCount
      ensures Valid() && ItemsOk(items) && Unpacked(items) == sizes && Tight(items)
    {
      if rleRepeatCount > 0 { FlushRepeats(sizes); } else { FlushZeros(sizes); }
      NoMore(Unpacked(items), 0);
    }
  }
}
