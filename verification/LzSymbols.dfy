/** Length and distance symbols (section 3.2.5 of RFC 1951). The compressor's 256- and 512-entry tables tabulate
    the recursive functions here; the inflater's tables are short and kept as they are. */
module LzSymbols {
  import opened Powers
  import opened BitFields

  /** s_tdefl_len_sym[l], with l the match length less three */
  function LenSym(l: nat): nat {
    if l == 255 then 285 else 257 + LenSlot(l)
  }

  function LenSlot(l: nat): nat {
    if l < 8 then l else 4 + LenSlot(l / 2)
  }

  /** s_tdefl_len_extra[l] */
  function LenExtra(l: nat): nat {
    if l == 255 then 0 else SlotExtra(l)
  }

  function SlotExtra(l: nat): nat {
    if l < 8 then 0 else 1 + SlotExtra(l / 2)
  }

  /** The distance symbol, with d the distance less one: s_tdefl_small_dist_sym[d], or s_tdefl_large_dist_sym[d >> 8] */
  function DistSym(d: nat): nat {
    if d < 4 then d else 2 + DistSym(d / 2)
  }

  function DistExtra(d: nat): nat {
    if d < 4 then 0 else 1 + DistExtra(d / 2)
  }

  const LENGTH_BASE: seq<nat> := [3, 4, 5, 6, 7, 8, 9, 10, 11, 13, 15, 17, 19, 23, 27, 31, 35, 43, 51, 59, 67, 83, 99, 115, 131, 163, 195, 227, 258, 0, 0]
  const LENGTH_EXTRA: seq<nat> := [0, 0, 0, 0, 0, 0, 0, 0, 1, 1, 1, 1, 2, 2, 2, 2, 3, 3, 3, 3, 4, 4, 4, 4, 5, 5, 5, 5, 0, 0, 0]
  const DIST_BASE: seq<nat> := [1, 2, 3, 4, 5, 7, 9, 13, 17, 25, 33, 49, 65, 97, 129, 193, 257, 385, 513, 769, 1025, 1537, 2049, 3073, 4097, 6145, 8193, 12289, 16385, 24577, 0, 0]
  const DIST_EXTRA: seq<nat> := [0, 0, 0, 0, 1, 1, 2, 2, 3, 3, 4, 4, 5, 5, 6, 6, 7, 7, 8, 8, 9, 9, 10, 10, 11, 11, 12, 12, 13, 13, 0, 0]

  /** Rows of the tables of RFC 1951, and the symbols found for their first and last lengths and distances. */
  lemma KnownRows()
    ensures LenSym(0) == 257 && LenSym(7) == 264 && LenSym(8) == 265 && LenSym(254) == 284 && LenSym(255) == 285
    ensures LENGTH_BASE[8] == 11 && LENGTH_EXTRA[8] == 1 && LENGTH_BASE[27] == 227 && LENGTH_EXTRA[27] == 5
    ensures LENGTH_BASE[28] == 258 && LENGTH_EXTRA[28] == 0
    ensures DistSym(0) == 0 && DistSym(3) == 3 && DistSym(4) == 4 && DistSym(32767) == 29
    ensures DIST_BASE[4] == 5 && DIST_EXTRA[4] == 1 && DIST_BASE[29] == 24577 && DIST_EXTRA[29] == 13
  {
    assert LenSlot(63) == 4 + LenSlot(31) && LenSlot(254) == 27;
    assert DistSym(7) == 5 && DistSym(15) == 7 && DistSym(31) == 9 && DistSym(63) == 11 && DistSym(127) == 13 && DistSym(255) == 15;
    assert DistSym(511) == 17 && DistSym(1023) == 19 && DistSym(2047) == 21 && DistSym(4095) == 23 && DistSym(8191) == 25;
    assert DistSym(16383) == 27;
  }

  lemma LengthTableStep(k: nat)
    requires 4 <= k < 24
    ensures LENGTH_BASE[k + 4] == 2 * (LENGTH_BASE[k] - 3) + 3 && LENGTH_EXTRA[k + 4] == LENGTH_EXTRA[k] + 1
  {}

  lemma DistTableStep(k: nat)
    requires 2 <= k < 28
    ensures DIST_BASE[k + 2] == 2 * (DIST_BASE[k] - 1) + 1 && DIST_EXTRA[k + 2] == DIST_EXTRA[k] + 1
  {}

  lemma LengthTableStart(k: nat)
    requires k < 8
    ensures LENGTH_BASE[k] == k + 3 && LENGTH_EXTRA[k] == 0
  {}

  lemma DistTableStart(k: nat)
    requires k < 4
    ensures DIST_BASE[k] == k + 1 && DIST_EXTRA[k] == 0
  {}

  lemma {:induction false} LenSlotRange(l: nat, e: nat)
    requires 1 <= e && l < 4 * Pow2(e)
    ensures LenSlot(l) < 4 * e + 4 && (l >= 4 ==> LenSlot(l) >= 4)
    decreases l
  {
    if l >= 8 {
      assert Pow2(1) == 2;
      LenSlotRange(l / 2, e - 1);
    }
  }

  lemma LenSlotBelow(l: nat)
    requires l < 256
    ensures LenSlot(l) < 28 && (l >= 4 ==> LenSlot(l) >= 4)
  {
    assert Pow2(6) == 64;
    LenSlotRange(l, 6);
  }

  /** What the inflater adds up for a length symbol and its extra bits is the length. */
  lemma {:induction false} LenSlotRoundTrip(l: nat)
    requires l < 256
    ensures LenSlot(l) < 28 && LENGTH_EXTRA[LenSlot(l)] == SlotExtra(l) <= 5
    ensures LENGTH_BASE[LenSlot(l)] + Low(l, SlotExtra(l)) == l + 3
    decreases l
  {
    if l < 8 {
      LengthTableStart(l);
    } else {
      LenSlotRoundTrip(l / 2);
      LenSlotBelow(l);
      LengthTableStep(LenSlot(l / 2));
    }
  }

  lemma {:induction false} DistSlotRange(d: nat, e: nat)
    requires 1 <= e && d < 2 * Pow2(e)
    ensures DistSym(d) < 2 * e + 2 && (d >= 2 ==> DistSym(d) >= 2)
    decreases d
  {
    if d >= 4 {
      assert Pow2(1) == 2;
      DistSlotRange(d / 2, e - 1);
    }
  }

  lemma DistSymBelow(d: nat)
    requires d < 0x8000
    ensures DistSym(d) < 30 && (d >= 2 ==> DistSym(d) >= 2)
  {
    Pow2Values();
    assert Pow2(15) == 2 * Pow2(14);
    DistSlotRange(d, 14);
  }

  /** Slot k has e extra bits and covers the distance d + 1. */
  ghost predicate DistCovers(d: nat, k: nat, e: nat) {
    k < 30 && DIST_EXTRA[k] == e <= 13 && DIST_BASE[k] + Low(d, e) == d + 1
  }

  /** One more extra bit: the next pair of slots, twice as wide. */
  lemma DistDoubled(d: nat, k: nat, e: nat)
    requires d >= 4 && 2 <= k < 28 && DistCovers(d / 2, k, e)
    ensures DistCovers(d, k + 2, e + 1)
  {
    DistTableStep(k);
  }

  lemma {:induction false} DistCovered(d: nat)
    requires d < 0x8000
    ensures DistCovers(d, DistSym(d), DistExtra(d))
    decreases d
  {
    if d < 4 {
      DistTableStart(d);
    } else {
      DistCovered(d / 2);
      DistSymBelow(d);
      DistSymBelow(d / 2);
      DistDoubled(d, DistSym(d / 2), DistExtra(d / 2));
    }
  }

  /** The same for distances. */
  lemma DistRoundTrip(d: nat)
    requires d < 0x8000
    ensures DistSym(d) < 30 && DIST_EXTRA[DistSym(d)] == DistExtra(d) <= 13
    ensures DIST_BASE[DistSym(d)] + Low(d, DistExtra(d)) == d + 1
  {
    DistCovered(d);
  }

  lemma LenRoundTrip(l: nat)
    requires l < 256
    ensures 257 <= LenSym(l) < 286 && LENGTH_EXTRA[LenSym(l) - 257] == LenExtra(l) <= 5
    ensures LENGTH_BASE[LenSym(l) - 257] + Low(l, LenExtra(l)) == l + 3
  {
    LenSlotRoundTrip(l);
  }

  /** s_tdefl_large_dist_sym[h] and s_tdefl_large_dist_extra[h], looked up by the high byte alone */
  function LargeDistSym(h: nat): nat {
    DistSym(h) + 16
  }

  function LargeDistExtra(h: nat): nat {
    DistExtra(h) + 8
  }

  lemma {:induction false} LargeDist(d: nat, k: nat)
    requires d >= 2 * Pow2(k)
    ensures DistSym(d) == DistSym(Shr(d, k)) + 2 * k && DistExtra(d) == DistExtra(Shr(d, k)) + k
    decreases k
  {
    if k > 0 { LargeDist(d / 2, k - 1); }
  }

  /** Large distances may be looked up by their high byte. */
  lemma LargeLookUp(d: nat)
    requires d >= 512
    ensures DistSym(d) == LargeDistSym(d / 256) && DistExtra(d) == LargeDistExtra(d / 256)
  {
    Pow2Values();
    LowIsMod(d, 8);
    LargeDist(d, 8);
  }
}
