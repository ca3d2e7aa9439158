/** Limiting code lengths: tdefl_huffman_enforce_max_code_size of miniz.c. */
module HuffmanLimit {
  import opened Powers

  const MAX_SUPPORTED_HUFF_CODESIZE := 32

  /** Number of codes whose length lies in [lo, hi). */
  ghost function Codes(h: seq<int>, lo: nat, hi: nat): int
    requires lo <= hi <= |h|
    decreases hi
  {
    if lo == hi then 0 else Codes(h, lo, hi - 1) + h[hi - 1]
  }

  /** The Kraft sum of the codes of length 1..k, in units of 2^-m. */
  ghost function Kraft(h: seq<int>, m: nat, k: nat): int
    requires k <= m && k < |h|
    decreases k
  {
    if k == 0 then 0 else Kraft(h, m, k - 1) + h[k] * Pow2(m - k)
  }

  ghost predicate Nonnegative(h: seq<int>) {
    forall i :: 0 <= i < |h| ==> h[i] >= 0
  }

  /** A histogram of the lengths of n codes whose Kraft sum is exactly one. */
  ghost predicate Complete(h: seq<int>, n: nat) {
    && |h| == MAX_SUPPORTED_HUFF_CODESIZE + 1
    && Nonnegative(h)
    && Codes(h, 1, |h|) == n
    && Kraft(h, |h| - 1, |h| - 1) == Pow2(|h| - 1)
  }

  /** The same for codes of length 1..max only. */
  ghost predicate CompleteWithin(h: seq<int>, n: nat, max: nat) {
    && max < |h|
    && (forall i :: 1 <= i <= max ==> h[i] >= 0)
    && Codes(h, 1, max + 1) == n
    && Kraft(h, max, max) == Pow2(max)
  }

  lemma {:induction false} CodesAgree(h: seq<int>, g: seq<int>, lo: nat, hi: nat)
    requires lo <= hi <= |h| && hi <= |g|
    requires forall i :: lo <= i < hi ==> h[i] == g[i]
    ensures Codes(h, lo, hi) == Codes(g, lo, hi)
    decreases hi
  {
    if lo < hi { CodesAgree(h, g, lo, hi - 1); }
  }

  lemma {:induction false} CodesAdd(h: seq<int>, lo: nat, hi: nat, i: nat, d: int)
    requires lo <= i < hi <= |h|
    ensures Codes(h[i := h[i] + d], lo, hi) == Codes(h, lo, hi) + d
    decreases hi
  {
    if i == hi - 1 {
      CodesAgree(h[i := h[i] + d], h, lo, hi - 1);
    } else {
      CodesAdd(h, lo, hi - 1, i, d);
    }
  }

  lemma {:induction false} CodesSplit(h: seq<int>, lo: nat, mid: nat, hi: nat)
    requires lo <= mid <= hi <= |h|
    ensures Codes(h, lo, hi) == Codes(h, lo, mid) + Codes(h, mid, hi)
    decreases hi
  {
    if mid < hi { CodesSplit(h, lo, mid, hi - 1); }
  }

  lemma {:induction false} CodesNonnegative(h: seq<int>, lo: nat, hi: nat)
    requires lo <= hi <= |h|
    requires forall i :: lo <= i < hi ==> h[i] >= 0
    ensures Codes(h, lo, hi) >= 0
    ensures forall i :: lo <= i < hi ==> h[i] <= Codes(h, lo, hi)
    decreases hi
  {
    if lo < hi { CodesNonnegative(h, lo, hi - 1); }
  }

  lemma {:induction false} KraftAgree(h: seq<int>, g: seq<int>, m: nat, k: nat)
    requires k <= m && k < |h| && k < |g|
    requires forall i :: 1 <= i <= k ==> h[i] == g[i]
    ensures Kraft(h, m, k) == Kraft(g, m, k)
    decreases k
  {
    if k > 0 { KraftAgree(h, g, m, k - 1); }
  }

  lemma {:induction false} KraftAdd(h: seq<int>, m: nat, k: nat, i: nat, d: int)
    requires 1 <= i <= k <= m && k < |h|
    ensures Kraft(h[i := h[i] + d], m, k) == Kraft(h, m, k) + d * Pow2(m - i)
    decreases k
  {
    if i == k {
      KraftAgree(h[i := h[i] + d], h, m, k - 1);
      MulDist(h[i], d, Pow2(m - i));
    } else {
      KraftAdd(h, m, k - 1, i, d);
    }
  }

  lemma KraftAddLongest(h: seq<int>, m: nat, d: int)
    requires 1 <= m < |h|
    ensures Kraft(h[m := h[m] + d], m, m) == Kraft(h, m, m) + d
  {
    KraftAdd(h, m, m, m, d);
    assert Pow2(m - m) == 1;
  }

  /** Changing the unit of the Kraft sum scales it. */
  lemma {:induction false} KraftRescale(h: seq<int>, m: nat, m': nat, k: nat)
    requires k <= m <= m' && k < |h|
    ensures Kraft(h, m', k) == Kraft(h, m, k) * Pow2(m' - m)
    decreases k
  {
    if k > 0 {
      KraftRescale(h, m, m', k - 1);
      Pow2Add(m - k, m' - m);
      assert m - k + (m' - m) == m' - k;
      MulAssoc(h[k], Pow2(m - k), Pow2(m' - m));
      MulDist(Kraft(h, m, k - 1), h[k] * Pow2(m - k), Pow2(m' - m));
    }
  }

  /** Codes longer than max carry less than one unit of 2^-max each. */
  lemma {:induction false} LongCodesAreLight(h: seq<int>, m: nat, max: nat, k: nat)
    requires max <= k <= m && k < |h|
    requires forall i :: 0 <= i < |h| ==> h[i] >= 0
    ensures 0 <= Kraft(h, m, k) - Kraft(h, m, max) <= Codes(h, max + 1, k + 1) * Pow2(m - max)
    decreases k
  {
    if k > max {
      LongCodesAreLight(h, m, max, k - 1);
      Pow2Monotone(m - k, m - max);
      MulMono(Pow2(m - k), Pow2(m - max), h[k]);
      MulMono(0, h[k], Pow2(m - k));
      MulDist(Codes(h, max + 1, k), h[k], Pow2(m - max));
    }
  }

  /** If every code has length max the Kraft sum counts them. */
  lemma {:induction false} OnlyLongest(h: seq<int>, max: nat, k: nat)
    requires k < max < |h|
    requires forall i :: 1 <= i < max ==> h[i] == 0
    ensures Kraft(h, max, k) == 0 && Codes(h, 1, k + 1) == 0
    decreases k
  {
    if k > 0 { OnlyLongest(h, max, k - 1); }
  }

  /** A Kraft sum over n codes is at most n times its largest unit. */
  lemma {:induction false} KraftBound(h: seq<int>, m: nat, k: nat)
    requires 0 <= k <= m && k < |h| && 1 <= m
    requires forall i :: 1 <= i <= k ==> h[i] >= 0
    ensures 0 <= Kraft(h, m, k) <= Codes(h, 1, k + 1) * Pow2(m - 1)
    decreases k
  {
    if k > 0 {
      KraftBound(h, m, k - 1);
      Pow2Monotone(m - k, m - 1);
      MulMono(Pow2(m - k), Pow2(m - 1), h[k]);
      MulMono(0, h[k], Pow2(m - k));
      MulDist(Codes(h, 1, k), h[k], Pow2(m - 1));
    }
  }

  /** Folding the over-long codes into length max overshoots one by at most the number of codes moved. */
  lemma FoldedExcess(h: seq<int>, n: nat, max: nat)
    requires Complete(h, n) && 1 <= max < |h|
    ensures var moved := Codes(h, max + 1, |h|);
            && Kraft(h, max, max) <= Pow2(max) <= Kraft(h, max, max) + moved
            && (moved == 0 ==> Kraft(h, max, max) == Pow2(max))
  {
    var top := |h| - 1;
    var moved := Codes(h, max + 1, top + 1);
    LongCodesAreLight(h, top, max, top);
    KraftRescale(h, max, top, max);
    Pow2Add(max, top - max);
    assert max + (top - max) == top;
    BetweenUnits(Kraft(h, max, max), Pow2(max), moved, Pow2(top - max));
    if moved == 0 { BetweenUnits(Kraft(h, max, max), Pow2(max), 0, Pow2(top - max)); }
  }

  lemma BetweenUnits(k: int, one: int, moved: int, u: int)
    requires u > 0 && k * u <= one * u <= k * u + moved * u
    ensures k <= one <= k + moved
  {
    MulDist(k, moved, u);
    MulDist(one, 1, u);
    MulDist(k + moved, 1, u);
    MulCancelLess(k, one, u);
    MulCancelLess(one, k + moved, u);
  }

  /** The histogram with every code longer than max counted at max. */
  ghost function Folded(h: seq<int>, max: nat): seq<int>
    requires max < |h|
  {
    h[max := h[max] + Codes(h, max + 1, |h|)]
  }

  /** Invariant of the repair loop: the excess over one never exceeds the number of longest codes. */
  ghost predicate Repairable(h: seq<int>, n: nat, max: nat) {
    && 1 <= max < |h|
    && (forall j :: 1 <= j <= max ==> h[j] >= 0)
    && Codes(h, 1, max + 1) == n
    && Pow2(max) <= Kraft(h, max, max) <= Pow2(max) + h[max]
  }

  /** What the repair loop starts from. */
  lemma FoldedFacts(h: seq<int>, n: nat, max: nat)
    requires Complete(h, n) && 1 <= max <= 16
    ensures Repairable(Folded(h, max), n, max)
  {
    var moved := Codes(h, max + 1, |h|);
    CodesNonnegative(h, max + 1, |h|);
    FoldedExcess(h, n, max);
    KraftAddLongest(h, max, moved);
    FoldedCodes(h, n, max);
  }

  lemma FoldedCodes(h: seq<int>, n: nat, max: nat)
    requires Complete(h, n) && 1 <= max <= 16
    ensures Codes(Folded(h, max), 1, max + 1) == n
  {
    var moved := Codes(h, max + 1, |h|);
    CodesAdd(h, 1, max + 1, max, moved);
    CodesSplit(h, 1, max + 1, |h|);
  }

  lemma NothingToFold(h: seq<int>, n: nat, max: nat)
    requires Complete(h, n) && 1 <= max <= 16
    requires forall i :: max < i < |h| ==> h[i] == 0
    ensures Folded(h, max) == h && Kraft(h, max, max) == Pow2(max)
  {
    AllZero(h, max + 1, |h|);
    FoldedExcess(h, n, max);
  }

  /** The 32-bit sum of the source cannot wrap. */
  lemma TotalFits(h: seq<int>, n: nat, max: nat)
    requires Repairable(h, n, max) && max <= 16 && n <= Pow2(max)
    ensures 0 <= Kraft(h, max, max) < 0x1_0000_0000
  {
    KraftBound(h, max, max);
    MulMono(n, Pow2(max), Pow2(max - 1));
    Pow2Add(max, max - 1);
    Pow2Monotone(max + (max - 1), 31);
    Pow2Values();
  }

  /** A code of length i is split in two and a longest code is dropped. */
  ghost function Repaired(h: seq<int>, max: nat, i: nat): seq<int>
    requires 1 <= i < max < |h|
  {
    var g := h[max := h[max] - 1][i := h[i] - 1];
    g[i + 1 := g[i + 1] + 2]
  }

  lemma RepairStep(h: seq<int>, n: nat, max: nat, i: nat)
    requires Repairable(h, n, max) && Kraft(h, max, max) > Pow2(max)
    requires 1 <= i < max && h[i] > 0
    ensures Repairable(Repaired(h, max, i), n, max)
    ensures Kraft(Repaired(h, max, i), max, max) == Kraft(h, max, max) - 1
  {
    RepairedKraft(h, max, i);
    RepairedCodes(h, max, i);
  }

  lemma RepairedKraft(h: seq<int>, max: nat, i: nat)
    requires 1 <= i < max < |h|
    ensures Kraft(Repaired(h, max, i), max, max) == Kraft(h, max, max) - 1
  {
    var g := h[max := h[max] - 1];
    var g' := g[i := g[i] - 1];
    assert Repaired(h, max, i) == g'[i + 1 := g'[i + 1] + 2];
    KraftAddLongest(h, max, -1);
    KraftAdd(g, max, max, i, -1);
    KraftAdd(g', max, max, i + 1, 2);
    assert Pow2(max - i) == 2 * Pow2(max - (i + 1));
  }

  lemma RepairedCodes(h: seq<int>, max: nat, i: nat)
    requires 1 <= i < max < |h|
    ensures Codes(Repaired(h, max, i), 1, max + 1) == Codes(h, 1, max + 1)
  {
    var g := h[max := h[max] - 1];
    var g' := g[i := g[i] - 1];
    assert Repaired(h, max, i) == g'[i + 1 := g'[i + 1] + 2];
    CodesAdd(h, 1, max + 1, max, -1);
    CodesAdd(g, 1, max + 1, i, -1);
    CodesAdd(g', 1, max + 1, i + 1, 2);
  }

  /** While the sum is over one there is a code shorter than max: n codes of length max would fit. */
  lemma ShorterCodeExists(h: seq<int>, n: nat, max: nat)
    requires Repairable(h, n, max) && n <= Pow2(max) && Kraft(h, max, max) > Pow2(max)
    ensures exists i :: 1 <= i < max && h[i] > 0
  {
    if forall i :: 1 <= i < max ==> h[i] <= 0 {
      OnlyLongest(h, max, max - 1);
      assert false;
    }
  }

  lemma {:induction false} AllZero(h: seq<int>, lo: nat, hi: nat)
    requires lo <= hi <= |h|
    requires forall i :: lo <= i < hi ==> h[i] == 0
    ensures Codes(h, lo, hi) == 0
    decreases hi
  {
    if lo < hi { AllZero(h, lo, hi - 1); }
  }

  /** The greatest length up to k that some code has; 0 if none has. */
  ghost function LongestUsed(h: seq<int>, k: nat): (i: nat)
    requires k < |h|
    ensures i <= k && (i > 0 ==> h[i] != 0) && forall j :: i < j <= k ==> h[j] == 0
    decreases k, h
  {
    if k == 0 || h[k] != 0 then k else LongestUsed(h, k - 1)
  }

  /** The histogram after t repairs, each of which splits the longest code below max. */
  ghost function RepairedTimes(h: seq<int>, max: nat, t: nat): seq<int>
    requires 1 <= max < |h|
    decreases t, h
  {
    if t == 0 then h else
      var g := RepairedTimes(h, max, t - 1);
      var i := if |g| == |h| then LongestUsed(g, max - 1) else 0;
      if i == 0 then g else Repaired(g, max, i)
  }

  /** The body of the repair loop. */
  method RepairOnce(numCodes: array<int>, maxCodeSize: nat, ghost n: nat)
    requires Repairable(numCodes[..], n, maxCodeSize) && n <= Pow2(maxCodeSize)
    requires Kraft(numCodes[..], maxCodeSize, maxCodeSize) > Pow2(maxCodeSize)
    modifies numCodes
    ensures Repairable(numCodes[..], n, maxCodeSize)
    ensures Kraft(numCodes[..], maxCodeSize, maxCodeSize) == old(Kraft(numCodes[..], maxCodeSize, maxCodeSize)) - 1
    ensures var i := LongestUsed(old(numCodes[..]), maxCodeSize - 1);
            i >= 1 && numCodes[..] == Repaired(old(numCodes[..]), maxCodeSize, i)
  {
    ghost var h := numCodes[..];
    ShorterCodeExists(h, n, maxCodeSize);
    numCodes[maxCodeSize] := numCodes[maxCodeSize] - 1;
    var i := maxCodeSize - 1;
    while i > 0 && numCodes[i] == 0
      invariant 0 <= i < maxCodeSize
      invariant forall j :: i < j < maxCodeSize ==> h[j] == 0
      invariant LongestUsed(h, i) == LongestUsed(h, maxCodeSize - 1)
    {
      i := i - 1;
    }
    RepairStep(h, n, maxCodeSize, i);
    numCodes[i] := numCodes[i] - 1;
    numCodes[i + 1] := numCodes[i + 1] + 2;
    assert numCodes[..] == Repaired(h, maxCodeSize, i);
  }

  /** First loop: codes longer than maxCodeSize are counted at maxCodeSize. */
  method FoldLongCodes(numCodes: array<int>, maxCodeSize: nat)
    requires maxCodeSize < numCodes.Length
    modifies numCodes
    ensures numCodes[..] == Folded(old(numCodes[..]), maxCodeSize)
  {
    ghost var h := numCodes[..];
    var i := maxCodeSize + 1;
    while i < numCodes.Length
      invariant maxCodeSize < i <= numCodes.Length
      invariant numCodes[..] == h[maxCodeSize := h[maxCodeSize] + Codes(h, maxCodeSize + 1, i)]
    {
      numCodes[maxCodeSize] := numCodes[maxCodeSize] + numCodes[i];
      i := i + 1;
    }
  }

  /** Second loop: the Kraft sum in units of 2^-maxCodeSize. */
  method KraftTotal(numCodes: array<int>, maxCodeSize: nat) returns (total: int)
    requires maxCodeSize < numCodes.Length
    ensures total == Kraft(numCodes[..], maxCodeSize, maxCodeSize)
  {
    total := 0;
    var i := maxCodeSize;
    while i > 0
      invariant 0 <= i <= maxCodeSize
      invariant total == Kraft(numCodes[..], maxCodeSize, maxCodeSize) - Kraft(numCodes[..], maxCodeSize, i)
    {
      total := total + numCodes[i] * Pow2(maxCodeSize - i);
      i := i - 1;
    }
  }

  /** Longer codes are cut to max bits, and the excess of their Kraft sum over one is repaired unit by unit. */
  ghost function Limited(h: seq<int>, max: nat): seq<int>
    requires 1 <= max < |h|
  {
    var g := Folded(h, max);
    var excess := Kraft(g, max, max) - Pow2(max);
    RepairedTimes(g, max, if excess < 0 then 0 else excess)
  }

  /** Shortens every code to at most maxCodeSize, keeping the number of codes and completeness.
      num_codes above maxCodeSize is left as it was: the caller never looks there. */
  method EnforceMaxCodeSize(numCodes: array<int>, codeListLen: nat, maxCodeSize: nat)
    requires numCodes.Length == MAX_SUPPORTED_HUFF_CODESIZE + 1
    requires 1 <= maxCodeSize <= 16 && codeListLen <= Pow2(maxCodeSize)
    requires codeListLen > 1 ==> Complete(numCodes[..], codeListLen)
    modifies numCodes
    ensures codeListLen <= 1 ==> numCodes[..] == old(numCodes[..])
    ensures codeListLen > 1 ==> CompleteWithin(numCodes[..], codeListLen, maxCodeSize)
    ensures codeListLen > 1 ==> numCodes[..] == Limited(old(numCodes[..]), maxCodeSize)
    ensures codeListLen > 1 && (forall i :: maxCodeSize < i < numCodes.Length ==> old(numCodes[i]) == 0)
            ==> numCodes[..] == old(numCodes[..])
    ensures numCodes[0] == old(numCodes[0])
    ensures forall i :: maxCodeSize < i < numCodes.Length ==> numCodes[i] == old(numCodes[i])
  {
    if codeListLen <= 1 { return; }
    ghost var h := numCodes[..];
    ghost var nothingToFold := forall j :: maxCodeSize < j < |h| ==> h[j] == 0;
    if nothingToFold { NothingToFold(h, codeListLen, maxCodeSize); }
    FoldAndRepair(numCodes, codeListLen, maxCodeSize);
  }

  method FoldAndRepair(numCodes: array<int>, n: nat, maxCodeSize: nat)
    requires 1 <= maxCodeSize <= 16 && n <= Pow2(maxCodeSize) && Complete(numCodes[..], n)
    modifies numCodes
    ensures Repairable(numCodes[..], n, maxCodeSize) && Kraft(numCodes[..], maxCodeSize, maxCodeSize) == Pow2(maxCodeSize)
    ensures numCodes[..] == Limited(old(numCodes[..]), maxCodeSize)
    ensures forall j :: 0 <= j < numCodes.Length && (j == 0 || maxCodeSize < j) ==> numCodes[j] == old(numCodes[j])
  {
    FoldedFacts(numCodes[..], n, maxCodeSize);
    FoldLongCodes(numCodes, maxCodeSize);
    TotalFits(numCodes[..], n, maxCodeSize);
    var total := KraftTotal(numCodes, maxCodeSize);
    RepairAll(numCodes, maxCodeSize, n, total);
  }

  /** The repair loop; nothing changes if the total is right already. */
  method RepairAll(numCodes: array<int>, maxCodeSize: nat, ghost n: nat, total0: int)
    requires Repairable(numCodes[..], n, maxCodeSize) && n <= Pow2(maxCodeSize)
    requires total0 == Kraft(numCodes[..], maxCodeSize, maxCodeSize)
    modifies numCodes
    ensures Repairable(numCodes[..], n, maxCodeSize) && Kraft(numCodes[..], maxCodeSize, maxCodeSize) == Pow2(maxCodeSize)
    ensures forall j :: 0 <= j < numCodes.Length && (j == 0 || maxCodeSize < j) ==> numCodes[j] == old(numCodes[j])
    ensures numCodes[..] == RepairedTimes(old(numCodes[..]), maxCodeSize, total0 - Pow2(maxCodeSize))
  {
    ghost var h := numCodes[..];
    var total := total0;
    while total != Pow2(maxCodeSize)
      invariant total == Kraft(numCodes[..], maxCodeSize, maxCodeSize) <= total0
      invariant Repairable(numCodes[..], n, maxCodeSize)
      invariant forall j :: 0 <= j < numCodes.Length && (j == 0 || maxCodeSize < j) ==> numCodes[j] == h[j]
      invariant Pow2(maxCodeSize) <= total && numCodes[..] == RepairedTimes(h, maxCodeSize, total0 - total)
      decreases total
    {
      RepairOnce(numCodes, maxCodeSize, n);
      total := total - 1;
    }
  }
}
