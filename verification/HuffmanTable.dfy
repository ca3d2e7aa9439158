/** tdefl_optimize_huffman_table of miniz.c: from symbol counts to code sizes and codes. */
module HuffmanTable {
  import opened Powers
  import opened MergeTree
  import opened HuffmanOptimality
  import opened HuffmanLimit
  import opened MinimumRedundancy
  import opened CanonicalCode
  import opened RadixSort
  import opened InflateTableRoom
  import opened HuffmanTableSteps
  import opened SymbolCost

  const MAX_HUFF_SYMBOLS := 288

  /** The used symbols with their counts, in symbol order. */
  method CollectUsed(count: seq<nat>, syms: array<SymFreq>) returns (numUsedSyms: nat)
    requires syms.Length >= |count|
    modifies syms
    ensures numUsedSyms <= |count| && syms[..numUsedSyms] == UsedSyms(count, |count|)
  {
    numUsedSyms := 0;
    var i := 0;
    while i < |count|
      invariant 0 <= i <= |count| && numUsedSyms <= i
      invariant syms[..numUsedSyms] == UsedSyms(count, i)
    {
      if count[i] > 0 {
        syms[numUsedSyms] := SymFreq(count[i], i);
        numUsedSyms := numUsedSyms + 1;
      }
      i := i + 1;
    }
  }

  /** num_codes: how many codes of each length the minimum-redundancy code has. */
  method CountLengths(lengths: array<nat>) returns (numCodes: array<int>)
    requires forall i :: 0 <= i < lengths.Length ==> 1 <= lengths[i] <= MAX_SUPPORTED_HUFF_CODESIZE
    ensures fresh(numCodes) && numCodes.Length == MAX_SUPPORTED_HUFF_CODESIZE + 1
    ensures numCodes[..] == LengthHistogram(lengths[..])
  {
    numCodes := new int[MAX_SUPPORTED_HUFF_CODESIZE + 1](_ => 0);
    assert lengths[..0] == [] && numCodes[..] == LengthHistogram([]);
    var i := 0;
    while i < lengths.Length
      invariant 0 <= i <= lengths.Length
      invariant numCodes[..] == LengthHistogram(lengths[..i])
    {
      assert lengths[..i + 1] == lengths[..i] + [lengths[i]];
      HistogramStep(lengths[..i], lengths[i]);
      numCodes[lengths[i]] := numCodes[lengths[i]] + 1;
      i := i + 1;
    }
    assert lengths[..i] == lengths[..];
  }

  /** h says how many of each size there are. */
  ghost predicate HowMany(sizes: seq<nat>, h: seq<int>, limit: nat) {
    limit < |h| && forall i :: 1 <= i <= limit ==> Count(sizes, i) == h[i]
  }

  /** The shortest sizes go to the end of the list, where the most frequent symbols are. */
  method DistributeSizes(syms: seq<SymFreq>, numCodes: seq<int>, limit: nat, codeSizes: array<nat>)
    requires limit < |numCodes| && Codes(numCodes, 1, limit + 1) == |syms|
    requires forall i :: 1 <= i <= limit ==> numCodes[i] >= 0
    requires DistinctSymbols(syms, codeSizes.Length) && forall x :: 0 <= x < codeSizes.Length ==> codeSizes[x] == 0
    modifies codeSizes
    ensures Distributed(syms, 0, codeSizes[..], limit)
    ensures HowMany(codeSizes[..], numCodes, limit)
  {
    var i, j := 1, |syms|;
    NothingDistributed(syms, codeSizes[..]);
    while i <= limit
      invariant 1 <= i <= limit + 1 && 0 <= j <= |syms| && j == Codes(numCodes, i, limit + 1)
      invariant Distributed(syms, j, codeSizes[..], i - 1)
      invariant forall v :: 1 <= v ==> Count(codeSizes[..], v) == if v < i then numCodes[v] else 0
    {
      CodesFront(numCodes, i, limit + 1);
      CodesNonnegative(numCodes, i + 1, limit + 1);
      j := DistributeOne(syms, numCodes[i], j, i, codeSizes);
      i := i + 1;
    }
  }

  /** Body of the distribution loop: the next n symbols get size i. */
  method DistributeOne(syms: seq<SymFreq>, n: nat, from: nat, i: nat, codeSizes: array<nat>) returns (j: nat)
    requires n <= from <= |syms| && i >= 1
    requires DistinctSymbols(syms, codeSizes.Length) && Distributed(syms, from, codeSizes[..], i - 1)
    requires Count(codeSizes[..], i) == 0
    modifies codeSizes
    ensures j == from - n && Distributed(syms, j, codeSizes[..], i)
    ensures forall v :: 1 <= v ==> Count(codeSizes[..], v) == if v == i then n else old(Count(codeSizes[..], v))
  {
    j := from;
    var l := n;
    ghost var before := codeSizes[..];
    DistributedAtLeast(syms, from, before, i);
    while l > 0
      invariant 0 <= l <= n && j == from - (n - l)
      invariant Distributed(syms, j, codeSizes[..], i) && Added(before, codeSizes[..], i, n - l)
    {
      PlaceSize(syms, j, codeSizes, i, before, n - l);
      j := j - 1;
      l := l - 1;
    }
  }

  /** The counts of all sizes are as before, but for k more of size i, which there was none of. */
  ghost predicate Added(before: seq<nat>, sizes: seq<nat>, i: nat, k: nat) {
    forall v :: 1 <= v ==> Count(sizes, v) == if v == i then k else Count(before, v)
  }

  /** The next symbol down gets size i. */
  method PlaceSize(syms: seq<SymFreq>, j: nat, codeSizes: array<nat>, i: nat, ghost before: seq<nat>, ghost k: nat)
    requires 1 <= j && i >= 1 && Distributed(syms, j, codeSizes[..], i) && Added(before, codeSizes[..], i, k)
    modifies codeSizes
    ensures Distributed(syms, j - 1, codeSizes[..], i) && Added(before, codeSizes[..], i, k + 1)
  {
    ghost var sizes := codeSizes[..];
    DistributeStep(syms, j, sizes, i);
    codeSizes[syms[j - 1].symIndex] := i;
    assert codeSizes[..] == sizes[syms[j - 1].symIndex := i];
    OneMoreOfSize(before, sizes, codeSizes[..], i, k);
  }

  lemma OneMoreOfSize(before: seq<nat>, sizes: seq<nat>, sizes': seq<nat>, i: nat, k: nat)
    requires i >= 1 && Added(before, sizes, i, k)
    requires forall v :: 1 <= v ==> Count(sizes', v) == Count(sizes, v) + (if v == i then 1 else 0)
    ensures Added(before, sizes', i, k + 1)
  {}

  /** next_code: the first code of every length. */
  method StartCodes(numCodes: array<int>, limit: nat, ghost sizes: seq<nat>) returns (nextCode: array<int>)
    requires 1 <= limit < numCodes.Length && forall i :: 1 <= i <= limit ==> numCodes[i] == Count(sizes, i)
    ensures fresh(nextCode) && NextCodes(sizes, 0, nextCode[..], limit)
  {
    nextCode := new int[limit + 1](_ => 0);
    var i, j := 2, 0;
    while i <= limit
      invariant 2 <= i <= limit + 1 && (i - 1 <= limit ==> j == nextCode[i - 1])
      invariant forall len :: 1 <= len < i && len <= limit ==> nextCode[len] == FirstCode(sizes, len)
    {
      j := (j + numCodes[i - 1]) * 2;
      nextCode[i] := j;
      i := i + 1;
    }
  }

  /** Stores for every used symbol its canonical code, first bit lowest. */
  method AssignCodes(codeSizes: seq<nat>, numCodes: array<int>, limit: nat, codes: array<nat>)
    requires 1 <= limit < numCodes.Length && forall i :: 1 <= i <= limit ==> numCodes[i] == Count(codeSizes, i)
    requires codes.Length == |codeSizes| && forall x :: 0 <= x < |codeSizes| ==> codeSizes[x] <= limit
    modifies codes
    ensures forall x :: 0 <= x < |codeSizes| ==> codes[x] == if codeSizes[x] > 0 then Bits(codeSizes, x) else old(codes[x])
  {
    var nextCode := StartCodes(numCodes, limit, codeSizes);
    ghost var codes0 := codes[..];
    var i: nat := 0;
    while i < |codeSizes|
      invariant i <= |codeSizes| && NextCodes(codeSizes, i, nextCode[..], limit) && Assigned(codeSizes, codes0, codes[..], i)
      modifies codes, nextCode
    {
      AssignOne(codeSizes, i, nextCode, limit, codes, codes0);
      i := i + 1;
    }
  }

  /** The first n symbols have their codes. */
  ghost predicate Assigned(codeSizes: seq<nat>, before: seq<nat>, codes: seq<nat>, n: nat) {
    |codes| == |before| == |codeSizes|
    && forall x :: 0 <= x < |codeSizes| ==> codes[x] == if x < n && codeSizes[x] > 0 then Bits(codeSizes, x) else before[x]
  }

  method AssignOne(codeSizes: seq<nat>, i: nat, nextCode: array<int>, limit: nat, codes: array<nat>, ghost before: seq<nat>)
    requires i < |codeSizes| && (forall x :: 0 <= x < |codeSizes| ==> codeSizes[x] <= limit)
    requires NextCodes(codeSizes, i, nextCode[..], limit) && Assigned(codeSizes, before, codes[..], i)
    modifies codes, nextCode
    ensures NextCodes(codeSizes, i + 1, nextCode[..], limit) && Assigned(codeSizes, before, codes[..], i + 1)
  {
    if codeSizes[i] == 0 {
      NextCodesSkip(codeSizes, i, nextCode[..], limit);
    } else {
      var revCode := TakeCode(codeSizes, i, nextCode, limit);
      codes[i] := revCode;
    }
  }

  method TakeCode(codeSizes: seq<nat>, i: nat, nextCode: array<int>, limit: nat) returns (revCode: nat)
    requires i < |codeSizes| && 1 <= codeSizes[i] <= limit && NextCodes(codeSizes, i, nextCode[..], limit)
    modifies nextCode
    ensures revCode == Bits(codeSizes, i) && NextCodes(codeSizes, i + 1, nextCode[..], limit)
  {
    var codeSize := codeSizes[i];
    ghost var before := nextCode[..];
    NextCodesStep(codeSizes, i, before, limit);
    var code := nextCode[codeSize];
    nextCode[codeSize] := code + 1;
    assert nextCode[..] == before[codeSize := before[codeSize] + 1];
    revCode := ReverseBits(code, codeSize);
  }

  /** The histogram is that of the lengths, if they keep to the limit. */
  ghost predicate CountsOf(numCodes: seq<int>, lengths: seq<nat>, limit: nat) {
    (forall p :: 0 <= p < |lengths| ==> lengths[p] <= limit)
    ==> limit < |numCodes| && forall v :: 1 <= v <= limit ==> numCodes[v] == Occurrences(lengths, v)
  }

  /** Counts of a code for the list of symbols within the limit. */
  ghost predicate Chosen(syms: seq<SymFreq>, lengths: seq<nat>, h: seq<int>, limit: nat) {
    && |h| == MAX_SUPPORTED_HUFF_CODESIZE + 1 && limit < |h|
    && Codes(h, 1, limit + 1) == |syms| && (forall i :: 1 <= i <= limit ==> h[i] >= 0)
    && (|syms| <= 1 || CompleteWithin(h, |syms|, limit))
    && MinimumFor(syms, lengths) && NonIncreasing(lengths, 0) && CountsOf(h, lengths, limit)
  }

  /** Phase one: which sizes the list of used symbols gets, as the number of codes of each length: as many as the
      minimum-redundancy code has, unless some are too long. */
  method ChooseLengths(syms: seq<SymFreq>, limit: nat) returns (numCodes: array<int>, ghost lengths: seq<nat>)
    requires 1 <= limit <= MAX_BITS && |syms| <= MAX_HUFF_SYMBOLS && |syms| <= Pow2(limit)
    requires Mergeable(KeysOf(syms)) && forall p :: 0 <= p < |syms| ==> 0 < syms[p].key < KEY_LIMIT
    ensures fresh(numCodes) && Chosen(syms, lengths, numCodes[..], limit)
  {
    var n := |syms|;
    var keys := MinimumLengths(syms);
    lengths := keys[..];
    numCodes := CountLengths(keys);
    ghost var h := numCodes[..];
    if n >= 2 { CompleteHistogram(lengths); }
    EnforceMaxCodeSize(numCodes, n, limit);
    assert (forall v :: limit < v < |h| ==> Occurrences(lengths, v) == 0) ==> forall v :: limit < v < |h| ==> h[v] == 0;
    LimitedIsChosen(syms, lengths, h, numCodes[..], limit);
  }

  lemma LimitedIsChosen(syms: seq<SymFreq>, lengths: seq<nat>, h: seq<int>, h': seq<int>, limit: nat)
    requires 1 <= limit <= MAX_BITS && MinimumLengthsFor(syms, lengths) && h == LengthHistogram(lengths) && |h'| == |h|
    requires |syms| <= 1 ==> h' == h
    requires |syms| > 1 ==> CompleteWithin(h', |syms|, limit)
    requires (forall v :: limit < v < |h| ==> Occurrences(lengths, v) == 0) ==> h' == h
    ensures Chosen(syms, lengths, h', limit)
  {
    if |syms| <= 1 { HistogramCodes(lengths, limit); }
    CountsUnchanged(h', lengths, limit);
  }

  method MinimumLengths(syms: seq<SymFreq>) returns (keys: array<nat>)
    requires |syms| <= MAX_HUFF_SYMBOLS
    requires Mergeable(KeysOf(syms)) && forall p :: 0 <= p < |syms| ==> 0 < syms[p].key < KEY_LIMIT
    ensures fresh(keys) && keys.Length == |syms| && MinimumLengthsFor(syms, keys[..])
  {
    var n := |syms|;
    keys := new nat[n](p requires 0 <= p < n => syms[p].key);
    ghost var w := KeysOf(syms);
    assert keys[..] == w;
    CalculateMinimumRedundancy(keys);
    IsMinimum(syms, w, keys[..]);
  }

  lemma CountsUnchanged(h: seq<int>, lengths: seq<nat>, limit: nat)
    requires limit < |h| == MAX_SUPPORTED_HUFF_CODESIZE + 1
    requires (forall v :: limit < v < |h| ==> Occurrences(lengths, v) == 0) ==> h == LengthHistogram(lengths)
    ensures CountsOf(h, lengths, limit)
  {
    if forall p :: 0 <= p < |lengths| ==> lengths[p] <= limit {
      forall v: nat | limit < v ensures Occurrences(lengths, v) == 0 { OccursNever(lengths, v); }
    }
  }

  /** Main result: whatever the counts, the symbols that occur are exactly those that get a code, more frequent symbols
      never get longer codes, the inflater accepts the sizes, and the codes are the ones it will look for. No prefix code
      takes fewer bits for these counts, unless each that takes the fewest has a code above the limit. */
  method OptimizeHuffmanTable(count: seq<nat>, limit: nat) returns (codeSizes: array<nat>, codes: array<nat>)
    requires 1 <= limit <= MAX_BITS && |count| <= MAX_HUFF_SYMBOLS && |count| <= Pow2(limit) && Sum(count) < KEY_LIMIT
    ensures codeSizes.Length == codes.Length == |count| && fresh(codeSizes) && fresh(codes)
    ensures Acceptable(codeSizes[..]) && Favours(count, codeSizes[..], limit)
    ensures LeastIfWithin(count, codeSizes[..], limit) && HasLeast(count)
    ensures forall x :: 0 <= x < |count| ==> codes[x] == if count[x] > 0 then Bits(codeSizes[..], x) else 0
  {
    codeSizes := new nat[|count|](_ => 0);
    codes := new nat[|count|](_ => 0);
    var numCodes := AssignSizes(count, limit, codeSizes);
    AssignCodes(codeSizes[..], numCodes, limit, codes);
  }

  /** What is wanted of code sizes. */
  ghost predicate Sized(count: seq<nat>, sizes: seq<nat>, limit: nat) {
    && Acceptable(sizes) && Favours(count, sizes, limit) && LeastIfWithin(count, sizes, limit) && HasLeast(count)
  }

  lemma SizesAreGood(count: seq<nat>, syms: seq<SymFreq>, from: seq<nat>, lengths: seq<nat>, sizes: seq<nat>, h: seq<int>, limit: nat)
    requires ListOf(count, syms, from) && Mergeable(KeysOf(syms)) && Chosen(syms, lengths, h, limit)
    requires |sizes| == |count| && Distributed(syms, 0, sizes, limit) && 1 <= limit <= MAX_BITS && HowMany(sizes, h, limit)
    ensures Sized(count, sizes, limit)
  {
    SizesFavour(count, syms, sizes, limit);
    HistogramIsAcceptable(sizes, h, |syms|, limit);
    LeastOrLong(count, syms, from, lengths, sizes, limit);
  }

  /** Phases one and two: the sizes, and how many there are of each. */
  method AssignSizes(count: seq<nat>, limit: nat, codeSizes: array<nat>) returns (numCodes: array<int>)
    requires 1 <= limit <= MAX_BITS && |count| <= MAX_HUFF_SYMBOLS && |count| <= Pow2(limit) && Sum(count) < KEY_LIMIT
    requires codeSizes.Length == |count| && forall x :: 0 <= x < |count| ==> codeSizes[x] == 0
    modifies codeSizes
    ensures fresh(numCodes) && limit < numCodes.Length
    ensures Sized(count, codeSizes[..], limit) && forall i :: 1 <= i <= limit ==> numCodes[i] == Count(codeSizes[..], i)
  {
    var syms, from := SortUsed(count);
    ListDistinct(count, syms, from);
    numCodes := SizesFor(count, syms, from, limit, codeSizes);
  }

  lemma ListDistinct(count: seq<nat>, syms: seq<SymFreq>, from: seq<nat>)
    requires ListOf(count, syms, from)
    ensures DistinctSymbols(syms, |count|)
  {
    forall p | 0 <= p < |syms| ensures syms[p].symIndex < |count| { assert ListedRight(count, syms[p], |count|); }
  }

  method SizesFor(ghost count: seq<nat>, syms: seq<SymFreq>, ghost from: seq<nat>, limit: nat, codeSizes: array<nat>)
    returns (numCodes: array<int>)
    requires 1 <= limit <= MAX_BITS && |syms| <= MAX_HUFF_SYMBOLS && |syms| <= Pow2(limit)
    requires Mergeable(KeysOf(syms)) && forall p :: 0 <= p < |syms| ==> 0 < syms[p].key < KEY_LIMIT
    requires ListOf(count, syms, from) && DistinctSymbols(syms, |count|)
    requires codeSizes.Length == |count| && forall x :: 0 <= x < codeSizes.Length ==> codeSizes[x] == 0
    modifies codeSizes
    ensures fresh(numCodes) && limit < numCodes.Length
    ensures Sized(count, codeSizes[..], limit) && forall i :: 1 <= i <= limit ==> numCodes[i] == Count(codeSizes[..], i)
  {
    ghost var lengths;
    numCodes, lengths := ChooseLengths(syms, limit);
    var h := numCodes[..];
    DistributeSizes(syms, h, limit, codeSizes);
    SizesAreGood(count, syms, from, lengths, codeSizes[..], h, limit);
  }

  method SortUsed(count: seq<nat>) returns (syms: seq<SymFreq>, ghost from: seq<nat>)
    requires |count| <= MAX_HUFF_SYMBOLS && Sum(count) < KEY_LIMIT
    ensures ListOf(count, syms, from) && |syms| <= |count| && Mergeable(KeysOf(syms))
    ensures forall p :: 0 <= p < |syms| ==> 0 < syms[p].key < KEY_LIMIT
  {
    var syms0 := new SymFreq[MAX_HUFF_SYMBOLS](_ => SymFreq(0, 0));
    var syms1 := new SymFreq[MAX_HUFF_SYMBOLS](_ => SymFreq(0, 0));
    var numUsedSyms := CollectUsed(count, syms0);
    UsedSymsList(count, |count|);
    UsedKeys(count);
    var sorted;
    sorted, from := RadixSortSyms(numUsedSyms, syms0, syms1);
    syms := sorted[..numUsedSyms];
    ghost var used := UsedSyms(count, |count|);
    SortedRearranges(used, syms, 2, from);
    SortedLists(count, used, syms, from);
    SortedIsMergeable(count, syms, from);
    forall x | 0 <= x < |count| ensures count[x] < KEY_LIMIT { SumAtLeast(count, x); }
    ListedKeys(count, syms, KEY_LIMIT);
  }
}
