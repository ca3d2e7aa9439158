/** The sorted index of an archive's central directory (miniz.c): heap sort of the file indices by name, and the
    binary search that stands in for the linear scan. */
module ZipDirectory {
  import opened ZipNames
  import opened ZipHeap

  method Swap(a: array<nat>, i: nat, j: nat)
    requires i < a.Length && j < a.Length
    modifies a
    ensures a[..] == Swapped(old(a[..]), i, j)
  {
    a[i], a[j] := a[j], a[i];
  }

  /** The larger child of root, if it has one. */
  method PickChild(names: seq<seq<nat>>, a: array<nat>, root: nat, end: nat) returns (child: nat)
    requires Indices(names, a[..]) && end <= a.Length && 2 * root + 1 < end
    ensures LargerChild(names, a[..], root, child, end)
  {
    child := 2 * root + 1;
    if child + 1 < end {
      RankOrder(names, a[child], a[child + 1]);
      var less := FilenameLess(names[a[child]], names[a[child + 1]]);
      if less { child := child + 1; }
    }
  }

  /** The inner loop of both phases. */
  method SiftDown(names: seq<seq<nat>>, a: array<nat>, lo: nat, end: nat, ghost settled: nat)
    requires HeapBut(names, a[..], lo, end, lo) && lo < end <= settled && Settled(names, a[..], settled)
    modifies a
    ensures Heap(names, a[..], lo, end) && Settled(names, a[..], settled) && multiset(a[..]) == multiset(old(a[..]))
  {
    var root := lo;
    while true
      invariant lo <= root < end && HeapBut(names, a[..], lo, end, root) && Settled(names, a[..], settled)
      invariant multiset(a[..]) == multiset(old(a[..]))
      decreases end - root
    {
      if 2 * root + 1 >= end { break; }
      var child := PickChild(names, a, root, end);
      RankOrder(names, a[root], a[child]);
      var less := FilenameLess(names[a[root]], names[a[child]]);
      if !less { break; }
      SiftStep(names, a[..], lo, end, root, child);
      SettledSwap(names, a[..], settled, root, child);
      SwapKeeps(names, a[..], root, child);
      Swap(a, root, child);
      root := child;
    }
    SiftDone(names, a[..], lo, end, root);
  }

  /** Main result of the sort: the same indices, in the order of the names. */
  method SortByFilename(names: seq<seq<nat>>, a: array<nat>)
    requires Indices(names, a[..])
    modifies a
    ensures Settled(names, a[..], 0) && multiset(a[..]) == multiset(old(a[..]))
  {
    BuildHeap(names, a);
    if a.Length > 1 { SettleAll(names, a); }
  }

  method BuildHeap(names: seq<seq<nat>>, a: array<nat>)
    requires Indices(names, a[..])
    modifies a
    ensures Heap(names, a[..], 0, a.Length) && multiset(a[..]) == multiset(old(a[..]))
  {
    var start := (a.Length - 2) / 2;
    var first: nat := if start < 0 then 0 else start + 1;
    LeavesAreHeap(names, a[..], first);
    while start >= 0
      invariant -1 <= start < a.Length && Heap(names, a[..], start + 1, a.Length)
      invariant multiset(a[..]) == multiset(old(a[..]))
    {
      SiftStart(names, a[..], start, a.Length);
      SiftDown(names, a, start, a.Length, a.Length);
      start := start - 1;
    }
  }

  method SettleAll(names: seq<seq<nat>>, a: array<nat>)
    requires Heap(names, a[..], 0, a.Length) && a.Length > 1
    modifies a
    ensures Settled(names, a[..], 0) && multiset(a[..]) == multiset(old(a[..]))
  {
    var end := a.Length - 1;
    while end > 0
      invariant 0 <= end < a.Length && Heap(names, a[..], 0, end + 1) && Settled(names, a[..], end + 1)
      invariant multiset(a[..]) == multiset(old(a[..]))
    {
      SettleTop(names, a[..], end);
      SwapKeeps(names, a[..], end, 0);
      Swap(a, end, 0);
      SiftDown(names, a, 0, end, end);
      end := end - 1;
    }
    LastOne(names, a[..]);
  }

  lemma LastOne(names: seq<seq<nat>>, a: seq<nat>)
    requires Settled(names, a, 1)
    ensures Settled(names, a, 0)
  {}

  // ---------- Searching ----------

  /** Some file has the name, ignoring case. */
  ghost predicate Present(names: seq<seq<nat>>, name: seq<nat>) {
    exists i :: 0 <= i < |names| && Lowered(names[i]) == Lowered(name)
  }

  /** The index lists every file. */
  ghost predicate Complete(names: seq<seq<nat>>, a: seq<nat>) {
    forall i: nat :: i < |names| ==> i in a
  }

  /** The name, if it is there at all, is among the places l..h. */
  ghost predicate Between(names: seq<seq<nat>>, a: seq<nat>, name: seq<nat>, l: int, h: int)
    requires Indices(names, a)
  {
    forall p :: 0 <= p < |a| && (p < l || h < p) ==> Lowered(names[a[p]]) != Lowered(name)
  }

  lemma SearchRight(names: seq<seq<nat>>, a: seq<nat>, name: seq<nat>, l: int, h: int, m: nat)
    requires Settled(names, a, 0) && Between(names, a, name, l, h) && m < |a| && NameLess(names[a[m]], name)
    ensures Between(names, a, name, m + 1, h)
  {
    forall p | 0 <= p < |a| && (p < m + 1 || h < p)
      ensures Lowered(names[a[p]]) != Lowered(name)
    {
      if p <= m {
        assert At(names, a, p) <= At(names, a, m);
        RankOrder(names, a[m], a[p]);
      }
    }
  }

  lemma SearchLeft(names: seq<seq<nat>>, a: seq<nat>, name: seq<nat>, l: int, h: int, m: nat)
    requires Settled(names, a, 0) && Between(names, a, name, l, h) && m < |a| && NameLess(name, names[a[m]])
    ensures Between(names, a, name, l, m as int - 1)
  {
    forall p | 0 <= p < |a| && (p < l || m - 1 < p)
      ensures Lowered(names[a[p]]) != Lowered(name)
    {
      if m <= p {
        assert At(names, a, m) <= At(names, a, p);
        RankOrder(names, a[p], a[m]);
      }
    }
  }

  /** What is left of a name once its length is held in 32 bits. */
  function Cut(name: seq<nat>): seq<nat> {
    name[..|name| % 0x1_0000_0000]
  }

  /** Main result of the search: on a sorted index of all files it finds a file of the name, cut to its length modulo
      2^32, exactly when there is one. */
  method BinarySearch(names: seq<seq<nat>>, a: seq<nat>, name: seq<nat>) returns (index: int)
    requires Settled(names, a, 0) && Complete(names, a)
    requires forall i :: 0 <= i < |names| ==> |names[i]| <= 0xFFFF
    ensures if Present(names, Cut(name)) then 0 <= index < |names| && Lowered(names[index]) == Lowered(Cut(name)) else index == -1
  {
    var r := Cut(name);
    var l, h := 0, |a| - 1;
    while l <= h
      invariant 0 <= l <= |a| && -1 <= h < |a| && (|r| < 0x8000_0000 ==> Between(names, a, r, l, h))
      decreases h - l + 1
    {
      var m := (l + h) / 2;
      var fileIndex := a[m];
      var comp := FilenameCompare(names[fileIndex], r);
      if comp == 0 {
        return fileIndex;
      } else if comp < 0 {
        if |r| < 0x8000_0000 { SearchRight(names, a, r, l, h, m); }
        l := m + 1;
      } else {
        if |r| < 0x8000_0000 { SearchLeft(names, a, r, l, h, m); }
        h := m - 1;
      }
    }
    if |r| < 0x8000_0000 { NotFound(names, a, r, l, h); } else { TooLong(names, r); }
    index := -1;
  }

  /** No file in an archive has a name of more than 16 bits' length. */
  lemma TooLong(names: seq<seq<nat>>, name: seq<nat>)
    requires |name| > 0xFFFF && forall i :: 0 <= i < |names| ==> |names[i]| <= 0xFFFF
    ensures !Present(names, name)
  {
    forall i | 0 <= i < |names| ensures Lowered(names[i]) != Lowered(name) { assert |Lowered(names[i])| != |Lowered(name)|; }
  }

  /** The binary search finds the cut name where the name itself is present exactly when the length of the name fits 32 bits, or else no
      file has the cut name. */
  lemma SearchesAgreeIff(names: seq<seq<nat>>, name: seq<nat>)
    requires forall i :: 0 <= i < |names| ==> |names[i]| <= 0xFFFF
    ensures (Present(names, Cut(name)) <==> Present(names, name)) <==> |name| < 0x1_0000_0000 || !Present(names, Cut(name))
  {
    if |name| < 0x1_0000_0000 {
      assert Cut(name) == name;
    } else {
      TooLong(names, name);
    }
  }

  ghost predicate FoundRightly(names: seq<seq<nat>>, name: seq<nat>) {
    (forall i :: 0 <= i < |names| ==> |names[i]| <= 0xFFFF) ==> (Present(names, Cut(name)) <==> Present(names, name))
  }

  /** The binary search is right in every archive exactly for names whose length fits 32 bits, or keeps more than 16 of
      them: no file has the cut name then. */
  lemma RightInEveryArchiveIff(name: seq<nat>)
    ensures (forall names :: FoundRightly(names, name)) <==> |name| < 0x1_0000_0000 || |name| % 0x1_0000_0000 > 0xFFFF
  {
    if |name| < 0x1_0000_0000 {
      assert Cut(name) == name;
    } else if |Cut(name)| > 0xFFFF {
      forall names ensures FoundRightly(names, name) {
        if forall i :: 0 <= i < |names| ==> |names[i]| <= 0xFFFF {
          TooLong(names, name);
          TooLong(names, Cut(name));
        }
      }
    } else {
      var names := [Cut(name)];
      assert Lowered(names[0]) == Lowered(Cut(name));
      TooLong(names, name);
      assert !FoundRightly(names, name);
    }
  }

  /** A name of 2^32 bytes is cut to the empty one: a directory entry without a name is taken for it. */
  lemma EmptyNameTakenForLong(name: seq<nat>)
    requires |name| == 0x1_0000_0000
    ensures Present([[]], Cut(name)) && !Present([[]], name)
  {
    var names: seq<seq<nat>> := [[]];
    assert Lowered(names[0]) == Lowered(Cut(name));
    TooLong(names, name);
  }

  lemma NotFound(names: seq<seq<nat>>, a: seq<nat>, name: seq<nat>, l: int, h: int)
    requires Indices(names, a) && Complete(names, a) && Between(names, a, name, l, h) && h < l
    ensures !Present(names, name)
  {
    forall i: nat | i < |names|
      ensures Lowered(names[i]) != Lowered(name)
    {
      assert i in a;
      var p :| 0 <= p < |a| && a[p] == i;
    }
  }

  /** A sorted index of all files. */
  method BuildIndex(names: seq<seq<nat>>) returns (a: array<nat>)
    ensures Settled(names, a[..], 0) && Complete(names, a[..])
  {
    a := new nat[|names|](i => i);
    ghost var before := a[..];
    SortByFilename(names, a);
    forall i: nat | i < |names|
      ensures i in a[..]
    {
      assert before[i] == i;
      assert i in multiset(before);
    }
  }
}
