/** File names of an archive as the reader of miniz.c compares them: byte by byte, ignoring the case of A to Z. */
module ZipNames {

  function ToLower(c: nat): nat {
    if 'A' as nat <= c <= 'Z' as nat then c - 'A' as nat + 'a' as nat else c
  }

  /** In numbers: 65 to 90 become 97 to 122, and no other byte changes. */
  lemma LowerCase(c: nat)
    ensures ToLower(c) == if 65 <= c <= 90 then c + 32 else c
  {}

  function Lowered(s: seq<nat>): (t: seq<nat>)
    ensures |t| == |s| && forall i :: 0 <= i < |s| ==> t[i] == ToLower(s[i])
  {
    seq(|s|, i requires 0 <= i < |s| => ToLower(s[i]))
  }

  /** Dictionary order; a proper prefix comes first. */
  predicate LexLess(a: seq<nat>, b: seq<nat>) {
    b != [] && (a == [] || a[0] < b[0] || (a[0] == b[0] && LexLess(a[1..], b[1..])))
  }

  predicate NameLess(a: seq<nat>, b: seq<nat>) {
    LexLess(Lowered(a), Lowered(b))
  }

  // ---------- A strict total order ----------

  lemma {:induction false} Irreflexive(a: seq<nat>)
    ensures !LexLess(a, a)
  {
    if a != [] { Irreflexive(a[1..]); }
  }

  lemma {:induction false} Transitive(a: seq<nat>, b: seq<nat>, c: seq<nat>)
    requires LexLess(a, b) && LexLess(b, c)
    ensures LexLess(a, c)
    decreases |a|
  {
    if a != [] && a[0] == b[0] == c[0] { Transitive(a[1..], b[1..], c[1..]); }
  }

  lemma {:induction false} Total(a: seq<nat>, b: seq<nat>)
    ensures LexLess(a, b) || LexLess(b, a) || a == b
    decreases |a|
  {
    if a != [] && b != [] && a[0] == b[0] {
      Total(a[1..], b[1..]);
      assert a == [a[0]] + a[1..] && b == [b[0]] + b[1..];
    }
  }

  // ---------- The comparison loops ----------

  /** Equal up to i, the comparison is decided by what follows. */
  lemma {:induction false} CommonPrefix(a: seq<nat>, b: seq<nat>, i: nat)
    requires i <= |a| && i <= |b| && forall k :: 0 <= k < i ==> a[k] == b[k]
    ensures LexLess(a, b) == LexLess(a[i..], b[i..])
    decreases i
  {
    if i > 0 {
      CommonPrefix(a[1..], b[1..], i - 1);
      assert a[1..][i - 1..] == a[i..] && b[1..][i - 1..] == b[i..];
    } else {
      assert a[0..] == a && b[0..] == b;
    }
  }

  /** Where two names first differ, ignoring case. */
  method FirstDifference(l: seq<nat>, r: seq<nat>) returns (i: nat)
    ensures i <= |l| && i <= |r| && forall k :: 0 <= k < i ==> Lowered(l)[k] == Lowered(r)[k]
    ensures i < |l| && i < |r| ==> ToLower(l[i]) != ToLower(r[i])
  {
    i := 0;
    while i < |l| && i < |r|
      invariant i <= |l| && i <= |r| && forall k :: 0 <= k < i ==> Lowered(l)[k] == Lowered(r)[k]
    {
      if ToLower(l[i]) != ToLower(r[i]) { break; }
      i := i + 1;
    }
  }

  /** mz_zip_reader_filename_less */
  method FilenameLess(l: seq<nat>, r: seq<nat>) returns (less: bool)
    ensures less == NameLess(l, r)
  {
    var i := FirstDifference(l, r);
    CommonPrefix(Lowered(l), Lowered(r), i);
    less := if i == |l| || i == |r| then |l| < |r| else ToLower(l[i]) < ToLower(r[i]);
  }

  /** A 32-bit difference read as a signed number. */
  function Signed(d: int): int {
    var u := d % 0x1_0000_0000;
    if u < 0x8000_0000 then u else u - 0x1_0000_0000
  }

  /** mz_zip_reader_filename_compare: zero for equal names of any 32-bit length. The sign is the order as long as the
      difference of the lengths fits an int. Lengths in the archive have 16 bits. */
  method FilenameCompare(l: seq<nat>, r: seq<nat>) returns (comp: int)
    requires |l| <= 0xFFFF && |r| < 0x1_0000_0000
    ensures comp == 0 <==> Lowered(l) == Lowered(r)
    ensures |r| < 0x8000_0000 ==> (comp < 0 <==> NameLess(l, r)) && (comp > 0 <==> NameLess(r, l))
  {
    var i := FirstDifference(l, r);
    CommonPrefix(Lowered(l), Lowered(r), i);
    CommonPrefix(Lowered(r), Lowered(l), i);
    comp := if i == |l| || i == |r| then Signed(|l| - |r|) else ToLower(l[i]) - ToLower(r[i]);
    Irreflexive(Lowered(l));
    if comp == 0 { assert Lowered(l) == Lowered(r); }
  }

  // ---------- Ranks ----------

  /** The files whose names come before that of file i. */
  ghost function Before(names: seq<seq<nat>>, i: nat): set<nat>
    requires i < |names|
  {
    set k: nat | k < |names| && NameLess(names[k], names[i])
  }

  ghost function Rank(names: seq<seq<nat>>, i: nat): nat
    requires i < |names|
  {
    |Before(names, i)|
  }

  lemma SubsetSmaller(a: set<nat>, b: set<nat>)
    requires a <= b
    ensures |a| <= |b| && (a != b ==> |a| < |b|)
  {
    assert b == a + (b - a);
    assert a != b ==> b - a != {};
  }

  /** Comparing names is comparing ranks. */
  lemma RankOrder(names: seq<seq<nat>>, i: nat, j: nat)
    requires i < |names| && j < |names|
    ensures NameLess(names[i], names[j]) <==> Rank(names, i) < Rank(names, j)
    ensures Rank(names, i) == Rank(names, j) ==> Lowered(names[i]) == Lowered(names[j])
  {
    var a, b := Lowered(names[i]), Lowered(names[j]);
    Total(a, b);
    Irreflexive(a);
    if NameLess(names[i], names[j]) {
      forall k | k in Before(names, i) ensures k in Before(names, j) { Transitive(Lowered(names[k]), a, b); }
      assert i in Before(names, j) && i !in Before(names, i);
      SubsetSmaller(Before(names, i), Before(names, j));
    } else {
      forall k | k in Before(names, j) ensures k in Before(names, i) { if a != b { Transitive(Lowered(names[k]), b, a); } }
      SubsetSmaller(Before(names, j), Before(names, i));
      if a != b {
        assert j in Before(names, i) && j !in Before(names, j) by { Irreflexive(b); }
      }
    }
  }
}
