/** Locating a file in an archive's directory (mz_zip_reader_locate_file of miniz.c): by the sorted index when the plain
    name is asked for, otherwise entry by entry, with the flags for case and path and with the comment. */
module ZipSearch {
  import opened Wrappers
  import opened ZipNames
  import opened ZipDirectory

  datatype Entry = Entry(name: seq<nat>, comment: seq<nat>)

  datatype Flags = Flags(caseSensitive: bool, ignorePath: bool)

  // ---------- What is looked for ----------

  ghost predicate Same(a: seq<nat>, b: seq<nat>, caseSensitive: bool) {
    if caseSensitive then a == b else Lowered(a) == Lowered(b)
  }

  predicate Separator(c: nat) {
    c == '/' as nat || c == '\\' as nat || c == ':' as nat
  }

  lemma Separators(c: nat)
    ensures Separator(c) <==> c == 47 || c == 58 || c == 92
  {}

  /** The name without its path. */
  ghost function BaseOf(name: seq<nat>): seq<nat> {
    if name == [] || Separator(name[|name| - 1]) then [] else BaseOf(name[..|name| - 1]) + [name[|name| - 1]]
  }

  /** It is what follows the last separator. */
  lemma {:induction false} BaseFollowsLast(name: seq<nat>) returns (k: nat)
    ensures k <= |name| && BaseOf(name) == name[k..] && (k == 0 || Separator(name[k - 1]))
    ensures forall i :: k <= i < |name| ==> !Separator(name[i])
    decreases |name|
  {
    k := |name|;
    if name != [] && !Separator(name[|name| - 1]) {
      k := BaseFollowsLast(name[..|name| - 1]);
      assert name[k..] == name[..|name| - 1][k..] + [name[|name| - 1]];
    }
  }

  lemma {:induction false} BaseFrom(name: seq<nat>, k: nat)
    requires k <= |name| && (k == 0 || Separator(name[k - 1])) && forall i :: k <= i < |name| ==> !Separator(name[i])
    ensures BaseOf(name) == name[k..]
    decreases |name|
  {
    if k < |name| {
      BaseFrom(name[..|name| - 1], k);
      assert name[k..] == name[..|name| - 1][k..] + [name[|name| - 1]];
    }
  }

  /** An entry that the caller asks for: its name agrees, and its comment too if one is given. */
  ghost predicate Wanted(e: Entry, name: seq<nat>, comment: Option<seq<nat>>, flags: Flags) {
    && (comment.Some? && comment.value != [] ==> Same(comment.value, e.comment, flags.caseSensitive))
    && Same(name, if flags.ignorePath then BaseOf(e.name) else e.name, flags.caseSensitive)
  }

  ghost predicate Headers(entries: seq<Entry>) {
    forall i :: 0 <= i < |entries| ==> |entries[i].name| <= 0xFFFF && |entries[i].comment| <= 0xFFFF
  }

  /** The first entry that is wanted, or -1 if none is. */
  ghost predicate First(entries: seq<Entry>, name: seq<nat>, comment: Option<seq<nat>>, flags: Flags, index: int) {
    && -1 <= index < |entries| && (index >= 0 ==> Wanted(entries[index], name, comment, flags))
    && forall k :: 0 <= k < (if index < 0 then |entries| else index) ==> !Wanted(entries[k], name, comment, flags)
  }

  // ---------- Entry by entry ----------

  /** mz_zip_reader_string_equal */
  method StringEqual(a: seq<nat>, b: seq<nat>, caseSensitive: bool) returns (equal: bool)
    requires |a| == |b|
    ensures equal <==> Same(a, b, caseSensitive)
  {
    if caseSensitive { return a == b; }
    var i := FirstDifference(a, b);
    equal := i == |a|;
    if equal { assert Lowered(a) == Lowered(b); } else { assert Lowered(a)[i] != Lowered(b)[i]; }
  }

  /** The loop from the end of the name to its last separator. */
  method BaseName(name: seq<nat>) returns (base: seq<nat>)
    ensures base == BaseOf(name)
  {
    var ofs := |name| - 1;
    while ofs >= 0 && !Separator(name[ofs])
      invariant -1 <= ofs < |name| && forall i :: ofs < i < |name| ==> !Separator(name[i])
    {
      ofs := ofs - 1;
    }
    base := name[ofs + 1..];
    BaseFrom(name, ofs + 1);
  }

  lemma SameLength(a: seq<nat>, b: seq<nat>, caseSensitive: bool)
    requires Same(a, b, caseSensitive)
    ensures |a| == |b|
  {
    assert |Lowered(a)| == |a| && |Lowered(b)| == |b|;
  }

  method IsWanted(e: Entry, name: seq<nat>, comment: Option<seq<nat>>, flags: Flags) returns (wanted: bool)
    ensures wanted <==> Wanted(e, name, comment, flags)
  {
    var base := e.name;
    if flags.ignorePath {
      ghost var k := BaseFollowsLast(e.name);
      base := BaseName(e.name);
    }
    if Same(name, base, flags.caseSensitive) { SameLength(name, base, flags.caseSensitive); }
    if |e.name| < |name| { return false; }
    if comment.Some? && comment.value != [] {
      if Same(comment.value, e.comment, flags.caseSensitive) { SameLength(comment.value, e.comment, flags.caseSensitive); }
      if |e.comment| != |comment.value| { return false; }
      var agrees := StringEqual(comment.value, e.comment, flags.caseSensitive);
      if !agrees { return false; }
    }
    if |base| != |name| { return false; }
    wanted := StringEqual(name, base, flags.caseSensitive);
  }

  /** The linear scan finds the first entry that is wanted. */
  method LinearSearch(entries: seq<Entry>, name: seq<nat>, comment: Option<seq<nat>>, flags: Flags) returns (index: int)
    requires Headers(entries)
    ensures First(entries, name, comment, flags, index)
  {
    if |name| > 0xFFFF || (comment.Some? && |comment.value| > 0xFFFF) {
      NoneSoLong(entries, name, comment, flags);
      return -1;
    }
    var fileIndex := 0;
    while fileIndex < |entries|
      invariant 0 <= fileIndex <= |entries| && forall k :: 0 <= k < fileIndex ==> !Wanted(entries[k], name, comment, flags)
    {
      var wanted := IsWanted(entries[fileIndex], name, comment, flags);
      if wanted { return fileIndex; }
      fileIndex := fileIndex + 1;
    }
    index := -1;
  }

  lemma NoneSoLong(entries: seq<Entry>, name: seq<nat>, comment: Option<seq<nat>>, flags: Flags)
    requires Headers(entries) && (|name| > 0xFFFF || (comment.Some? && |comment.value| > 0xFFFF))
    ensures forall k :: 0 <= k < |entries| ==> !Wanted(entries[k], name, comment, flags)
  {
    forall k | 0 <= k < |entries|
      ensures !Wanted(entries[k], name, comment, flags)
    {
      var e := entries[k];
      if Wanted(e, name, comment, flags) {
        var n := BaseFollowsLast(e.name);
        if |name| > 0xFFFF {
          SameLength(name, if flags.ignorePath then BaseOf(e.name) else e.name, flags.caseSensitive);
        } else {
          SameLength(comment.value, e.comment, flags.caseSensitive);
        }
      }
    }
  }

  // ---------- The search ----------

  function NamesOf(entries: seq<Entry>): (names: seq<seq<nat>>)
    ensures |names| == |entries| && forall i :: 0 <= i < |entries| ==> names[i] == entries[i].name
  {
    seq(|entries|, i requires 0 <= i < |entries| => entries[i].name)
  }

  /** Main result: an entry is found exactly when one is wanted, by index or by scan, as long as the name is shorter than
      2^32; the index then gives some wanted entry and the scan the first. */
  method LocateFile(entries: seq<Entry>, name: seq<nat>, comment: Option<seq<nat>>, flags: Flags, sorted: bool) returns (index: int)
    requires Headers(entries)
    ensures -1 <= index < |entries|
    ensures |name| < 0x1_0000_0000 ==> (index >= 0 <==> exists i :: 0 <= i < |entries| && Wanted(entries[i], name, comment, flags))
    ensures |name| < 0x1_0000_0000 && index >= 0 ==> Wanted(entries[index], name, comment, flags)
    ensures !sorted || comment.Some? || flags != Flags(false, false) ==> First(entries, name, comment, flags, index)
  {
    if !flags.ignorePath && !flags.caseSensitive && comment.None? && sorted && |entries| > 0 {
      var names := NamesOf(entries);
      var a := BuildIndex(names);
      index := BinarySearch(names, a[..], name);
      if |name| < 0x1_0000_0000 { PlainName(entries, names, name, flags); }
    } else {
      index := LinearSearch(entries, name, comment, flags);
    }
  }

  /** Without flags and comment, the name alone decides. */
  lemma PlainName(entries: seq<Entry>, names: seq<seq<nat>>, name: seq<nat>, flags: Flags)
    requires names == NamesOf(entries) && |name| < 0x1_0000_0000 && flags == Flags(false, false)
    ensures Cut(name) == name
    ensures forall i :: 0 <= i < |entries| ==> (Wanted(entries[i], name, None, flags) <==> Lowered(names[i]) == Lowered(name))
    ensures Present(names, name) <==> exists i :: 0 <= i < |entries| && Wanted(entries[i], name, None, flags)
  {
    forall i | 0 <= i < |entries|
      ensures Wanted(entries[i], name, None, flags) <==> Lowered(names[i]) == Lowered(name)
    {}
    if Present(names, name) {
      var i :| 0 <= i < |names| && Lowered(names[i]) == Lowered(name);
      assert Wanted(entries[i], name, None, flags);
    }
  }
}
