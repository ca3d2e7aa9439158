/** Reading the code buffer back: where the loop of tdefl_compress_lz_codes in miniz.c stands after each operation. */
module LzCodeReader {
  import opened Powers
  import opened BitFields
  import opened BitStream
  import opened Lz
  import opened LzCodeBuffer

  lemma {:induction false} FlagsBit(g: seq<Op>, r: nat)
    requires r < |g|
    ensures Shr(Flags(g), r) % 2 == if g[r].Match? then 1 else 0
    decreases |g|
  {
    var k := |g| - 1;
    var x := Flags(g[..k]);
    if r < k {
      FlagsBit(g[..k], r);
      if g[k].Match? {
        ShrPlus(x, r, k - r);
        assert r + (k - r) == k;
      }
    } else {
      FlagsFit(g[..k]);
      LowOfSmall(x, k);
      if g[k].Match? { ShrPlus(x, k, 0); }
    }
  }

  lemma GuardStays(x: nat, r: nat)
    requires x < 256 && r < 8
    ensures Shr(x + 256, r) % 2 == Shr(x, r) % 2 && Shr(x + 256, r) != 1
  {
    var k := 7 - r;
    Pow2Values();
    ShrPlus(x, r, k + 1);
    assert r + (k + 1) == 8;
    assert Pow2(k + 1) == 2 * Pow2(k);
  }

  lemma GuardEnds(x: nat, n: nat)
    requires n == 8 && x < Pow2(n)
    ensures Shr(x + Pow2(n), n) == 1
  {
    ShrPlus(x, n, 0);
    LowOfSmall(x, n);
  }

  /** Where the group that starts at operation q ends. */
  ghost function GroupEnd(ops: seq<Op>, q: nat): (e: nat)
    requires q <= |ops|
    ensures q <= e <= |ops| && e <= q + 8 && (e < q + 8 ==> e == |ops|)
  {
    if q + 8 <= |ops| then q + 8 else |ops|
  }

  /** The flag byte of that group with the guard bit above it. */
  ghost function Guarded(ops: seq<Op>, q: nat): nat
    requires q <= |ops|
  {
    Flags(ops[q..GroupEnd(ops, q)]) + 256
  }

  lemma FlagByteFits(ops: seq<Op>, q: nat)
    requires q <= |ops|
    ensures Guarded(ops, q) < 512
  {
    var g := ops[q..GroupEnd(ops, q)];
    FlagsFit(g);
    Pow2Monotone(|g|, 8);
    Pow2Values();
  }

  /** The reader is to read operation i of the group that starts at q. */
  ghost predicate InGroup(ops: seq<Op>, q: nat, i: nat, pos: nat, flags: nat) {
    && AllRecordable(ops) && q % 8 == 0 && q <= i <= |ops| && i <= q + 8
    && pos == |Encoded(ops[..q])| + 1 + |Payload(ops[q..i])|
    && flags == Shr(Guarded(ops, q), i - q)
  }

  /** The reader is before the flag byte of the group that starts at q. */
  ghost predicate BeforeGroup(ops: seq<Op>, q: nat, pos: nat) {
    AllRecordable(ops) && q % 8 == 0 && q <= |ops| && pos == |Encoded(ops[..q])|
  }

  lemma EncodedTo(ops: seq<Op>, q: nat, i: nat)
    requires AllRecordable(ops) && q % 8 == 0 && q < i <= |ops| && i <= q + 8
    ensures Encoded(ops[..i]) == Encoded(ops[..q]) + [Flags(ops[q..i])] + Payload(ops[q..i])
    ensures |Encoded(ops[..i])| == |Encoded(ops[..q])| + 1 + |Payload(ops[q..i])|
  {
    assert ops[..i] == ops[..q] + ops[q..i];
    EncodedGroup(ops[..q], ops[q..i]);
  }

  lemma OneGroup(ops: seq<Op>, q: nat, e: nat)
    requires AllRecordable(ops) && q % 8 == 0 && q <= e <= |ops| && e <= q + 8
    ensures Encoded(ops[..q]) <= Encoded(ops[..e])
  {
    if q < e { EncodedTo(ops, q, e); }
  }

  /** Whole groups at the front are a prefix of the encoding. */
  lemma {:induction false} GroupsArePrefix(ops: seq<Op>, q: nat)
    requires AllRecordable(ops) && q % 8 == 0 && q <= |ops|
    ensures Encoded(ops[..q]) <= Encoded(ops)
    decreases |ops| - q
  {
    var e := GroupEnd(ops, q);
    OneGroup(ops, q, e);
    if e < |ops| {
      NextAligned(q, e);
      GroupsArePrefix(ops, e);
      PrefixTrans(Encoded(ops[..q]), Encoded(ops[..e]), Encoded(ops));
    } else {
      assert ops[..e] == ops;
    }
  }

  lemma GroupIsPrefix(ops: seq<Op>, q: nat, e: nat)
    requires AllRecordable(ops) && q % 8 == 0 && q <= |ops| && e == GroupEnd(ops, q)
    ensures Encoded(ops[..e]) <= Encoded(ops)
  {
    if e < |ops| {
      NextAligned(q, e);
      GroupsArePrefix(ops, e);
    } else {
      assert ops[..e] == ops;
    }
  }

  lemma {:induction false} PayloadPrefix(g: seq<Op>, r: nat)
    requires AllRecordable(g) && r < |g|
    ensures Payload(g[..r]) + OpBytes(g[r]) <= Payload(g)
    decreases |g|
  {
    var k := |g| - 1;
    if r < k {
      PayloadPrefix(g[..k], r);
      assert g[..k][..r] == g[..r];
    }
  }

  /** At the start of a group the next byte holds its flags. */
  lemma ReadFlags(ops: seq<Op>, q: nat, pos: nat)
    requires BeforeGroup(ops, q, pos) && q < |ops|
    ensures pos < |Encoded(ops)| && Encoded(ops)[pos] + 256 == Guarded(ops, q)
    ensures InGroup(ops, q, q, pos + 1, Guarded(ops, q))
  {
    GroupIsPrefix(ops, q, GroupEnd(ops, q));
    EncodedTo(ops, q, GroupEnd(ops, q));
    assert ops[q..q] == [];
  }

  /** The next flag tells the kind of the next operation. */
  lemma ReadFlag(ops: seq<Op>, q: nat, i: nat)
    requires q <= |ops| && q <= i < GroupEnd(ops, q)
    ensures Shr(Guarded(ops, q), i - q) % 2 == (if ops[i].Match? then 1 else 0) && Shr(Guarded(ops, q), i - q) != 1
  {
    var g := ops[q..GroupEnd(ops, q)];
    FlagByteFits(ops, q);
    GuardStays(Flags(g), i - q);
    FlagsBit(g, i - q);
  }

  /** The bytes b stand at pos. */
  ghost predicate Holds(all: seq<nat>, pos: nat, b: seq<nat>) {
    pos + |b| <= |all| && all[pos..pos + |b|] == b
  }

  lemma GroupPrefix(ops: seq<Op>, q: nat, e: nat)
    requires AllRecordable(ops) && q % 8 == 0 && q < e <= |ops| && e == GroupEnd(ops, q)
    ensures Encoded(ops[..q]) + [Flags(ops[q..e])] + Payload(ops[q..e]) <= Encoded(ops)
  {
    GroupIsPrefix(ops, q, e);
    EncodedTo(ops, q, e);
  }

  lemma PayloadHere(ops: seq<Op>, q: nat, e: nat, i: nat)
    requires AllRecordable(ops) && q <= i < e <= |ops|
    ensures Payload(ops[q..i]) + OpBytes(ops[i]) <= Payload(ops[q..e])
  {
    var g := ops[q..e];
    assert g[i - q] == ops[i] && g[..i - q] == ops[q..i];
    PayloadPrefix(g, i - q);
  }

  /** The bytes of the next operation. */
  lemma BytesOfOp(ops: seq<Op>, q: nat, e: nat, i: nat)
    requires AllRecordable(ops) && q % 8 == 0 && q <= i < e <= |ops| && e == GroupEnd(ops, q)
    ensures Holds(Encoded(ops), |Encoded(ops[..q])| + 1 + |Payload(ops[q..i])|, OpBytes(ops[i]))
  {
    var all, head, payload, before, b := Encoded(ops), Encoded(ops[..q]) + [Flags(ops[q..e])], Payload(ops[q..e]), Payload(ops[q..i]), OpBytes(ops[i]);
    GroupPrefix(ops, q, e);
    PayloadHere(ops, q, e, i);
    PrefixSlice(head, payload, all, before, b);
  }

  /** Past the next operation. */
  lemma NextOp(ops: seq<Op>, q: nat, i: nat, pos: nat, flags: nat)
    requires InGroup(ops, q, i, pos, flags) && i < |ops| && i < q + 8
    ensures InGroup(ops, q, i + 1, pos + |OpBytes(ops[i])|, flags / 2)
  {
    LowStep(Guarded(ops, q), i - q);
    PayloadTo(ops, q, i);
  }

  lemma PayloadTo(ops: seq<Op>, q: nat, i: nat)
    requires AllRecordable(ops) && q <= i < |ops|
    ensures |Payload(ops[q..i + 1])| == |Payload(ops[q..i])| + |OpBytes(ops[i])|
  {
    OneFurther(ops, q, i);
    PayloadAppend(ops[q..i], ops[i]);
  }

  lemma OneFurther(ops: seq<Op>, q: nat, i: nat)
    requires q <= i < |ops|
    ensures ops[q..i + 1] == ops[q..i] + [ops[i]]
  {}

  lemma ReadOp(ops: seq<Op>, q: nat, i: nat, pos: nat, flags: nat)
    requires InGroup(ops, q, i, pos, flags) && q <= |ops| && i < GroupEnd(ops, q)
    ensures Holds(Encoded(ops), pos, OpBytes(ops[i]))
    ensures InGroup(ops, q, i + 1, pos + |OpBytes(ops[i])|, flags / 2)
  {
    BytesOfOp(ops, q, GroupEnd(ops, q), i);
    NextOp(ops, q, i, pos, flags);
  }

  lemma PrefixSlice(head: seq<nat>, payload: seq<nat>, all: seq<nat>, before: seq<nat>, b: seq<nat>)
    requires head + payload <= all && before + b <= payload
    ensures Holds(all, |head| + |before|, b)
  {
    var p := |head| + |before|;
    assert all[..|head| + |payload|] == head + payload;
    forall k | 0 <= k < |b|
      ensures all[p + k] == b[k]
    {
      assert (before + b)[|before| + k] == payload[|before| + k];
      assert (head + payload)[p + k] == all[p + k];
    }
  }

  lemma FlagsUsedUp(ops: seq<Op>, q: nat, n: nat)
    requires n == 8 && q + n <= |ops|
    ensures Shr(Guarded(ops, q), n) == 1
  {
    FlagByteFits(ops, q);
    Pow2Values();
    GuardEnds(Guarded(ops, q) - 256, n);
  }

  /** After eight operations the flags are used up and the next group begins. */
  lemma GroupOver(ops: seq<Op>, q: nat, e: nat, pos: nat, flags: nat)
    requires InGroup(ops, q, e, pos, flags) && e == q + 8
    ensures flags == 1 && BeforeGroup(ops, e, pos)
  {
    NextAligned(q, e);
    EncodedTo(ops, q, e);
    FlagsUsedUp(ops, q, e - q);
  }

  /** The reader is at the end exactly when all operations are read. */
  lemma AtEnd(ops: seq<Op>, q: nat, i: nat, pos: nat, flags: nat)
    requires InGroup(ops, q, i, pos, flags) && q < i
    ensures pos == |Encoded(ops)| <==> i == |ops|
    ensures pos <= |Encoded(ops)|
  {
    EncodedTo(ops, q, i);
    if i == |ops| {
      assert ops[..i] == ops;
    } else if i < q + 8 {
      ReadOp(ops, q, i, pos, flags);
    } else {
      GroupOver(ops, q, i, pos, flags);
      ReadFlags(ops, i, pos);
    }
  }

  /** State of the reading loop at its head: i operations are read, and q is where the group of the last one starts. */
  ghost predicate Reading(ops: seq<Op>, q: nat, i: nat, pos: nat, flags: nat) {
    && (if flags == 1 then q == i && BeforeGroup(ops, q, pos) else q < i && InGroup(ops, q, i, pos, flags) && i < q + 8)
    && pos <= |Encoded(ops)| && (pos == |Encoded(ops)| <==> i == |ops|)
  }

  lemma StartReading(ops: seq<Op>)
    requires AllRecordable(ops)
    ensures Reading(ops, 0, 0, 0, 1)
  {
    assert ops[..0] == [];
    if ops != [] { ReadFlags(ops, 0, 0); }
  }

  lemma FlagsRemain(ops: seq<Op>, q: nat, r: nat)
    requires q <= |ops| && r < 8
    ensures Shr(Guarded(ops, q), r) != 1
  {
    FlagByteFits(ops, q);
    GuardStays(Guarded(ops, q) - 256, r);
  }

  /** Between the flag byte and the operations of its group. */
  lemma OpHere(ops: seq<Op>, q: nat, i: nat, pos: nat, flags: nat)
    requires InGroup(ops, q, i, pos, flags) && i < |ops| && i < q + 8
    ensures Holds(Encoded(ops), pos, OpBytes(ops[i])) && flags % 2 == (if ops[i].Match? then 1 else 0)
    ensures InGroup(ops, q, i + 1, pos + |OpBytes(ops[i])|, flags / 2)
  {
    ReadFlag(ops, q, i);
    ReadOp(ops, q, i, pos, flags);
  }

  lemma AfterOp(ops: seq<Op>, q: nat, i: nat, q': nat, pos: nat, flags: nat)
    requires InGroup(ops, q, i, pos, flags) && q < i && q' == if i == q + 8 then i else q
    ensures Reading(ops, q', i, pos, flags)
  {
    AtEnd(ops, q, i, pos, flags);
    if i == q + 8 { GroupOver(ops, q, i, pos, flags); } else { FlagsRemain(ops, q, i - q); }
  }

  lemma NoneLeft(ops: seq<Op>, q: nat, i: nat, pos: nat, flags: nat)
    requires Reading(ops, q, i, pos, flags) && pos >= |Encoded(ops)|
    ensures i == |ops|
  {}
}
