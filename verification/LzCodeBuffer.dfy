/** The buffer in which the compressor keeps the operations of a block: a flag byte for every eight operations,
    then one byte per literal and three per match (tdefl_record_literal, tdefl_record_match, tdefl_flush_block
    and the reading loop of tdefl_compress_lz_codes in miniz.c). */
module LzCodeBuffer {
  import opened Powers
  import opened BitFields
  import opened Lz

  const LZ_CODE_BUF_SIZE := 0x1_0000

  /** What the compressor may record. */
  ghost predicate Recordable(op: Op) {
    match op
    case Literal(byte) => byte < 256
    case Match(len, dist) => MIN_MATCH_LEN <= len <= MAX_MATCH_LEN && 1 <= dist <= DICT_SIZE
  }

  ghost predicate AllRecordable(ops: seq<Op>) {
    forall i :: 0 <= i < |ops| ==> Recordable(ops[i])
  }

  ghost function OpBytes(op: Op): seq<nat>
    requires Recordable(op)
  {
    match op
    case Literal(byte) => [byte]
    case Match(len, dist) => [len - MIN_MATCH_LEN, (dist - 1) % 256, (dist - 1) / 256]
  }

  /** The flag byte of up to eight operations: bit k says whether operation k is a match. */
  ghost function Flags(ops: seq<Op>): nat
    decreases |ops|
  {
    if ops == [] then 0 else Flags(ops[..|ops| - 1]) + (if ops[|ops| - 1].Match? then Pow2(|ops| - 1) else 0)
  }

  ghost function Payload(ops: seq<Op>): seq<nat>
    requires AllRecordable(ops)
    decreases |ops|
  {
    if ops == [] then [] else Payload(ops[..|ops| - 1]) + OpBytes(ops[|ops| - 1])
  }

  /** Where the last group of n operations starts. */
  function GroupStart(n: nat): (q: nat)
    requires n > 0
    ensures q % 8 == 0 && q < n <= q + 8
  {
    n - 1 - (n - 1) % 8
  }

  lemma GroupStartUnique(n: nat, q: nat)
    requires q % 8 == 0 && q < n <= q + 8
    ensures GroupStart(n) == q
  {}

  /** The bytes of a list of operations, by groups of eight. */
  ghost function Encoded(ops: seq<Op>): seq<nat>
    requires AllRecordable(ops)
    decreases |ops|
  {
    if ops == [] then [] else
      var q := GroupStart(|ops|);
      Encoded(ops[..q]) + [Flags(ops[q..])] + Payload(ops[q..])
  }

  lemma PayloadAppend(ops: seq<Op>, op: Op)
    requires AllRecordable(ops) && Recordable(op)
    ensures Payload(ops + [op]) == Payload(ops) + OpBytes(op)
    ensures Flags(ops + [op]) == Flags(ops) + (if op.Match? then Pow2(|ops|) else 0)
  {
    assert (ops + [op])[..|ops|] == ops;
  }

  lemma EncodedGroup(full: seq<Op>, part: seq<Op>)
    requires |full| % 8 == 0 && 1 <= |part| <= 8 && AllRecordable(full) && AllRecordable(part)
    ensures AllRecordable(full + part)
    ensures Encoded(full + part) == Encoded(full) + [Flags(part)] + Payload(part)
  {
    var ops := full + part;
    GroupStartUnique(|ops|, |full|);
    assert ops[..|full|] == full && ops[|full|..] == part;
  }

  lemma {:induction false} FlagsFit(ops: seq<Op>)
    ensures Flags(ops) < Pow2(|ops|)
    decreases |ops|
  {
    if ops != [] { FlagsFit(ops[..|ops| - 1]); }
  }

  /** Shifting the flag byte right once per operation, with the new flag coming in at the top, builds Flags. */
  lemma FlagShift(byte: nat, left: nat, k: nat, matched: bool)
    requires byte < 256 && 1 <= left && left + k == 8
    ensures var byte' := byte / 2 + (if matched then 128 else 0);
            byte' < 256 && Shr(byte', left - 1) == Shr(byte, left) + (if matched then Pow2(k) else 0)
  {
    if matched {
      ShrPlus(byte / 2, left - 1, k);
      assert left - 1 + k == 7;
      assert Pow2(7) == 128;
    }
  }

  lemma {:induction false} ShrPlus(x: nat, n: nat, k: nat)
    ensures Shr(x + Pow2(n + k), n) == Shr(x, n) + Pow2(k)
    decreases n
  {
    if n > 0 {
      assert (x + Pow2(n + k)) / 2 == x / 2 + Pow2(n - 1 + k);
      ShrPlus(x / 2, n - 1, k);
    }
  }

  function OpLen(op: Op): nat {
    match op
    case Literal(_) => 1
    case Match(len, _) => len
  }

  ghost function TotalBytes(ops: seq<Op>): nat {
    if ops == [] then 0 else TotalBytes(ops[..|ops| - 1]) + OpLen(ops[|ops| - 1])
  }

  /** bytes holds whole groups up to `flags`, then the flag byte and the payload of the group being filled.
      left counts the flags still to be shifted in. */
  ghost predicate Layout(bytes: seq<nat>, codeBuf: nat, flags: nat, left: nat, full: seq<Op>, part: seq<Op>) {
    && flags < codeBuf <= |bytes|
    && |full| % 8 == 0 && |part| + left == 8 && AllRecordable(full) && AllRecordable(part)
    && bytes[..flags] == Encoded(full)
    && bytes[flags + 1..codeBuf] == Payload(part)
    && bytes[flags] < 256 && Shr(bytes[flags], left) == Flags(part)
  }

  lemma StartsEmpty(bytes: seq<nat>)
    requires |bytes| >= 1 && bytes[0] < 256
    ensures Layout(bytes, 1, 0, 8, [], []) && TotalBytes([] + []) == 0
  {
    ShrByte(bytes[0]);
  }

  /** bytes' is bytes with the flag byte changed and b written at codeBuf. */
  ghost predicate Written(bytes: seq<nat>, bytes': seq<nat>, flags: nat, codeBuf: nat, b: seq<nat>) {
    && |bytes'| == |bytes| && flags < codeBuf && codeBuf + |b| <= |bytes|
    && bytes'[codeBuf..codeBuf + |b|] == b
    && forall i :: 0 <= i < codeBuf && i != flags ==> bytes'[i] == bytes[i]
  }

  lemma PayloadIn(bytes: seq<nat>, bytes': seq<nat>, flags: nat, codeBuf: nat, b: seq<nat>)
    requires Written(bytes, bytes', flags, codeBuf, b)
    ensures bytes'[..flags] == bytes[..flags]
    ensures bytes'[flags + 1..codeBuf + |b|] == bytes[flags + 1..codeBuf] + b
  {
    assert bytes'[flags + 1..codeBuf + |b|] == bytes'[flags + 1..codeBuf] + bytes'[codeBuf..codeBuf + |b|];
    assert bytes'[flags + 1..codeBuf] == bytes[flags + 1..codeBuf];
  }

  lemma FlagIn(byte: nat, byte': nat, left: nat, part: seq<Op>, op: Op)
    requires byte < 256 && 1 <= left && left + |part| == 8 && AllRecordable(part) && Recordable(op)
    requires Shr(byte, left) == Flags(part) && byte' == byte / 2 + (if op.Match? then 128 else 0)
    ensures byte' < 256 && Shr(byte', left - 1) == Flags(part + [op])
  {
    PayloadAppend(part, op);
    FlagShift(byte, left, |part|, op.Match?);
  }

  /** An operation is recorded: its bytes at the end of the payload, its flag in the flag byte. */
  lemma OpIn(bytes: seq<nat>, bytes': seq<nat>, codeBuf: nat, flags: nat, left: nat, full: seq<Op>, part: seq<Op>, op: Op)
    requires Layout(bytes, codeBuf, flags, left, full, part) && left >= 1 && Recordable(op)
    requires Written(bytes, bytes', flags, codeBuf, OpBytes(op))
    requires bytes'[flags] == bytes[flags] / 2 + (if op.Match? then 128 else 0)
    ensures Layout(bytes', codeBuf + |OpBytes(op)|, flags, left - 1, full, part + [op])
  {
    var b := OpBytes(op);
    PayloadAppend(part, op);
    FlagIn(bytes[flags], bytes'[flags], left, part, op);
    PayloadIn(bytes, bytes', flags, codeBuf, b);
  }

  /** A full group takes its place among the others. */
  lemma GroupDone(bytes: seq<nat>, codeBuf: nat, flags: nat, full: seq<Op>, part: seq<Op>)
    requires Layout(bytes, codeBuf, flags, 0, full, part) && codeBuf < |bytes| && bytes[codeBuf] < 256
    ensures Layout(bytes, codeBuf + 1, codeBuf, 8, full + part, [])
  {
    NextAligned(|full|, |full + part|);
    EncodedGroup(full, part);
    Split(bytes, flags, codeBuf);
    ShrByte(bytes[codeBuf]);
  }

  lemma Aligned(q: nat, k: nat, n: nat)
    requires q % 8 == 0 && k < 8 && n == q + k
    ensures n - n % 8 == q
  {}

  lemma NextAligned(q: nat, e: nat)
    requires q % 8 == 0 && e == q + 8
    ensures e % 8 == 0
  {}

  lemma Split(bytes: seq<nat>, flags: nat, end: nat)
    requires flags < end <= |bytes|
    ensures bytes[..end] == bytes[..flags] + [bytes[flags]] + bytes[flags + 1..end]
  {}

  lemma ShrByte(x: nat)
    requires x < 256
    ensures Shr(x, 8) == 0
  {
    Pow2Values();
    LowOfSmall(x, 8);
  }

  /** What is left once the unused part of the flag byte, or the whole unused flag byte, is dropped. */
  lemma Closed(bytes: seq<nat>, codeBuf: nat, flags: nat, left: nat, full: seq<Op>, part: seq<Op>)
    requires Layout(bytes, codeBuf, flags, left, full, part)
    ensures var bytes' := bytes[flags := Shr(bytes[flags], left)];
            AllRecordable(full + part) &&
            Encoded(full + part) == if left == 8 then bytes'[..codeBuf - 1] else bytes'[..codeBuf]
  {
    if left == 8 { ClosedEmpty(bytes, codeBuf, flags, Shr(bytes[flags], left), full, part); } else { ClosedPart(bytes, codeBuf, flags, left, full, part); }
  }

  lemma ClosedEmpty(bytes: seq<nat>, codeBuf: nat, flags: nat, x: nat, full: seq<Op>, part: seq<Op>)
    requires flags < codeBuf <= |bytes| && part == [] && AllRecordable(full)
    requires bytes[..flags] == Encoded(full) && bytes[flags + 1..codeBuf] == []
    ensures AllRecordable(full + part)
    ensures Encoded(full + part) == bytes[flags := x][..codeBuf - 1]
  {
    assert full + part == full;
    assert bytes[flags := x][..codeBuf - 1] == bytes[..flags];
  }

  lemma ClosedPart(bytes: seq<nat>, codeBuf: nat, flags: nat, left: nat, full: seq<Op>, part: seq<Op>)
    requires Layout(bytes, codeBuf, flags, left, full, part) && left < 8
    ensures AllRecordable(full + part)
    ensures Encoded(full + part) == bytes[flags := Shr(bytes[flags], left)][..codeBuf]
  {
    EncodedGroup(full, part);
    var bytes' := bytes[flags := Shr(bytes[flags], left)];
    Split(bytes', flags, codeBuf);
    assert bytes'[..flags] == bytes[..flags] && bytes'[flags + 1..codeBuf] == bytes[flags + 1..codeBuf];
  }

  lemma MatchWritten(bytes: seq<nat>, bytes': seq<nat>, flags: nat, at: nat, a: nat, b: nat, c: nat)
    requires flags < at && at + 3 <= |bytes|
    requires |bytes'| == |bytes| && bytes'[at] == a && bytes'[at + 1] == b && bytes'[at + 2] == c
    requires forall i :: 0 <= i < at && i != flags ==> bytes'[i] == bytes[i]
    ensures Written(bytes, bytes', flags, at, [a, b, c])
  {
    assert bytes'[at..at + 3] == [a, b, c];
  }

  class CodeBuffer {
    const buf: array<nat>
    var codeBuf: nat        // m_pLZ_code_buf, as an index
    var flags: nat          // m_pLZ_flags, as an index
    var numFlagsLeft: nat
    var totalLzBytes: nat
    ghost var full: seq<Op> // whole groups of eight
    ghost var part: seq<Op> // the group being filled

    ghost predicate Valid()
      reads this, buf
    {
      && buf.Length == LZ_CODE_BUF_SIZE && 1 <= numFlagsLeft <= 8
      && (forall i :: 0 <= i < buf.Length ==> buf[i] < 256)
      && Layout(buf[..], codeBuf, flags, numFlagsLeft, full, part)
      && totalLzBytes == TotalBytes(Ops())
    }

    /** The operations recorded so far. */
    ghost function Ops(): seq<Op>
      reads this
    {
      full + part
    }

    constructor ()
      ensures Valid() && Ops() == [] && codeBuf == 1 && fresh(buf)
    {
      buf := new nat[LZ_CODE_BUF_SIZE](_ => 0);
      codeBuf, flags, numFlagsLeft, totalLzBytes, full, part := 1, 0, 8, 0, [], [];
      new;
      StartsEmpty(buf[..]);
    }

    /** After eight flags the next byte becomes the flag byte. */
    method CountFlag()
      requires buf.Length == LZ_CODE_BUF_SIZE && 1 <= numFlagsLeft <= 8 && codeBuf < buf.Length
      requires forall i :: 0 <= i < buf.Length ==> buf[i] < 256
      requires Layout(buf[..], codeBuf, flags, numFlagsLeft - 1, full, part) && totalLzBytes == TotalBytes(Ops())
      modifies this
      ensures Valid() && Ops() == old(Ops()) && codeBuf <= old(codeBuf) + 1
    {
      numFlagsLeft := numFlagsLeft - 1;
      if numFlagsLeft == 0 {
        GroupDone(buf[..], codeBuf, flags, full, part);
        numFlagsLeft, flags, codeBuf := 8, codeBuf, codeBuf + 1;
        full, part := full + part, [];
        assert full + part == full;
      }
      InOrder();
    }

    /** Where the code buffer ends depends on the operations alone. */
    lemma EndOfCodes() returns (q: nat)
      requires Valid()
      ensures q == |Ops()| - |Ops()| % 8 && AllRecordable(Ops())
      ensures codeBuf == |Encoded(Ops()[..q])| + 1 + |Payload(Ops()[q..])|
    {
      q := |full|;
      Aligned(|full|, |part|, |full + part|);
      assert Ops()[..q] == full && Ops()[q..] == part;
      assert |buf[..flags]| == flags && |buf[flags + 1..codeBuf]| == codeBuf - flags - 1;
    }

    lemma InOrder()
      requires buf.Length == LZ_CODE_BUF_SIZE && 1 <= numFlagsLeft <= 8 && forall i :: 0 <= i < buf.Length ==> buf[i] < 256
      requires Layout(buf[..], codeBuf, flags, numFlagsLeft, full, part) && totalLzBytes == TotalBytes(Ops())
      ensures Valid()
    {}

    /** What both recording methods do once the bytes of the operation are written. */
    method Recorded(ghost bytes: seq<nat>, ghost op: Op, ghost start: nat)
      requires buf.Length == LZ_CODE_BUF_SIZE == |bytes| && 1 <= numFlagsLeft <= 8 && codeBuf < buf.Length && Recordable(op)
      requires forall i :: 0 <= i < buf.Length ==> buf[i] < 256
      requires Layout(bytes, start, flags, numFlagsLeft, full, part) && codeBuf == start + |OpBytes(op)|
      requires Written(bytes, buf[..], flags, start, OpBytes(op))
      requires buf[flags] == bytes[flags] / 2 + (if op.Match? then 128 else 0)
      requires totalLzBytes == TotalBytes(Ops()) + OpLen(op)
      modifies this
      ensures Valid() && Ops() == old(Ops()) + [op] && codeBuf <= old(codeBuf) + 1
    {
      OpIn(bytes, buf[..], start, flags, numFlagsLeft, full, part, op);
      OpsAppend(full, part, op);
      part := part + [op];
      CountFlag();
    }

    method RecordLiteral(lit: nat)
      requires Valid() && lit < 256 && codeBuf + 1 < buf.Length
      modifies this, buf
      ensures Valid() && Ops() == old(Ops()) + [Literal(lit)] && codeBuf <= old(codeBuf) + 2
    {
      ghost var bytes := buf[..];
      totalLzBytes := totalLzBytes + 1;
      buf[codeBuf] := lit;
      codeBuf := codeBuf + 1;
      buf[flags] := buf[flags] / 2;
      Recorded(bytes, Literal(lit), codeBuf - 1);
    }

    method RecordMatch(matchLen: nat, matchDist: nat)
      requires Valid() && Recordable(Match(matchLen, matchDist)) && codeBuf + 3 < buf.Length
      modifies this, buf
      ensures Valid() && Ops() == old(Ops()) + [Match(matchLen, matchDist)] && codeBuf <= old(codeBuf) + 4
    {
      ghost var bytes, start := buf[..], codeBuf;
      totalLzBytes := totalLzBytes + matchLen;
      var dist := matchDist - 1;
      StoreMatch(matchLen - MIN_MATCH_LEN, dist % 256, dist / 256);
      Recorded(bytes, Match(matchLen, matchDist), start);
    }

    /** Three bytes and a flag that is one. */
    method StoreMatch(a: nat, b: nat, c: nat)
      requires flags < codeBuf && codeBuf + 3 < buf.Length && a < 256 && b < 256 && c < 256
      requires forall i :: 0 <= i < buf.Length ==> buf[i] < 256
      modifies `codeBuf, buf
      ensures codeBuf == old(codeBuf) + 3 && Written(old(buf[..]), buf[..], flags, old(codeBuf), [a, b, c])
      ensures buf[flags] == old(buf[flags]) / 2 + 128 && forall i :: 0 <= i < buf.Length ==> buf[i] < 256
    {
      ghost var bytes := buf[..];
      buf[codeBuf] := a;
      buf[codeBuf + 1] := b;
      buf[codeBuf + 2] := c;
      codeBuf := codeBuf + 3;
      buf[flags] := buf[flags] / 2 + 128;
      MatchWritten(bytes, buf[..], flags, codeBuf - 3, a, b, c);
    }

    /** tdefl_flush_block closes the buffer: the finished bytes are exactly the encoding of the operations. */
    method Close() returns (end: nat)
      requires Valid()
      modifies this, buf
      ensures end <= buf.Length && end <= old(codeBuf) && AllRecordable(old(Ops())) && buf[..end] == Encoded(old(Ops()))
      ensures totalLzBytes == old(totalLzBytes) && forall i :: 0 <= i < buf.Length ==> buf[i] < 256
    {
      ghost var bytes := buf[..];
      ShrLess(buf[flags], numFlagsLeft);
      Closed(bytes, codeBuf, flags, numFlagsLeft, full, part);
      buf[flags] := Shr(buf[flags], numFlagsLeft);
      assert buf[..] == bytes[flags := buf[flags]];
      if numFlagsLeft == 8 { codeBuf := codeBuf - 1; }
      end := codeBuf;
      assert buf[..end] == buf[..][..end];
    }

    /** The buffer starts over after a block; what it held is left there. */
    method Reset()
      requires buf.Length == LZ_CODE_BUF_SIZE && forall i :: 0 <= i < buf.Length ==> buf[i] < 256
      modifies this
      ensures Valid() && Ops() == [] && codeBuf == 1
    {
      codeBuf, flags, numFlagsLeft, totalLzBytes, full, part := 1, 0, 8, 0, [], [];
      StartsEmpty(buf[..]);
    }
  }

  lemma {:induction false} ShrLess(x: nat, n: nat)
    ensures Shr(x, n) <= x
    decreases n
  {
    if n > 0 { ShrLess(x / 2, n - 1); }
  }

  /** Every operation takes at least a byte. */
  lemma {:induction false} PayloadIsLong(ops: seq<Op>)
    requires AllRecordable(ops)
    ensures |Payload(ops)| >= |ops|
    decreases |ops|
  {
    if ops != [] { PayloadIsLong(ops[..|ops| - 1]); }
  }

  lemma {:induction false} EncodedIsLong(ops: seq<Op>)
    requires AllRecordable(ops)
    ensures |Encoded(ops)| >= |ops|
    decreases |ops|
  {
    if ops != [] {
      var q := GroupStart(|ops|);
      EncodedIsLong(ops[..q]);
      PayloadIsLong(ops[q..]);
    }
  }

  lemma {:induction false} ExpandTotal(done: seq<Op>, ops: seq<Op>)
    requires OpsOk(done + ops)
    ensures OpsOk(done) && |Expand(done + ops)| == |Expand(done)| + TotalBytes(ops)
    decreases |ops|
  {
    if ops == [] {
      assert done + ops == done;
    } else {
      var n := |ops| - 1;
      assert done + ops == done + ops[..n] + [ops[n]];
      ExpandAppend(done + ops[..n], ops[n]);
      ExpandTotal(done, ops[..n]);
    }
  }

  lemma OpsAppend(full: seq<Op>, part: seq<Op>, op: Op)
    ensures full + (part + [op]) == full + part + [op]
    ensures TotalBytes(full + part + [op]) == TotalBytes(full + part) + OpLen(op)
  {
    assert (full + part + [op])[..|full + part|] == full + part;
  }
}
