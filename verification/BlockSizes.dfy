/** How long a block with the fixed codes can get: it always fits the compressor's output buffer. */
module BlockSizes {
  import opened InflateTableSpec
  import opened Lz
  import opened LzSymbols
  import opened LzCodeBuffer
  import opened StaticCodes
  import opened BlockCodec

  /** A flag bit for every operation, beside its bytes. */
  lemma {:induction false} EncodedLength(ops: seq<Op>)
    requires AllRecordable(ops)
    ensures 8 * |Encoded(ops)| >= 8 * |Payload(ops)| + |ops|
    decreases |ops|
  {
    if ops != [] {
      var q := GroupStart(|ops|);
      EncodedLength(ops[..q]);
      PayloadSplit(ops, q);
    }
  }

  lemma {:induction false} PayloadSplit(ops: seq<Op>, q: nat)
    requires AllRecordable(ops) && q <= |ops|
    ensures |Payload(ops)| == |Payload(ops[..q])| + |Payload(ops[q..])|
    decreases |ops|
  {
    if q == |ops| {
      assert ops[..q] == ops && ops[q..] == [];
    } else {
      var n := |ops| - 1;
      var init, last := ops[..n], ops[n];
      PayloadSplit(init, q);
      LastApart(ops, init, last, q);
      OneLonger(init, last, ops);
      OneLonger(init[q..], last, ops[q..]);
    }
  }

  lemma LastApart(ops: seq<Op>, init: seq<Op>, last: Op, q: nat)
    requires q < |ops| && init == ops[..|ops| - 1] && last == ops[|ops| - 1]
    ensures ops == init + [last] && init[..q] == ops[..q] && ops[q..] == init[q..] + [last]
  {}

  lemma OneLonger(init: seq<Op>, last: Op, ops: seq<Op>)
    requires AllRecordable(ops) && ops == init + [last]
    ensures AllRecordable(init) && Recordable(last) && |Payload(ops)| == |Payload(init)| + |OpBytes(last)|
  {
    forall i | 0 <= i < |init| ensures Recordable(init[i]) { assert ops[i] == init[i]; }
    assert ops[|init|] == last;
    PayloadAppend(init, last);
  }

  /** At most nine bits for a literal and 31 for a match. */
  lemma StaticOpLength(op: Op)
    requires Recordable(op)
    ensures CanCode(STATIC_LIT(), STATIC_DIST(), op) && |OpBits(STATIC_LIT(), STATIC_DIST(), op)| <= 10 * |OpBytes(op)| + 1
  {
    StaticCodesAll([op]);
    assert CanCode(STATIC_LIT(), STATIC_DIST(), [op][0]);
    if op.Match? {
      LenRoundTrip(op.len - MIN_MATCH_LEN);
      DistRoundTrip(op.dist - 1);
    }
  }

  lemma PayloadNext(ops: seq<Op>, i: nat)
    requires AllRecordable(ops) && i < |ops|
    ensures |Payload(ops[..i + 1])| == |Payload(ops[..i])| + |OpBytes(ops[i])|
  {
    assert ops[..i + 1][..i] == ops[..i];
  }

  lemma {:induction false} StaticBodyLength(ops: seq<Op>, i: nat)
    requires AllRecordable(ops) && i <= |ops| && CanCodeAll(STATIC_LIT(), STATIC_DIST(), ops) && Used(STATIC_LIT(), END_OF_BLOCK)
    ensures |BodyBits(STATIC_LIT(), STATIC_DIST(), ops, i)| <= 10 * (|Payload(ops)| - |Payload(ops[..i])|) + (|ops| - i) + 7
    decreases |ops| - i
  {
    if i == |ops| {
      assert ops[..i] == ops;
    } else {
      StaticBodyLength(ops, i + 1);
      StaticOpLength(ops[i]);
      PayloadNext(ops, i);
    }
  }

  /** Ten bits for every byte of the code buffer and seven for the end are enough. */
  lemma StaticFits(ops: seq<Op>)
    requires AllRecordable(ops)
    ensures CanCodeAll(STATIC_LIT(), STATIC_DIST(), ops) && Used(STATIC_LIT(), END_OF_BLOCK)
    ensures |BodyBits(STATIC_LIT(), STATIC_DIST(), ops, 0)| <= 10 * |Encoded(ops)| + 7
  {
    StaticCodesAll(ops);
    var i: nat := 0;
    StaticBodyLength(ops, i);
    EncodedLength(ops);
  }

  const OUT_BUF_SIZE := 85196 // 64 * 1024 * 13 / 10

  /** Where the writer's buffer counts as full, seen from where it began. */
  const OUT_BUF_END := OUT_BUF_SIZE - 16

  /** Few enough bits more, with at most seven waiting before: the output stays within its buffer. */
  lemma WithinBuffer(start: nat, before: nat, bitsBefore: nat, after: nat, bitsAfter: nat, more: nat)
    requires before <= start + 1 && bitsBefore < 8 && 8 * after + bitsAfter == 8 * before + bitsBefore + more
    requires more <= 10 * LZ_CODE_BUF_SIZE + 9
    ensures after < start + OUT_BUF_END
  {}
}
