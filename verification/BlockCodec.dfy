/** The body of a Huffman-coded block: what tdefl_compress_lz_codes writes for the recorded operations and what
    the inner loops of tinfl_decompress make of it (miniz.c). */
module BlockCodec {
  import opened BitFields
  import opened BitStream
  import opened BitIo
  import opened InflateTableSpec
  import opened InflateTable
  import opened HuffmanIo
  import opened Lz
  import opened LzSymbols
  import opened LzCodeBuffer
  import opened LzCodeReader

  const END_OF_BLOCK := 256

  /** Both codes have what the operation needs. */
  ghost predicate CanCode(lit: seq<nat>, dist: seq<nat>, op: Op) {
    Recordable(op) &&
    match op
    case Literal(byte) => Used(lit, byte)
    case Match(l, d) => Used(lit, LenSym(l - MIN_MATCH_LEN)) && Used(dist, DistSym(d - 1))
  }

  ghost predicate CanCodeAll(lit: seq<nat>, dist: seq<nat>, ops: seq<Op>) {
    forall i :: 0 <= i < |ops| ==> CanCode(lit, dist, ops[i])
  }

  /** The low n bits of x, as an extra-bits field. */
  ghost function Field(x: nat, n: nat): seq<bool> {
    BitsOf(Low(x, n), n)
  }

  /** A symbol and its extra bits. */
  ghost function SymbolBits(sizes: seq<nat>, s: nat, x: nat, n: nat): seq<bool>
    requires Used(sizes, s)
  {
    CodeBits(sizes, s) + Field(x, n)
  }

  ghost function MatchBits(lit: seq<nat>, dist: seq<nat>, l: nat, d: nat): seq<bool>
    requires Used(lit, LenSym(l)) && Used(dist, DistSym(d))
  {
    SymbolBits(lit, LenSym(l), l, LenExtra(l)) + SymbolBits(dist, DistSym(d), d, DistExtra(d))
  }

  ghost function OpBits(lit: seq<nat>, dist: seq<nat>, op: Op): seq<bool>
    requires CanCode(lit, dist, op)
  {
    match op
    case Literal(byte) => CodeBits(lit, byte)
    case Match(l, d) => MatchBits(lit, dist, l - MIN_MATCH_LEN, d - 1)
  }

  /** The operations from i on, and the end-of-block symbol. */
  ghost function BodyBits(lit: seq<nat>, dist: seq<nat>, ops: seq<Op>, i: nat): seq<bool>
    requires i <= |ops| && CanCodeAll(lit, dist, ops) && Used(lit, END_OF_BLOCK)
    decreases |ops| - i
  {
    if i == |ops| then CodeBits(lit, END_OF_BLOCK) else OpBits(lit, dist, ops[i]) + BodyBits(lit, dist, ops, i + 1)
  }

  // ---------- Writing ----------

  method PutField(w: BitWriter, x: nat, n: nat)
    requires w.Valid()
    modifies w
    ensures w.Valid() && w.Stream() == old(w.Stream()) + Field(x, n)
  {
    LowShr(x, n);
    w.PutBits(Low(x, n), n);
  }

  /** A symbol, then the extra bits of x. */
  method PutSymbolAndField(w: BitWriter, sizes: seq<nat>, codes: seq<nat>, s: nat, x: nat, n: nat)
    requires w.Valid() && CodesOf(sizes, codes) && Used(sizes, s)
    modifies w
    ensures w.Valid() && w.Stream() == old(w.Stream()) + SymbolBits(sizes, s, x, n)
  {
    Assoc(w.Stream(), CodeBits(sizes, s), Field(x, n));
    PutSymbol(w, sizes, codes, s);
    PutField(w, x, n);
  }

  method LookUpDist(matchDist: nat) returns (sym: nat, numExtraBits: nat)
    ensures sym == DistSym(matchDist) && numExtraBits == DistExtra(matchDist)
  {
    if matchDist < 512 {
      sym, numExtraBits := DistSym(matchDist), DistExtra(matchDist);
    } else {
      LargeLookUp(matchDist);
      sym, numExtraBits := LargeDistSym(matchDist / 256), LargeDistExtra(matchDist / 256);
    }
  }

  method PutMatch(w: BitWriter, lit: seq<nat>, litCodes: seq<nat>, dist: seq<nat>, distCodes: seq<nat>, matchLen: nat, matchDist: nat)
    requires w.Valid() && CodesOf(lit, litCodes) && CodesOf(dist, distCodes)
    requires Used(lit, LenSym(matchLen)) && Used(dist, DistSym(matchDist))
    modifies w
    ensures w.Valid() && w.Stream() == old(w.Stream()) + MatchBits(lit, dist, matchLen, matchDist)
  {
    var lenSym, lenExtra := LenSym(matchLen), LenExtra(matchLen);
    var sym, numExtraBits := LookUpDist(matchDist);
    Assoc(w.Stream(), SymbolBits(lit, lenSym, matchLen, lenExtra), SymbolBits(dist, sym, matchDist, numExtraBits));
    PutSymbolAndField(w, lit, litCodes, lenSym, matchLen, lenExtra);
    PutSymbolAndField(w, dist, distCodes, sym, matchDist, numExtraBits);
  }

  /** One operation, read from the code buffer at pos. */
  method PutOp(w: BitWriter, lit: seq<nat>, litCodes: seq<nat>, dist: seq<nat>, distCodes: seq<nat>,
               codeBuf: seq<nat>, pos: nat, isMatch: bool, ghost op: Op) returns (pos': nat)
    requires w.Valid() && CodesOf(lit, litCodes) && CodesOf(dist, distCodes) && CanCode(lit, dist, op)
    requires isMatch == op.Match? && Holds(codeBuf, pos, OpBytes(op))
    modifies w
    ensures w.Valid() && w.Stream() == old(w.Stream()) + OpBits(lit, dist, op)
    ensures pos' == pos + |OpBytes(op)|
  {
    OpBytesAt(codeBuf, pos, op);
    if isMatch {
      var matchLen, matchDist := codeBuf[pos], codeBuf[pos + 1] + 256 * codeBuf[pos + 2];
      MatchCoded(lit, dist, op, matchLen, matchDist);
      PutMatch(w, lit, litCodes, dist, distCodes, matchLen, matchDist);
      pos' := pos + 3;
    } else {
      PutSymbol(w, lit, litCodes, codeBuf[pos]);
      pos' := pos + 1;
    }
  }

  lemma MatchCoded(lit: seq<nat>, dist: seq<nat>, op: Op, l: nat, d: nat)
    requires CanCode(lit, dist, op) && op.Match? && l == op.len - MIN_MATCH_LEN && d == op.dist - 1
    ensures Used(lit, LenSym(l)) && Used(dist, DistSym(d)) && OpBits(lit, dist, op) == MatchBits(lit, dist, l, d)
    ensures |OpBytes(op)| == 3
  {}

  lemma OpBytesAt(codeBuf: seq<nat>, pos: nat, op: Op)
    requires Recordable(op) && Holds(codeBuf, pos, OpBytes(op))
    ensures op.Literal? ==> pos < |codeBuf| && codeBuf[pos] == op.byte
    ensures op.Match? ==> pos + 2 < |codeBuf| && codeBuf[pos] == op.len - MIN_MATCH_LEN
                          && codeBuf[pos + 1] + 256 * codeBuf[pos + 2] == op.dist - 1
  {
    var b := codeBuf[pos..pos + |OpBytes(op)|];
    if op.Match? { assert codeBuf[pos] == b[0] && codeBuf[pos + 1] == b[1] && codeBuf[pos + 2] == b[2]; } else { assert codeBuf[pos] == b[0]; }
  }

  /** One round of the loop below, once the flags of its group are at hand. */
  method PutNext(w: BitWriter, lit: seq<nat>, litCodes: seq<nat>, dist: seq<nat>, distCodes: seq<nat>,
                 codeBuf: seq<nat>, pos: nat, flags: nat, ghost ops: seq<Op>, ghost q: nat, ghost i: nat) returns (pos': nat)
    requires w.Valid() && CodesOf(lit, litCodes) && CodesOf(dist, distCodes) && Used(lit, END_OF_BLOCK)
    requires CanCodeAll(lit, dist, ops) && InGroup(ops, q, i, pos, flags) && i < |ops| && i < q + 8 && codeBuf == Encoded(ops)
    modifies w
    ensures w.Valid() && w.Stream() + BodyBits(lit, dist, ops, i + 1) == old(w.Stream()) + BodyBits(lit, dist, ops, i)
    ensures InGroup(ops, q, i + 1, pos', flags / 2)
  {
    OpHere(ops, q, i, pos, flags);
    Assoc(w.Stream(), OpBits(lit, dist, ops[i]), BodyBits(lit, dist, ops, i + 1));
    pos' := PutOp(w, lit, litCodes, dist, distCodes, codeBuf, pos, flags % 2 == 1, ops[i]);
  }

  /** At the start of a group its flag byte is read, with a mark above its eight bits. */
  method NextFlags(codeBuf: seq<nat>, pos: nat, flags: nat, ghost ops: seq<Op>, ghost q: nat, ghost i: nat)
      returns (pos': nat, flags': nat)
    requires Reading(ops, q, i, pos, flags) && pos < |codeBuf| && codeBuf == Encoded(ops)
    ensures i < |ops| && i < q + 8 && InGroup(ops, q, i, pos', flags')
  {
    pos', flags' := pos, flags;
    if flags == 1 {
      ReadFlags(ops, q, pos);
      flags', pos' := codeBuf[pos] + 256, pos + 1;
    }
  }

  /** Operation i comes next, and the bits written and still to come are the whole. */
  ghost predicate Writing(w: BitWriter, lit: seq<nat>, dist: seq<nat>, ops: seq<Op>, q: nat, i: nat, pos: nat, flags: nat, whole: seq<bool>)
    reads w
  {
    && i <= |ops| && CanCodeAll(lit, dist, ops) && Used(lit, END_OF_BLOCK)
    && w.Valid() && Reading(ops, q, i, pos, flags) && w.Stream() + BodyBits(lit, dist, ops, i) == whole
  }

  /** Nothing is written yet, and no flags have been read. */
  lemma StartWriting(w: BitWriter, lit: seq<nat>, dist: seq<nat>, ops: seq<Op>, pos: nat, flags: nat)
    returns (q: nat, i: nat, whole: seq<bool>)
    requires w.Valid() && CanCodeAll(lit, dist, ops) && Used(lit, END_OF_BLOCK) && AllRecordable(ops) && pos == 0 && flags == 1
    ensures Writing(w, lit, dist, ops, q, i, pos, flags, whole) && whole == w.Stream() + BodyBits(lit, dist, ops, 0)
  {
    StartReading(ops);
    q, i, whole := 0, 0, w.Stream() + BodyBits(lit, dist, ops, 0);
  }

  lemma AllWritten(w: BitWriter, lit: seq<nat>, dist: seq<nat>, ops: seq<Op>, q: nat, i: nat, pos: nat, flags: nat, whole: seq<bool>)
    requires Writing(w, lit, dist, ops, q, i, pos, flags, whole) && pos >= |Encoded(ops)|
    ensures CanCodeAll(lit, dist, ops) && Used(lit, END_OF_BLOCK)
    ensures w.Valid() && w.Stream() + BodyBits(lit, dist, ops, |ops|) == whole
  {
    NoneLeft(ops, q, i, pos, flags);
  }

  /** One whole round: the flag byte first if a group begins. */
  method PutRound(w: BitWriter, lit: seq<nat>, litCodes: seq<nat>, dist: seq<nat>, distCodes: seq<nat>,
                  codeBuf: seq<nat>, pos: nat, flags: nat, ghost ops: seq<Op>, ghost q: nat, ghost i: nat, ghost whole: seq<bool>)
      returns (pos': nat, flags': nat, ghost q': nat)
    requires CodesOf(lit, litCodes) && CodesOf(dist, distCodes) && Used(lit, END_OF_BLOCK)
    requires CanCodeAll(lit, dist, ops) && pos < |codeBuf| && codeBuf == Encoded(ops)
    requires Writing(w, lit, dist, ops, q, i, pos, flags, whole)
    modifies w
    ensures i < |ops| && Writing(w, lit, dist, ops, q', i + 1, pos', flags', whole)
  {
    pos', flags' := NextFlags(codeBuf, pos, flags, ops, q, i);
    pos' := PutNext(w, lit, litCodes, dist, distCodes, codeBuf, pos', flags', ops, q, i);
    flags' := flags' / 2;
    q' := if i + 1 == q + 8 then i + 1 else q;
    AfterOp(ops, q, i + 1, q', pos', flags');
  }

  /** The loop of tdefl_compress_lz_codes: reads the operations back from the code buffer and writes their bits. */
  method PutAllOps(w: BitWriter, lit: seq<nat>, litCodes: seq<nat>, dist: seq<nat>, distCodes: seq<nat>,
                   codeBuf: seq<nat>, ghost ops: seq<Op>)
    requires w.Valid() && CodesOf(lit, litCodes) && CodesOf(dist, distCodes) && Used(lit, END_OF_BLOCK)
    requires CanCodeAll(lit, dist, ops) && AllRecordable(ops) && codeBuf == Encoded(ops)
    modifies w
    ensures w.Valid() && w.Stream() + BodyBits(lit, dist, ops, |ops|) == old(w.Stream()) + BodyBits(lit, dist, ops, 0)
  {
    var flags: nat, pos: nat := 1, 0;
    ghost var q: nat, i: nat, whole := StartWriting(w, lit, dist, ops, pos, flags);
    while pos < |codeBuf|
      invariant Writing(w, lit, dist, ops, q, i, pos, flags, whole)
      decreases |ops| - i
    {
      pos, flags, q := PutRound(w, lit, litCodes, dist, distCodes, codeBuf, pos, flags, ops, q, i, whole);
      i := i + 1;
    }
    AllWritten(w, lit, dist, ops, q, i, pos, flags, whole);
  }

  /** tdefl_compress_lz_codes: all operations, then the end of the block. */
  method CompressLzCodes(w: BitWriter, lit: seq<nat>, litCodes: seq<nat>, dist: seq<nat>, distCodes: seq<nat>,
                         codeBuf: seq<nat>, ghost ops: seq<Op>)
    requires w.Valid() && CodesOf(lit, litCodes) && CodesOf(dist, distCodes)
    requires CanCodeAll(lit, dist, ops) && Used(lit, END_OF_BLOCK) && AllRecordable(ops) && codeBuf == Encoded(ops)
    modifies w
    ensures w.Valid() && w.Stream() == old(w.Stream()) + BodyBits(lit, dist, ops, 0)
  {
    PutAllOps(w, lit, litCodes, dist, distCodes, codeBuf, ops);
    PutSymbol(w, lit, litCodes, END_OF_BLOCK);
  }
}
