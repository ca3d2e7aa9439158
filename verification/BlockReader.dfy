/** The inflater's inner loops on a Huffman-coded block (tinfl_decompress in miniz.c): literals are decoded up to two
    at a time, and a match copies three bytes at a time from the output already produced. */
module BlockReader {
  import opened BitFields
  import opened BitStream
  import opened BitIo
  import opened InflateTableSpec
  import opened InflateTable
  import opened HuffmanIo
  import opened Lz
  import opened LzSymbols
  import opened LzCodeBuffer
  import opened BlockCodec

  method GetSymbol(r: BitReader, t: HuffTable, ghost s: nat, ghost tail: seq<bool>) returns (sym: nat)
    requires r.Valid() && t.Valid() && Used(t.sizes, s) && r.Remaining() == CodeBits(t.sizes, s) + tail
    modifies r`pos, r`bitBuf, r`numBits
    ensures r.Valid() && sym == s && r.Remaining() == tail
  {
    TakeBits(CodeBits(t.sizes, s), tail);
    sym := HuffDecode(r, t, s);
  }

  /** Decoding without the check for the end of the input, when two more bytes are known to be there. */
  method FastSymbol(r: BitReader, t: HuffTable, ghost s: nat, ghost tail: seq<bool>) returns (sym: nat)
    requires r.Valid() && t.Valid() && Used(t.sizes, s) && r.Remaining() == CodeBits(t.sizes, s) + tail
    requires |r.input| - r.pos >= 2
    modifies r`pos, r`bitBuf, r`numBits
    ensures r.Valid() && sym == s && r.Remaining() == tail && r.pos <= old(r.pos) + 2
  {
    TakeBits(CodeBits(t.sizes, s), tail);
    if r.numBits < 15 {
      r.GetByte();
      r.GetByte();
    }
    sym := DecodeAtHand(r, t, s);
  }

  method GetField(r: BitReader, n: nat, ghost x: nat, ghost tail: seq<bool>) returns (b: nat)
    requires r.Valid() && n <= 24 && r.Remaining() == Field(x, n) + tail
    modifies r`pos, r`bitBuf, r`numBits
    ensures r.Valid() && b == Low(x, n) && r.Remaining() == tail
  {
    TakeBits(Field(x, n), tail);
    LowShr(x, n);
    b := r.GetBits(n);
    GotIsPut(b, Low(x, n), n);
  }

  /** The copying loop. */
  method CopyBytes(out: seq<nat>, len: nat, dist: nat) returns (out': seq<nat>)
    requires MIN_MATCH_LEN <= len && 1 <= dist <= |out|
    ensures out' == Copied(out, len, dist)
  {
    out' := out;
    var counter := len;
    while counter > 2
      invariant 0 <= counter <= len && out' == Copied(out, len - counter, dist)
    {
      out' := CopyThree(out, len - counter, dist, out');
      counter := counter - 3;
    }
    if counter > 0 {
      out' := out' + [out'[|out'| - dist]];
      if counter > 1 { out' := out' + [out'[|out'| - dist]]; }
    }
  }

  method CopyThree(ghost out: seq<nat>, ghost done: nat, dist: nat, cur: seq<nat>) returns (next: seq<nat>)
    requires 1 <= dist <= |out| && cur == Copied(out, done, dist)
    ensures next == Copied(out, done + 3, dist)
  {
    next := cur + [cur[|cur| - dist]];
    assert next == Copied(out, done + 1, dist);
    next := next + [next[|next| - dist]];
    assert next == Copied(out, done + 2, dist);
    next := next + [next[|next| - dist]];
  }

  /** Whatever the bits, the symbol looked up has its entries in the tables of lengths and distances, reserved ones
      included. */
  lemma TablesCover(sizes: seq<nat>, x: nat, sym: nat, len: nat)
    requires Decodes(sizes, x, sym, len)
    ensures |sizes| <= 288 && sym > 256 ==> sym - 257 < |LENGTH_BASE| == |LENGTH_EXTRA|
    ensures |sizes| <= 32 ==> sym < |DIST_BASE| == |DIST_EXTRA|
  {}

  // ---------- The stream, symbol by symbol ----------

  ghost function SymAt(ops: seq<Op>, i: nat): nat
    requires i <= |ops| && AllRecordable(ops)
  {
    if i == |ops| then END_OF_BLOCK
    else match ops[i]
      case Literal(byte) => byte
      case Match(l, _) => LenSym(l - MIN_MATCH_LEN)
  }

  /** What follows the next literal or length symbol. */
  ghost function TailAt(lit: seq<nat>, dist: seq<nat>, ops: seq<Op>, i: nat): seq<bool>
    requires i <= |ops| && CanCodeAll(lit, dist, ops) && Used(lit, END_OF_BLOCK)
  {
    if i == |ops| then []
    else match ops[i]
      case Literal(_) => BodyBits(lit, dist, ops, i + 1)
      case Match(l, d) => Field(l - MIN_MATCH_LEN, LenExtra(l - MIN_MATCH_LEN)) + DistTail(lit, dist, ops, i)
  }

  /** What follows the length of a match. */
  ghost function DistTail(lit: seq<nat>, dist: seq<nat>, ops: seq<Op>, i: nat): seq<bool>
    requires i < |ops| && CanCodeAll(lit, dist, ops) && Used(lit, END_OF_BLOCK) && ops[i].Match?
  {
    var d := ops[i].dist - 1;
    CodeBits(dist, DistSym(d)) + (Field(d, DistExtra(d)) + BodyBits(lit, dist, ops, i + 1))
  }

  lemma SymInRange(ops: seq<Op>, i: nat)
    requires i <= |ops| && AllRecordable(ops)
    ensures SymAt(ops, i) < 286
    ensures SymAt(ops, i) >= 256 <==> i == |ops| || ops[i].Match?
    ensures SymAt(ops, i) == 256 <==> i == |ops|
  {
    if i < |ops| && ops[i].Match? { LenRoundTrip(ops[i].len - MIN_MATCH_LEN); }
  }

  lemma MatchSplit(c: seq<bool>, f: seq<bool>, c': seq<bool>, f': seq<bool>, tail: seq<bool>)
    ensures c + f + (c' + f') + tail == c + (f + (c' + (f' + tail)))
  {}

  lemma BodySplit(lit: seq<nat>, dist: seq<nat>, ops: seq<Op>, i: nat)
    requires i <= |ops| && CanCodeAll(lit, dist, ops) && AllRecordable(ops) && Used(lit, END_OF_BLOCK)
    ensures Used(lit, SymAt(ops, i))
    ensures BodyBits(lit, dist, ops, i) == CodeBits(lit, SymAt(ops, i)) + TailAt(lit, dist, ops, i)
  {
    if i < |ops| && ops[i].Match? {
      assert CanCode(lit, dist, ops[i]);
      var l, d := ops[i].len - MIN_MATCH_LEN, ops[i].dist - 1;
      var a, b, c, e := CodeBits(lit, LenSym(l)), Field(l, LenExtra(l)), CodeBits(dist, DistSym(d)), Field(d, DistExtra(d));
      MatchSplit(a, b, c, e, BodyBits(lit, dist, ops, i + 1));
    } else if i == |ops| {
      assert CodeBits(lit, END_OF_BLOCK) + [] == CodeBits(lit, END_OF_BLOCK);
    }
  }

  // ---------- The loops ----------

  /** The block still to be read starts with operation i. */
  ghost predicate AtOp(r: BitReader, lt: HuffTable, dt: HuffTable, ops: seq<Op>, i: nat, rest: seq<bool>)
    reads r, lt, lt.lookUp, lt.tree, dt, dt.lookUp, dt.tree
  {
    && r.Valid() && lt.Valid() && dt.Valid() && i <= |ops| && AllRecordable(ops)
    && CanCodeAll(lt.sizes, dt.sizes, ops) && Used(lt.sizes, END_OF_BLOCK)
    && r.Remaining() == BodyBits(lt.sizes, dt.sizes, ops, i) + rest
  }

  /** The same, past its literal or length symbol. */
  ghost predicate PastSym(r: BitReader, lt: HuffTable, dt: HuffTable, ops: seq<Op>, i: nat, rest: seq<bool>)
    reads r, lt, lt.lookUp, lt.tree, dt, dt.lookUp, dt.tree
  {
    && r.Valid() && lt.Valid() && dt.Valid() && i <= |ops| && AllRecordable(ops)
    && CanCodeAll(lt.sizes, dt.sizes, ops) && Used(lt.sizes, END_OF_BLOCK)
    && r.Remaining() == TailAt(lt.sizes, dt.sizes, ops, i) + rest
  }

  /** sym & 256 */
  predicate NotLiteral(sym: nat)
    requires sym < 512
    ensures NotLiteral(sym) <==> sym >= 256
  {
    sym / 256 % 2 == 1
  }

  method NextSymbol(r: BitReader, lt: HuffTable, dt: HuffTable, ghost ops: seq<Op>, ghost i: nat, ghost rest: seq<bool>, fast: bool)
      returns (sym: nat)
    requires AtOp(r, lt, dt, ops, i, rest) && (fast ==> |r.input| - r.pos >= 2)
    modifies r`pos, r`bitBuf, r`numBits
    ensures PastSym(r, lt, dt, ops, i, rest) && sym == SymAt(ops, i) < 286
    ensures sym < 256 ==> i < |ops| && ops[i] == Literal(sym) && AtOp(r, lt, dt, ops, i + 1, rest)
    ensures fast ==> r.pos <= old(r.pos) + 2
  {
    BodySplit(lt.sizes, dt.sizes, ops, i);
    SymInRange(ops, i);
    ghost var s, tail := SymAt(ops, i), TailAt(lt.sizes, dt.sizes, ops, i);
    Assoc(CodeBits(lt.sizes, s), tail, rest);
    if fast {
      sym := FastSymbol(r, lt, s, tail + rest);
    } else {
      sym := GetSymbol(r, lt, s, tail + rest);
    }
  }

  /** The output is that of the operations done before and the first i of this block, if they all make sense. */
  ghost predicate Produced(done: seq<Op>, ops: seq<Op>, i: nat, out: seq<nat>) {
    i <= |ops| && OpsOk(done + ops[..i]) && out == Expand(done + ops[..i])
  }

  /** One round of the inner loop with input to spare: up to two literals. */
  method TwoSymbols(r: BitReader, lt: HuffTable, dt: HuffTable, ghost ops: seq<Op>, ghost start: nat, ghost rest: seq<bool>,
                    out: seq<nat>, ghost done: seq<Op>) returns (counter: nat, stop: bool, out': seq<nat>, ghost i: nat)
    requires AtOp(r, lt, dt, ops, start, rest) && Produced(done, ops, start, out) && |r.input| - r.pos >= 4
    modifies r`pos, r`bitBuf, r`numBits
    ensures start <= i <= |ops| && Produced(done, ops, i, out')
    ensures stop ==> PastSym(r, lt, dt, ops, i, rest) && counter == SymAt(ops, i) >= 256
    ensures !stop ==> start < i && AtOp(r, lt, dt, ops, i, rest)
  {
    out', i, stop := out, start, true;
    counter := NextSymbol(r, lt, dt, ops, i, rest, true);
    if NotLiteral(counter) { return; }
    LiteralOut(done, ops, i, out');
    var sym2 := NextSymbol(r, lt, dt, ops, i + 1, rest, true);
    out', i := out' + [counter], i + 1;
    if NotLiteral(sym2) {
      counter := sym2;
      return;
    }
    LiteralOut(done, ops, i, out');
    out', i, stop := out' + [sym2], i + 1, false;
  }

  /** One round near the end of the input. */
  method OneSymbol(r: BitReader, lt: HuffTable, dt: HuffTable, ghost ops: seq<Op>, ghost start: nat, ghost rest: seq<bool>,
                   out: seq<nat>, ghost done: seq<Op>) returns (counter: nat, stop: bool, out': seq<nat>, ghost i: nat)
    requires AtOp(r, lt, dt, ops, start, rest) && Produced(done, ops, start, out)
    modifies r`pos, r`bitBuf, r`numBits
    ensures start <= i <= |ops| && Produced(done, ops, i, out')
    ensures stop ==> PastSym(r, lt, dt, ops, i, rest) && counter == SymAt(ops, i) >= 256
    ensures !stop ==> start < i && AtOp(r, lt, dt, ops, i, rest)
  {
    out', i, stop := out, start, true;
    counter := NextSymbol(r, lt, dt, ops, i, rest, false);
    if counter >= 256 { return; }
    LiteralOut(done, ops, i, out');
    out', i, stop := out' + [counter], i + 1, false;
  }

  /** The inner loop: literals go to the output until a length or the end of the block comes. */
  method DecodeLiterals(r: BitReader, lt: HuffTable, dt: HuffTable, ghost ops: seq<Op>, ghost start: nat, ghost rest: seq<bool>,
                        out: seq<nat>, ghost done: seq<Op>) returns (counter: nat, out': seq<nat>, ghost i: nat)
    requires AtOp(r, lt, dt, ops, start, rest) && Produced(done, ops, start, out)
    modifies r`pos, r`bitBuf, r`numBits
    ensures start <= i <= |ops| && PastSym(r, lt, dt, ops, i, rest) && counter == SymAt(ops, i) >= 256
    ensures Produced(done, ops, i, out')
  {
    out', i, counter := out, start, 0;
    var stop := false;
    while !stop
      invariant start <= i <= |ops| && Produced(done, ops, i, out')
      invariant stop ==> PastSym(r, lt, dt, ops, i, rest) && counter == SymAt(ops, i) >= 256
      invariant !stop ==> AtOp(r, lt, dt, ops, i, rest)
      decreases !stop, |ops| - i
    {
      if |r.input| - r.pos < 4 {
        counter, stop, out', i := OneSymbol(r, lt, dt, ops, i, rest, out', done);
      } else {
        counter, stop, out', i := TwoSymbols(r, lt, dt, ops, i, rest, out', done);
      }
    }
  }

  lemma OneMore(done: seq<Op>, ops: seq<Op>, i: nat)
    requires i < |ops|
    ensures done + ops[..i + 1] == done + ops[..i] + [ops[i]]
  {}

  lemma LiteralOut(done: seq<Op>, ops: seq<Op>, i: nat, out: seq<nat>)
    requires AllRecordable(ops) && i < |ops| && ops[i].Literal? && Produced(done, ops, i, out)
    ensures Produced(done, ops, i + 1, out + [ops[i].byte])
  {
    OneMore(done, ops, i);
    ExpandAppend(done + ops[..i], ops[i]);
  }

  lemma MatchOut(done: seq<Op>, ops: seq<Op>, i: nat, out: seq<nat>, len: nat, dist: nat)
    requires AllRecordable(ops) && i < |ops| && ops[i] == Match(len, dist) && Produced(done, ops, i, out)
    ensures dist <= |out| ==> Produced(done, ops, i + 1, Copied(out, len, dist))
    ensures dist > |out| ==> !OpsOk(done + ops[..i + 1])
  {
    OneMore(done, ops, i);
    ExpandAppend(done + ops[..i], ops[i]);
  }

  /** An operation that makes no sense spoils every longer list. */
  lemma {:induction false} NotOkLater(ops: seq<Op>, i: nat)
    requires i <= |ops| && !OpsOk(ops[..i])
    ensures !OpsOk(ops)
    decreases |ops|
  {
    if i < |ops| {
      assert ops[..|ops| - 1][..i] == ops[..i];
      NotOkLater(ops[..|ops| - 1], i);
    } else {
      assert ops[..i] == ops;
    }
  }

  lemma BlockNotOk(done: seq<Op>, ops: seq<Op>, i: nat)
    requires i <= |ops| && !OpsOk(done + ops[..i])
    ensures !OpsOk(done + ops)
  {
    assert (done + ops)[..|done| + i] == done + ops[..i];
    NotOkLater(done + ops, |done| + i);
  }

  /** The extra bits of a length, then the distance with its extra bits. */
  method GetMatch(r: BitReader, lt: HuffTable, dt: HuffTable, ghost ops: seq<Op>, ghost i: nat, ghost rest: seq<bool>, lenSym: nat)
      returns (len: nat, dist: nat)
    requires PastSym(r, lt, dt, ops, i, rest) && lenSym == SymAt(ops, i) > 256
    modifies r`pos, r`bitBuf, r`numBits
    ensures i < |ops| && ops[i] == Match(len, dist) && AtOp(r, lt, dt, ops, i + 1, rest)
  {
    SymInRange(ops, i);
    ghost var l, d := ops[i].len - MIN_MATCH_LEN, ops[i].dist - 1;
    LenRoundTrip(l);
    DistRoundTrip(d);
    ghost var body := BodyBits(lt.sizes, dt.sizes, ops, i + 1);
    DistSplit(CodeBits(dt.sizes, DistSym(d)), Field(d, DistExtra(d)), body, rest);
    Assoc(Field(l, LenExtra(l)), DistTail(lt.sizes, dt.sizes, ops, i), rest);
    var extraBits := GetField(r, LENGTH_EXTRA[lenSym - 257], l, DistTail(lt.sizes, dt.sizes, ops, i) + rest);
    len := LENGTH_BASE[lenSym - 257] + extraBits;
    var sym := GetSymbol(r, dt, DistSym(d), Field(d, DistExtra(d)) + (body + rest));
    extraBits := GetField(r, DIST_EXTRA[sym], d, body + rest);
    dist := DIST_BASE[sym] + extraBits;
  }

  lemma DistSplit(c: seq<bool>, f: seq<bool>, body: seq<bool>, rest: seq<bool>)
    ensures c + (f + body) + rest == c + (f + (body + rest))
  {}

  /** The outer loop: a block gives the output of its operations, and is refused exactly when some distance
      reaches back before the start of the output. */
  method InflateBody(r: BitReader, lt: HuffTable, dt: HuffTable, out: seq<nat>, ghost done: seq<Op>, ghost ops: seq<Op>, ghost rest: seq<bool>)
      returns (ok: bool, out': seq<nat>)
    requires AtOp(r, lt, dt, ops, 0, rest) && OpsOk(done) && out == Expand(done)
    modifies r`pos, r`bitBuf, r`numBits
    ensures r.Valid() && (ok <==> OpsOk(done + ops))
    ensures ok ==> out' == Expand(done + ops) && r.Remaining() == rest
  {
    ok, out' := true, out;
    var stop := false;
    ghost var i: nat := NothingYet(done, ops);
    while !stop
      invariant After(r, lt, dt, ops, i, rest, done, stop, ok, out')
      decreases !stop, |ops| - i
    {
      stop, ok, out', i := InflateRound(r, lt, dt, ops, i, rest, out', done);
    }
  }

  /** The block has been read, or was refused because some distance reaches too far back. */
  ghost predicate Ended(r: BitReader, done: seq<Op>, ops: seq<Op>, rest: seq<bool>, ok: bool, out: seq<nat>)
    reads r
  {
    r.Valid() && (ok <==> OpsOk(done + ops)) && (ok ==> out == Expand(done + ops) && r.Remaining() == rest)
  }

  /** Between two rounds: the next operation is at hand, or the block has ended. */
  ghost predicate After(r: BitReader, lt: HuffTable, dt: HuffTable, ops: seq<Op>, i: nat, rest: seq<bool>, done: seq<Op>,
                        stop: bool, ok: bool, out: seq<nat>)
    reads r, lt, lt.lookUp, lt.tree, dt, dt.lookUp, dt.tree
  {
    if stop then Ended(r, done, ops, rest, ok, out) else AtOp(r, lt, dt, ops, i, rest) && Produced(done, ops, i, out)
  }

  /** Literals up to a length symbol and its match, or to the end of the block. */
  method InflateRound(r: BitReader, lt: HuffTable, dt: HuffTable, ghost ops: seq<Op>, ghost from: nat, ghost rest: seq<bool>,
                      out: seq<nat>, ghost done: seq<Op>) returns (stop: bool, ok: bool, out': seq<nat>, ghost i: nat)
    requires AtOp(r, lt, dt, ops, from, rest) && Produced(done, ops, from, out)
    modifies r`pos, r`bitBuf, r`numBits
    ensures After(r, lt, dt, ops, i, rest, done, stop, ok, out') && (!stop ==> from < i)
  {
    var counter;
    counter, out', i := DecodeLiterals(r, lt, dt, ops, from, rest, out, done);
    SymInRange(ops, i);
    if counter == END_OF_BLOCK {
      stop, ok := true, true;
      BlockOver(r, lt, dt, ops, i, rest, done, out');
    } else {
      stop, ok, out', i := InflateMatch(r, lt, dt, ops, i, rest, out', done, counter);
    }
  }

  lemma BlockOver(r: BitReader, lt: HuffTable, dt: HuffTable, ops: seq<Op>, i: nat, rest: seq<bool>, done: seq<Op>, out: seq<nat>)
    requires PastSym(r, lt, dt, ops, i, rest) && Produced(done, ops, i, out) && i == |ops|
    ensures After(r, lt, dt, ops, i, rest, done, true, true, out)
  {
    AllDone(done, ops);
  }

  /** The rest of a round, after a length symbol. */
  method InflateMatch(r: BitReader, lt: HuffTable, dt: HuffTable, ghost ops: seq<Op>, ghost from: nat, ghost rest: seq<bool>,
                      out: seq<nat>, ghost done: seq<Op>, counter: nat) returns (stop: bool, ok: bool, out': seq<nat>, ghost i: nat)
    requires PastSym(r, lt, dt, ops, from, rest) && counter == SymAt(ops, from) > 256 && Produced(done, ops, from, out)
    modifies r`pos, r`bitBuf, r`numBits
    ensures After(r, lt, dt, ops, i, rest, done, stop, ok, out') && from < i
  {
    SymInRange(ops, from);
    var len, dist := GetMatch(r, lt, dt, ops, from, rest, counter);
    MatchOut(done, ops, from, out, len, dist);
    ok, out', i := dist <= |out|, out, from + 1;
    stop := !ok;
    if ok { out' := CopyBytes(out, len, dist); } else { BlockNotOk(done, ops, i); }
  }

  lemma NothingYet(done: seq<Op>, ops: seq<Op>) returns (i: nat)
    requires OpsOk(done)
    ensures i == 0 && Produced(done, ops, i, Expand(done))
  {
    i := 0;
    assert done + ops[..0] == done;
  }

  lemma AllDone(done: seq<Op>, ops: seq<Op>)
    ensures done + ops[..|ops|] == done + ops
  {
    assert ops[..|ops|] == ops;
  }
}
