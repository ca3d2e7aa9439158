/** The symbol counts of a block (m_huff_count[0] and [1] of miniz.c). */
module HuffCounts {
  import opened Lz
  import opened LzSymbols
  import opened LzCodeBuffer
  import opened HuffmanOptimality

  const LIT_SYMBOLS := 288
  const DIST_SYMBOLS := 32

  ghost function LitSym(op: Op): nat
    requires Recordable(op)
  {
    match op
    case Literal(byte) => byte
    case Match(len, _) => LenSym(len - MIN_MATCH_LEN)
  }

  ghost predicate UsesDist(op: Op, s: nat) {
    Recordable(op) && op.Match? && DistSym(op.dist - 1) == s
  }

  /** How often literal or length symbol s occurs. */
  ghost function CountLit(ops: seq<Op>, s: nat): nat
    requires AllRecordable(ops)
  {
    if ops == [] then 0 else CountLit(ops[..|ops| - 1], s) + (if LitSym(ops[|ops| - 1]) == s then 1 else 0)
  }

  ghost function CountDist(ops: seq<Op>, s: nat): nat
    requires AllRecordable(ops)
  {
    if ops == [] then 0 else CountDist(ops[..|ops| - 1], s) + (if UsesDist(ops[|ops| - 1], s) then 1 else 0)
  }

  ghost predicate Counted(lit: seq<nat>, dist: seq<nat>, ops: seq<Op>) {
    && |lit| == LIT_SYMBOLS && |dist| == DIST_SYMBOLS && AllRecordable(ops)
    && (forall s :: 0 <= s < |lit| ==> lit[s] == CountLit(ops, s))
    && (forall s :: 0 <= s < |dist| ==> dist[s] == CountDist(ops, s))
    && Sum(lit) == |ops| && Sum(dist) <= |ops|
  }

  lemma SymsInRange(op: Op)
    requires Recordable(op)
    ensures LitSym(op) < 286 && LitSym(op) != 256
    ensures op.Match? ==> DistSym(op.dist - 1) < 30
  {
    if op.Match? {
      LenRoundTrip(op.len - MIN_MATCH_LEN);
      DistRoundTrip(op.dist - 1);
    }
  }

  lemma {:induction false} UnusedSymbols(ops: seq<Op>, s: nat)
    requires AllRecordable(ops)
    ensures s == 256 || s >= 286 ==> CountLit(ops, s) == 0
    ensures s >= 30 ==> CountDist(ops, s) == 0
    decreases |ops|
  {
    if ops != [] {
      UnusedSymbols(ops[..|ops| - 1], s);
      SymsInRange(ops[|ops| - 1]);
    }
  }

  /** A symbol that an operation needs has been counted. */
  lemma {:induction false} CountedIsPositive(ops: seq<Op>, i: nat)
    requires AllRecordable(ops) && i < |ops|
    ensures CountLit(ops, LitSym(ops[i])) > 0
    ensures ops[i].Match? ==> CountDist(ops, DistSym(ops[i].dist - 1)) > 0
    decreases |ops|
  {
    if i < |ops| - 1 { CountedIsPositive(ops[..|ops| - 1], i); }
  }

  lemma {:induction false} SumUpdate(s: seq<nat>, i: nat)
    requires i < |s|
    ensures Sum(s[i := s[i] + 1]) == Sum(s) + 1
  {
    var t := s[i := s[i] + 1];
    if i == 0 {
      assert t[1..] == s[1..];
    } else {
      SumUpdate(s[1..], i - 1);
      assert t[1..] == s[1..][i - 1 := s[1..][i - 1] + 1];
    }
  }

  lemma CountOne(lit: seq<nat>, dist: seq<nat>, ops: seq<Op>, op: Op)
    requires Counted(lit, dist, ops) && Recordable(op)
    ensures LitSym(op) < |lit| && (op.Match? ==> DistSym(op.dist - 1) < |dist|)
    ensures var lit' := lit[LitSym(op) := lit[LitSym(op)] + 1];
            var dist' := if op.Match? then dist[DistSym(op.dist - 1) := dist[DistSym(op.dist - 1)] + 1] else dist;
            Counted(lit', dist', ops + [op])
  {
    SymsInRange(op);
    assert (ops + [op])[..|ops|] == ops;
    SumUpdate(lit, LitSym(op));
    if op.Match? { SumUpdate(dist, DistSym(op.dist - 1)); }
  }

  lemma {:induction false} SumZeros(s: seq<nat>)
    requires forall i :: 0 <= i < |s| ==> s[i] == 0
    ensures Sum(s) == 0
  {
    if s != [] { SumZeros(s[1..]); }
  }

  class Counts {
    const lit: array<nat>
    const dist: array<nat>

    ghost predicate Of(ops: seq<Op>)
      reads this, lit, dist
    {
      lit != dist && Counted(lit[..], dist[..], ops)
    }

    constructor ()
      ensures Of([]) && fresh(lit) && fresh(dist)
    {
      lit := new nat[LIT_SYMBOLS](_ => 0);
      dist := new nat[DIST_SYMBOLS](_ => 0);
      new;
      SumZeros(lit[..]);
      SumZeros(dist[..]);
    }

    method CountLiteral(byte: nat, ghost ops: seq<Op>)
      requires Of(ops) && byte < 256
      modifies lit
      ensures Of(ops + [Literal(byte)])
    {
      CountOne(lit[..], dist[..], ops, Literal(byte));
      ghost var before := lit[..];
      lit[byte] := lit[byte] + 1;
      assert lit[..] == before[byte := before[byte] + 1];
    }

    method CountMatch(matchLen: nat, matchDist: nat, ghost ops: seq<Op>)
      requires Of(ops) && Recordable(Match(matchLen, matchDist))
      modifies lit, dist
      ensures Of(ops + [Match(matchLen, matchDist)])
    {
      CountOne(lit[..], dist[..], ops, Match(matchLen, matchDist));
      ghost var lit0, dist0 := lit[..], dist[..];
      var s := CountedDistSym(matchDist - 1);
      dist[s] := dist[s] + 1;
      var l := LenSym(matchLen - MIN_MATCH_LEN);
      lit[l] := lit[l] + 1;
      assert lit[..] == lit0[l := lit0[l] + 1] && dist[..] == dist0[s := dist0[s] + 1];
    }

    method Clear()
      requires lit != dist && lit.Length == LIT_SYMBOLS && dist.Length == DIST_SYMBOLS
      modifies lit, dist
      ensures Of([])
    {
      forall s | 0 <= s < lit.Length { lit[s] := 0; }
      forall s | 0 <= s < dist.Length { dist[s] := 0; }
      SumZeros(lit[..]);
      SumZeros(dist[..]);
    }
  }

  lemma IndexFits(d: nat, n: nat)
    requires d < n
    ensures d % n == d
  {}

  /** Which of the two distance tables tdefl_record_match looks in. */
  method CountedDistSym(d: nat) returns (s: nat)
    requires d < 0x8000
    ensures s == DistSym(d)
  {
    if d < 512 {
      IndexFits(d, 512);
      s := DistSym(d % 512);
    } else {
      LargeLookUp(d);
      IndexFits(d / 256, 128);
      s := LargeDistSym(d / 256 % 128);
    }
  }
}
