/** LZ77 operations and what they stand for. */
module Lz {

  const MIN_MATCH_LEN := 3
  const MAX_MATCH_LEN := 258
  const DICT_SIZE := 32768

  datatype Op = Literal(byte: nat) | Match(len: nat, dist: nat)

  /** Well-formed after n bytes of output. */
  ghost predicate OpOk(op: Op, n: nat) {
    match op
    case Literal(byte) => byte < 256
    case Match(len, dist) => MIN_MATCH_LEN <= len <= MAX_MATCH_LEN && 1 <= dist <= DICT_SIZE && dist <= n
  }

  /** Copies len bytes from dist back, one at a time, so that the copy may overlap itself. */
  ghost function Copied(out: seq<nat>, len: nat, dist: nat): (r: seq<nat>)
    requires 1 <= dist <= |out|
    ensures |r| == |out| + len && r[..|out|] == out
    decreases len
  {
    if len == 0 then out else
      var before := Copied(out, len - 1, dist);
      before + [before[|before| - dist]]
  }

  /** The output after one more operation; an operation that makes no sense is ignored. */
  ghost function Applied(out: seq<nat>, op: Op): seq<nat> {
    match op
    case Literal(byte) => out + [byte]
    case Match(len, dist) => if 1 <= dist <= |out| then Copied(out, len, dist) else out
  }

  /** The bytes that the operations produce. */
  ghost function Expand(ops: seq<Op>): seq<nat>
    decreases |ops|
  {
    if ops == [] then [] else Applied(Expand(ops[..|ops| - 1]), ops[|ops| - 1])
  }

  /** The operations make sense one after the other. */
  ghost predicate OpsOk(ops: seq<Op>)
    decreases |ops|
  {
    ops == [] || (OpsOk(ops[..|ops| - 1]) && OpOk(ops[|ops| - 1], |Expand(ops[..|ops| - 1])|))
  }

  lemma ExpandAppend(ops: seq<Op>, op: Op)
    ensures Expand(ops + [op]) == Applied(Expand(ops), op)
    ensures OpsOk(ops + [op]) <==> OpsOk(ops) && OpOk(op, |Expand(ops)|)
  {
    assert (ops + [op])[..|ops|] == ops;
  }

  /** The byte at p repeats the one dist before. */
  ghost predicate Repeats(input: seq<nat>, p: nat, dist: nat) {
    1 <= dist <= p < |input| && input[p] == input[p - dist]
  }

  /** In the input, the len bytes at pos repeat those dist before. */
  ghost predicate IsMatch(input: seq<nat>, pos: nat, len: nat, dist: nat) {
    && 1 <= dist <= pos && pos + len <= |input|
    && forall p :: pos <= p < pos + len ==> Repeats(input, p, dist)
  }

  /** Copying a true match reproduces the input. */
  lemma {:induction false} CopyMatch(input: seq<nat>, pos: nat, len: nat, dist: nat)
    requires IsMatch(input, pos, len, dist)
    ensures Copied(input[..pos], len, dist) == input[..pos + len]
    decreases len
  {
    if len > 0 {
      CopyMatch(input, pos, len - 1, dist);
      var p := pos + len - 1;
      assert Repeats(input, p, dist);
      assert input[..p + 1] == input[..p] + [input[p]];
    }
  }
}
