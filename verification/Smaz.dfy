/** Smaz (smaz.cpp): short strings as codebook entries with runs of verbatim bytes between them. */
module Smaz {
  import opened BitFields
  import opened Wrappers

  const VERBATIM_BYTE := 254
  const VERBATIM_RUN := 255
  const SLOTS := 241
  const MAX_RUN := 256

  /** One entry of a codebook slot: a string and the code that stands for it. */
  datatype Entry = Entry(text: seq<nat>, code: nat)

  ghost predicate Bytes(s: seq<nat>) {
    forall i :: 0 <= i < |s| ==> s[i] < 256
  }

  /** The two codebooks belong together: every entry's code indexes its own string. */
  ghost predicate EntryOk(e: Entry, rcb: seq<seq<nat>>) {
    |rcb| == VERBATIM_BYTE && e.code < |rcb| && rcb[e.code] == e.text && |e.text| > 0
  }

  ghost predicate Codebooks(cb: seq<seq<Entry>>, rcb: seq<seq<nat>>) {
    && |cb| == SLOTS && |rcb| == VERBATIM_BYTE
    && forall h, k :: 0 <= h < |cb| && 0 <= k < |cb[h]| ==> EntryOk(cb[h][k], rcb)
  }

  /** The books with the blank alone: code 0, in the slot that its hash gives. */
  function BlankBook(): seq<seq<Entry>> {
    seq(SLOTS, h => if h == Slot([32], 1) then [Entry([32], 0)] else [])
  }

  function BlankTexts(): seq<seq<nat>> {
    seq(VERBATIM_BYTE, c => if c == 0 then [32] else [])
  }

  /** Codebooks exist in which a string is found and decoded. */
  lemma BlankIsCodebook()
    ensures Codebooks(BlankBook(), BlankTexts()) && Offered(BlankBook(), [32], 1)
    ensures Decoded(BlankTexts(), [0]) == Some([32])
  {
    assert BlankBook()[Slot([32], 1)][0] == Entry([32], 0);
    assert Matches(Entry([32], 0), [32], 1);
    assert [0][1..] == [] && [32] + [] == [32];
  }

  /** What a compressed string stands for, if it is not cut short. */
  ghost function Decoded(rcb: seq<seq<nat>>, s: seq<nat>): Option<seq<nat>>
    requires |rcb| == VERBATIM_BYTE && Bytes(s)
  {
    if s == [] then Some([])
    else if s[0] == VERBATIM_BYTE then
      if |s| < 2 then None else Prepend([s[1]], Decoded(rcb, s[2..]))
    else if s[0] == VERBATIM_RUN then
      if |s| < 2 || |s| < 3 + s[1] then None else Prepend(s[2..3 + s[1]], Decoded(rcb, s[3 + s[1]..]))
    else Prepend(rcb[s[0]], Decoded(rcb, s[1..]))
  }

  ghost function Prepend(a: seq<nat>, b: Option<seq<nat>>): Option<seq<nat>> {
    if b.None? then None else Some(a + b.value)
  }

  /** The format in numbers: 254 before one byte as it is, 255 and the length less one before more, else a codebook index. */
  lemma Format(rcb: seq<seq<nat>>, x: nat, y: nat, z: nat)
    requires |rcb| == 254 && x < 256 && y < 256 && z < 254
    ensures Decoded(rcb, [254, x]) == Some([x]) && Decoded(rcb, [255, 1, x, y]) == Some([x, y]) && Decoded(rcb, [z]) == Some(rcb[z])
  {
    assert [254, x][2..] == [] && [x] + [] == [x];
    assert [255, 1, x, y][2..4] == [x, y] && [255, 1, x, y][4..] == [] && [x, y] + [] == [x, y];
    assert [z][1..] == [] && rcb[z] + [] == rcb[z];
  }

  // ---------- Pieces ----------

  lemma PrependTwice(a: seq<nat>, b: seq<nat>, c: Option<seq<nat>>)
    ensures Prepend(a, Prepend(b, c)) == Prepend(a + b, c)
  {
    if c.Some? { assert a + (b + c.value) == a + b + c.value; }
  }

  /** A compressed string followed by another one. */
  lemma {:induction false} DecodedAppend(rcb: seq<seq<nat>>, a: seq<nat>, b: seq<nat>)
    requires |rcb| == VERBATIM_BYTE && Bytes(a) && Bytes(b) && Decoded(rcb, a).Some?
    ensures Decoded(rcb, a + b) == Prepend(Decoded(rcb, a).value, Decoded(rcb, b))
    decreases |a|
  {
    if a == [] {
      assert a + b == b;
      if Decoded(rcb, b).Some? { assert [] + Decoded(rcb, b).value == Decoded(rcb, b).value; }
    } else {
      var n := if a[0] == VERBATIM_BYTE then 2 else if a[0] == VERBATIM_RUN then 3 + a[1] else 1;
      DecodedAppend(rcb, a[n..], b);
      assert (a + b)[n..] == a[n..] + b && (a + b)[..n] == a[..n];
      assert a[0] == VERBATIM_RUN ==> (a + b)[2..n] == a[2..n];
      var piece := if a[0] == VERBATIM_BYTE then [a[1]] else if a[0] == VERBATIM_RUN then a[2..n] else rcb[a[0]];
      PrependTwice(piece, Decoded(rcb, a[n..]).value, Decoded(rcb, b));
    }
  }

  /** How a run of verbatim bytes is written. */
  ghost function Run(verb: seq<nat>): seq<nat> {
    if verb == [] then []
    else if |verb| == 1 then [VERBATIM_BYTE, verb[0]]
    else [VERBATIM_RUN, |verb| - 1] + verb
  }

  lemma RunDecodes(rcb: seq<seq<nat>>, verb: seq<nat>)
    requires |rcb| == VERBATIM_BYTE && Bytes(verb) && |verb| <= MAX_RUN
    ensures Bytes(Run(verb)) && Decoded(rcb, Run(verb)) == Some(verb)
  {
    var s := Run(verb);
    if |verb| == 1 {
      assert s[2..] == [] && [verb[0]] + [] == verb;
    } else if |verb| > 1 {
      assert s[2..3 + s[1]] == verb && s[3 + s[1]..] == [] && verb + [] == verb;
    }
  }

  lemma CodeDecodes(rcb: seq<seq<nat>>, code: nat)
    requires |rcb| == VERBATIM_BYTE && code < VERBATIM_BYTE
    ensures Decoded(rcb, [code]) == Some(rcb[code])
  {
    assert [code][1..] == [];
    assert rcb[code] + [] == rcb[code];
  }

  /** out so far, with the verbatim bytes still held back, is the input so far. */
  ghost predicate Covers(rcb: seq<seq<nat>>, out: seq<nat>, verb: seq<nat>, input: seq<nat>) {
    |rcb| == VERBATIM_BYTE && Bytes(out) && Bytes(verb) && Decoded(rcb, out).Some? && Decoded(rcb, out).value + verb == input
  }

  lemma FlushCovers(rcb: seq<seq<nat>>, out: seq<nat>, verb: seq<nat>, input: seq<nat>)
    requires Covers(rcb, out, verb, input) && |verb| <= MAX_RUN
    ensures Covers(rcb, out + Run(verb), [], input)
  {
    RunDecodes(rcb, verb);
    DecodedAppend(rcb, out, Run(verb));
    assert input + [] == input;
  }

  lemma CodeCovers(rcb: seq<seq<nat>>, out: seq<nat>, input: seq<nat>, e: Entry)
    requires Covers(rcb, out, [], input) && EntryOk(e, rcb)
    ensures Covers(rcb, out + [e.code], [], input + e.text)
  {
    CodeDecodes(rcb, e.code);
    DecodedAppend(rcb, out, [e.code]);
    assert Decoded(rcb, out).value + [] == Decoded(rcb, out).value;
    assert input + e.text + [] == input + e.text;
  }

  // ---------- Looking up ----------

  /** A char of the source is signed. */
  function SignedChar(c: nat): int {
    if c < 128 then c else c as int - 256
  }

  function Wrap(x: int): (u: nat)
    ensures u < 0x1_0000_0000
  {
    x % 0x1_0000_0000
  }

  function XorWords(a: nat, b: nat): nat {
    var n: nat := 32;
    Xor(a, b, n)
  }

  /** The slot in which strings of length j that start here are kept. */
  function Slot(rest: seq<nat>, j: nat): (h: nat)
    requires 1 <= j <= |rest| && Bytes(rest)
    ensures h < SLOTS
  {
    var h1 := Wrap(8 * SignedChar(rest[0]));
    if j == 1 then h1 % SLOTS
    else
      var h2 := Wrap(h1 + SignedChar(rest[1]));
      if j == 2 then h2 % SLOTS
      else XorWords(h2, Wrap(SignedChar(rest[2]))) % SLOTS
  }

  lemma SlotOfThree(rest: seq<nat>, j: nat, h: nat, c: nat, x: nat)
    requires 3 <= j <= |rest| && Bytes(rest) && rest[0] < 128 && rest[1] < 128 && rest[2] < 128
    requires h == 8 * rest[0] + rest[1] && c == rest[2] && XorWords(h, c) == x
    ensures Slot(rest, j) == x % 241
  {
    WrapSmall(8 * rest[0]);
    WrapSmall(h);
    WrapSmall(c);
  }

  lemma WrapSmall(x: nat)
    requires x < 0x1_0000_0000
    ensures Wrap(x) == x
  {}

  // Four entries of the codebook and the slots they stand in: "y", "s,", "had" and "from".

  lemma SlotOfY(rest: seq<nat>)
    requires Bytes(rest) && rest != [] && rest[0] == 121
    ensures Slot(rest, 1) == 4
  {
    assert Wrap(8 * SignedChar(121)) == 968;
  }

  lemma SlotOfSComma(rest: seq<nat>)
    requires Bytes(rest) && |rest| >= 2 && rest[0] == 115 && rest[1] == 44
    ensures Slot(rest, 2) == 0
  {
    assert Wrap(8 * SignedChar(115)) == 920 && Wrap(920 + SignedChar(44)) == 964;
  }

  lemma SlotOfHad(rest: seq<nat>)
    requires Bytes(rest) && |rest| >= 3 && rest[0] == 104 && rest[1] == 97 && rest[2] == 100
    ensures Slot(rest, 3) == 1
  {
    XorOfHad();
    SlotOfThree(rest, 3, 929, 100, 965);
  }

  lemma SlotOfFrom(rest: seq<nat>)
    requires Bytes(rest) && |rest| >= 4 && rest[0] == 102 && rest[1] == 114 && rest[2] == 111 && rest[3] == 109
    ensures Slot(rest, 4) == 9
  {
    XorOfFrom();
    SlotOfThree(rest, 4, 930, 111, 973);
  }

  lemma XorOfHad()
    ensures XorWords(929, 100) == 965
  {
    XorNone(22);
    XorStep(1, 0, 23, 0);
    XorStep(3, 0, 24, 1);
    XorStep(7, 0, 25, 3);
    XorStep(14, 1, 26, 7);
    XorStep(29, 3, 27, 15);
    XorStep(58, 6, 28, 30);
    XorStep(116, 12, 29, 60);
    XorStep(232, 25, 30, 120);
    XorStep(464, 50, 31, 241);
    XorStep(929, 100, 32, 482);
  }

  lemma XorOfFrom()
    ensures XorWords(930, 111) == 973
  {
    XorNone(22);
    XorStep(1, 0, 23, 0);
    XorStep(3, 0, 24, 1);
    XorStep(7, 0, 25, 3);
    XorStep(14, 1, 26, 7);
    XorStep(29, 3, 27, 15);
    XorStep(58, 6, 28, 30);
    XorStep(116, 13, 29, 60);
    XorStep(232, 27, 30, 121);
    XorStep(465, 55, 31, 243);
    XorStep(930, 111, 32, 486);
  }

  /** A byte above 127 counts as negative. */
  lemma SlotOfHighByte(rest: seq<nat>)
    requires Bytes(rest) && rest != [] && rest[0] == 200
    ensures Slot(rest, 1) == 49
  {
    assert Wrap(8 * SignedChar(200)) == 0xFFFF_FE40;
  }

  predicate Matches(e: Entry, rest: seq<nat>, j: nat)
    requires j <= |rest|
  {
    |e.text| == j && rest[..j] == e.text
  }

  /** Some entry in the slot for length j is the next j bytes. */
  ghost predicate Offered(cb: seq<seq<Entry>>, rest: seq<nat>, j: nat)
    requires |cb| == SLOTS && Bytes(rest)
  {
    1 <= j <= |rest| && exists e :: e in cb[Slot(rest, j)] && Matches(e, rest, j)
  }

  /** The longest string of up to seven bytes that the codebook offers here, if it offers any. */
  method FindEntry(cb: seq<seq<Entry>>, rest: seq<nat>, ghost rcb: seq<seq<nat>>) returns (found: Option<Entry>)
    requires Codebooks(cb, rcb) && rest != [] && Bytes(rest)
    ensures found.Some? ==> EntryOk(found.value, rcb) && |found.value.text| <= 7 && Offered(cb, rest, |found.value.text|)
    ensures found.Some? ==> rest[..|found.value.text|] == found.value.text
    ensures forall j: nat :: j <= 7 && Offered(cb, rest, j) ==> found.Some? && j <= |found.value.text|
  {
    var j := if |rest| < 7 then |rest| else 7;
    while j > 0
      invariant 0 <= j <= |rest| && j <= 7 && forall j': nat :: j < j' <= 7 ==> !Offered(cb, rest, j')
    {
      var slot := cb[Slot(rest, j)];
      var k := 0;
      while k < |slot|
        invariant 0 <= k <= |slot| && forall k' :: 0 <= k' < k ==> !Matches(slot[k'], rest, j)
      {
        if |slot[k].text| == j && rest[..j] == slot[k].text {
          assert EntryOk(cb[Slot(rest, j)][k], rcb) && slot[k] in cb[Slot(rest, j)] && Matches(slot[k], rest, j);
          return Some(slot[k]);
        }
        k := k + 1;
      }
      j := j - 1;
    }
    found := None;
  }

  // ---------- The compressed size ----------

  /** What a run of n verbatim bytes takes. */
  function Needed(n: nat): nat {
    if n == 0 then 0 else if n == 1 then 2 else 2 + n
  }

  /** The greatest length up to j of an entry that is offered, or 0. */
  ghost function Longest(cb: seq<seq<Entry>>, rest: seq<nat>, j: nat): (k: nat)
    requires |cb| == SLOTS && Bytes(rest)
    ensures k <= j && k <= |rest|
    decreases j, rest
  {
    if j == 0 then 0 else if Offered(cb, rest, j) then j else Longest(cb, rest, j - 1)
  }

  lemma {:induction false} LongestIs(cb: seq<seq<Entry>>, rest: seq<nat>, j: nat, k: nat)
    requires |cb| == SLOTS && Bytes(rest) && k <= j && (k == 0 || Offered(cb, rest, k))
    requires forall i: nat :: k < i <= j ==> !Offered(cb, rest, i)
    ensures Longest(cb, rest, j) == k
    decreases j
  {
    if k < j { LongestIs(cb, rest, j - 1, k); }
  }

  /** What is still to be written, with n verbatim bytes held back: always the longest entry is taken, and verbatim bytes
      are written when an entry, the end or the longest run comes. */
  ghost function SizeFrom(cb: seq<seq<Entry>>, rest: seq<nat>, n: nat): nat
    requires |cb| == SLOTS && Bytes(rest)
    decreases |rest|
  {
    if rest == [] then Needed(n) else
      var j := Longest(cb, rest, 7);
      if j > 0 then Needed(n) + 1 + SizeFrom(cb, rest[j..], 0)
      else if n + 1 == MAX_RUN then Needed(MAX_RUN) + SizeFrom(cb, rest[1..], 0)
      else SizeFrom(cb, rest[1..], n + 1)
  }

  ghost function CompressedSize(cb: seq<seq<Entry>>, input: seq<nat>): nat
    requires |cb| == SLOTS && Bytes(input)
  {
    SizeFrom(cb, input, 0)
  }

  /** A byte outside the codebook takes two by itself. */
  lemma LoneByte(cb: seq<seq<Entry>>, x: nat)
    requires |cb| == SLOTS && x < 256
    ensures CompressedSize(cb, [x]) == if Offered(cb, [x], 1) then 1 else 2
  {
    var k: nat, seven: nat := if Offered(cb, [x], 1) then 1 else 0, 7;
    LongestIs(cb, [x], seven, k);
    var s := [x];
    assert s[1..] == [] && SizeFrom(cb, s[1..], 0) == 0 && SizeFrom(cb, s[1..], 1) == 2;
  }

  ghost predicate NothingOffered(cb: seq<seq<Entry>>, rest: seq<nat>)
    requires |cb| == SLOTS && Bytes(rest)
  {
    forall i :: 0 <= i < |rest| ==> Longest(cb, rest[i..], 7) == 0
  }

  /** Text of which the codebook offers nothing is cut into runs of 256 bytes, each written with two more. */
  lemma {:induction false} VerbatimSize(cb: seq<seq<Entry>>, rest: seq<nat>, n: nat)
    requires |cb| == SLOTS && Bytes(rest) && n < 256 && NothingOffered(cb, rest)
    ensures var k := n + |rest|;
            SizeFrom(cb, rest, n) == 258 * (k / 256) + (if k % 256 == 0 then 0 else if k % 256 == 1 then 2 else k % 256 + 2)
    decreases |rest|
  {
    if rest != [] {
      assert rest[0..] == rest;
      forall i | 0 <= i < |rest[1..]| ensures Longest(cb, rest[1..][i..], 7) == 0 { assert rest[1..][i..] == rest[i + 1..]; }
      VerbatimSize(cb, rest[1..], if n + 1 == MAX_RUN then 0 else n + 1);
    }
  }

  /** Two bytes for each byte of input always suffice. */
  lemma {:induction false} SizeBound(cb: seq<seq<Entry>>, rest: seq<nat>, n: nat)
    requires |cb| == SLOTS && Bytes(rest) && n < MAX_RUN
    ensures SizeFrom(cb, rest, n) <= Needed(n) + 2 * |rest|
    decreases |rest|
  {
    if rest != [] {
      var j := Longest(cb, rest, 7);
      if j > 0 { SizeBound(cb, rest[j..], 0); }
      else if n + 1 == MAX_RUN { SizeBound(cb, rest[1..], 0); }
      else { SizeBound(cb, rest[1..], n + 1); }
    }
  }

  lemma SizeAfterEntry(cb: seq<seq<Entry>>, input: seq<nat>, i: nat, j: nat, n: nat)
    requires |cb| == SLOTS && Bytes(input) && i < |input| && Longest(cb, input[i..], 7) == j > 0
    ensures i + j <= |input| && SizeFrom(cb, input[i..], n) == Needed(n) + 1 + SizeFrom(cb, input[i + j..], 0)
  {
    assert input[i..][j..] == input[i + j..];
  }

  lemma SizeAfterByte(cb: seq<seq<Entry>>, input: seq<nat>, i: nat, n: nat)
    requires |cb| == SLOTS && Bytes(input) && i < |input| && Longest(cb, input[i..], 7) == 0
    ensures SizeFrom(cb, input[i..], n)
         == if n + 1 == MAX_RUN then Needed(n + 1) + SizeFrom(cb, input[i + 1..], 0) else SizeFrom(cb, input[i + 1..], n + 1)
  {
    assert input[i..][1..] == input[i + 1..];
  }

  lemma SizeAtEnd(cb: seq<seq<Entry>>, input: seq<nat>, i: nat, n: nat)
    requires |cb| == SLOTS && Bytes(input) && i == |input|
    ensures SizeFrom(cb, input[i..], n) == Needed(n)
  {}

  // ---------- Compressing ----------

  /** The delayed flush: fills in the space left for a verbatim run. */
  method WriteRun(out: array<nat>, at: nat, verb: seq<nat>)
    requires 1 <= |verb| <= MAX_RUN && at + Needed(|verb|) <= out.Length
    modifies out
    ensures out[at..at + Needed(|verb|)] == Run(verb)
    ensures forall i :: 0 <= i < out.Length && !(at <= i < at + Needed(|verb|)) ==> out[i] == old(out[i])
  {
    if |verb| == 1 {
      out[at], out[at + 1] := VERBATIM_BYTE, verb[0];
    } else {
      out[at], out[at + 1] := VERBATIM_RUN, |verb| - 1;
      forall i | 0 <= i < |verb| { out[at + 2 + i] := verb[i]; }
      assert out[at..at + 2 + |verb|] == [VERBATIM_RUN, |verb| - 1] + verb;
    }
  }

  /** A codebook hit: space for the pending run, the code, then the run itself. False if the output is too small. */
  method EmitCode(out: array<nat>, o: nat, verb: seq<nat>, e: Entry, ghost rcb: seq<seq<nat>>, ghost done: seq<nat>) returns (ok: bool, o': nat)
    requires o <= out.Length && |verb| < MAX_RUN && EntryOk(e, rcb) && Covers(rcb, out[..o], verb, done)
    modifies out
    ensures o' == o + Needed(|verb|) + 1 && (ok <==> o' <= out.Length)
    ensures ok ==> Covers(rcb, out[..o'], [], done + e.text)
  {
    ghost var before := out[..o];
    var at := o + Needed(|verb|);
    o' := at + 1;
    if at >= out.Length { return false, o'; }
    out[at] := e.code;
    if |verb| > 0 { WriteRun(out, o, verb); }
    FlushCovers(rcb, before, verb, done);
    CodeCovers(rcb, before + Run(verb), done, e);
    CodeAfterRun(out[..], o, at, before, Run(verb), e.code);
    ok := true;
  }

  lemma CodeAfterRun(out: seq<nat>, o: nat, at: nat, before: seq<nat>, run: seq<nat>, code: nat)
    requires o <= at < |out| && out[..o] == before && out[o..at] == run && out[at] == code
    ensures out[..at + 1] == before + run + [code]
  {}

  /** A flush with nothing after it. */
  method EmitRun(out: array<nat>, o: nat, verb: seq<nat>, ghost rcb: seq<seq<nat>>, ghost done: seq<nat>) returns (ok: bool, o': nat)
    requires o <= out.Length && 1 <= |verb| <= MAX_RUN && Covers(rcb, out[..o], verb, done)
    modifies out
    ensures o' == o + Needed(|verb|) && (ok <==> o' <= out.Length)
    ensures ok ==> Covers(rcb, out[..o'], [], done)
  {
    ghost var before := out[..o];
    o' := o + Needed(|verb|);
    if o' > out.Length { return false, o'; }
    WriteRun(out, o, verb);
    FlushCovers(rcb, before, verb, done);
    assert out[..o'] == before + out[o..o'];
    ok := true;
  }

  /** A round that finds an entry. */
  method TakeEntry(cb: seq<seq<Entry>>, input: seq<nat>, out: array<nat>, i: nat, o: nat, verb: seq<nat>, e: Entry, ghost rcb: seq<seq<nat>>)
      returns (ok: bool, i': nat, o': nat)
    requires Codebooks(cb, rcb) && Bytes(input) && i < |input| && o <= out.Length && |verb| < MAX_RUN && EntryOk(e, rcb)
    requires Covers(rcb, out[..o], verb, input[..i]) && Longest(cb, input[i..], 7) == |e.text| && input[i..][..|e.text|] == e.text
    modifies out
    ensures i < i' <= |input| && (ok <==> o' <= out.Length)
    ensures o' + SizeFrom(cb, input[i'..], 0) == o + SizeFrom(cb, input[i..], |verb|)
    ensures ok ==> Covers(rcb, out[..o'], [], input[..i'])
  {
    var j := |e.text|;
    SizeAfterEntry(cb, input, i, j, |verb|);
    assert input[..i + j] == input[..i] + input[i..][..j];
    ok, o' := EmitCode(out, o, verb, e, rcb, input[..i]);
    i' := i + j;
  }

  /** A round that finds none: one more verbatim byte, and a flush at the longest run and at the end. */
  method TakeByte(cb: seq<seq<Entry>>, input: seq<nat>, out: array<nat>, i: nat, o: nat, verb: seq<nat>, ghost rcb: seq<seq<nat>>)
      returns (ok: bool, o': nat, verb': seq<nat>)
    requires Codebooks(cb, rcb) && Bytes(input) && i < |input| && o <= out.Length && |verb| < MAX_RUN
    requires Covers(rcb, out[..o], verb, input[..i]) && Longest(cb, input[i..], 7) == 0
    modifies out
    ensures |verb'| < MAX_RUN && (i + 1 == |input| ==> verb' == []) && (ok <==> o' <= out.Length)
    ensures o' + SizeFrom(cb, input[i + 1..], |verb'|) == o + SizeFrom(cb, input[i..], |verb|)
    ensures ok ==> Covers(rcb, out[..o'], verb', input[..i + 1])
  {
    OneByteMore(rcb, out[..o], verb, input, i);
    SizeAfterByte(cb, input, i, |verb|);
    ok, o', verb' := true, o, verb + [input[i]];
    if |verb'| == MAX_RUN || i + 1 == |input| {
      ok, o' := EmitRun(out, o, verb', rcb, input[..i + 1]);
      if i + 1 == |input| {
        SizeAtEnd(cb, input, i + 1, |verb'|);
        SizeAtEnd(cb, input, i + 1, 0);
      }
      verb' := [];
    }
  }

  /** One round of the loop. */
  method Round(cb: seq<seq<Entry>>, input: seq<nat>, out: array<nat>, i: nat, o: nat, verb: seq<nat>, ghost rcb: seq<seq<nat>>)
      returns (ok: bool, i': nat, o': nat, verb': seq<nat>)
    requires Codebooks(cb, rcb) && Bytes(input) && i < |input| && o <= out.Length && |verb| < MAX_RUN
    requires Covers(rcb, out[..o], verb, input[..i])
    modifies out
    ensures i < i' <= |input| && |verb'| < MAX_RUN && (i' == |input| ==> verb' == [])
    ensures ok <==> o' <= out.Length
    ensures o' + SizeFrom(cb, input[i'..], |verb'|) == o + SizeFrom(cb, input[i..], |verb|)
    ensures ok ==> Covers(rcb, out[..o'], verb', input[..i'])
  {
    var found := FindEntry(cb, input[i..], rcb);
    ghost var seven: nat := 7;
    LongestIs(cb, input[i..], seven, if found.Some? then |found.value.text| else 0);
    if found.Some? {
      verb' := [];
      ok, i', o' := TakeEntry(cb, input, out, i, o, verb, found.value, rcb);
    } else {
      i' := i + 1;
      ok, o', verb' := TakeByte(cb, input, out, i, o, verb, rcb);
    }
  }

  /** Main result: the length reported is the compressed size if the output buffer holds that many, and the bytes then
      decompress to the input; otherwise it is one more than the buffer. Twice the input always suffices. */
  method Compress(cb: seq<seq<Entry>>, input: seq<nat>, out: array<nat>, ghost rcb: seq<seq<nat>>) returns (result: nat)
    requires Codebooks(cb, rcb) && Bytes(input)
    modifies out
    ensures result <= out.Length ==> Bytes(out[..result]) && Decoded(rcb, out[..result]) == Some(input)
    ensures result == if CompressedSize(cb, input) <= out.Length then CompressedSize(cb, input) else out.Length + 1
    ensures CompressedSize(cb, input) <= 2 * |input|
  {
    var i: nat, o: nat := 0, 0;
    var verb: seq<nat> := [];
    NothingCovered(rcb, out[..o], input);
    SizeBound(cb, input, 0);
    assert input[0..] == input;
    while i < |input|
      invariant 0 <= i <= |input| && o <= out.Length && |verb| < MAX_RUN && (i == |input| ==> verb == [])
      invariant o + SizeFrom(cb, input[i..], |verb|) == CompressedSize(cb, input)
      invariant Covers(rcb, out[..o], verb, input[..i])
    {
      var ok;
      ok, i, o, verb := Round(cb, input, out, i, o, verb, rcb);
      if !ok {
        return out.Length + 1;
      }
    }
    AllCovered(rcb, out[..o], input, i);
    result := o;
  }

  lemma NothingCovered(rcb: seq<seq<nat>>, out: seq<nat>, input: seq<nat>)
    requires |rcb| == VERBATIM_BYTE && out == []
    ensures Covers(rcb, out, [], input[..0])
  {}

  lemma AllCovered(rcb: seq<seq<nat>>, out: seq<nat>, input: seq<nat>, i: nat)
    requires i == |input| && Covers(rcb, out, [], input[..i])
    ensures Decoded(rcb, out) == Some(input)
  {
    assert input[..i] == input;
    assert Decoded(rcb, out).value + [] == Decoded(rcb, out).value;
  }

  lemma OneByteMore(rcb: seq<seq<nat>>, out: seq<nat>, verb: seq<nat>, input: seq<nat>, i: nat)
    requires i < |input| && Bytes(input) && Covers(rcb, out, verb, input[..i])
    ensures Covers(rcb, out, verb + [input[i]], input[..i + 1])
  {
    assert input[..i + 1] == input[..i] + [input[i]];
    assert Decoded(rcb, out).value + (verb + [input[i]]) == Decoded(rcb, out).value + verb + [input[i]];
  }

  // ---------- Decompressing ----------

  /** smaz_decompress, on a string that is not cut short. */
  method Decompress(rcb: seq<seq<nat>>, s: seq<nat>) returns (out: seq<nat>)
    requires |rcb| == VERBATIM_BYTE && Bytes(s) && Decoded(rcb, s).Some?
    ensures Decoded(rcb, s) == Some(out)
  {
    out := [];
    var c: nat := 0;
    WholeString(s, Decoded(rcb, s).value);
    while c < |s|
      invariant c <= |s| && Decoded(rcb, s[c..]).Some?
      invariant Decoded(rcb, s).value == out + Decoded(rcb, s[c..]).value
      decreases |s| - c
    {
      var piece: seq<nat>, n: nat;
      if s[c] == VERBATIM_BYTE {
        piece, n := [s[c + 1]], 2;
      } else if s[c] == VERBATIM_RUN {
        var len := s[c + 1] + 1;
        piece, n := s[c + 2..c + 2 + len], 2 + len;
      } else {
        piece, n := rcb[s[c]], 1;
      }
      Suffix(s, c, n);
      AppendPiece(out, piece, Decoded(rcb, s[c + n..]).value);
      out, c := out + piece, c + n;
    }
    assert out + [] == out;
  }

  lemma WholeString(s: seq<nat>, v: seq<nat>)
    ensures s[0..] == s && [] + v == v
  {}

  lemma Suffix(s: seq<nat>, c: nat, n: nat)
    requires c + n <= |s| && n > 0
    ensures s[c..][n..] == s[c + n..] && s[c..][0] == s[c] && (n > 1 ==> s[c..][1] == s[c + 1])
    ensures n >= 2 ==> s[c..][2..n] == s[c + 2..c + n]
  {}

  lemma AppendPiece(out: seq<nat>, piece: seq<nat>, rest: seq<nat>)
    ensures out + (piece + rest) == out + piece + rest
  {}

  /** smaz_compress on strings: refused exactly when the result would be longer than the input. */
  method CompressString(cb: seq<seq<Entry>>, rcb: seq<seq<nat>>, input: seq<nat>) returns (result: Option<seq<nat>>)
    requires Codebooks(cb, rcb) && Bytes(input)
    ensures result.None? <==> CompressedSize(cb, input) > |input|
    ensures result.Some? ==> |result.value| == CompressedSize(cb, input)
    ensures result.Some? ==> Bytes(result.value) && Decoded(rcb, result.value) == Some(input)
  {
    var out := new nat[|input|](_ => 0);
    var n := Compress(cb, input, out, rcb);
    if n > out.Length { return None; }
    result := Some(out[..n]);
  }

  /** Round trip on strings. */
  method CompressThenDecompress(cb: seq<seq<Entry>>, rcb: seq<seq<nat>>, input: seq<nat>) returns (back: Option<seq<nat>>)
    requires Codebooks(cb, rcb) && Bytes(input)
    ensures back == if CompressedSize(cb, input) > |input| then None else Some(input)
  {
    var compressed := CompressString(cb, rcb, input);
    if compressed.None? { return None; }
    var out := Decompress(rcb, compressed.value);
    back := Some(out);
  }
}
