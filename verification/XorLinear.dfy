/** Maps that respect an addition, iterated. */
module XorLinear {

  ghost predicate LinearAt<W>(f: W -> W, xor: (W, W) -> W, a: W, b: W) {
    f(xor(a, b)) == xor(f(a), f(b))
  }

  ghost predicate Linear<W(!new)>(f: W -> W, xor: (W, W) -> W) {
    forall a, b {:trigger LinearAt(f, xor, a, b)} :: LinearAt(f, xor, a, b)
  }

  function Twice<W>(f: W -> W): W -> W {
    c => f(f(c))
  }

  lemma TwiceIsLinear<W(!new)>(f: W -> W, xor: (W, W) -> W)
    requires Linear(f, xor)
    ensures Linear(Twice(f), xor)
  {
    forall a, b
      ensures LinearAt(Twice(f), xor, a, b)
    {
      assert LinearAt(f, xor, a, b) && LinearAt(f, xor, f(a), f(b));
    }
  }

  /** f, k times over. */
  function Steps<W>(f: W -> W, k: nat, c: W): W {
    if k == 0 then c else Steps(f, k - 1, f(c))
  }

  lemma {:induction false} StepsXor<W(!new)>(f: W -> W, xor: (W, W) -> W, k: nat, a: W, b: W)
    requires Linear(f, xor)
    ensures Steps(f, k, xor(a, b)) == xor(Steps(f, k, a), Steps(f, k, b))
    decreases k
  {
    if k > 0 {
      assert LinearAt(f, xor, a, b);
      StepsXor(f, xor, k - 1, f(a), f(b));
    }
  }

  /** The same for four terms, with the results named. */
  lemma StepsFour<W(!new)>(f: W -> W, xor: (W, W) -> W, k: nat, a: W, b: W, c: W, d: W, sa: W, sb: W, sc: W, sd: W)
    requires Linear(f, xor)
    requires Steps(f, k, a) == sa && Steps(f, k, b) == sb && Steps(f, k, c) == sc && Steps(f, k, d) == sd
    ensures Steps(f, k, xor(xor(a, b), xor(c, d))) == xor(xor(sa, sb), xor(sc, sd))
  {
    StepsXor(f, xor, k, xor(a, b), xor(c, d));
    StepsXor(f, xor, k, a, b);
    StepsXor(f, xor, k, c, d);
  }

  lemma {:induction false} StepsLast<W>(f: W -> W, k: nat, c: W)
    ensures Steps(f, k + 1, c) == f(Steps(f, k, c))
    decreases k
  {
    if k > 0 { StepsLast(f, k - 1, f(c)); }
  }

  /** Adding b after k steps is adding beforehand whatever becomes b in k steps. */
  lemma Absorb<W(!new)>(f: W -> W, xor: (W, W) -> W, k: nat, x: W, y: W, b: W)
    requires Linear(f, xor) && Steps(f, k, y) == b
    ensures f(xor(Steps(f, k, x), b)) == Steps(f, k + 1, xor(x, y))
  {
    StepsXor(f, xor, k, x, y);
    StepsLast(f, k, xor(x, y));
  }

  lemma {:induction false} StepsAdd<W>(f: W -> W, j: nat, k: nat, c: W)
    ensures Steps(f, j, Steps(f, k, c)) == Steps(f, j + k, c)
    decreases k
  {
    if k > 0 { StepsAdd(f, j, k - 1, f(c)); }
  }
}
