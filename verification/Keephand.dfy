/** The keephand contract (keephand.cpp, keephand.hpp): accounts and their funds, in exact arithmetic. */
module Keephand {
  import opened Wrappers

  type Name = nat

  const FEE_RATE: real := 0.01
  const FEE_MIN: real := 0.01

  /** The tables userinfo and userasset, both by account name. */
  datatype State = State(users: map<Name, string>, assets: map<Name, real>)

  datatype Action =
    | CreateAccount(name: Name, pubkey: string)
    | DeleteAccount(name: Name)
    | ModAsset(name: Name, funds: real, saving: bool)
    | Transfer(from: Name, to: Name, funds: real)

  // ---------- What an action does ----------

  /** funds_option: adds to or takes from one row; refuses a missing row and a negative result. */
  function FundsOption(assets: map<Name, real>, name: Name, funds: real, add: bool): Option<map<Name, real>> {
    if name !in assets then None
    else
      var r := if add then assets[name] + funds else assets[name] - funds;
      if r >= 0.0 then Some(assets[name := r]) else None
  }

  function Fee(funds: real): real {
    if funds * FEE_RATE < FEE_MIN then FEE_MIN else funds * FEE_RATE
  }

  function Transferred(assets: map<Name, real>, self: Name, from: Name, to: Name, funds: real): Option<map<Name, real>> {
    if from !in assets || assets[from] - Fee(funds) - funds < 0.0 then None
    else
      var a := FundsOption(assets, from, Fee(funds) + funds, false);
      if a.None? then None
      else
        var b := FundsOption(a.value, to, funds, true);
        if b.None? then None else FundsOption(b.value, self, Fee(funds), true)
  }

  /** A withdrawal overwrites the owner's row with the fee, and then the account's own. */
  function Changed(assets: map<Name, real>, self: Name, name: Name, funds: real, saving: bool): Option<map<Name, real>> {
    if name !in assets then None
    else if saving then Some(assets[name := assets[name] + funds])
    else
      var left := assets[name] - funds - funds * FEE_RATE;
      if left < 0.0 || self !in assets then None
      else Some(assets[self := funds * FEE_RATE][name := left])
  }

  function WithAssets(st: State, r: Option<map<Name, real>>): Option<State> {
    if r.None? then None else Some(st.(assets := r.value))
  }

  /** The new state, or None when the action aborts. */
  function Step(st: State, self: Name, auth: set<Name>, a: Action): Option<State> {
    match a
    case CreateAccount(name, pubkey) =>
      if name > 0 && pubkey != "" && self in auth && name !in st.users && name !in st.assets
      then Some(State(st.users[name := pubkey], st.assets[name := 0.0]))
      else None
    case DeleteAccount(name) =>
      if name > 0 && self in auth && name in st.users
      then Some(State(st.users - {name}, st.assets - {name}))
      else None
    case ModAsset(name, funds, saving) =>
      if name > 0 && funds > 0.0 && name in st.users && name in auth
      then WithAssets(st, Changed(st.assets, self, name, funds, saving))
      else None
    case Transfer(from, to, funds) =>
      if from > 0 && to > 0 && funds > 0.0 && from in auth && to in st.users
      then WithAssets(st, Transferred(st.assets, self, from, to, funds))
      else None
  }

  // ---------- Sums over a table ----------

  ghost function Sum(m: map<Name, real>): real
    decreases |m|
  {
    if m.Keys == {} then 0.0 else
      var k := Pick(m);
      KeysWithout(m, k);
      m[k] + Sum(m - {k})
  }

  ghost function Pick(m: map<Name, real>): (k: Name)
    requires m.Keys != {}
    ensures k in m
  {
    var k :| k in m;
    k
  }

  lemma KeysWithout(m: map<Name, real>, k: Name)
    requires k in m
    ensures (m - {k}).Keys == m.Keys - {k} && |m - {k}| < |m|
  {
    assert (m - {k}).Keys == m.Keys - {k};
    assert |(m - {k}).Keys| == |m.Keys| - 1;
  }

  lemma WithoutBoth(m: map<Name, real>, j: Name, k: Name)
    requires j in m && k in m && j != k
    ensures k in m - {j} && j in m - {k} && (m - {j})[k] == m[k] && (m - {k})[j] == m[j]
    ensures m - {j} - {k} == m - {k} - {j}
  {}

  /** The sum does not depend on the order in which rows are taken. */
  lemma {:induction false} SumRemove(m: map<Name, real>, k: Name)
    requires k in m
    ensures Sum(m) == m[k] + Sum(m - {k})
    decreases |m|
  {
    var j := Pick(m);
    if j != k {
      var a, b := m - {j}, m - {k};
      KeysWithout(m, j);
      KeysWithout(m, k);
      WithoutBoth(m, j, k);
      SumRemove(a, k);
      SumRemove(b, j);
    }
  }

  lemma SumUpdate(m: map<Name, real>, k: Name, v: real)
    ensures Sum(m[k := v]) == Sum(m) - (if k in m then m[k] else 0.0) + v
  {
    SumRemove(m[k := v], k);
    assert m[k := v] - {k} == m - {k};
    if k in m { SumRemove(m, k); } else { assert m - {k} == m; }
  }

  // ---------- What every run keeps ----------

  ghost predicate Sound(st: State) {
    st.users.Keys == st.assets.Keys && forall n :: n in st.assets ==> n > 0 && st.assets[n] >= 0.0
  }

  lemma StepSound(st: State, self: Name, auth: set<Name>, a: Action)
    requires Sound(st) && Step(st, self, auth, a).Some?
    ensures Sound(Step(st, self, auth, a).value)
  {}

  datatype Call = Call(auth: set<Name>, action: Action)

  /** The state after a run from empty tables; an aborted action changes nothing. */
  ghost function Run(self: Name, calls: seq<Call>): State {
    if calls == [] then State(map[], map[]) else
      var st, c := Run(self, calls[..|calls| - 1]), calls[|calls| - 1];
      var r := Step(st, self, c.auth, c.action);
      if r.Some? then r.value else st
  }

  /** In every reachable state the two tables have the same accounts and no funds are negative. */
  lemma {:induction false} EveryRunSound(self: Name, calls: seq<Call>)
    ensures Sound(Run(self, calls))
    decreases |calls|
  {
    if calls != [] {
      var st, c := Run(self, calls[..|calls| - 1]), calls[|calls| - 1];
      EveryRunSound(self, calls[..|calls| - 1]);
      if Step(st, self, c.auth, c.action).Some? { StepSound(st, self, c.auth, c.action); }
    }
  }

  // ---------- Transfers ----------

  function If(b: bool, x: real): real {
    if b then x else 0.0
  }

  /** Every balance after a transfer, however the sender, the receiver and the contract coincide. */
  lemma TransferBalances(assets: map<Name, real>, self: Name, from: Name, to: Name, funds: real)
    requires Transferred(assets, self, from, to, funds).Some?
    ensures var t := Transferred(assets, self, from, to, funds).value;
            t.Keys == assets.Keys
            && forall x :: x in assets ==>
              t[x] == assets[x] - If(x == from, funds + Fee(funds)) + If(x == to, funds) + If(x == self, Fee(funds))
  {}

  /** A transfer moves funds and creates or destroys none. */
  lemma TransferConserves(assets: map<Name, real>, self: Name, from: Name, to: Name, funds: real)
    requires Transferred(assets, self, from, to, funds).Some?
    ensures Sum(Transferred(assets, self, from, to, funds).value) == Sum(assets)
  {
    var a := FundsOption(assets, from, Fee(funds) + funds, false).value;
    var b := FundsOption(a, to, funds, true).value;
    SumUpdate(assets, from, a[from]);
    SumUpdate(a, to, b[to]);
    SumUpdate(b, self, b[self] + Fee(funds));
  }

  /**
   * In a reachable state a transfer goes through exactly when all three accounts exist and the sender, who must have
   * signed it, can pay the funds, a hundredth of them, and no less than 0.01 over them.
   */
  lemma TransferAllowed(self: Name, calls: seq<Call>, auth: set<Name>, from: Name, to: Name, funds: real)
    ensures var st := Run(self, calls);
            Step(st, self, auth, Transfer(from, to, funds)).Some?
            <==> (funds > 0.0 && from in auth && to in st.users && self in st.users
                  && from in st.assets && st.assets[from] >= funds + 0.01 && st.assets[from] >= funds * 1.01)
  {
    EveryRunSound(self, calls);
  }

  /**
   * The fee in numbers: it is a hundredth of the funds or 0.01, whichever is more. The sender pays it with the funds,
   * the owner of the contract gets it, the receiver gets the funds, and no other row and no account changes.
   */
  lemma TransferInNumbers(st: State, self: Name, auth: set<Name>, from: Name, to: Name, funds: real)
    requires Step(st, self, auth, Transfer(from, to, funds)).Some?
    requires from != to && from != self && to != self
    ensures var t := Step(st, self, auth, Transfer(from, to, funds)).value;
            from in st.assets && to in st.assets && self in st.assets && t.assets.Keys == st.assets.Keys
            && (var fee := t.assets[self] - st.assets[self];
                fee >= 0.01 && fee >= funds / 100.0 && (fee == 0.01 || fee == funds / 100.0)
                && t.assets[from] == st.assets[from] - funds - fee && t.assets[to] == st.assets[to] + funds)
    ensures var t := Step(st, self, auth, Transfer(from, to, funds)).value;
            t.users == st.users && forall x :: x in st.assets && x !in {from, to, self} ==> t.assets[x] == st.assets[x]
  {
    TransferBalances(st.assets, self, from, to, funds);
  }

  /** Nobody but the sender has less after a transfer, and the sender has unless all three accounts are one. */
  lemma OnlySenderLoses(st: State, self: Name, auth: set<Name>, from: Name, to: Name, funds: real, x: Name)
    requires Step(st, self, auth, Transfer(from, to, funds)).Some? && x in st.assets
    ensures var t := Step(st, self, auth, Transfer(from, to, funds)).value.assets;
            x in t && (t[x] < st.assets[x] <==> x == from && (to != from || self != from))
  {
    TransferBalances(st.assets, self, from, to, funds);
  }

  // ---------- Opening and closing accounts ----------

  /** The contract's owner opens an account that does not exist; its balance is zero and the total stays. */
  lemma CreateOpens(self: Name, calls: seq<Call>, auth: set<Name>, name: Name, pubkey: string)
    ensures var st, r := Run(self, calls), Step(Run(self, calls), self, auth, CreateAccount(name, pubkey));
            (r.Some? <==> name > 0 && |pubkey| > 0 && self in auth && name !in st.users)
            && (r.Some? ==> name !in st.assets && r.value == State(st.users[name := pubkey], st.assets[name := 0.0])
                            && Sum(r.value.assets) == Sum(st.assets))
  {
    EveryRunSound(self, calls);
    SumUpdate(Run(self, calls).assets, name, 0.0);
  }

  /** The contract's owner closes any account; both of its rows go, and with them its balance. */
  lemma DeleteCloses(self: Name, calls: seq<Call>, auth: set<Name>, name: Name)
    ensures var st, r := Run(self, calls), Step(Run(self, calls), self, auth, DeleteAccount(name));
            (r.Some? <==> self in auth && name in st.users)
            && (r.Some? ==> name in st.assets && r.value == State(st.users - {name}, st.assets - {name})
                            && Sum(r.value.assets) == Sum(st.assets) - st.assets[name])
  {
    EveryRunSound(self, calls);
    if name in Run(self, calls).assets { SumRemove(Run(self, calls).assets, name); }
  }

  // ---------- Deposits and withdrawals ----------

  /** In a reachable state the account alone can save; its own row rises by the amount, and nothing else changes. */
  lemma SavingAllowed(self: Name, calls: seq<Call>, auth: set<Name>, name: Name, funds: real)
    ensures var st, r := Run(self, calls), Step(Run(self, calls), self, auth, ModAsset(name, funds, true));
            (r.Some? <==> funds > 0.0 && name in auth && name in st.users)
            && (r.Some? ==> name in st.assets && r.value == st.(assets := st.assets[name := st.assets[name] + funds]))
  {
    EveryRunSound(self, calls);
  }

  /**
   * And the account alone can withdraw, if it has the amount and a hundredth more. Both leave its row; the owner's row,
   * when it is another, is then that hundredth.
   */
  lemma WithdrawalAllowed(self: Name, calls: seq<Call>, auth: set<Name>, name: Name, funds: real)
    ensures var st, r := Run(self, calls), Step(Run(self, calls), self, auth, ModAsset(name, funds, false));
            r.Some? <==> funds > 0.0 && name in auth && name in st.users && self in st.users
                         && name in st.assets && st.assets[name] >= funds * 1.01
    ensures var st, r := Run(self, calls), Step(Run(self, calls), self, auth, ModAsset(name, funds, false));
            r.Some? ==>
              r.value.users == st.users && r.value.assets.Keys == st.assets.Keys && name in st.assets
              && r.value.assets[name] == st.assets[name] - funds * 1.01
              && forall x :: x in st.assets && x != name ==>
                   r.value.assets[x] == if x == self then funds / 100.0 else st.assets[x]
  {
    EveryRunSound(self, calls);
  }

  lemma SavingAdds(assets: map<Name, real>, self: Name, name: Name, funds: real)
    requires Changed(assets, self, name, funds, true).Some?
    ensures Sum(Changed(assets, self, name, funds, true).value) == Sum(assets) + funds
  {
    SumUpdate(assets, name, assets[name] + funds);
  }

  /**
   * A withdrawal should lower the total by what is paid out, the fee passing to the contract's own row. That row is
   * replaced, not increased: the total is right exactly when it was empty and is not itself the account.
   */
  lemma WithdrawalTotal(assets: map<Name, real>, self: Name, name: Name, funds: real)
    requires funds > 0.0 && Changed(assets, self, name, funds, false).Some?
    ensures var t := Changed(assets, self, name, funds, false).value;
            (Sum(t) == Sum(assets) - funds <==> name != self && assets[self] == 0.0)
            && Sum(t) == Sum(assets) - funds - (if name == self then funds * FEE_RATE else assets[self])
  {
    var a := assets[self := funds * FEE_RATE];
    SumUpdate(assets, self, funds * FEE_RATE);
    SumUpdate(a, name, assets[name] - funds - funds * FEE_RATE);
  }

  /** So it is in every reachable state: a withdrawal goes wrong unless the owner's row is empty and another's. */
  lemma WithdrawalRightIff(self: Name, calls: seq<Call>, auth: set<Name>, name: Name, funds: real)
    requires Step(Run(self, calls), self, auth, ModAsset(name, funds, false)).Some?
    ensures var st := Run(self, calls);
            var t := Step(st, self, auth, ModAsset(name, funds, false)).value;
            self in st.assets && (Sum(t.assets) == Sum(st.assets) - funds <==> name != self && st.assets[self] == 0.0)
  {
    WithdrawalTotal(Run(self, calls).assets, self, name, funds);
  }

  lemma RunNext(self: Name, calls: seq<Call>, c: Call)
    ensures var r := Step(Run(self, calls), self, c.auth, c.action);
            Run(self, calls + [c]) == if r.Some? then r.value else Run(self, calls)
  {
    assert (calls + [c])[..|calls|] == calls;
  }

  /** The owner is account 1; account 2 saves 100 and withdraws 10 twice. */
  function TwoWithdrawals(): seq<Call> {
    [Call({1}, CreateAccount(1, "owner"))] + [Call({1}, CreateAccount(2, "saver"))] + [Call({2}, ModAsset(2, 100.0, true))]
    + [Call({2}, ModAsset(2, 10.0, false))] + [Call({2}, ModAsset(2, 10.0, false))]
  }

  /** The first of the two fees is gone: 79.9 is left of the 80 that should be. */
  lemma WithdrawalDestroysFunds()
    ensures Run(1, TwoWithdrawals()).assets == map[1 := 0.1, 2 := 79.8]
    ensures Sum(Run(1, TwoWithdrawals()).assets) == 79.9 < 100.0 - 10.0 - 10.0
  {
    var a := [Call({1}, CreateAccount(1, "owner"))];
    var b := a + [Call({1}, CreateAccount(2, "saver"))];
    var c := b + [Call({2}, ModAsset(2, 100.0, true))];
    var d := c + [Call({2}, ModAsset(2, 10.0, false))];
    assert [] + a == a;
    RunNext(1, [], Call({1}, CreateAccount(1, "owner")));
    assert Run(1, a) == State(map[1 := "owner"], map[1 := 0.0]);
    RunNext(1, a, Call({1}, CreateAccount(2, "saver")));
    assert Run(1, b).assets == map[1 := 0.0, 2 := 0.0];
    RunNext(1, b, Call({2}, ModAsset(2, 100.0, true)));
    assert Run(1, c).assets == map[1 := 0.0, 2 := 100.0];
    RunNext(1, c, Call({2}, ModAsset(2, 10.0, false)));
    assert Run(1, d).assets == map[1 := 0.1, 2 := 89.9];
    RunNext(1, d, Call({2}, ModAsset(2, 10.0, false)));
    var m: map<Name, real> := map[];
    SumUpdate(m, 1, 0.1);
    SumUpdate(map[1 := 0.1], 2, 79.8);
    assert m[1 := 0.1] == map[1 := 0.1] && map[1 := 0.1][2 := 79.8] == map[1 := 0.1, 2 := 79.8];
  }

  // ---------- The contract ----------

  class KeephandContract {
    const self: Name
    var users: map<Name, string>
    var assets: map<Name, real>

    ghost function Tables(): State
      reads this
    {
      State(users, assets)
    }

    constructor (owner: Name)
      ensures self == owner && Tables() == Run(owner, [])
    {
      self, users, assets := owner, map[], map[];
    }

    method Createacnt(auth: set<Name>, name: Name, pubkey: string) returns (ok: bool)
      modifies this
      ensures var r := Step(old(Tables()), self, auth, CreateAccount(name, pubkey));
              ok == r.Some? && Tables() == if ok then r.value else old(Tables())
    {
      if !(name > 0) || !(|pubkey| > 0) || self !in auth || name in users || name in assets { return false; }
      users := users[name := pubkey];
      assets := assets[name := 0.0];
      return true;
    }

    method Deleteacnt(auth: set<Name>, name: Name) returns (ok: bool)
      modifies this
      ensures var r := Step(old(Tables()), self, auth, DeleteAccount(name));
              ok == r.Some? && Tables() == if ok then r.value else old(Tables())
    {
      if !(name > 0) || self !in auth || name !in users { return false; }
      users := users - {name};
      if name in assets {
        assets := assets - {name};
      } else {
        assert assets - {name} == assets;
      }
      return true;
    }

    method Modasset(auth: set<Name>, name: Name, funds: real, bsaving: bool) returns (ok: bool)
      modifies this
      ensures var r := Step(old(Tables()), self, auth, ModAsset(name, funds, bsaving));
              ok == r.Some? && Tables() == if ok then r.value else old(Tables())
    {
      if !(name > 0) || !(funds > 0.0) || name !in users || name !in auth || name !in assets { return false; }
      var opFunds := 0.0;
      if bsaving {
        opFunds := assets[name] + funds;
      } else {
        opFunds := assets[name] - funds - funds * FEE_RATE;
        if !(opFunds >= 0.0) || self !in assets { return false; }
        assets := assets[self := funds * FEE_RATE];
      }
      assets := assets[name := opFunds];
      return true;
    }

    /** funds_option, with the row written by modify_asset. */
    method ApplyFunds(name: Name, funds: real, opt: bool) returns (ok: bool)
      modifies `assets
      ensures var r := FundsOption(old(assets), name, funds, opt);
              ok == r.Some? && assets == if ok then r.value else old(assets)
    {
      if name !in assets { return false; }
      var userAsset := 0.0;
      if opt {
        userAsset := assets[name] + funds;
      } else {
        userAsset := assets[name] - funds;
      }
      if !(userAsset >= 0.0) { return false; }
      assets := assets[name := userAsset];
      return true;
    }

    /** An abort at any point takes back what was written before it. */
    method TransferFunds(auth: set<Name>, from: Name, to: Name, funds: real) returns (ok: bool)
      modifies `assets
      ensures var r := Step(old(Tables()), self, auth, Transfer(from, to, funds));
              ok == r.Some? && Tables() == if ok then r.value else old(Tables())
    {
      if !(from > 0) || !(to > 0) || !(funds > 0.0) || from !in auth || to !in users || from !in assets { return false; }
      var before := assets;
      var fee := funds * FEE_RATE;
      if fee < FEE_MIN {
        fee := FEE_MIN;
      }
      var assetSender := assets[from] - fee - funds;
      if !(assetSender >= 0.0) { return false; }
      ok := ApplyFunds(from, fee + funds, false);
      if ok { ok := ApplyFunds(to, funds, true); }
      if ok { ok := ApplyFunds(self, fee, true); }
      if !ok { assets := before; }
    }
  }
}
