/** The award contract (award.cpp, award.hpp): accounts and their deposits in two tables that share a lossy key. */
module Award {
  import opened Names
  import opened Wrappers

  type Name = nat

  datatype Deposit = Deposit(nodepubkey: string, score: nat, cpu: nat, disk: nat, net: nat)

  /** The node table by name, the deposit table by string_to_name of its row's public key. */
  datatype State = State(nodes: map<Name, string>, deposits: map<nat, Deposit>)

  datatype Action =
    | Hello(user: Name)
    | CreateAccount(name: Name, pubkey: string)
    | DeleteAccount(name: Name, pubkey: string)
    | ModDeposit(pubkey: string, score: nat, cpu: nat, disk: nat, net: nat)
    | Issue

  // ---------- What an action does ----------

  /** The row that the secondary index finds: of those with the key, the one with the least primary key. */
  ghost predicate IsFirst(nodes: map<Name, string>, key: nat, n: Name) {
    n in nodes && Key(nodes[n]) == key && forall m :: m in nodes && Key(nodes[m]) == key ==> n <= m
  }

  ghost function Find(nodes: map<Name, string>, key: nat): (r: Option<Name>)
    ensures r.Some? ==> IsFirst(nodes, key, r.value)
    ensures r.None? ==> forall n :: n in nodes ==> Key(nodes[n]) != key
  {
    if exists n :: IsFirst(nodes, key, n) then
      var n :| IsFirst(nodes, key, n);
      Some(n)
    else
      NoneHasKey(nodes, key);
      None
  }

  lemma NoneHasKey(nodes: map<Name, string>, key: nat)
    requires !exists n :: IsFirst(nodes, key, n)
    ensures forall n :: n in nodes ==> Key(nodes[n]) != key
  {
    if n :| n in nodes && Key(nodes[n]) == key {
      Descend(nodes, key, n);
    }
  }

  lemma {:induction false} Descend(nodes: map<Name, string>, key: nat, n: Name)
    requires n in nodes && Key(nodes[n]) == key
    ensures exists m :: IsFirst(nodes, key, m)
    decreases n
  {
    if !IsFirst(nodes, key, n) {
      var m :| m in nodes && Key(nodes[m]) == key && m < n;
      Descend(nodes, key, m);
    }
  }

  /** The new state, or None when an assertion, a missing authority or a taken primary key aborts the action. */
  ghost function Step(st: State, self: Name, auth: set<Name>, a: Action): Option<State> {
    match a
    case Hello(_) => Some(st)
    case Issue => Some(st)
    case CreateAccount(name, pubkey) =>
      if name > 0 && pubkey != "" && self in auth && name !in st.nodes && Key(pubkey) !in st.deposits
      then Some(State(st.nodes[name := pubkey], st.deposits[Key(pubkey) := Deposit(pubkey, 0, 0, 0, 0)]))
      else None
    case DeleteAccount(name, pubkey) =>
      if name > 0 && pubkey != "" && self in auth && name in st.nodes && st.nodes[name] == pubkey
      then Some(State(st.nodes - {name}, st.deposits - {Key(pubkey)}))
      else None
    case ModDeposit(pubkey, score, cpu, disk, net) =>
      var key := Key(pubkey);
      var n := Find(st.nodes, key);
      if pubkey == "" || n.None? || n.value !in auth then None
      else if key !in st.deposits then Some(st)
      else Some(st.(deposits := st.deposits[key := Deposit(st.deposits[key].nodepubkey, score, cpu, disk, net)]))
  }

  // ---------- What every run keeps ----------

  /** No two accounts share a key. */
  ghost predicate KeysDistinct(nodes: map<Name, string>) {
    forall m, n :: m in nodes && n in nodes && Key(nodes[m]) == Key(nodes[n]) ==> m == n
  }

  ghost predicate HasDeposit(st: State, n: Name)
    requires n in st.nodes
  {
    Key(st.nodes[n]) in st.deposits && st.deposits[Key(st.nodes[n])].nodepubkey == st.nodes[n]
  }

  ghost predicate HasAccount(st: State, key: nat) {
    exists n :: n in st.nodes && Key(st.nodes[n]) == key
  }

  /** The key is a bijection between accounts and deposits, and each deposit holds its account's public key. */
  ghost predicate Paired(st: State) {
    KeysDistinct(st.nodes)
    && (forall n {:trigger HasDeposit(st, n)} :: n in st.nodes ==> n > 0 && st.nodes[n] != "" && HasDeposit(st, n))
    && (forall key {:trigger HasAccount(st, key)} :: key in st.deposits ==> HasAccount(st, key))
  }

  lemma CreateKeeps(st: State, self: Name, auth: set<Name>, name: Name, pubkey: string)
    requires Paired(st) && Step(st, self, auth, CreateAccount(name, pubkey)).Some?
    ensures Paired(Step(st, self, auth, CreateAccount(name, pubkey)).value)
  {
    var t := Step(st, self, auth, CreateAccount(name, pubkey)).value;
    forall n | n in st.nodes ensures Key(st.nodes[n]) != Key(pubkey) { assert HasDeposit(st, n); }
    forall n | n in t.nodes ensures n > 0 && t.nodes[n] != "" && HasDeposit(t, n) {
      if n != name { assert HasDeposit(st, n); }
    }
    forall key | key in t.deposits ensures HasAccount(t, key) {
      if key == Key(pubkey) {
        assert Key(t.nodes[name]) == key;
      } else {
        assert HasAccount(st, key);
        var n :| n in st.nodes && Key(st.nodes[n]) == key;
        assert n in t.nodes && t.nodes[n] == st.nodes[n];
      }
    }
  }

  lemma DeleteKeeps(st: State, self: Name, auth: set<Name>, name: Name, pubkey: string)
    requires Paired(st) && Step(st, self, auth, DeleteAccount(name, pubkey)).Some?
    ensures Paired(Step(st, self, auth, DeleteAccount(name, pubkey)).value)
  {
    var t := Step(st, self, auth, DeleteAccount(name, pubkey)).value;
    forall n | n in t.nodes ensures n > 0 && t.nodes[n] != "" && HasDeposit(t, n) {
      assert HasDeposit(st, n);
      assert Key(st.nodes[n]) != Key(st.nodes[name]);
    }
    forall key | key in t.deposits ensures HasAccount(t, key) {
      assert HasAccount(st, key);
      var n :| n in st.nodes && Key(st.nodes[n]) == key;
      assert n in t.nodes && t.nodes[n] == st.nodes[n];
    }
  }

  lemma ModKeeps(st: State, self: Name, auth: set<Name>, a: Action)
    requires Paired(st) && a.ModDeposit? && Step(st, self, auth, a).Some?
    ensures Paired(Step(st, self, auth, a).value)
  {
    var t := Step(st, self, auth, a).value;
    forall n | n in t.nodes ensures n > 0 && t.nodes[n] != "" && HasDeposit(t, n) { assert HasDeposit(st, n); }
    forall key | key in t.deposits ensures HasAccount(t, key) {
      assert HasAccount(st, key);
      var n :| n in st.nodes && Key(st.nodes[n]) == key;
      assert n in t.nodes;
    }
  }

  lemma StepKeeps(st: State, self: Name, auth: set<Name>, a: Action)
    requires Paired(st) && Step(st, self, auth, a).Some?
    ensures Paired(Step(st, self, auth, a).value)
  {
    match a
    case Hello(_) =>
    case Issue =>
    case CreateAccount(name, pubkey) => CreateKeeps(st, self, auth, name, pubkey);
    case DeleteAccount(name, pubkey) => DeleteKeeps(st, self, auth, name, pubkey);
    case ModDeposit(_, _, _, _, _) => ModKeeps(st, self, auth, a);
  }

  datatype Call = Call(auth: set<Name>, action: Action)

  /** The state after a run from empty tables; an aborted action changes nothing. */
  ghost function Run(self: Name, calls: seq<Call>): State {
    if calls == [] then State(map[], map[]) else
      var st, c := Run(self, calls[..|calls| - 1]), calls[|calls| - 1];
      var r := Step(st, self, c.auth, c.action);
      if r.Some? then r.value else st
  }

  /** In every reachable state accounts and deposits are paired by the key. */
  lemma {:induction false} EveryRunPaired(self: Name, calls: seq<Call>)
    ensures Paired(Run(self, calls))
    decreases |calls|
  {
    if calls != [] {
      var st, c := Run(self, calls[..|calls| - 1]), calls[|calls| - 1];
      EveryRunPaired(self, calls[..|calls| - 1]);
      if Step(st, self, c.auth, c.action).Some? { StepKeeps(st, self, c.auth, c.action); }
    }
  }

  /** moddeposit goes through exactly when the one account with the key has given its authority. */
  lemma ModDepositAllowed(self: Name, calls: seq<Call>, auth: set<Name>, a: Action)
    requires a.ModDeposit?
    ensures var st := Run(self, calls);
            Step(st, self, auth, a).Some? <==> a.pubkey != "" && exists n :: n in st.nodes && Key(st.nodes[n]) == Key(a.pubkey) && n in auth
  {
    EveryRunPaired(self, calls);
  }

  /** And then it changes the deposit of that account, in full, and nothing else. */
  lemma ModDepositReachesOwn(self: Name, calls: seq<Call>, auth: set<Name>, a: Action, n: Name)
    requires a.ModDeposit? && Step(Run(self, calls), self, auth, a).Some?
    requires n in Run(self, calls).nodes && Key(Run(self, calls).nodes[n]) == Key(a.pubkey)
    ensures var st := Run(self, calls);
            var t := Step(st, self, auth, a).value;
            n in auth && t.nodes == st.nodes && Key(st.nodes[n]) in st.deposits
            && t.deposits == st.deposits[Key(st.nodes[n]) := Deposit(st.nodes[n], a.score, a.cpu, a.disk, a.net)]
    ensures forall m :: m in Run(self, calls).nodes && m != n ==> Key(Run(self, calls).nodes[m]) != Key(a.pubkey)
  {
    EveryRunPaired(self, calls);
    assert HasDeposit(Run(self, calls), n);
  }

  /** The greeting and the issue action do nothing. */
  lemma NothingHappens(st: State, self: Name, auth: set<Name>, user: Name)
    ensures Step(st, self, auth, Hello(user)) == Some(st) == Step(st, self, auth, Issue)
  {}

  /** A created account has the public key and, under its 64-bit name, a deposit that starts at zero. */
  lemma CreatedIsEmpty(st: State, self: Name, auth: set<Name>, name: Name, pubkey: string)
    requires Step(st, self, auth, CreateAccount(name, pubkey)).Some?
    ensures var t := Step(st, self, auth, CreateAccount(name, pubkey)).value;
            name > 0 && |pubkey| > 0 && self in auth && name !in st.nodes && Key(pubkey) !in st.deposits
            && name in t.nodes && t.nodes - {name} == st.nodes && t.nodes[name] == pubkey
            && Key(pubkey) in t.deposits && t.deposits - {Key(pubkey)} == st.deposits
            && t.deposits[Key(pubkey)] == Deposit(pubkey, 0, 0, 0, 0)
  {
    var t := Step(st, self, auth, CreateAccount(name, pubkey)).value;
    assert t.nodes - {name} == st.nodes && t.deposits - {Key(pubkey)} == st.deposits;
  }

  /**
   * In a reachable state the owner deletes exactly the accounts that exist, named with their own public key. The
   * account goes, and its deposit.
   */
  lemma DeleteAllowed(self: Name, calls: seq<Call>, auth: set<Name>, name: Name, pubkey: string)
    ensures var st, r := Run(self, calls), Step(Run(self, calls), self, auth, DeleteAccount(name, pubkey));
            (r.Some? <==> self in auth && name in st.nodes && st.nodes[name] == pubkey)
            && (r.Some? ==> r.value.nodes == st.nodes - {name} && Key(pubkey) in st.deposits
                            && r.value.deposits == st.deposits - {Key(pubkey)})
  {
    EveryRunPaired(self, calls);
    if name in Run(self, calls).nodes { assert HasDeposit(Run(self, calls), name); }
  }

  /** Every other account keeps its deposit. */
  lemma OthersKeepDeposit(self: Name, calls: seq<Call>, auth: set<Name>, name: Name, pubkey: string, other: Name)
    requires Step(Run(self, calls), self, auth, DeleteAccount(name, pubkey)).Some?
    requires other in Run(self, calls).nodes && other != name
    ensures var st, t := Run(self, calls), Step(Run(self, calls), self, auth, DeleteAccount(name, pubkey)).value;
            var key := Key(st.nodes[other]);
            key in st.deposits && key in t.deposits && t.deposits[key] == st.deposits[key]
  {
    EveryRunPaired(self, calls);
    assert HasDeposit(Run(self, calls), other);
  }

  /** An otherwise valid creation is refused exactly when some account's key is already the new one's. */
  lemma CreateRefusedIff(self: Name, calls: seq<Call>, auth: set<Name>, name: Name, pubkey: string)
    requires name > 0 && pubkey != "" && self in auth && name !in Run(self, calls).nodes
    ensures Step(Run(self, calls), self, auth, CreateAccount(name, pubkey)).None?
      <==> exists n :: n in Run(self, calls).nodes && Key(Run(self, calls).nodes[n]) == Key(pubkey)
  {
    var st := Run(self, calls);
    EveryRunPaired(self, calls);
    if Key(pubkey) in st.deposits {
      assert HasAccount(st, Key(pubkey));
    }
    if n :| n in st.nodes && Key(st.nodes[n]) == Key(pubkey) {
      assert HasDeposit(st, n);
    }
  }

  /** Upper case letters are all the same to the key: two keys that differ collide, and the second account is refused. */
  lemma DifferentKeysCollide(self: Name)
    ensures "EOS6A" != "EOS6B" && Key("EOS6A") == Key("EOS6B")
    ensures var created := Run(self, [Call({self}, CreateAccount(1, "EOS6A"))]);
            created.nodes == map[1 := "EOS6A"] && Step(created, self, {self}, CreateAccount(2, "EOS6B")).None?
  {
    var a, b := "EOS6A", "EOS6B";
    assert a[4] != b[4];
    forall i: nat ensures SymbolAt(a, i) == SymbolAt(b, i) { AllZero(a, i); AllZero(b, i); }
    SameKeyIff(a, b);
    var c := Call({self}, CreateAccount(1, a));
    assert [c][..0] == [];
    assert Run(self, []) == State(map[], map[]);
  }

  lemma AllZero(s: string, i: nat)
    requires forall c :: c in s ==> Symbol(c) == 0
    ensures SymbolAt(s, i) == 0
  {
    if i < |s| { assert s[i] in s; }
  }

  /** Deleting an account right after its creation restores both tables. */
  lemma DeleteUndoesCreate(st: State, self: Name, auth: set<Name>, name: Name, pubkey: string)
    requires Step(st, self, auth, CreateAccount(name, pubkey)).Some?
    ensures var t := Step(st, self, auth, CreateAccount(name, pubkey)).value;
            Step(t, self, auth, DeleteAccount(name, pubkey)) == Some(st)
  {
    var t := Step(st, self, auth, CreateAccount(name, pubkey)).value;
    assert t.nodes - {name} == st.nodes;
    assert t.deposits - {Key(pubkey)} == st.deposits;
  }

  /** There are as many deposits as accounts. */
  lemma {:induction false} SameSize(st: State)
    requires Paired(st)
    ensures |st.nodes| == |st.deposits|
    decreases |st.nodes|
  {
    if st.nodes.Keys == {} {
      assert st.deposits.Keys == {} by {
        forall key ensures key !in st.deposits { assert !HasAccount(st, key); }
      }
    } else {
      var n :| n in st.nodes;
      var pubkey := st.nodes[n];
      assert HasDeposit(st, n);
      DeleteKeeps(st, 0, {0}, n, pubkey);
      var t := State(st.nodes - {n}, st.deposits - {Key(pubkey)});
      assert t.nodes.Keys == st.nodes.Keys - {n} && t.deposits.Keys == st.deposits.Keys - {Key(pubkey)};
      SameSize(t);
    }
  }

  // ---------- The contract ----------

  class AwardContract {
    const self: Name
    var nodes: map<Name, string>
    var deposits: map<nat, Deposit>

    ghost function Tables(): State
      reads this
    {
      State(nodes, deposits)
    }

    constructor (owner: Name)
      ensures self == owner && Tables() == Run(owner, [])
    {
      self, nodes, deposits := owner, map[], map[];
    }

    method Createacnt(auth: set<Name>, name: Name, pubkey: string) returns (ok: bool)
      modifies this
      ensures var r := Step(old(Tables()), self, auth, CreateAccount(name, pubkey));
              ok == r.Some? && Tables() == if ok then r.value else old(Tables())
    {
      if !(name > 0) || !(|pubkey| > 0) || self !in auth || name in nodes { return false; }
      var key := StringToName(pubkey);
      if key in deposits { return false; } // emplace aborts, and the new node row goes with it
      nodes := nodes[name := pubkey];
      deposits := deposits[key := Deposit(pubkey, 0, 0, 0, 0)];
      return true;
    }

    method Deleteacnt(auth: set<Name>, name: Name, pubkey: string) returns (ok: bool)
      modifies this
      ensures var r := Step(old(Tables()), self, auth, DeleteAccount(name, pubkey));
              ok == r.Some? && Tables() == if ok then r.value else old(Tables())
    {
      if !(name > 0) || !(|pubkey| > 0) || self !in auth || name !in nodes || nodes[name] != pubkey { return false; }
      nodes := nodes - {name};
      var key := StringToName(pubkey);
      if key in deposits {
        deposits := deposits - {key};
      } else {
        assert deposits - {key} == deposits;
      }
      return true;
    }

    /** The find of the index over node rows by their public key's name. */
    method FindByPubkey(key: nat) returns (r: Option<Name>)
      ensures r == Find(nodes, key)
    {
      r := None;
      var rest := nodes.Keys;
      while rest != {}
        invariant rest <= nodes.Keys
        invariant r.None? ==> forall m :: m in nodes && m !in rest ==> Key(nodes[m]) != key
        invariant r.Some? ==> r.value in nodes && Key(nodes[r.value]) == key
        invariant r.Some? ==> forall m :: m in nodes && m !in rest && Key(nodes[m]) == key ==> r.value <= m
        decreases |rest|
      {
        var n :| n in rest;
        rest := rest - {n};
        var k := StringToName(nodes[n]);
        if k == key && (r.None? || n < r.value) {
          r := Some(n);
        }
      }
      assert r.Some? ==> IsFirst(nodes, key, r.value);
    }

    method Moddeposit(auth: set<Name>, pubkey: string, score: nat, cpu: nat, disk: nat, net: nat) returns (ok: bool)
      modifies this
      ensures var r := Step(old(Tables()), self, auth, ModDeposit(pubkey, score, cpu, disk, net));
              ok == r.Some? && Tables() == if ok then r.value else old(Tables())
    {
      if !(|pubkey| > 0) { return false; }
      var key := StringToName(pubkey);
      var n := FindByPubkey(key);
      if n.None? || n.value !in auth { return false; }
      if key in deposits {
        deposits := deposits[key := deposits[key].(score := score, cpu := cpu, disk := disk, net := net)];
      }
      return true;
    }
  }
}
