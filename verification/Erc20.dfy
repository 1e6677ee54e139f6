/** The token as the client sees it: balances, allowances, and transactions that run all their calls or none. */
module Erc20 {
  import opened Bytes
  import opened Wrappers

  type Address = nat

  const INFINITE: nat := 0x1_0000_0000_0000_0000_0000_0000_0000_0000_0000_0000_0000_0000_0000_0000_0000_0000 - 1

  /** Absent accounts hold nothing; allowances are keyed by owner and spender. */
  datatype Ledger = Ledger(balances: map<Address, nat>, allowances: map<(Address, Address), nat>)

  datatype Call =
      | Transfer(to: Address, amount: nat)
      | TransferFrom(owner: Address, to: Address, amount: nat)
      | Other(id: nat)

  function Balance(l: Ledger, a: Address): nat {
    if a in l.balances then l.balances[a] else 0
  }

  function Allowance(l: Ledger, owner: Address, spender: Address): nat {
    if (owner, spender) in l.allowances then l.allowances[(owner, spender)] else 0
  }

  function Move(l: Ledger, from: Address, to: Address, amount: nat): Option<Ledger> {
    if Balance(l, from) < amount then None
    else
      var debited := l.(balances := l.balances[from := Balance(l, from) - amount]);
      Some(debited.(balances := debited.balances[to := Balance(debited, to) + amount]))
  }

  /** An infinite allowance is not used up. */
  function Spend(l: Ledger, owner: Address, spender: Address, amount: nat): Option<Ledger> {
    var allowance := Allowance(l, owner, spender);
    if allowance == INFINITE then Some(l)
    else if allowance < amount then None
    else Some(l.(allowances := l.allowances[(owner, spender) := allowance - amount]))
  }

  function Execute(l: Ledger, caller: Address, call: Call): Option<Ledger> {
    match call
    case Transfer(to, amount) => Move(l, caller, to, amount)
    case TransferFrom(owner, to, amount) =>
      (match Spend(l, owner, caller, amount)
       case None => None
       case Some(spent) => Move(spent, owner, to, amount))
    case Other(_) => Some(l)
  }

  /** All calls in order, or `None` as soon as one fails. */
  function ExecuteAll(l: Ledger, caller: Address, calls: seq<Call>): Option<Ledger>
    decreases calls
  {
    if calls == [] then Some(l)
    else
      match Execute(l, caller, calls[0])
      case None => None
      case Some(next) => ExecuteAll(next, caller, calls[1..])
  }

  /** A transaction: a failing call reverts all of it. */
  function Transact(l: Ledger, caller: Address, calls: seq<Call>): Ledger {
    match ExecuteAll(l, caller, calls)
    case None => l
    case Some(next) => next
  }

  lemma {:induction false} ExecuteAllSnoc(l: Ledger, caller: Address, calls: seq<Call>, call: Call)
    ensures ExecuteAll(l, caller, calls + [call])
         == match ExecuteAll(l, caller, calls) { case None => None case Some(next) => Execute(next, caller, call) }
    decreases calls
  {
    if calls == [] {
      assert [call][1..] == [];
    } else {
      assert (calls + [call])[1..] == calls[1..] + [call];
      if Execute(l, caller, calls[0]).Some? {
        ExecuteAllSnoc(Execute(l, caller, calls[0]).value, caller, calls[1..], call);
      }
    }
  }

  // Supply.

  ghost function Sum(m: map<Address, nat>): nat
    decreases |m|
  {
    if m == map[] then 0 else var k :| k in m; m[k] + Sum(m - {k})
  }

  lemma {:induction false} SumWithout(m: map<Address, nat>, k: Address)
    requires k in m
    ensures Sum(m) == m[k] + Sum(m - {k})
    decreases |m|
  {
    var j :| j in m && Sum(m) == m[j] + Sum(m - {j});
    if j != k {
      SumWithout(m - {j}, k);
      SumWithout(m - {k}, j);
      assert m - {j} - {k} == m - {k} - {j};
    }
  }

  lemma {:induction false} SumUpdate(m: map<Address, nat>, k: Address, v: nat)
    ensures Sum(m[k := v]) + (if k in m then m[k] else 0) == Sum(m) + v
  {
    SumWithout(m[k := v], k);
    if k in m {
      SumWithout(m, k);
      assert m[k := v] - {k} == m - {k};
    } else {
      assert m[k := v] - {k} == m;
    }
  }

  ghost function Supply(l: Ledger): nat {
    Sum(l.balances)
  }

  lemma {:induction false} MoveKeepsSupply(l: Ledger, from: Address, to: Address, amount: nat)
    requires Move(l, from, to, amount).Some?
    ensures Supply(Move(l, from, to, amount).value) == Supply(l)
  {
    SumUpdate(l.balances, from, Balance(l, from) - amount);
    var debited := l.(balances := l.balances[from := Balance(l, from) - amount]);
    SumUpdate(debited.balances, to, Balance(debited, to) + amount);
  }

  lemma {:induction false} ExecuteKeepsSupply(l: Ledger, caller: Address, call: Call)
    requires Execute(l, caller, call).Some?
    ensures Supply(Execute(l, caller, call).value) == Supply(l)
  {
    match call {
      case Transfer(to, amount) => MoveKeepsSupply(l, caller, to, amount);
      case TransferFrom(owner, to, amount) => MoveKeepsSupply(Spend(l, owner, caller, amount).value, owner, to, amount);
      case Other(_) =>
    }
  }

  lemma {:induction false} ExecuteAllKeepsSupply(l: Ledger, caller: Address, calls: seq<Call>)
    requires ExecuteAll(l, caller, calls).Some?
    ensures Supply(ExecuteAll(l, caller, calls).value) == Supply(l)
    decreases calls
  {
    if calls != [] {
      ExecuteKeepsSupply(l, caller, calls[0]);
      ExecuteAllKeepsSupply(Execute(l, caller, calls[0]).value, caller, calls[1..]);
    }
  }

  /** No transaction creates or destroys tokens. */
  lemma {:induction false} TransactKeepsSupply(l: Ledger, caller: Address, calls: seq<Call>)
    ensures Supply(Transact(l, caller, calls)) == Supply(l)
  {
    if ExecuteAll(l, caller, calls).Some? {
      ExecuteAllKeepsSupply(l, caller, calls);
    }
  }

  /** The sum of the balances of some accounts, each as often as it is listed. */
  function Total(l: Ledger, accounts: seq<Address>): nat {
    if accounts == [] then 0 else Total(l, accounts[..|accounts| - 1]) + Balance(l, accounts[|accounts| - 1])
  }

  /** What a transfer on behalf of an owner does, and when it fails. */
  lemma {:induction false} TransferFromMeans(l: Ledger, caller: Address, owner: Address, to: Address, amount: nat)
    requires owner != to
    ensures var run := Execute(l, caller, TransferFrom(owner, to, amount));
      var allowed := Allowance(l, owner, caller);
      && (run.Some? <==> Balance(l, owner) >= amount && (allowed == INFINITE || allowed >= amount))
      && (run.Some? ==>
            && Balance(run.value, owner) == Balance(l, owner) - amount
            && Balance(run.value, to) == Balance(l, to) + amount
            && (forall a :: a != owner && a != to ==> Balance(run.value, a) == Balance(l, a))
            && Allowance(run.value, owner, caller) == (if allowed == INFINITE then allowed else allowed - amount)
            && (forall o: Address, s: Address ::
                  (o, s) != (owner, caller) ==> Allowance(run.value, o, s) == Allowance(l, o, s)))
  {
  }

  lemma {:induction false} TransferMeans(l: Ledger, caller: Address, to: Address, amount: nat)
    requires caller != to
    ensures var run := Execute(l, caller, Transfer(to, amount));
      && (run.Some? <==> Balance(l, caller) >= amount)
      && (run.Some? ==>
            && Balance(run.value, caller) == Balance(l, caller) - amount
            && Balance(run.value, to) == Balance(l, to) + amount
            && (forall a :: a != caller && a != to ==> Balance(run.value, a) == Balance(l, a))
            && run.value.allowances == l.allowances)
  {
  }

  lemma {:induction false} InfiniteIsTheLargestWord()
    ensures INFINITE == Pow(256, 32) - 1
  {
    assert Pow(256, 4) == 0x1_0000_0000 by {
      assert Pow(256, 1) == 256 && Pow(256, 2) == 0x1_0000 && Pow(256, 3) == 0x100_0000;
    }
    PowAdd(256, 4, 4);
    PowAdd(256, 8, 8);
    PowAdd(256, 16, 16);
  }
}
