/**
 The relayer pool: funding and draining it through the lazy queue of the main account, and handing out its
 accounts in turn. Balances are read before the flush; the queued transfers run in it, as one transaction.
 */
module Relayers {
  import opened Wrappers
  import opened Erc20
  import LazyQueue

  type Account = LazyQueue.Account
  type State = LazyQueue.State<Call>
  type Client = LazyQueue.Client<Call>

  /** The ledger after the transactions that were sent, starting from `genesis`. */
  function Replay(genesis: Ledger, sent: seq<LazyQueue.Entry<Call>>): Ledger {
    if sent == [] then genesis
    else
      var last := sent[|sent| - 1];
      Transact(Replay(genesis, sent[..|sent| - 1]), last.account.address, last.calls)
  }

  /** What the calls, each queued on its own, leave in the queue of a lazy account. */
  function QueueAll(s: State, account: Account, calls: seq<Call>): State {
    if calls == [] then s
    else LazyQueue.Invoke(QueueAll(s, account, calls[..|calls| - 1]), account, [calls[|calls| - 1]], false)
  }

  function MarkLazy(s: State, account: Account, isLazy: bool): State {
    s.(lazy := if isLazy then s.lazy + {account.address} else s.lazy - {account.address})
  }

  /** The calls of one withdrawal: the whole balance of every relayer that has one. */
  function DrainCalls(l: Ledger, relayers: seq<Address>, to: Address): seq<Call> {
    if relayers == [] then []
    else
      var last := relayers[|relayers| - 1];
      DrainCalls(l, relayers[..|relayers| - 1], to) +
      if Balance(l, last) > 0 then [TransferFrom(last, to, Balance(l, last))] else []
  }

  /** `withdraw_all`; when the flush raises, the account stays lazy and its queue stays filled. */
  function WithdrawAll(s: State, genesis: Ledger, account: Account, relayers: seq<Address>, to: Address,
          failAt: nat): State {
    var calls := DrainCalls(Replay(genesis, s.sent), relayers, to);
    FlushAndRestore(s, QueueAll(MarkLazy(s, account, true), account, calls), account, failAt)
  }

  function FlushAndRestore(before: State, queued: State, account: Account, failAt: nat): State {
    var flushed := LazyQueue.Flush(queued, failAt);
    if failAt < |queued.queue| then flushed else MarkLazy(flushed, account, account.address in before.lazy)
  }

  /** The transfers queued while funding some addresses, and whether a ValueError ended it. */
  datatype Funding = Funding(calls: seq<Call>, raised: bool)

  /** `fund_address` for each address: raises when a single shortfall exceeds the sender's balance. */
  function Fund(l: Ledger, sender: Address, addresses: seq<Address>, amount: nat): Funding {
    if addresses == [] then Funding([], false)
    else
      var init := Fund(l, sender, addresses[..|addresses| - 1], amount);
      var last := addresses[|addresses| - 1];
      var required := amount - Balance(l, last);
      if init.raised then init
      else if Balance(l, sender) < required then init.(raised := true)
      else if required <= 0 then init
      else Funding(init.calls + [Transfer(last, required)], false)
  }

  /** The funding phase of `create`; an exception leaves the account lazy. */
  function FundAll(s: State, genesis: Ledger, account: Account, addresses: seq<Address>, amount: nat,
          failAt: nat): State {
    var funding := Fund(Replay(genesis, s.sent), account.address, addresses, amount);
    var queued := QueueAll(MarkLazy(s, account, true), account, funding.calls);
    if funding.raised then queued else FlushAndRestore(s, queued, account, failAt)
  }

  class RelayerPool {
    const accounts: seq<Account>
    var index: nat

    constructor (accounts: seq<Account>)
      ensures this.accounts == accounts && index == 0
    {
      this.accounts := accounts;
      index := 0;
    }

    /** `__next__`; `None` is the IndexError of an empty pool. */
    method Next() returns (relayer: Option<Account>)
      modifies this
      ensures old(index) >= |accounts| ==> relayer == None && index == old(index)
      ensures old(index) < |accounts|
          ==> relayer == Some(accounts[old(index)]) && index == (old(index) + 1) % |accounts|
    {
      if index >= |accounts| {
        return None;
      }
      relayer := Some(accounts[index]);
      index := (index + 1) % |accounts|;
    }

    /** `k` calls of `__next__`, in terms of the positions that `RoundRobinIsFair` counts. */
    method NextMany(k: nat) returns (relayers: seq<Account>)
      requires index < |accounts|
      modifies this
      ensures index == IndexAfter(old(index), |accounts|, k) < |accounts|
      ensures |relayers| == k
      ensures forall j :: 0 <= j < k ==> IndexAfter(old(index), |accounts|, j) == (old(index) + j) % |accounts|
      ensures forall j :: 0 <= j < k ==> relayers[j] == accounts[(old(index) + j) % |accounts|]
    {
      relayers := [];
      for i := 0 to k
        invariant index == IndexAfter(old(index), |accounts|, i) < |accounts|
        invariant |relayers| == i
        invariant forall j :: 0 <= j < i ==> IndexAfter(old(index), |accounts|, j) == (old(index) + j) % |accounts|
        invariant forall j :: 0 <= j < i ==> relayers[j] == accounts[(old(index) + j) % |accounts|]
      {
        IndexWraps(old(index), |accounts|, i);
        var relayer := Next();
        relayers := relayers + [relayer.value];
      }
    }

    /** `withdraw_all` for the main account. */
    method Withdraw(client: Client, genesis: Ledger, account: Account, to: Address, failAt: nat) returns (ok: bool)
      modifies client
      ensures client.Now() == WithdrawAll(old(client.Now()), genesis, account, Addresses(accounts), to, failAt)
    {
      ghost var start := client.Now();
      var isLazy := account.address in client.lazy;
      client.RegisterLazyAccount(account.address);
      QueueWithdrawals(client, genesis, account, to);
      ok := client.ExecuteCalls(failAt);
      if ok {
        RestoreLazy(client, account, isLazy);
      }
    }

    /** The loop of `withdraw_all`. */
    method QueueWithdrawals(client: Client, genesis: Ledger, account: Account, to: Address)
      requires account.address in client.lazy
      modifies client
      ensures client.Now() == QueueAll(old(client.Now()), account,
        DrainCalls(Replay(genesis, old(client.sent)), Addresses(accounts), to))
    {
      ghost var marked, l, calls := client.Now(), Replay(genesis, client.sent), [];
      var i := 0;
      while i < |accounts|
        invariant 0 <= i <= |accounts|
        invariant calls == DrainCalls(l, Addresses(accounts[..i]), to)
        invariant client.Now() == QueueAll(marked, account, calls) && client.sent == marked.sent
      {
        var relayer := accounts[i].address;
        var balance := Balance(Replay(genesis, client.sent), relayer);
        AddressesSnoc(accounts, i);
        DrainCallsSnoc(l, Addresses(accounts[..i]), relayer, to);
        if balance > 0 {
          var call := TransferFrom(relayer, to, balance);
          QueueCall(client, account, call, marked, calls);
          calls := calls + [call];
        }
        i := i + 1;
      }
      assert accounts[..|accounts|] == accounts;
    }
  }

  /** One more call of a lazy account, after the `calls` that were queued since `marked`. */
  method QueueCall(client: Client, account: Account, call: Call, ghost marked: State, ghost calls: seq<Call>)
    requires account.address in marked.lazy && client.Now() == QueueAll(marked, account, calls)
    modifies client
    ensures client.Now() == QueueAll(marked, account, calls + [call]) && client.sent == marked.sent
  {
    QueueAllSnoc(marked, account, calls, call);
    var ok := client.ExecuteV1(account, [call], false);
    QueueAllOfLazy(marked, account, calls + [call]);
  }

  method RestoreLazy(client: Client, account: Account, isLazy: bool)
    modifies client
    ensures client.Now() == MarkLazy(old(client.Now()), account, isLazy)
  {
    if isLazy {
      client.RegisterLazyAccount(account.address);
    } else {
      client.RemoveLazyAccount(account.address);
    }
  }

  /** The funding phase of `create`. */
  method CreateFunding(client: Client, genesis: Ledger, account: Account, addresses: seq<Address>, amount: nat,
          failAt: nat)
    returns (ok: bool)
    modifies client
    ensures client.Now() == FundAll(old(client.Now()), genesis, account, addresses, amount, failAt)
  {
    var isLazy := account.address in client.lazy;
    client.RegisterLazyAccount(account.address);
    ok := QueueFunding(client, genesis, account, addresses, amount);
    if ok {
      ok := client.ExecuteCalls(failAt);
      if ok {
        RestoreLazy(client, account, isLazy);
      }
    }
  }

  /** Its loop over the addresses; false when a ValueError ends it. */
  method QueueFunding(client: Client, genesis: Ledger, account: Account, addresses: seq<Address>, amount: nat)
    returns (ok: bool)
    requires account.address in client.lazy
    modifies client
    ensures var funding := Fund(Replay(genesis, old(client.sent)), account.address, addresses, amount);
      client.Now() == QueueAll(old(client.Now()), account, funding.calls) && ok == !funding.raised
  {
    ghost var marked, l, calls := client.Now(), Replay(genesis, client.sent), [];
    var i := 0;
    while i < |addresses|
      invariant 0 <= i <= |addresses|
      invariant Fund(l, account.address, addresses[..i], amount) == Funding(calls, false)
      invariant client.Now() == QueueAll(marked, account, calls) && client.sent == marked.sent
    {
      FundNext(l, account.address, addresses, amount, i, calls);
      var now := Replay(genesis, client.sent);
      var required := amount - Balance(now, addresses[i]);
      if Balance(now, account.address) < required {
        FundStaysRaised(l, account.address, addresses, amount, i + 1);
        return false;
      }
      if required > 0 {
        var call := Transfer(addresses[i], required);
        QueueCall(client, account, call, marked, calls);
        calls := calls + [call];
      }
      i := i + 1;
    }
    assert addresses[..|addresses|] == addresses;
    return true;
  }

  lemma {:induction false} FundNext(l: Ledger, sender: Address, addresses: seq<Address>, amount: nat, i: nat,
          calls: seq<Call>)
    requires i < |addresses| && Fund(l, sender, addresses[..i], amount) == Funding(calls, false)
    ensures var required := amount - Balance(l, addresses[i]);
      Fund(l, sender, addresses[..i + 1], amount) ==
        if Balance(l, sender) < required then Funding(calls, true)
        else if required <= 0 then Funding(calls, false)
        else Funding(calls + [Transfer(addresses[i], required)], false)
  {
    assert addresses[..i + 1] == addresses[..i] + [addresses[i]];
    FundSnoc(l, sender, addresses[..i], addresses[i], amount);
  }

  lemma {:induction false} FundStaysRaised(l: Ledger, sender: Address, addresses: seq<Address>, amount: nat, i: nat)
    requires i <= |addresses| && Fund(l, sender, addresses[..i], amount).raised
    ensures Fund(l, sender, addresses, amount) == Fund(l, sender, addresses[..i], amount)
  {
    if i == |addresses| {
      assert addresses[..i] == addresses;
    } else {
      var init := addresses[..|addresses| - 1];
      assert init[..i] == addresses[..i];
      FundStaysRaised(l, sender, init, amount, i);
    }
  }

  function Addresses(accounts: seq<Account>): seq<Address> {
    if accounts == [] then [] else Addresses(accounts[..|accounts| - 1]) + [accounts[|accounts| - 1].address]
  }

  lemma {:induction false} AddressesAt(accounts: seq<Account>, i: nat)
    requires i < |accounts|
    ensures |Addresses(accounts)| == |accounts| && Addresses(accounts)[i] == accounts[i].address
  {
    if |accounts| > 1 {
      AddressesAt(accounts[..|accounts| - 1], if i < |accounts| - 1 then i else 0);
    }
  }

  lemma {:induction false} AddressesSnoc(accounts: seq<Account>, i: nat)
    requires i < |accounts|
    ensures Addresses(accounts[..i + 1]) == Addresses(accounts[..i]) + [accounts[i].address]
  {
    assert accounts[..i + 1][..i] == accounts[..i];
  }

  lemma {:induction false} DrainCallsSnoc(l: Ledger, relayers: seq<Address>, r: Address, to: Address)
    ensures DrainCalls(l, relayers + [r], to)
         == DrainCalls(l, relayers, to) + if Balance(l, r) > 0 then [TransferFrom(r, to, Balance(l, r))] else []
  {
    assert (relayers + [r])[..|relayers|] == relayers;
  }

  lemma {:induction false} QueueAllSnoc(s: State, account: Account, calls: seq<Call>, call: Call)
    ensures QueueAll(s, account, calls + [call])
        == LazyQueue.Invoke(QueueAll(s, account, calls), account, [call], false)
  {
    assert (calls + [call])[..|calls|] == calls;
  }

  /** Queueing for a lazy account sends nothing; an empty queue becomes one slot. */
  lemma {:induction false} QueueAllOfLazy(s: State, account: Account, calls: seq<Call>)
    requires account.address in s.lazy
    ensures var next := QueueAll(s, account, calls);
      && next.lazy == s.lazy && next.sent == s.sent
      && (s.queue == [] ==> next.queue == if calls == [] then [] else [LazyQueue.Entry(account, calls)])
  {
    if calls != [] {
      var init := calls[..|calls| - 1];
      QueueAllOfLazy(s, account, init);
      assert calls == init + [calls[|calls| - 1]];
    }
  }

  lemma {:induction false} ReplaySnoc(genesis: Ledger, sent: seq<LazyQueue.Entry<Call>>, account: Account,
          calls: seq<Call>)
    ensures Replay(genesis, sent + [LazyQueue.Entry(account, calls)])
        == Transact(Replay(genesis, sent), account.address, calls)
  {
    assert (sent + [LazyQueue.Entry(account, calls)])[..|sent|] == sent;
  }

  /** A batch queued by an account over an empty queue runs as one transaction and leaves the client as it was. */
  lemma {:induction false} BatchRuns(s: State, genesis: Ledger, account: Account, calls: seq<Call>, failAt: nat)
    requires s.queue == [] && (failAt > 0 || calls == [])
    ensures var next := FlushAndRestore(s, QueueAll(MarkLazy(s, account, true), account, calls), account, failAt);
      && next.queue == [] && next.lazy == s.lazy
      && Replay(genesis, next.sent) == Transact(Replay(genesis, s.sent), account.address, calls)
  {
    QueueAllOfLazy(MarkLazy(s, account, true), account, calls);
    ReplaySnoc(genesis, s.sent, account, calls);
    assert s.sent + [] == s.sent;
    assert account.address !in s.lazy ==> s.lazy + {account.address} - {account.address} == s.lazy;
  }

  /** Sending a batch raises: nothing was sent, the batch is still queued and the account still lazy. */
  lemma {:induction false} BatchRaises(s: State, account: Account, calls: seq<Call>)
    requires s.queue == [] && calls != []
    ensures FlushAndRestore(s, QueueAll(MarkLazy(s, account, true), account, calls), account, 0)
         == MarkLazy(s, account, true).(queue := Pending(account, calls))
  {
    QueueAllOfLazy(MarkLazy(s, account, true), account, calls);
    assert s.sent + [] == s.sent;
  }

  // Draining.

  /** Each relayer with a balance is listed once and allows the spender to move all of it. */
  ghost predicate Drainable(l: Ledger, relayers: seq<Address>, spender: Address) {
    && (forall i, j :: 0 <= i < j < |relayers| && relayers[i] == relayers[j] ==> Balance(l, relayers[i]) == 0)
    && (forall i :: 0 <= i < |relayers| ==>
          Allowance(l, relayers[i], spender) == INFINITE
              || Allowance(l, relayers[i], spender) >= Balance(l, relayers[i]))
  }

  /** Every relayer is empty, the target got exactly their balances, and nobody else is affected. */
  ghost predicate Drained(l: Ledger, next: Ledger, relayers: seq<Address>, to: Address) {
    forall a :: Balance(next, a) ==
      if a == to then Balance(l, to) + Total(l, relayers) else if a in relayers then 0 else Balance(l, a)
  }

  ghost predicate SameAllowances(l: Ledger, next: Ledger, relayers: seq<Address>, spender: Address) {
    forall a :: a !in relayers ==> Allowance(next, a, spender) == Allowance(l, a, spender)
  }

  /** What the queued withdrawals do: they fail exactly when the pool is not drainable. */
  ghost predicate DrainOutcome(l: Ledger, run: Option<Ledger>, relayers: seq<Address>, spender: Address, to: Address) {
    && (run.Some? <==> Drainable(l, relayers, spender))
    && (run.Some? ==> Drained(l, run.value, relayers, to) && SameAllowances(l, run.value, relayers, spender))
  }

  lemma {:induction false} DrainCallsRun(l: Ledger, relayers: seq<Address>, spender: Address, to: Address)
    requires to !in relayers
    ensures DrainOutcome(l, ExecuteAll(l, spender, DrainCalls(l, relayers, to)), relayers, spender, to)
  {
    if relayers != [] {
      var init, last := relayers[..|relayers| - 1], relayers[|relayers| - 1];
      assert relayers == init + [last];
      DrainCallsRun(l, init, spender, to);
      DrainCallsStep(l, init, last, spender, to);
    }
  }

  lemma {:induction false} DrainCallsStep(l: Ledger, init: seq<Address>, last: Address, spender: Address, to: Address)
    requires to !in init && to != last
    requires DrainOutcome(l, ExecuteAll(l, spender, DrainCalls(l, init, to)), init, spender, to)
    ensures DrainOutcome(l, ExecuteAll(l, spender, DrainCalls(l, init + [last], to)), init + [last], spender, to)
  {
    var calls := DrainCalls(l, init, to);
    var before := ExecuteAll(l, spender, calls);
    DrainableSnoc(l, init, last, spender);
    DrainCallsSnoc(l, init, last, to);
    if Balance(l, last) > 0 {
      ExecuteAllSnoc(l, spender, calls, TransferFrom(last, to, Balance(l, last)));
      if before.Some? {
        DrainLast(l, before.value, init, last, spender, to);
      }
    } else {
      assert calls + [] == calls;
      if before.Some? {
        SkipEmpty(l, before.value, init, last, spender, to);
      }
    }
  }

  lemma {:induction false} SkipEmpty(l: Ledger, now: Ledger, init: seq<Address>, last: Address, spender: Address,
          to: Address)
    requires Drained(l, now, init, to) && SameAllowances(l, now, init, spender) && to != last && Balance(l, last) == 0
    ensures Drained(l, now, init + [last], to) && SameAllowances(l, now, init + [last], spender)
  {
    assert (init + [last])[..|init|] == init;
    assert forall a :: a in init + [last] <==> a in init || a == last;
  }

  lemma {:induction false} DrainableSnoc(l: Ledger, init: seq<Address>, last: Address, spender: Address)
    ensures Drainable(l, init + [last], spender) <==>
      && Drainable(l, init, spender)
      && (last in init ==> Balance(l, last) == 0)
      && (Allowance(l, last, spender) == INFINITE || Allowance(l, last, spender) >= Balance(l, last))
  {
    var all := init + [last];
    assert all[|init|] == last;
    assert forall i :: 0 <= i < |init| ==> all[i] == init[i];
  }

  lemma {:induction false} DrainLast(l: Ledger, now: Ledger, init: seq<Address>, last: Address, spender: Address,
          to: Address)
    requires Drained(l, now, init, to) && to !in init && to != last && Balance(l, last) > 0
    requires SameAllowances(l, now, init, spender)
    ensures var run := Execute(now, spender, TransferFrom(last, to, Balance(l, last)));
      var allowed := Allowance(l, last, spender) == INFINITE || Allowance(l, last, spender) >= Balance(l, last);
      && (last in init ==> run == None)
      && (last !in init ==> (run.Some? <==> allowed))
      && (run.Some? ==> Drained(l, run.value, init + [last], to))
      && (run.Some? ==> SameAllowances(l, run.value, init + [last], spender))
  {
    assert (init + [last])[..|init|] == init;
    var run := Execute(now, spender, TransferFrom(last, to, Balance(l, last)));
    assert Balance(now, last) == if last in init then 0 else Balance(l, last);
    if run.Some? {
      var next := run.value;
      forall a
        ensures Balance(next, a) ==
          if a == to then Balance(l, to) + Total(l, init + [last])
          else if a in init + [last] then 0 else Balance(l, a)
      {
        assert a in init + [last] <==> a in init || a == last;
      }
    }
  }

  /** The queue that these calls leave in an empty one. */
  function Pending(account: Account, calls: seq<Call>): seq<LazyQueue.Entry<Call>> {
    if calls == [] then [] else [LazyQueue.Entry(account, calls)]
  }

  /**
   Starting from an empty queue, a withdrawal to an account outside the pool empties the relayers exactly when
   each relayer with a balance is listed once and approved all of it, and sending the batch does not raise. It moves
   nothing at all otherwise, and it always keeps the supply. It leaves the queue empty and restores the laziness of
   the main account, unless sending raises: the account then stays lazy, with the batch still pending.
   */
  lemma {:induction false} WithdrawalDrainsPool(s: State, genesis: Ledger, account: Account, relayers: seq<Address>,
                                                to: Address, failAt: nat)
    requires s.queue == [] && to !in relayers
    ensures var next := WithdrawAll(s, genesis, account, relayers, to, failAt);
      var l, after := Replay(genesis, s.sent), Replay(genesis, next.sent);
      var calls := DrainCalls(l, relayers, to);
      var raises := failAt == 0 && calls != [];
      && Supply(after) == Supply(l)
      && ((forall r :: r in relayers ==> Balance(after, r) == 0)
            <==> Drainable(l, relayers, account.address) && !raises)
      && (if Drainable(l, relayers, account.address) && !raises then Drained(l, after, relayers, to) else after == l)
      && (if raises then next == MarkLazy(s, account, true).(queue := Pending(account, calls))
          else next.queue == [] && next.lazy == s.lazy)
  {
    var l := Replay(genesis, s.sent);
    var calls := DrainCalls(l, relayers, to);
    if failAt == 0 && calls != [] {
      BatchRaises(s, account, calls);
      SomeoneHasBalance(l, relayers, to);
    } else {
      BatchRuns(s, genesis, account, calls, failAt);
      TransactKeepsSupply(l, account.address, calls);
      BatchDrains(l, relayers, account.address, to);
    }
  }

  lemma {:induction false} BatchDrains(l: Ledger, relayers: seq<Address>, spender: Address, to: Address)
    requires to !in relayers
    ensures var after := Transact(l, spender, DrainCalls(l, relayers, to));
      && ((forall r :: r in relayers ==> Balance(after, r) == 0) <==> Drainable(l, relayers, spender))
      && (if Drainable(l, relayers, spender) then Drained(l, after, relayers, to) else after == l)
  {
    DrainCallsRun(l, relayers, spender, to);
    if !Drainable(l, relayers, spender) {
      var r :| r in relayers && Balance(l, r) > 0;
    }
  }

  lemma {:induction false} SomeoneHasBalance(l: Ledger, relayers: seq<Address>, to: Address)
    requires DrainCalls(l, relayers, to) != []
    ensures exists r :: r in relayers && Balance(l, r) > 0
  {
    var last := relayers[|relayers| - 1];
    if Balance(l, last) > 0 {
      assert last in relayers;
    } else {
      SomeoneHasBalance(l, relayers[..|relayers| - 1], to);
    }
  }

  // Funding.

  function Missing(l: Ledger, a: Address, amount: nat): nat {
    if Balance(l, a) < amount then amount - Balance(l, a) else 0
  }

  /** What is missing brings the balance to the larger of itself and the amount. */
  lemma {:induction false} MissingTopsUp(l: Ledger, a: Address, amount: nat)
    ensures Balance(l, a) + Missing(l, a, amount) == if Balance(l, a) < amount then amount else Balance(l, a)
  {
  }

  function Shortfall(l: Ledger, addresses: seq<Address>, amount: nat): nat {
    if addresses == [] then 0
    else Shortfall(l, addresses[..|addresses| - 1], amount) + Missing(l, addresses[|addresses| - 1], amount)
  }

  /** Every address is topped up to `amount`, by the sender alone. */
  ghost predicate Funded(l: Ledger, next: Ledger, sender: Address, addresses: seq<Address>, amount: nat) {
    forall a :: Balance(next, a) ==
      if a == sender then Balance(l, sender) - Shortfall(l, addresses, amount)
      else if a in addresses then Balance(l, a) + Missing(l, a, amount)
      else Balance(l, a)
  }

  ghost predicate Distinct(addresses: seq<Address>) {
    forall i, j :: 0 <= i < j < |addresses| ==> addresses[i] != addresses[j]
  }

  /** What the queued transfers do: they all run exactly when the sender can pay for all of them. */
  ghost predicate FundOutcome(l: Ledger, funding: Funding, run: Option<Ledger>, sender: Address,
          addresses: seq<Address>, amount: nat) {
    if Shortfall(l, addresses, amount) <= Balance(l, sender)
    then !funding.raised && run.Some? && Funded(l, run.value, sender, addresses, amount)
    else funding.raised || run == None
  }

  lemma {:induction false} FundingRuns(l: Ledger, sender: Address, addresses: seq<Address>, amount: nat)
    requires Distinct(addresses) && sender !in addresses
    ensures var funding := Fund(l, sender, addresses, amount);
      FundOutcome(l, funding, ExecuteAll(l, sender, funding.calls), sender, addresses, amount)
  {
    if addresses != [] {
      var init, last := addresses[..|addresses| - 1], addresses[|addresses| - 1];
      assert addresses == init + [last] && last !in init;
      FundingRuns(l, sender, init, amount);
      FundingRunsStep(l, sender, init, last, amount);
    }
  }

  lemma {:induction false} FundingRunsStep(l: Ledger, sender: Address, init: seq<Address>, last: Address, amount: nat)
    requires sender !in init && sender != last && last !in init
    requires var funding := Fund(l, sender, init, amount);
      FundOutcome(l, funding, ExecuteAll(l, sender, funding.calls), sender, init, amount)
    ensures var funding := Fund(l, sender, init + [last], amount);
      FundOutcome(l, funding, ExecuteAll(l, sender, funding.calls), sender, init + [last], amount)
  {
    var funding, required := Fund(l, sender, init, amount), Missing(l, last, amount);
    ShortfallSnoc(l, init, last, amount);
    FundSnoc(l, sender, init, last, amount);
    ExecuteAllSnoc(l, sender, funding.calls, Transfer(last, required));
    if Shortfall(l, init, amount) <= Balance(l, sender) {
      FundLast(l, ExecuteAll(l, sender, funding.calls).value, sender, init, last, amount);
    }
  }

  lemma {:induction false} ShortfallSnoc(l: Ledger, init: seq<Address>, last: Address, amount: nat)
    ensures Shortfall(l, init + [last], amount) == Shortfall(l, init, amount) + Missing(l, last, amount)
  {
    assert (init + [last])[..|init|] == init;
  }

  lemma {:induction false} FundSnoc(l: Ledger, sender: Address, init: seq<Address>, last: Address, amount: nat)
    ensures var required := amount - Balance(l, last); var funding := Fund(l, sender, init, amount);
      Fund(l, sender, init + [last], amount) ==
        if funding.raised then funding
        else if Balance(l, sender) < required then funding.(raised := true)
        else if required <= 0 then funding
        else Funding(funding.calls + [Transfer(last, required)], false)
  {
    assert (init + [last])[..|init|] == init;
  }

  lemma {:induction false} FundLast(l: Ledger, now: Ledger, sender: Address, init: seq<Address>, last: Address,
          amount: nat)
    requires Funded(l, now, sender, init, amount) && sender !in init && sender != last && last !in init
    requires Shortfall(l, init, amount) <= Balance(l, sender)
    ensures var run := Execute(now, sender, Transfer(last, Missing(l, last, amount)));
      && (run.Some? <==> Shortfall(l, init + [last], amount) <= Balance(l, sender))
      && (run.Some? ==> Funded(l, run.value, sender, init + [last], amount))
    ensures Missing(l, last, amount) == 0 ==> Funded(l, now, sender, init + [last], amount)
  {
    ShortfallSnoc(l, init, last, amount);
    assert forall a :: a in init + [last] <==> a in init || a == last;
  }

  lemma {:induction false} SomeoneIsMissing(l: Ledger, addresses: seq<Address>, amount: nat) returns (a: Address)
    requires Shortfall(l, addresses, amount) > 0
    ensures a in addresses && Missing(l, a, amount) > 0
  {
    var last := addresses[|addresses| - 1];
    if Missing(l, last, amount) > 0 {
      a := last;
    } else {
      a := SomeoneIsMissing(l, addresses[..|addresses| - 1], amount);
    }
  }

  /** A second pass over funded addresses queues nothing. */
  lemma {:induction false} FundedNeedsNothing(l: Ledger, sender: Address, addresses: seq<Address>, amount: nat)
    requires forall a :: a in addresses ==> Balance(l, a) >= amount
    ensures Fund(l, sender, addresses, amount) == Funding([], false)
  {
    if addresses != [] {
      FundedNeedsNothing(l, sender, addresses[..|addresses| - 1], amount);
    }
  }

  /** Transfers are queued exactly when someone falls short. */
  lemma {:induction false} QueuedIfShort(l: Ledger, sender: Address, addresses: seq<Address>, amount: nat)
    requires !Fund(l, sender, addresses, amount).raised
    ensures Fund(l, sender, addresses, amount).calls == [] <==> Shortfall(l, addresses, amount) == 0
  {
    if addresses != [] {
      QueuedIfShort(l, sender, addresses[..|addresses| - 1], amount);
    }
  }

  /**
   Starting from an empty queue, funding distinct addresses brings each to the larger of its balance and `amount`
   exactly when the sender holds the sum of the shortfalls and sending the batch does not raise. Only single
   shortfalls are checked before the flush, so a sender that is short either raises or sees the whole batch revert.
   No balance changes unless all are funded.
   */
  lemma {:induction false} FundingIsExact(s: State, genesis: Ledger, account: Account, addresses: seq<Address>,
                                          amount: nat, failAt: nat)
    requires s.queue == []
    requires Distinct(addresses) && account.address !in addresses
    ensures var next := FundAll(s, genesis, account, addresses, amount, failAt);
      var l, after := Replay(genesis, s.sent), Replay(genesis, next.sent);
      var shortfall := Shortfall(l, addresses, amount);
      var funds := shortfall <= Balance(l, account.address) && (failAt > 0 || shortfall == 0);
      && Supply(after) == Supply(l)
      && ((forall a :: a in addresses ==> Balance(after, a) == Balance(l, a) + Missing(l, a, amount)) <==> funds)
      && (if funds then
            && Funded(l, after, account.address, addresses, amount)
            && Fund(after, account.address, addresses, amount) == Funding([], false)
          else after == l)
  {
    var l := Replay(genesis, s.sent);
    var funding := Fund(l, account.address, addresses, amount);
    FundingRuns(l, account.address, addresses, amount);
    RaisedFundingStaysLazy(s, genesis, account, addresses, amount, failAt);
    if !funding.raised {
      QueuedIfShort(l, account.address, addresses, amount);
      if failAt > 0 || funding.calls == [] {
        BatchRuns(s, genesis, account, funding.calls, failAt);
        TransactKeepsSupply(l, account.address, funding.calls);
      }
    }
    if Shortfall(l, addresses, amount) > 0 {
      var a := SomeoneIsMissing(l, addresses, amount);
    }
    if Shortfall(l, addresses, amount) <= Balance(l, account.address) {
      FundedNeedsNothing(Transact(l, account.address, funding.calls), account.address, addresses, amount);
    }
  }

  /**
   An exception while funding, of a check or of sending the batch, sends nothing and leaves the account lazy with
   the transfers queued so far still pending. Otherwise the queue is empty and the laziness restored.
   */
  lemma {:induction false} RaisedFundingStaysLazy(s: State, genesis: Ledger, account: Account, addresses: seq<Address>,
                                                  amount: nat, failAt: nat)
    requires s.queue == []
    ensures var next := FundAll(s, genesis, account, addresses, amount, failAt);
      var funding := Fund(Replay(genesis, s.sent), account.address, addresses, amount);
      if funding.raised || (failAt == 0 && funding.calls != [])
      then next == MarkLazy(s, account, true).(queue := Pending(account, funding.calls))
      else next.queue == [] && next.lazy == s.lazy
  {
    var funding := Fund(Replay(genesis, s.sent), account.address, addresses, amount);
    if funding.raised {
      QueueAllOfLazy(MarkLazy(s, account, true), account, funding.calls);
    } else if failAt == 0 && funding.calls != [] {
      BatchRaises(s, account, funding.calls);
    } else {
      BatchRuns(s, genesis, account, funding.calls, failAt);
    }
  }

  // Round robin.

  /** The pool position after `k` calls of `Next`. */
  function IndexAfter(start: nat, n: nat, k: nat): nat
    requires 0 < n
  {
    if k == 0 then start else (IndexAfter(start, n, k - 1) + 1) % n
  }

  /** How often `k` calls pick position `p`. */
  function Picks(start: nat, n: nat, p: nat, k: nat): nat
    requires 0 < n
  {
    if k == 0 then 0 else Picks(start, n, p, k - 1) + if IndexAfter(start, n, k - 1) == p then 1 else 0
  }

  /** `Picks` counts the calls that are at the position. */
  lemma {:induction false} PicksCount(start: nat, n: nat, p: nat, k: nat)
    requires 0 < n
    ensures Picks(start, n, p, k) == |CallsAt(start, n, p, k)|
  {
    if k > 0 {
      PicksCount(start, n, p, k - 1);
      CallsAtNext(start, n, p, k - 1);
    }
  }

  /** The calls, among the first `k`, that are at the position. */
  function CallsAt(start: nat, n: nat, p: nat, k: nat): set<nat>
    requires 0 < n
  {
    set j: nat | j < k && IndexAfter(start, n, j) == p
  }

  lemma {:induction false} CallsAtNext(start: nat, n: nat, p: nat, k: nat)
    requires 0 < n
    ensures CallsAt(start, n, p, k + 1) == CallsAt(start, n, p, k) + if IndexAfter(start, n, k) == p then {k} else {}
    ensures k !in CallsAt(start, n, p, k)
  {
  }

  /** How many calls before position `p` comes up. */
  function Distance(start: nat, n: nat, p: nat): nat
    requires start < n && p < n
  {
    if start <= p then p - start else p + n - start
  }

  /** After some full rounds, the next `offset` positions lead by one pick. */
  lemma {:induction false} RoundsAndOffset(start: nat, n: nat, k: nat) returns (rounds: nat, offset: nat)
    requires start < n
    ensures offset < n && IndexAfter(start, n, k) < n
    ensures Distance(start, n, IndexAfter(start, n, k)) == offset
    ensures forall p :: 0 <= p < n ==> Picks(start, n, p, k) == rounds + if Distance(start, n, p) < offset then 1 else 0
  {
    if k == 0 {
      rounds, offset := 0, 0;
    } else {
      rounds, offset := RoundsAndOffset(start, n, k - 1);
      NextIndex(IndexAfter(start, n, k - 1), n);
      if offset + 1 == n {
        rounds, offset := rounds + 1, 0;
      } else {
        offset := offset + 1;
      }
    }
  }

  lemma {:induction false} NextIndex(i: nat, n: nat)
    requires i < n
    ensures (i + 1) % n == if i + 1 == n then 0 else i + 1
  {
    ModIs(i + 1, n, if i + 1 == n then 1 else 0, if i + 1 == n then 0 else i + 1);
  }

  /** The `k`-th call returns the account at `(start + k) % n`. */
  lemma {:induction false} IndexWraps(start: nat, n: nat, k: nat)
    requires start < n
    ensures IndexAfter(start, n, k) == (start + k) % n
  {
    var turns := TurnsOf(start, n, k);
    ModIs(start + k, n, turns, IndexAfter(start, n, k));
  }

  /** How often the index wrapped. */
  lemma {:induction false} TurnsOf(start: nat, n: nat, k: nat) returns (turns: nat)
    requires start < n
    ensures IndexAfter(start, n, k) < n && start + k == turns * n + IndexAfter(start, n, k)
  {
    if k == 0 {
      turns := 0;
    } else {
      turns := TurnsOf(start, n, k - 1);
      NextIndex(IndexAfter(start, n, k - 1), n);
      if IndexAfter(start, n, k) == 0 {
        assert (turns + 1) * n == turns * n + n;
        turns := turns + 1;
      }
    }
  }

  /** Over any consecutive calls, no two positions differ by more than one pick. */
  lemma {:induction false} RoundRobinIsFair(start: nat, n: nat, k: nat, p: nat, q: nat)
    requires start < n && p < n && q < n
    ensures -1 <= Picks(start, n, p, k) - Picks(start, n, q, k) <= 1
  {
    var rounds, offset := RoundsAndOffset(start, n, k);
  }

  lemma {:induction false} ModIs(x: nat, n: nat, q: nat, r: nat)
    requires r < n && x == q * n + r
    ensures x % n == r
  {
    var d := q - x / n;
    assert x == x / n * n + x % n;
    assert d * n == x % n - r;
    MultipleIsFar(d, n);
  }

  lemma {:induction false} MultipleIsFar(d: int, n: int)
    requires 0 < n
    ensures 1 <= d ==> n <= d * n
    ensures d <= -1 ==> d * n <= -n
  {
  }
}
