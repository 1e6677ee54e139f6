/**
 The per-account nonce cache: bounded polling with resynchronisation, and rollback of rejected transactions.
 `NonceCache` is the module state; the rest of the module runs one client against a network that moves on its own.
 */
module Nonces {
  import opened Wrappers

  type Address = nat

  const RETRIES := 10

  /** The answers the network gives to the successive polls of one request. */
  type Polls = nat -> nat

  /** The last poll of a wait that starts at poll `at` with `retries` retries left. */
  function LastPoll(network: Polls, expected: int, retries: nat, at: nat): (last: nat)
    ensures at <= last <= at + retries
    decreases retries
  {
    if network(at) == expected || retries == 0 then at else LastPoll(network, expected, retries - 1, at + 1)
  }

  /** A wait ends at the first answer that is the expected nonce, or at its last retry. */
  lemma {:induction false} LastPollIsFirstMatch(network: Polls, expected: int, retries: nat, at: nat)
    ensures var last := LastPoll(network, expected, retries, at);
      && (forall i :: at <= i < last ==> network(i) != expected)
      && (network(last) == expected || last == at + retries)
    decreases retries
  {
    if network(at) != expected && retries > 0 {
      LastPollIsFirstMatch(network, expected, retries - 1, at + 1);
    }
  }

  /** A request polls once more when the account has no cached nonce, and waits for that first answer. */
  function RequestPolls(nonces: map<Address, int>, account: Address, network: Polls): nat {
    1 + if account in nonces then LastPoll(network, nonces[account], RETRIES, 0)
        else LastPoll(network, network(0), RETRIES, 1)
  }

  /**
   A request ends at the first answer that is the cached nonce, or the first answer of all when none is cached, and
   after ten retries at the latest.
   */
  lemma {:induction false} RequestEndsAtMatch(nonces: map<Address, int>, account: Address, network: Polls)
    ensures var first := if account in nonces then 0 else 1;
      var expected := if account in nonces then nonces[account] else network(0);
      var polls := RequestPolls(nonces, account, network);
      && first < polls <= first + 11
      && (forall i :: first <= i < polls - 1 ==> network(i) != expected)
      && (network(polls - 1) == expected || polls == first + 11)
  {
    if account in nonces {
      LastPollIsFirstMatch(network, nonces[account], RETRIES, 0);
    } else {
      LastPollIsFirstMatch(network, network(0), RETRIES, 1);
    }
  }

  class NonceCache {
    var nonces: map<Address, int>

    constructor ()
      ensures nonces == map[]
    {
      nonces := map[];
    }

    /** `get_nonce`; `polls` counts the calls to the network. */
    method GetNonce(account: Address, network: Polls) returns (nonce: int, polls: nat)
      modifies this
      ensures polls == RequestPolls(old(nonces), account, network)
      ensures polls <= 12
      ensures nonce == network(polls - 1)
      ensures nonces == old(nonces)[account := nonce + 1]
    {
      polls := 0;
      if account !in nonces {
        nonces := nonces[account := network(polls)];
        polls := polls + 1;
      }
      ghost var last := LastPoll(network, nonces[account], RETRIES, polls);
      ghost var expected := nonces[account];
      var networkNonce := network(polls);
      polls := polls + 1;
      var retries := RETRIES;
      while networkNonce != nonces[account] && retries > 0
        invariant account in nonces && nonces[account] == expected && nonces[account := 0] == old(nonces)[account := 0]
        invariant 0 <= retries && 0 < polls
        invariant networkNonce == network(polls - 1)
        invariant last == LastPoll(network, expected, retries, polls - 1)
        decreases retries
      {
        networkNonce := network(polls);
        polls := polls + 1;
        retries := retries - 1;
      }
      if retries == 0 {
        nonces := nonces[account := networkNonce];
      }
      nonce := nonces[account];
      nonces := nonces[account := nonces[account] + 1];
    }

    /** The rollback after a rejection; `found` is false when it raises KeyError. */
    method Rollback(account: Address) returns (found: bool)
      modifies this
      ensures found == (account in old(nonces))
      ensures nonces == if found then old(nonces)[account := old(nonces)[account] - 1] else old(nonces)
    {
      found := account in nonces;
      if found {
        nonces := nonces[account := nonces[account] - 1];
      }
    }
  }

  // One client and the network, step by step.

  datatype Status = Pending | Accepted | Rejected

  datatype Tx = Tx(account: Address, nonce: int, status: Status)

  /** Where the client is: between requests, polling, holding a nonce it has not sent, or watching a transaction. */
  datatype Phase =
    | Idle
    | Filling(account: Address)
    | Comparing(account: Address, retries: nat)
    | Holding(account: Address, nonce: int)
    | Watching(id: nat)

  datatype State = State(nonces: map<Address, int>, network: map<Address, nat>, phase: Phase,
                         txs: seq<Tx>, accepted: seq<nat>)

  datatype Action =
    // the client
    | Begin(account: Address)
    | Poll
    | Send
    | SendFails
    | Observe
    | GiveUp
    // the network
    | Accept(id: nat, raisedTo: nat)
    | Reject(id: nat)
    | Bump(account: Address, raisedTo: nat)

  function NetworkNonce(s: State, a: Address): nat {
    if a in s.network then s.network[a] else 0
  }

  datatype Client = Client(nonces: map<Address, int>, phase: Phase)

  /** The client after one answer. `Comparing` counts the retries left once this answer has been compared. */
  function ClientPoll(c: Client, answer: nat): Option<Client> {
    match c.phase
    case Filling(a) => Some(Client(c.nonces[a := answer], Comparing(a, RETRIES)))
    case Comparing(a, retries) =>
      if a !in c.nonces then None
      else if answer != c.nonces[a] && retries > 0 then Some(c.(phase := Comparing(a, retries - 1)))
      else
        var nonce := if retries == 0 then answer as int else c.nonces[a];
        Some(Client(c.nonces[a := nonce + 1], Holding(a, nonce)))
    case _ => None
  }

  function BeginPhase(nonces: map<Address, int>, a: Address): Phase {
    if a in nonces then Comparing(a, RETRIES) else Filling(a)
  }

  /**
   One step; `None` when it is not enabled. A `checked` network accepts a transaction only at the account's
   current nonce; an unchecked one accepts any pending transaction and raises the nonce past it.
   */
  function Step(s: State, action: Action, checked: bool): Option<State> {
    match action
    case Begin(a) =>
      if s.phase.Idle? then Some(s.(phase := BeginPhase(s.nonces, a))) else None
    case Poll =>
      if !(s.phase.Filling? || s.phase.Comparing?) then None
      else
        (match ClientPoll(Client(s.nonces, s.phase), NetworkNonce(s, s.phase.account))
         case None => None
         case Some(c) => Some(s.(nonces := c.nonces, phase := c.phase)))
    case Send =>
      if s.phase.Holding? then
        Some(s.(phase := Watching(|s.txs|), txs := s.txs + [Tx(s.phase.account, s.phase.nonce, Pending)]))
      else None
    case SendFails =>
      if s.phase.Holding? then Some(s.(phase := Idle)) else None
    case Observe =>
      if !(s.phase.Watching? && s.phase.id < |s.txs|) then None
      else
        var tx := s.txs[s.phase.id];
        if tx.status.Accepted? then Some(s.(phase := Idle))
        else if tx.status.Rejected? && tx.account in s.nonces then
          Some(s.(phase := Idle, nonces := s.nonces[tx.account := s.nonces[tx.account] - 1]))
        else None
    case GiveUp =>
      if s.phase.Watching? then Some(s.(phase := Idle)) else None
    case Accept(i, raisedTo) =>
      if i < |s.txs| && s.txs[i].status.Pending? && s.txs[i].nonce < raisedTo
          && NetworkNonce(s, s.txs[i].account) <= raisedTo
         && (checked ==> NetworkNonce(s, s.txs[i].account) == s.txs[i].nonce) then
        Some(s.(network := s.network[s.txs[i].account := raisedTo],
                txs := s.txs[i := s.txs[i].(status := Accepted)],
                accepted := s.accepted + [i]))
      else None
    case Reject(i) =>
      if i < |s.txs| && s.txs[i].status.Pending? then
        Some(s.(txs := s.txs[i := s.txs[i].(status := Rejected)]))
      else None
    case Bump(a, raisedTo) =>
      if NetworkNonce(s, a) <= raisedTo then Some(s.(network := s.network[a := raisedTo])) else None
  }

  function Run(s: State, actions: seq<Action>, checked: bool): Option<State> {
    if actions == [] then Some(s)
    else
      match Run(s, actions[..|actions| - 1], checked)
      case None => None
      case Some(before) => Step(before, actions[|actions| - 1], checked)
  }

  function Start(network: map<Address, nat>): State {
    State(map[], network, Idle, [], [])
  }

  /** The cache changes when a request is answered, for its account, and when a rejection is observed; not otherwise. */
  lemma {:induction false} CacheChanges(s: State, action: Action, checked: bool)
    requires Step(s, action, checked).Some?
    ensures var next := Step(s, action, checked).value;
      match action
      case Poll =>
        next.nonces - {s.phase.account} == s.nonces - {s.phase.account}
      case Observe => next.nonces ==
        if s.txs[s.phase.id].status.Rejected?
        then s.nonces[s.txs[s.phase.id].account := s.nonces[s.txs[s.phase.id].account] - 1] else s.nonces
      case _ => next.nonces == s.nonces
  {
  }

  // The polling steps do what `GetNonce` does.

  function ClientPolls(c: Client, network: Polls, from: nat, count: nat): Option<Client>
    decreases count
  {
    if count == 0 then Some(c)
    else
      match ClientPoll(c, network(from))
      case None => None
      case Some(next) => ClientPolls(next, network, from + 1, count - 1)
  }

  lemma {:induction false} ComparingEnds(nonces: map<Address, int>, a: Address, retries: nat, network: Polls, from: nat)
    requires a in nonces
    ensures var last := LastPoll(network, nonces[a], retries, from);
      ClientPolls(Client(nonces, Comparing(a, retries)), network, from, last + 1 - from)
      == Some(Client(nonces[a := network(last) + 1], Holding(a, network(last))))
    decreases retries
  {
    var last := LastPoll(network, nonces[a], retries, from);
    var c := Client(nonces, Comparing(a, retries));
    var next := ClientPoll(c, network(from)).value;
    if network(from) == nonces[a] || retries == 0 {
      assert ClientPolls(next, network, from + 1, 0) == Some(next);
    } else {
      ComparingEnds(nonces, a, retries - 1, network, from + 1);
    }
  }

  /** As many polls as `GetNonce` makes bring the client from `Begin` to the nonce that `GetNonce` returns. */
  lemma {:induction false} PollsRefineGetNonce(nonces: map<Address, int>, a: Address, network: Polls)
    ensures var polls := RequestPolls(nonces, a, network); var nonce := network(polls - 1);
      ClientPolls(Client(nonces, BeginPhase(nonces, a)), network, 0, polls)
      == Some(Client(nonces[a := nonce + 1], Holding(a, nonce)))
  {
    if a in nonces {
      ComparingEnds(nonces, a, RETRIES, network, 0);
    } else {
      var filled := nonces[a := network(0) as int];
      ComparingEnds(filled, a, RETRIES, network, 1);
      var polls := RequestPolls(nonces, a, network);
      var nonce := network(polls - 1);
      assert filled[a := nonce + 1] == nonces[a := nonce + 1];
    }
  }

  // Safety over all runs.

  /** Issued nonces never exceed the network nonce, never decrease, and lie below it once accepted. */
  ghost predicate Safe(s: State) {
    && (forall i :: 0 <= i < |s.txs| ==> s.txs[i].nonce <= NetworkNonce(s, s.txs[i].account))
    && (forall i :: 0 <= i < |s.txs| && s.txs[i].status.Accepted? ==>
          s.txs[i].nonce < NetworkNonce(s, s.txs[i].account))
    && (forall i, j :: 0 <= i < j < |s.txs| && s.txs[i].account == s.txs[j].account ==>
          s.txs[i].nonce <= s.txs[j].nonce)
    && (s.phase.Holding? ==> s.phase.nonce <= NetworkNonce(s, s.phase.account))
    && (s.phase.Holding? ==>
          forall i :: 0 <= i < |s.txs| && s.txs[i].account == s.phase.account ==> s.txs[i].nonce <= s.phase.nonce)
  }

  lemma {:induction false} StepIsSafe(s: State, action: Action, checked: bool)
    requires Safe(s) && Step(s, action, checked).Some?
    ensures Safe(Step(s, action, checked).value)
  {
    match action {
      case Accept(i, raisedTo) =>
        NetworkRisesIsSafe(s, s.txs[i].account, raisedTo, s.txs[i := s.txs[i].(status := Accepted)], s.accepted + [i]);
      case Bump(a, raisedTo) => NetworkRisesIsSafe(s, a, raisedTo, s.txs, s.accepted);
      case Send => SendIsSafe(s);
      case Poll => PollIsSafe(s);
      case Reject(i) => RejectIsSafe(s, i);
      case _ =>
    }
  }

  lemma {:induction false} NetworkRisesIsSafe(s: State, a: Address, raisedTo: nat, txs: seq<Tx>, accepted: seq<nat>)
    requires Safe(s) && NetworkNonce(s, a) <= raisedTo
    requires |txs| == |s.txs| && forall i :: 0 <= i < |txs| ==>
      && txs[i].account == s.txs[i].account && txs[i].nonce == s.txs[i].nonce
      && (txs[i].status == s.txs[i].status || (txs[i].account == a && txs[i].nonce < raisedTo))
    ensures Safe(s.(network := s.network[a := raisedTo], txs := txs, accepted := accepted))
  {
  }

  lemma {:induction false} PollIsSafe(s: State)
    requires Safe(s) && (s.phase.Filling? || s.phase.Comparing?)
    ensures match ClientPoll(Client(s.nonces, s.phase), NetworkNonce(s, s.phase.account)) {
      case None => true
      case Some(c) => Safe(s.(nonces := c.nonces, phase := c.phase))
    }
  {
  }

  lemma {:induction false} RejectIsSafe(s: State, i: nat)
    requires Safe(s) && i < |s.txs| && s.txs[i].status.Pending?
    ensures Safe(s.(txs := s.txs[i := s.txs[i].(status := Rejected)]))
  {
  }

  lemma {:induction false} SendIsSafe(s: State)
    requires Safe(s) && s.phase.Holding?
    ensures Safe(s.(phase := Watching(|s.txs|), txs := s.txs + [Tx(s.phase.account, s.phase.nonce, Pending)]))
  {
  }

  lemma {:induction false} RunIsSafe(network: map<Address, nat>, actions: seq<Action>, checked: bool)
    requires Run(Start(network), actions, checked).Some?
    ensures Safe(Run(Start(network), actions, checked).value)
  {
    if actions == [] {
    } else {
      RunIsSafe(network, actions[..|actions| - 1], checked);
      var before := Run(Start(network), actions[..|actions| - 1], checked).value;
      StepIsSafe(before, actions[|actions| - 1], checked);
    }
  }

  /**
   In every run, through timeouts, resynchronisations and rollbacks, a request gives out the network's current
   nonce: at least every nonce the account was given before and more than that of every accepted transaction.
   */
  lemma {:induction false} NoAcceptedNonceIsReissued(network: map<Address, nat>, actions: seq<Action>, checked: bool)
    requires Run(Start(network), actions + [Poll], checked).Some?
    ensures var s := Run(Start(network), actions, checked).value;
      var next := Run(Start(network), actions + [Poll], checked).value;
      next.phase.Holding? ==>
        && next.phase.nonce == NetworkNonce(s, next.phase.account)
        && (forall i :: 0 <= i < |s.txs| && s.txs[i].account == next.phase.account ==>
              s.txs[i].nonce <= next.phase.nonce)
        && (forall i :: 0 <= i < |s.txs| && s.txs[i].account == next.phase.account && s.txs[i].status.Accepted?
              ==> s.txs[i].nonce < next.phase.nonce)
  {
    assert (actions + [Poll])[..|actions|] == actions;
    RunIsSafe(network, actions, checked);
  }

  /** Accepted transactions of one account: nonces strictly increase, in the order in which they were submitted. */
  ghost predicate InOrder(s: State) {
    OrderOf(s.txs, s.accepted)
  }

  ghost predicate OrderOf(txs: seq<Tx>, accepted: seq<nat>) {
    && (forall p :: 0 <= p < |accepted| ==> accepted[p] < |txs| && txs[accepted[p]].status.Accepted?)
    && (forall p, q :: 0 <= p < q < |accepted| && txs[accepted[p]].account == txs[accepted[q]].account
          ==> accepted[p] < accepted[q] && txs[accepted[p]].nonce < txs[accepted[q]].nonce)
  }

  lemma {:induction false} StepKeepsOrder(s: State, action: Action)
    requires Safe(s) && InOrder(s) && Step(s, action, true).Some?
    ensures InOrder(Step(s, action, true).value)
  {
    match action {
      case Accept(i, raisedTo) => AcceptKeepsOrder(s, i);
      case Reject(i) => StatusKeepsOrder(s, s.txs[i := s.txs[i].(status := Rejected)]);
      case Send => StatusKeepsOrder(s, s.txs + [Tx(s.phase.account, s.phase.nonce, Pending)]);
      case _ =>
    }
  }

  /** A transaction accepted at the network's nonce comes after all accepted ones of its account. */
  lemma {:induction false} AcceptKeepsOrder(s: State, i: nat)
    requires Safe(s) && InOrder(s) && i < |s.txs|
    requires s.txs[i].status.Pending? && NetworkNonce(s, s.txs[i].account) == s.txs[i].nonce
    ensures OrderOf(s.txs[i := s.txs[i].(status := Accepted)], s.accepted + [i])
  {
  }

  lemma {:induction false} StatusKeepsOrder(s: State, txs: seq<Tx>)
    requires InOrder(s) && |s.txs| <= |txs|
    requires forall i :: 0 <= i < |s.txs| ==>
      && txs[i].account == s.txs[i].account && txs[i].nonce == s.txs[i].nonce
      && (s.txs[i].status.Accepted? ==> txs[i].status.Accepted?)
    ensures OrderOf(txs, s.accepted)
  {
  }

  lemma {:induction false} AcceptedNoncesIncrease(network: map<Address, nat>, actions: seq<Action>)
    requires Run(Start(network), actions, true).Some?
    ensures InOrder(Run(Start(network), actions, true).value)
  {
    if actions == [] {
    } else {
      AcceptedNoncesIncrease(network, actions[..|actions| - 1]);
      RunIsSafe(network, actions[..|actions| - 1], true);
      StepKeepsOrder(Run(Start(network), actions[..|actions| - 1], true).value, actions[|actions| - 1]);
    }
  }

  // A network that checks no nonces: the order holds as long as the client waits for every transaction.

  /** The nonce lies above every accepted one of the account. */
  ghost predicate AboveAccepted(s: State, a: Address, nonce: int) {
    forall i :: 0 <= i < |s.txs| && s.txs[i].account == a && s.txs[i].status.Accepted? ==> s.txs[i].nonce < nonce
  }

  /** Only the last transaction can be pending, the client watches it, and its nonce is a new one. */
  ghost predicate Awaited(s: State) {
    && (s.phase.Watching? ==> s.phase.id + 1 == |s.txs|)
    && (s.phase.Holding? ==> AboveAccepted(s, s.phase.account, s.phase.nonce))
    && (forall i :: 0 <= i < |s.txs| && s.txs[i].status.Pending?
          ==> s.phase == Watching(i) && AboveAccepted(s, s.txs[i].account, s.txs[i].nonce))
  }

  /** The client stops watching a transaction that is still pending. */
  predicate GivesUpPending(s: State, action: Action) {
    action.GiveUp? && s.phase.Watching? && s.phase.id < |s.txs| && s.txs[s.phase.id].status.Pending?
  }

  /** The client gives up no submission whose transaction is pending, for instance none at all. */
  predicate Awaits(start: State, actions: seq<Action>) {
    actions == [] ||
    var init := actions[..|actions| - 1];
    && Awaits(start, init)
    && Run(start, init, false).Some?
    && !GivesUpPending(Run(start, init, false).value, actions[|actions| - 1])
  }

  lemma {:induction false} StepIsAwaited(s: State, action: Action)
    requires Safe(s) && Awaited(s) && !GivesUpPending(s, action) && Step(s, action, false).Some?
    ensures Awaited(Step(s, action, false).value)
  {
  }

  lemma {:induction false} AwaitedStepKeepsOrder(s: State, action: Action)
    requires Awaited(s) && InOrder(s) && Step(s, action, false).Some?
    ensures InOrder(Step(s, action, false).value)
  {
    match action {
      case Accept(i, raisedTo) =>
      case Reject(i) => StatusKeepsOrder(s, s.txs[i := s.txs[i].(status := Rejected)]);
      case Send => StatusKeepsOrder(s, s.txs + [Tx(s.phase.account, s.phase.nonce, Pending)]);
      case _ =>
    }
  }

  /**
   On any network whose nonces never decrease, other users of the accounts included, accepted nonces increase in
   every run in which no submission is given up while its transaction is pending.
   */
  lemma {:induction false} AwaitedNoncesIncrease(network: map<Address, nat>, actions: seq<Action>)
    requires Awaits(Start(network), actions) && Run(Start(network), actions, false).Some?
    ensures InOrder(Run(Start(network), actions, false).value)
  {
    if actions == [] {
    } else {
      AwaitedNoncesIncrease(network, actions[..|actions| - 1]);
      RunIsAwaited(network, actions[..|actions| - 1]);
      AwaitedStepKeepsOrder(Run(Start(network), actions[..|actions| - 1], false).value, actions[|actions| - 1]);
    }
  }

  lemma {:induction false} RunIsAwaited(network: map<Address, nat>, actions: seq<Action>)
    requires Awaits(Start(network), actions) && Run(Start(network), actions, false).Some?
    ensures Awaited(Run(Start(network), actions, false).value)
  {
    if actions == [] {
    } else {
      RunIsAwaited(network, actions[..|actions| - 1]);
      RunIsSafe(network, actions[..|actions| - 1], false);
      StepIsAwaited(Run(Start(network), actions[..|actions| - 1], false).value, actions[|actions| - 1]);
    }
  }

  // Without other users of the accounts, the order holds exactly when every nonce would pass the check.

  /** `accepted` lists exactly the accepted transactions. */
  ghost predicate Listed(s: State) {
    && (forall p :: 0 <= p < |s.accepted| ==> s.accepted[p] < |s.txs| && s.txs[s.accepted[p]].status.Accepted?)
    && (forall i: nat :: i < |s.txs| && s.txs[i].status.Accepted? ==> i in s.accepted)
  }

  ghost predicate AcceptedFrom(txs: seq<Tx>, a: Address, nonce: int) {
    exists i :: 0 <= i < |txs| && txs[i].account == a && txs[i].status.Accepted? && txs[i].nonce >= nonce
  }

  /** A nonce below the network's is at most that of some accepted transaction of the account. */
  ghost predicate Explains(s: State, a: Address, nonce: int) {
    nonce < NetworkNonce(s, a) ==> AcceptedFrom(s.txs, a, nonce)
  }

  /** Only accepted transactions raised the network's nonces past those that were given out. */
  ghost predicate Explained(s: State) {
    && (forall i :: 0 <= i < |s.txs| ==> Explains(s, s.txs[i].account, s.txs[i].nonce))
    && (s.phase.Holding? ==> Explains(s, s.phase.account, s.phase.nonce))
  }

  lemma {:induction false} StepIsListed(s: State, action: Action)
    requires Listed(s) && Step(s, action, false).Some?
    ensures Listed(Step(s, action, false).value)
  {
  }

  lemma {:induction false} StepIsExplained(s: State, action: Action)
    requires Safe(s) && Explained(s) && !action.Bump? && Step(s, action, true).Some?
    ensures Explained(Step(s, action, true).value)
  {
    var next := Step(s, action, true).value;
    if action.Accept? {
      AcceptIsExplained(s, next, action.id);
    } else {
      QuietStepIsExplained(s, next);
    }
  }

  lemma {:induction false} AcceptedStays(txs: seq<Tx>, next: seq<Tx>, a: Address, nonce: int)
    requires |txs| <= |next| && forall i :: 0 <= i < |txs| && txs[i].status.Accepted? ==> next[i] == txs[i]
    requires AcceptedFrom(txs, a, nonce)
    ensures AcceptedFrom(next, a, nonce)
  {
    var i :| 0 <= i < |txs| && txs[i].account == a && txs[i].status.Accepted? && txs[i].nonce >= nonce;
    assert next[i] == txs[i];
  }

  lemma {:induction false} QuietStepIsExplained(s: State, next: State)
    requires Explained(s) && next.network == s.network
    requires |s.txs| <= |next.txs|
    requires forall i :: 0 <= i < |s.txs| && s.txs[i].status.Accepted? ==> next.txs[i] == s.txs[i]
    requires forall i :: 0 <= i < |next.txs| ==> Explains(s, next.txs[i].account, next.txs[i].nonce)
    requires next.phase.Holding? ==> Explains(s, next.phase.account, next.phase.nonce)
    ensures Explained(next)
  {
    forall i | 0 <= i < |next.txs|
      ensures Explains(next, next.txs[i].account, next.txs[i].nonce)
    {
      StaysExplained(s, next, next.txs[i].account, next.txs[i].nonce);
    }
    if next.phase.Holding? {
      StaysExplained(s, next, next.phase.account, next.phase.nonce);
    }
  }

  lemma {:induction false} StaysExplained(s: State, next: State, a: Address, nonce: int)
    requires Explains(s, a, nonce) && NetworkNonce(next, a) == NetworkNonce(s, a)
    requires |s.txs| <= |next.txs|
    requires forall i :: 0 <= i < |s.txs| && s.txs[i].status.Accepted? ==> next.txs[i] == s.txs[i]
    ensures Explains(next, a, nonce)
  {
    if nonce < NetworkNonce(s, a) {
      AcceptedStays(s.txs, next.txs, a, nonce);
    }
  }

  /** A transaction accepted at the current nonce explains all nonces of its account. */
  lemma {:induction false} AcceptIsExplained(s: State, next: State, i: nat)
    requires Safe(s) && Explained(s) && i < |s.txs| && s.txs[i].status.Pending?
    requires s.txs[i].nonce == NetworkNonce(s, s.txs[i].account)
    requires next.phase == s.phase && next.txs == s.txs[i := s.txs[i].(status := Accepted)]
    requires forall a :: a != s.txs[i].account ==> NetworkNonce(next, a) == NetworkNonce(s, a)
    ensures Explained(next)
  {
    forall k | 0 <= k < |next.txs|
      ensures Explains(next, next.txs[k].account, next.txs[k].nonce)
    {
      AcceptExplains(s, next, i, s.txs[k].account, s.txs[k].nonce);
    }
    if s.phase.Holding? {
      AcceptExplains(s, next, i, s.phase.account, s.phase.nonce);
    }
  }

  lemma {:induction false} AcceptExplains(s: State, next: State, i: nat, a: Address, nonce: int)
    requires i < |s.txs| && s.txs[i].status.Pending? && next.txs == s.txs[i := s.txs[i].(status := Accepted)]
    requires Explains(s, a, nonce)
    requires if a == s.txs[i].account then nonce <= s.txs[i].nonce else NetworkNonce(next, a) == NetworkNonce(s, a)
    ensures Explains(next, a, nonce)
  {
    if a == s.txs[i].account {
      assert next.txs[i].status.Accepted?;
    } else {
      StaysExplained(s, next, a, nonce);
    }
  }

  lemma {:induction false} OrderWasKept(s: State, action: Action)
    requires Listed(s) && Step(s, action, false).Some? && InOrder(Step(s, action, false).value)
    ensures InOrder(s)
  {
    var next := Step(s, action, false).value;
    forall p, q | 0 <= p < q < |s.accepted| && s.txs[s.accepted[p]].account == s.txs[s.accepted[q]].account
      ensures s.accepted[p] < s.accepted[q] && s.txs[s.accepted[p]].nonce < s.txs[s.accepted[q]].nonce
    {
      assert next.accepted[p] == s.accepted[p] && next.accepted[q] == s.accepted[q];
    }
  }

  /** A nonce below the network's breaks the order when it is accepted. */
  lemma {:induction false} OrderedStepIsChecked(s: State, action: Action)
    requires Safe(s) && Listed(s) && Explained(s)
    requires Step(s, action, false).Some? && InOrder(Step(s, action, false).value)
    ensures Step(s, action, true) == Step(s, action, false)
  {
    match action {
      case Accept(i, raisedTo) => OrderedAcceptIsChecked(s, i, s.txs[i := s.txs[i].(status := Accepted)]);
      case _ =>
    }
  }

  lemma {:induction false} OrderedAcceptIsChecked(s: State, i: nat, txs: seq<Tx>)
    requires Safe(s) && Listed(s) && i < |s.txs| && Explains(s, s.txs[i].account, s.txs[i].nonce)
    requires s.txs[i].status.Pending? && txs == s.txs[i := s.txs[i].(status := Accepted)]
    requires OrderOf(txs, s.accepted + [i])
    ensures s.txs[i].nonce == NetworkNonce(s, s.txs[i].account)
  {
    if s.txs[i].nonce < NetworkNonce(s, s.txs[i].account) {
      var p := LaterAccepted(s, s.txs[i].account, s.txs[i].nonce);
      OrderAt(txs, s.accepted + [i], p, |s.accepted|);
    }
  }

  lemma {:induction false} LaterAccepted(s: State, a: Address, nonce: int) returns (p: nat)
    requires Listed(s) && AcceptedFrom(s.txs, a, nonce)
    ensures p < |s.accepted| && s.accepted[p] < |s.txs|
    ensures var tx := s.txs[s.accepted[p]]; tx.account == a && tx.status.Accepted? && tx.nonce >= nonce
  {
    var j: nat :| j < |s.txs| && s.txs[j].account == a && s.txs[j].status.Accepted? && s.txs[j].nonce >= nonce;
    p :| p < |s.accepted| && s.accepted[p] == j;
  }

  lemma {:induction false} OrderAt(txs: seq<Tx>, accepted: seq<nat>, p: nat, q: nat)
    requires OrderOf(txs, accepted) && p < q < |accepted|
    ensures accepted[p] < |txs| && accepted[q] < |txs|
    ensures txs[accepted[p]].account == txs[accepted[q]].account ==> txs[accepted[p]].nonce < txs[accepted[q]].nonce
  {
  }

  lemma {:induction false} OrderedRunIsChecked(network: map<Address, nat>, actions: seq<Action>)
    requires forall i :: 0 <= i < |actions| ==> !actions[i].Bump?
    requires Run(Start(network), actions, false).Some? && InOrder(Run(Start(network), actions, false).value)
    ensures Run(Start(network), actions, true) == Run(Start(network), actions, false)
    ensures Explained(Run(Start(network), actions, true).value)
  {
    if actions == [] {
    } else {
      var init, last := actions[..|actions| - 1], actions[|actions| - 1];
      var before := Run(Start(network), init, false).value;
      RunIsListed(network, init);
      OrderWasKept(before, last);
      OrderedRunIsChecked(network, init);
      RunIsSafe(network, init, false);
      OrderedStepIsChecked(before, last);
      StepIsExplained(before, last);
    }
  }

  lemma {:induction false} RunIsListed(network: map<Address, nat>, actions: seq<Action>)
    requires Run(Start(network), actions, false).Some?
    ensures Listed(Run(Start(network), actions, false).value)
  {
    if actions == [] {
    } else {
      RunIsListed(network, actions[..|actions| - 1]);
      StepIsListed(Run(Start(network), actions[..|actions| - 1], false).value, actions[|actions| - 1]);
    }
  }

  lemma {:induction false} CheckedRunIsRun(network: map<Address, nat>, actions: seq<Action>)
    requires Run(Start(network), actions, true).Some?
    ensures Run(Start(network), actions, false) == Run(Start(network), actions, true)
  {
    if actions != [] {
      CheckedRunIsRun(network, actions[..|actions| - 1]);
    }
  }

  /**
   When nobody else uses the accounts, accepted nonces increase exactly when every transaction was accepted at the
   current nonce of its account, that is, when a network that checks nonces allows the same run.
   */
  lemma {:induction false} OrderIsNonceChecking(network: map<Address, nat>, actions: seq<Action>)
    requires forall i :: 0 <= i < |actions| ==> !actions[i].Bump?
    requires Run(Start(network), actions, false).Some?
    ensures InOrder(Run(Start(network), actions, false).value) <==> Run(Start(network), actions, true).Some?
  {
    if Run(Start(network), actions, true).Some? {
      CheckedRunIsRun(network, actions);
      AcceptedNoncesIncrease(network, actions);
    } else if InOrder(Run(Start(network), actions, false).value) {
      OrderedRunIsChecked(network, actions);
    }
  }

  // The client gives a nonce out twice when it gives up a submission whose transaction is pending.

  lemma {:induction false} RunSnoc(start: State, actions: seq<Action>, action: Action, checked: bool)
    requires Run(start, actions, checked).Some?
    ensures Run(start, actions + [action], checked) == Step(Run(start, actions, checked).value, action, checked)
  {
    assert (actions + [action])[..|actions|] == actions;
  }

  predicate Continues(actions: seq<Action>, more: seq<Action>) {
    |actions| <= |more| && more[..|actions|] == actions
  }

  /** While the network stays behind, a request uses up its retries and takes the network's nonce. */
  lemma {:induction false} LaggingRequest(start: State, actions: seq<Action>, s: State, a: Address, retries: nat)
    returns (more: seq<Action>)
    requires Run(start, actions, false) == Some(s)
    requires s.phase == Comparing(a, retries) && a in s.nonces && s.nonces[a] != NetworkNonce(s, a)
    ensures var n := NetworkNonce(s, a);
      Run(start, more, false) == Some(s.(nonces := s.nonces[a := n + 1], phase := Holding(a, n)))
    ensures Continues(actions, more)
    decreases retries
  {
    RunSnoc(start, actions, Poll, false);
    more := actions + [Poll];
    if retries > 0 {
      more := LaggingRequest(start, more, s.(phase := Comparing(a, retries - 1)), a, retries - 1);
    }
  }

  /**
   While the network lags behind the cache, a request waits for all its retries and then gives out the network's
   nonce, even when a transaction of the account was sent with that nonce before.
   */
  lemma {:induction false} LaggingNetworkReusesNonce(start: State, actions: seq<Action>, s: State, a: Address, i: nat)
    returns (more: seq<Action>)
    requires Run(start, actions, false) == Some(s) && s.phase.Idle?
    requires a in s.nonces && s.nonces[a] != NetworkNonce(s, a)
    requires i < |s.txs| && s.txs[i].account == a && s.txs[i].nonce == NetworkNonce(s, a)
    ensures RequestPolls(s.nonces, a, _ => NetworkNonce(s, a)) == 11
    ensures var n := s.txs[i].nonce;
      Run(start, more, false) == Some(s.(nonces := s.nonces[a := n + 1], phase := Holding(a, n)))
    ensures Continues(actions, more)
  {
    more := Request(start, actions, s, a);
  }

  /** A submission that is given up while its transaction is pending. */
  lemma {:induction false} TimedOutSubmission(a: Address) returns (actions: seq<Action>)
    ensures Run(Start(map[]), actions, false)
         == Some(State(map[a := 1], map[], Idle, [Tx(a, 0, Pending)], []))
  {
    var start := Start(map[]);
    var none: seq<Tx>, sent := [], Tx(a, 0, Pending);
    assert none + [sent] == [sent];
    var empty, m0, m1: map<Address, int> := map[], map[a := 0], map[a := 1];
    assert empty[a := 0] == m0 && m0[a := 1] == m1;
    var script := [Begin(a), Poll, Poll, Send, GiveUp];
    var states := [
      start,
      State(empty, map[], Filling(a), none, []),
      State(m0, map[], Comparing(a, RETRIES), none, []),
      State(m1, map[], Holding(a, 0), none, []),
      State(m1, map[], Watching(0), [sent], []),
      State(m1, map[], Idle, [sent], [])];
    actions := [];
    for i := 0 to 5
      invariant Run(start, actions, false) == Some(states[i])
    {
      RunSnoc(start, actions, script[i], false);
      actions := actions + [script[i]];
    }
  }

  /** Both submissions carry nonce 0; a network that does not check the nonce can accept them both. */
  lemma {:induction false} UncheckedNetworkAcceptsTwice(a: Address) returns (actions: seq<Action>)
    ensures Run(Start(map[]), actions, false).Some?
    ensures Run(Start(map[]), actions, false).value.txs == [Tx(a, 0, Accepted), Tx(a, 0, Accepted)]
  {
    var start := Start(map[]);
    actions := TimedOutSubmission(a);
    actions := LaggingNetworkReusesNonce(start, actions, Run(start, actions, false).value, a, 0);
    RunSnoc(start, actions, Send, false);
    actions := actions + [Send];
    RunSnoc(start, actions, Accept(0, 1), false);
    actions := actions + [Accept(0, 1)];
    RunSnoc(start, actions, Accept(1, 1), false);
    actions := actions + [Accept(1, 1)];
  }

  /** Comparing while the network does not move ends with its nonce, whatever is cached. */
  lemma {:induction false} Compare(start: State, actions: seq<Action>, s: State, a: Address)
    returns (more: seq<Action>)
    requires Run(start, actions, false) == Some(s) && s.phase == Comparing(a, RETRIES) && a in s.nonces
    ensures var n := NetworkNonce(s, a);
      Run(start, more, false) == Some(s.(nonces := s.nonces[a := n + 1], phase := Holding(a, n)))
    ensures Continues(actions, more)
  {
    if s.nonces[a] == NetworkNonce(s, a) {
      RunSnoc(start, actions, Poll, false);
      more := actions + [Poll];
    } else {
      more := LaggingRequest(start, actions, s, a, RETRIES);
    }
  }

  lemma {:induction false} Request(start: State, actions: seq<Action>, s: State, a: Address)
    returns (more: seq<Action>)
    requires Run(start, actions, false) == Some(s) && s.phase.Idle?
    ensures var n := NetworkNonce(s, a);
      Run(start, more, false) == Some(s.(nonces := s.nonces[a := n + 1], phase := Holding(a, n)))
    ensures Continues(actions, more)
  {
    RunSnoc(start, actions, Begin(a), false);
    var begun := actions + [Begin(a)];
    if a in s.nonces {
      more := Compare(start, begun, s.(phase := Comparing(a, RETRIES)), a);
    } else {
      more := Fill(start, begun, s.(phase := Filling(a)), a);
    }
  }

  /**
   A nonce that was taken but could not be sent is not rolled back: while the network does not move, the next request
   of the account waits for all its retries and gives out the same nonce.
   */
  lemma {:induction false} FailedSendingWaits(start: State, actions: seq<Action>, s: State, a: Address)
    returns (more: seq<Action>)
    requires Run(start, actions, false) == Some(s) && s.phase == Holding(a, NetworkNonce(s, a))
    requires a in s.nonces && s.nonces[a] == NetworkNonce(s, a) + 1
    ensures Step(s, SendFails, false) == Some(s.(phase := Idle))
    ensures RequestPolls(s.nonces, a, _ => NetworkNonce(s, a)) == 11
    ensures Continues(actions + [SendFails], more) && Run(start, more, false) == Some(s)
  {
    var n := NetworkNonce(s, a);
    RunSnoc(start, actions, SendFails, false);
    more := Request(start, actions + [SendFails], s.(phase := Idle), a);
    assert s.nonces[a := n + 1] == s.nonces;
    assert s.(nonces := s.nonces[a := n + 1], phase := Holding(a, n)) == s;
  }

  lemma {:induction false} Fill(start: State, actions: seq<Action>, s: State, a: Address)
    returns (more: seq<Action>)
    requires Run(start, actions, false) == Some(s) && s.phase == Filling(a)
    ensures var n := NetworkNonce(s, a);
      Run(start, more, false) == Some(s.(nonces := s.nonces[a := n + 1], phase := Holding(a, n)))
    ensures Continues(actions, more)
  {
    var n := NetworkNonce(s, a);
    var filled := s.nonces[a := n as int];
    RunSnoc(start, actions, Poll, false);
    more := Compare(start, actions + [Poll], s.(nonces := filled, phase := Comparing(a, RETRIES)), a);
    assert filled[a := n + 1] == s.nonces[a := n + 1];
  }

  /**
   Waiting is needed: once the client has given up any transaction that is pending, in any run, the network can
   continue so that the order breaks. It accepts the next transaction first and then the one that was given up.
   */
  lemma {:induction false} PendingCanBreakOrder(network: map<Address, nat>, actions: seq<Action>, i: nat)
    returns (more: seq<Action>)
    requires Run(Start(network), actions, false).Some?
    requires var s := Run(Start(network), actions, false).value;
      s.phase.Idle? && i < |s.txs| && s.txs[i].status.Pending?
    ensures Continues(actions, more) && Run(Start(network), more, false).Some?
    ensures !InOrder(Run(Start(network), more, false).value)
  {
    var start := Start(network);
    var s := Run(start, actions, false).value;
    var a, j := s.txs[i].account, |s.txs|;
    var n := NetworkNonce(s, a);
    RunIsSafe(network, actions, false);
    more := Request(start, actions, s, a);
    RunSnoc(start, more, Send, false);
    more := more + [Send];
    var sent := Run(start, more, false).value;
    assert sent.txs == s.txs + [Tx(a, n, Pending)];
    RunSnoc(start, more, Accept(j, n + 1), false);
    more := more + [Accept(j, n + 1)];
    var once := Run(start, more, false).value;
    assert once.txs[i] == s.txs[i] && once.accepted == s.accepted + [j];
    RunSnoc(start, more, Accept(i, n + 1), false);
    more := more + [Accept(i, n + 1)];
    var twice, p := Run(start, more, false).value, |s.accepted|;
    assert twice.accepted[p] == j && twice.accepted[p + 1] == i;
    assert twice.txs[j].nonce == n && twice.txs[i].nonce <= n;
  }

  // Runs in which every submission settles before the next.

  /** No failed sending, no timeout, no other user of the accounts; accepting raises the nonce by one. */
  predicate Quiet(s: State, action: Action) {
    match action
    case SendFails => false
    case GiveUp => false
    case Bump(_, _) => false
    case Accept(i, raisedTo) => i < |s.txs| && raisedTo == s.txs[i].nonce + 1
    case _ => true
  }

  predicate QuietRun(s: State, actions: seq<Action>, checked: bool) {
    actions == [] ||
    var init := actions[..|actions| - 1];
    && QuietRun(s, init, checked)
    && Run(s, init, checked).Some?
    && Quiet(Run(s, init, checked).value, actions[|actions| - 1])
  }

  /** The account whose transaction is under way, and by how much its cache runs ahead of the network. */
  ghost predicate Settled(s: State) {
    && (forall i :: 0 <= i < |s.txs| && s.phase != Watching(i) ==> !s.txs[i].status.Pending?)
    && (forall a :: a in s.nonces && !(s.phase.Holding? && s.phase.account == a)
          && !(s.phase.Watching? && s.phase.id < |s.txs| && s.txs[s.phase.id].account == a)
          ==> s.nonces[a] == NetworkNonce(s, a))
    && match s.phase
       case Idle => true
       case Filling(a) => a !in s.nonces
       case Comparing(a, retries) => a in s.nonces && retries == RETRIES
       case Holding(a, nonce) => a in s.nonces && s.nonces[a] == nonce + 1 && NetworkNonce(s, a) == nonce
       case Watching(id) =>
         && id < |s.txs|
         && s.txs[id].account in s.nonces
         && s.nonces[s.txs[id].account] == s.txs[id].nonce + 1
         && NetworkNonce(s, s.txs[id].account)
             == (if s.txs[id].status.Accepted? then s.txs[id].nonce + 1 else s.txs[id].nonce)
  }

  lemma {:induction false} StepSettles(s: State, action: Action, checked: bool)
    requires Settled(s) && Quiet(s, action) && Step(s, action, checked).Some?
    ensures Settled(Step(s, action, checked).value)
  {
  }

  lemma {:induction false} RunSettles(network: map<Address, nat>, actions: seq<Action>, checked: bool)
    requires QuietRun(Start(network), actions, checked) && Run(Start(network), actions, checked).Some?
    ensures Settled(Run(Start(network), actions, checked).value)
  {
    if actions == [] {
    } else {
      RunSettles(network, actions[..|actions| - 1], checked);
      StepSettles(Run(Start(network), actions[..|actions| - 1], checked).value, actions[|actions| - 1], checked);
    }
  }

  /** Between settled submissions every cached nonce is the network's, so the next request needs no retry. */
  lemma {:induction false} CacheMatchesNetworkBetweenSubmissions(network: map<Address, nat>, actions: seq<Action>,
          checked: bool, a: Address)
    requires QuietRun(Start(network), actions, checked) && Run(Start(network), actions, checked).Some?
    requires Run(Start(network), actions, checked).value.phase.Idle?
    requires a in Run(Start(network), actions, checked).value.nonces
    ensures var s := Run(Start(network), actions, checked).value;
      s.nonces[a] == NetworkNonce(s, a) && RequestPolls(s.nonces, a, _ => NetworkNonce(s, a)) == 1
  {
    RunSettles(network, actions, checked);
  }
}
