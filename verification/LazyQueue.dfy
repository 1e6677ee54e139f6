/**
 Lazy execution: calls of lazy accounts are queued per account object and sent as one transaction each by the
 next flush; calls of other accounts are sent at once.
 */
module LazyQueue {

  type Address = nat

  /** An account object. Queues are keyed by object, laziness by address; objects may share an address. */
  datatype Account = Account(id: nat, address: Address)

  /** Calls of one account: a queue slot, or a transaction that was sent. */
  datatype Entry<C> = Entry(account: Account, calls: seq<C>)

  /** `_lazy_execute`, `_logs` in insertion order, and what was sent to the network so far. */
  datatype State<C> = State(lazy: set<Address>, queue: seq<Entry<C>>, sent: seq<Entry<C>>)

  /** `_logs[account].extend(calls)` */
  function Enqueue<C>(queue: seq<Entry<C>>, account: Account, calls: seq<C>): seq<Entry<C>> {
    if queue == [] then [Entry(account, calls)]
    else if queue[0].account == account then [Entry(account, queue[0].calls + calls)] + queue[1..]
    else [queue[0]] + Enqueue(queue[1..], account, calls)
  }

  /** Nothing is sent when the transaction of an invocation `raises`; queueing never does. */
  function Invoke<C>(s: State<C>, account: Account, calls: seq<C>, raises: bool): State<C> {
    if account.address in s.lazy then s.(queue := Enqueue(s.queue, account, calls))
    else if raises then s
    else s.(sent := s.sent + [Entry(account, calls)])
  }

  /**
   A flush whose transaction for slot `failAt` raises; no slot fails when `failAt` is past the end. The queue is
   cleared only once every slot was sent.
   */
  function Flush<C>(s: State<C>, failAt: nat): State<C> {
    if failAt < |s.queue| then s.(sent := s.sent + s.queue[..failAt])
    else s.(sent := s.sent + s.queue, queue := [])
  }

  class Client<C> {
    var lazy: set<Address>
    var queue: seq<Entry<C>>
    var sent: seq<Entry<C>>

    function Now(): State<C>
      reads this
    {
      State(lazy, queue, sent)
    }

    constructor ()
      ensures Now() == State({}, [], [])
    {
      lazy, queue, sent := {}, [], [];
    }

    method RegisterLazyAccount(address: Address)
      modifies this
      ensures Now() == old(Now()).(lazy := old(lazy) + {address})
    {
      lazy := lazy + {address};
    }

    method RemoveLazyAccount(address: Address)
      modifies this
      ensures Now() == old(Now()).(lazy := old(lazy) - {address})
    {
      lazy := lazy - {address};
    }

    /** `execute_v1` behind the `lazy_execute` wrapper. */
    method ExecuteV1(account: Account, calls: seq<C>, raises: bool) returns (ok: bool)
      modifies this
      ensures ok == (account.address in old(lazy) || !raises)
      ensures Now() == Invoke(old(Now()), account, calls, raises)
    {
      if account.address in lazy {
        queue := Enqueue(queue, account, calls);
        return true;
      }
      if raises {
        return false;
      }
      sent := sent + [Entry(account, calls)];
      return true;
    }

    /** `execute_calls`; whether accounts are lazy does not matter here. */
    method ExecuteCalls(failAt: nat) returns (ok: bool)
      modifies this
      ensures ok == (failAt >= old(|queue|))
      ensures Now() == Flush(old(Now()), failAt)
      ensures ok ==> queue == [] && sent == old(sent) + old(queue)
      ensures !ok ==> queue == old(queue) && sent == old(sent) + old(queue)[..failAt]
    {
      var i := 0;
      while i < |queue|
        invariant 0 <= i <= |queue| && i <= failAt
        invariant lazy == old(lazy) && queue == old(queue) && sent == old(sent) + queue[..i]
      {
        if i == failAt {
          return false;
        }
        sent := sent + [queue[i]];
        i := i + 1;
      }
      assert queue[..|queue|] == queue;
      queue := [];
      return true;
    }
  }

  // Runs.

  datatype Event<C> =
    | Invoked(account: Account, calls: seq<C>, raises: bool)
    | Registered(address: Address)
    | Removed(address: Address)
    | Flushed(failAt: nat)

  /** Events are calls of the client. */
  method Perform<C>(client: Client<C>, event: Event<C>) returns (ok: bool)
    modifies client
    ensures client.Now() == Apply(old(client.Now()), event)
  {
    match event {
      case Invoked(account, calls, raises) =>
        ok := client.ExecuteV1(account, calls, raises);
      case Registered(address) =>
        client.RegisterLazyAccount(address);
        ok := true;
      case Removed(address) =>
        client.RemoveLazyAccount(address);
        ok := true;
      case Flushed(failAt) =>
        ok := client.ExecuteCalls(failAt);
    }
  }

  function Apply<C>(s: State<C>, event: Event<C>): State<C> {
    match event
    case Invoked(account, calls, raises) => Invoke(s, account, calls, raises)
    case Registered(address) => s.(lazy := s.lazy + {address})
    case Removed(address) => s.(lazy := s.lazy - {address})
    case Flushed(failAt) => Flush(s, failAt)
  }

  function Run<C>(events: seq<Event<C>>): State<C> {
    if events == [] then State({}, [], [])
    else Apply(Run(events[..|events| - 1]), events[|events| - 1])
  }

  /** The calls that were issued, in order. */
  function Issued<C>(events: seq<Event<C>>): seq<Entry<C>> {
    if events == [] then []
    else Issued(events[..|events| - 1]) + IssuedBy(events[|events| - 1])
  }

  function IssuedBy<C>(event: Event<C>): seq<Entry<C>> {
    if event.Invoked? then [Entry(event.account, event.calls)] else []
  }

  /** The issued calls that the client took on, that is, all but those of invocations that raised. */
  function Taken<C>(events: seq<Event<C>>): seq<Entry<C>> {
    if events == [] then []
    else Taken(events[..|events| - 1]) + TakenBy(Run(events[..|events| - 1]), events[|events| - 1])
  }

  function TakenBy<C>(s: State<C>, event: Event<C>): seq<Entry<C>> {
    if event.Invoked? && event.raises && event.account.address !in s.lazy then [] else IssuedBy(event)
  }

  /** All calls of one account among some entries, in order. */
  function CallsOf<C>(entries: seq<Entry<C>>, account: Account): seq<C> {
    if entries == [] then []
    else (if entries[0].account == account then entries[0].calls else []) + CallsOf(entries[1..], account)
  }

  lemma {:induction false} CallsOfAppend<C>(a: seq<Entry<C>>, b: seq<Entry<C>>, account: Account)
    ensures CallsOf(a + b, account) == CallsOf(a, account) + CallsOf(b, account)
  {
    if a == [] {
      assert a + b == b;
    } else {
      assert (a + b)[1..] == a[1..] + b;
      CallsOfAppend(a[1..], b, account);
    }
  }

  lemma {:induction false} CallsOfOne<C>(entry: Entry<C>, account: Account)
    ensures CallsOf([entry], account) == if entry.account == account then entry.calls else []
  {
    assert CallsOf([entry][1..], account) == [];
  }

  /** Each account object has at most one slot. */
  ghost predicate Keyed<C>(queue: seq<Entry<C>>) {
    forall i, j :: 0 <= i < j < |queue| ==> queue[i].account != queue[j].account
  }

  ghost predicate HasSlot<C>(queue: seq<Entry<C>>, account: Account) {
    exists i :: 0 <= i < |queue| && queue[i].account == account
  }

  lemma {:induction false} EnqueueAddsLast<C>(queue: seq<Entry<C>>, account: Account, calls: seq<C>, of: Account)
    requires Keyed(queue)
    ensures CallsOf(Enqueue(queue, account, calls), of) == CallsOf(queue, of) + if of == account then calls else []
  {
    if queue == [] {
      CallsOfOne(Entry(account, calls), of);
    } else if queue[0].account == account {
      var rest := queue[1..];
      assert ([Entry(account, queue[0].calls + calls)] + rest)[1..] == rest;
      NoSlotNoCalls(rest, account);
    } else {
      var rest := Enqueue(queue[1..], account, calls);
      assert ([queue[0]] + rest)[1..] == rest;
      EnqueueAddsLast(queue[1..], account, calls, of);
    }
  }

  /** A slot keeps its place in the queue; a new one goes last. */
  lemma {:induction false} SlotKeepsPlace<C>(queue: seq<Entry<C>>, account: Account, calls: seq<C>, i: nat)
    requires Keyed(queue) && i <= |queue|
    requires if i < |queue| then queue[i].account == account else !HasSlot(queue, account)
    ensures Enqueue(queue, account, calls)
         == if i < |queue| then queue[i := Entry(account, queue[i].calls + calls)] else queue + [Entry(account, calls)]
  {
    if i == |queue| {
      assert forall j :: 0 <= j < |queue| ==> queue[j].account != account;
      EnqueueNewSlot(queue, account, calls);
    } else if i > 0 {
      assert queue[0].account != account;
      SlotKeepsPlace(queue[1..], account, calls, i - 1);
    }
  }

  lemma {:induction false} NoSlotNoCalls<C>(queue: seq<Entry<C>>, account: Account)
    requires forall i :: 0 <= i < |queue| ==> queue[i].account != account
    ensures CallsOf(queue, account) == []
  {
    if queue != [] {
      NoSlotNoCalls(queue[1..], account);
    }
  }

  lemma {:induction false} EnqueueSlots<C>(queue: seq<Entry<C>>, account: Account, calls: seq<C>)
    requires Keyed(queue)
    ensures Keyed(Enqueue(queue, account, calls))
    ensures forall i :: 0 <= i < |Enqueue(queue, account, calls)| ==>
      Enqueue(queue, account, calls)[i].account == account || HasSlot(queue, Enqueue(queue, account, calls)[i].account)
  {
    if queue == [] {
    } else if queue[0].account == account {
      var next := Enqueue(queue, account, calls);
      assert forall i :: 0 <= i < |next| ==> next[i].account == queue[i].account;
    } else {
      EnqueueSlots(queue[1..], account, calls);
      var rest := Enqueue(queue[1..], account, calls);
      var next := [queue[0]] + rest;
      assert forall i :: 0 <= i < |queue| - 1 ==> queue[1..][i] == queue[i + 1];
      forall i | 0 <= i < |rest|
        ensures rest[i].account != queue[0].account && (rest[i].account == account || HasSlot(queue, rest[i].account))
      {
        if rest[i].account != account {
          var k :| 0 <= k < |queue[1..]| && queue[1..][k].account == rest[i].account;
          assert queue[k + 1].account == rest[i].account;
        }
      }
      assert queue[0].account == next[0].account;
    }
  }

  // Nothing is lost or duplicated.

  /** These calls are the sent and the pending ones, account by account. */
  ghost predicate Conserved<C>(s: State<C>, issued: seq<Entry<C>>) {
    forall account :: multiset(CallsOf(issued, account))
        == multiset(CallsOf(s.sent, account)) + multiset(CallsOf(s.queue, account))
  }

  /** No slot before `n` holds a call. */
  ghost predicate NoCallsBefore<C>(queue: seq<Entry<C>>, n: nat) {
    forall i :: 0 <= i < n && i < |queue| ==> queue[i].calls == []
  }

  lemma {:induction false} InvokeConserves<C>(s: State<C>, issued: seq<Entry<C>>, account: Account, calls: seq<C>)
    requires Keyed(s.queue) && Conserved(s, issued)
    ensures Keyed(Invoke(s, account, calls, false).queue)
    ensures Conserved(Invoke(s, account, calls, false), issued + [Entry(account, calls)])
  {
    EnqueueSlots(s.queue, account, calls);
    var next := Invoke(s, account, calls, false);
    forall of
      ensures multiset(CallsOf(issued + [Entry(account, calls)], of))
          == multiset(CallsOf(next.sent, of)) + multiset(CallsOf(next.queue, of))
    {
      InvokeAppends(s, issued, account, calls, of);
    }
  }

  lemma {:induction false} EmptySlotsHaveNoCalls<C>(entries: seq<Entry<C>>, account: Account)
    requires forall i :: 0 <= i < |entries| ==> entries[i].calls == []
    ensures CallsOf(entries, account) == []
  {
    if entries != [] {
      EmptySlotsHaveNoCalls(entries[1..], account);
    }
  }

  lemma {:induction false} SlotCallsAreCalls<C>(entries: seq<Entry<C>>, i: nat)
    requires i < |entries| && entries[i].calls != []
    ensures CallsOf(entries, entries[i].account) != []
  {
    if i > 0 {
      SlotCallsAreCalls(entries[1..], i - 1);
    }
  }

  lemma {:induction false} FullFlushConserves<C>(s: State<C>, issued: seq<Entry<C>>, failAt: nat)
    requires Conserved(s, issued) && failAt >= |s.queue|
    ensures Conserved(Flush(s, failAt), issued)
  {
    var next := Flush(s, failAt);
    forall of
      ensures multiset(CallsOf(issued, of)) == multiset(CallsOf(next.sent, of)) + multiset(CallsOf(next.queue, of))
    {
      CallsOfAppend(s.sent, s.queue, of);
    }
  }

  lemma {:induction false} EmptyFlushConserves<C>(s: State<C>, issued: seq<Entry<C>>, failAt: nat)
    requires Conserved(s, issued) && failAt < |s.queue| && NoCallsBefore(s.queue, failAt)
    ensures Conserved(Flush(s, failAt), issued)
  {
    var next := Flush(s, failAt);
    forall of
      ensures multiset(CallsOf(issued, of)) == multiset(CallsOf(next.sent, of)) + multiset(CallsOf(next.queue, of))
    {
      CallsOfAppend(s.sent, s.queue[..failAt], of);
      EmptySlotsHaveNoCalls(s.queue[..failAt], of);
      assert CallsOf(s.sent, of) + [] == CallsOf(s.sent, of);
      assert CallsOf(next.sent, of) == CallsOf(s.sent, of);
    }
  }

  lemma {:induction false} RaisingFlushDuplicates<C>(s: State<C>, issued: seq<Entry<C>>, failAt: nat, i: nat)
    requires Conserved(s, issued) && i < failAt < |s.queue| && s.queue[i].calls != []
    ensures !Conserved(Flush(s, failAt), issued)
  {
    var front := s.queue[..failAt];
    var of := front[i].account;
    SlotCallsAreCalls(front, i);
    CallsOfAppend(s.sent, front, of);
    var before, twice := multiset(CallsOf(s.sent, of)), multiset(CallsOf(front, of));
    var pending := multiset(CallsOf(s.queue, of));
    assert |twice| == |CallsOf(front, of)|;
    assert multiset(CallsOf(issued, of)) == before + pending;
    assert multiset(CallsOf(Flush(s, failAt).sent, of)) == before + twice;
    assert |before + twice + pending| != |before + pending|;
  }

  /** A flush that raises sends again what it sent before; it is harmless exactly when that holds no call. */
  lemma {:induction false} FlushConserves<C>(s: State<C>, issued: seq<Entry<C>>, failAt: nat)
    requires Keyed(s.queue) && Conserved(s, issued)
    ensures Keyed(Flush(s, failAt).queue)
    ensures Conserved(Flush(s, failAt), issued) <==> failAt >= |s.queue| || NoCallsBefore(s.queue, failAt)
  {
    if failAt >= |s.queue| {
      FullFlushConserves(s, issued, failAt);
    } else if i :| 0 <= i < failAt && s.queue[i].calls != [] {
      RaisingFlushDuplicates(s, issued, failAt, i);
    } else {
      EmptyFlushConserves(s, issued, failAt);
    }
  }

  /** No flush raises after having sent a call. */
  ghost predicate Harmless<C>(events: seq<Event<C>>) {
    events == [] ||
    var last := events[|events| - 1];
    var before := Run(events[..|events| - 1]);
    && Harmless(events[..|events| - 1])
    && (last.Flushed? && last.failAt < |before.queue| ==> NoCallsBefore(before.queue, last.failAt))
  }

  lemma {:induction false} ApplyConserves<C>(s: State<C>, issued: seq<Entry<C>>, event: Event<C>)
    requires Keyed(s.queue) && Conserved(s, issued)
    requires event.Flushed? && event.failAt < |s.queue| ==> NoCallsBefore(s.queue, event.failAt)
    ensures Keyed(Apply(s, event).queue) && Conserved(Apply(s, event), issued + TakenBy(s, event))
  {
    match event {
      case Invoked(account, calls, raises) =>
        InvokeConserves(s, issued, account, calls);
        assert issued + [] == issued;
      case Flushed(failAt) =>
        FlushConserves(s, issued, failAt);
        assert issued + [] == issued;
      case _ => assert issued + [] == issued;
    }
  }

  /** By how many calls the sent and pending calls of an account exceed the issued ones. */
  function Surplus<C>(s: State<C>, issued: seq<Entry<C>>, account: Account): int {
    |CallsOf(s.sent, account)| + |CallsOf(s.queue, account)| - |CallsOf(issued, account)|
  }

  /** What was sent twice stays sent twice. */
  lemma {:induction false} SurplusNeverShrinks<C>(s: State<C>, issued: seq<Entry<C>>, event: Event<C>, account: Account)
    requires Keyed(s.queue)
    ensures Keyed(Apply(s, event).queue)
    ensures Surplus(Apply(s, event), issued + TakenBy(s, event), account) >= Surplus(s, issued, account)
  {
    match event {
      case Invoked(invoker, calls, raises) =>
        EnqueueSlots(s.queue, invoker, calls);
        InvokeAppends(s, issued, invoker, calls, account);
        assert issued + [] == issued;
      case Flushed(failAt) =>
        assert issued + [] == issued;
        if failAt < |s.queue| {
          CallsOfAppend(s.sent, s.queue[..failAt], account);
        } else {
          CallsOfAppend(s.sent, s.queue, account);
        }
      case _ => assert issued + [] == issued;
    }
  }

  lemma {:induction false} ConservedHasNoSurplus<C>(s: State<C>, issued: seq<Entry<C>>, account: Account)
    requires Conserved(s, issued)
    ensures Surplus(s, issued, account) == 0
  {
    assert |multiset(CallsOf(issued, account))|
        == |multiset(CallsOf(s.sent, account)) + multiset(CallsOf(s.queue, account))|;
  }

  lemma {:induction false} RaisingFlushLeavesSurplus<C>(s: State<C>, issued: seq<Entry<C>>, failAt: nat)
    returns (account: Account)
    requires Conserved(s, issued) && failAt < |s.queue| && !NoCallsBefore(s.queue, failAt)
    ensures Surplus(Flush(s, failAt), issued, account) > 0
  {
    var i :| 0 <= i < failAt && s.queue[i].calls != [];
    var front := s.queue[..failAt];
    account := front[i].account;
    SlotCallsAreCalls(front, i);
    CallsOfAppend(s.sent, front, account);
    ConservedHasNoSurplus(s, issued, account);
  }

  /**
   In any interleaving of invocations, registrations, removals and flushes, what the client took on is neither lost
   nor sent twice, exactly when no flush raised after having sent a call.
   */
  lemma {:induction false} NothingTakenIsLostOrDuplicated<C>(events: seq<Event<C>>)
    ensures Conserved(Run(events), Taken(events)) <==> Harmless(events)
  {
    if Harmless(events) {
      HarmlessConserves(events);
    } else {
      var account := HarmLeavesSurplus(events);
      if Conserved(Run(events), Taken(events)) {
        ConservedHasNoSurplus(Run(events), Taken(events), account);
      }
    }
  }

  lemma {:induction false} HarmlessConserves<C>(events: seq<Event<C>>)
    requires Harmless(events)
    ensures Keyed(Run(events).queue) && Conserved(Run(events), Taken(events))
  {
    if events != [] {
      HarmlessConserves(events[..|events| - 1]);
      ApplyConserves(Run(events[..|events| - 1]), Taken(events[..|events| - 1]), events[|events| - 1]);
    }
  }

  lemma {:induction false} HarmLeavesSurplus<C>(events: seq<Event<C>>) returns (account: Account)
    requires !Harmless(events)
    ensures Keyed(Run(events).queue) && Surplus(Run(events), Taken(events), account) > 0
  {
    var init, last := events[..|events| - 1], events[|events| - 1];
    if Harmless(init) {
      HarmlessConserves(init);
      assert Taken(events) == Taken(init) + TakenBy(Run(init), last) == Taken(init);
      account := RaisingFlushLeavesSurplus(Run(init), Taken(init), last.failAt);
    } else {
      account := HarmLeavesSurplus(init);
      SurplusNeverShrinks(Run(init), Taken(init), last, account);
    }
  }

  /** No invocation that brought a call raised. */
  ghost predicate Delivering<C>(events: seq<Event<C>>) {
    events == [] ||
    var last := events[|events| - 1];
    && Delivering(events[..|events| - 1])
    && (last.Invoked? && last.raises && last.calls != [] ==> last.account.address in Run(events[..|events| - 1]).lazy)
  }

  /** Issued calls are the sent and the pending ones after each event. */
  ghost predicate AlwaysConserved<C>(events: seq<Event<C>>) {
    Conserved(Run(events), Issued(events)) && (events == [] || AlwaysConserved(events[..|events| - 1]))
  }

  /**
   At no point of a run an issued call is lost or sent twice, exactly when no flush raised after having sent a call
   and no invocation that brought a call raised.
   */
  lemma {:induction false} NothingIsLostOrDuplicated<C>(events: seq<Event<C>>)
    ensures AlwaysConserved(events) <==> Harmless(events) && Delivering(events)
  {
    if events != [] {
      var init, last := events[..|events| - 1], events[|events| - 1];
      NothingIsLostOrDuplicated(init);
      if Harmless(init) && Delivering(init) {
        DeliveringTakesAll(init);
        NothingTakenIsLostOrDuplicated(init);
        NothingTakenIsLostOrDuplicated(events);
        if Delivering(events) {
          DeliveringTakesAll(events);
        } else {
          RaisingInvocationLoses(Run(init), Issued(init), last.account, last.calls);
        }
      }
    }
  }

  lemma {:induction false} RunSnoc<C>(events: seq<Event<C>>, event: Event<C>)
    ensures Run(events + [event]) == Apply(Run(events), event)
    ensures Issued(events + [event]) == Issued(events) + IssuedBy(event)
    ensures Harmless(events + [event]) ==> Harmless(events)
  {
    assert (events + [event])[..|events|] == events;
  }

  /** The end of a run does not tell: a call that was lost hides one that was sent twice. */
  lemma {:induction false} LostCallHidesDuplicate<C>(a: Account, b: Account, c: C, d: C) returns (events: seq<Event<C>>)
    requires a.address == b.address && a != b
    ensures Conserved(Run(events), Issued(events)) && !Harmless(events) && !Delivering(events)
  {
    var half := HalfFlushed(a, b, c, d);
    RunSnoc(half, Removed(a.address));
    var eager := half + [Removed(a.address)];
    assert Issued(half) + [] == Issued(half);
    events := LoseCall(eager, a, [c]);
    TwiceIsConserved(Run(events), [Entry(a, [c])], Issued(eager));
  }

  /** An invocation that raises. */
  lemma {:induction false} LoseCall<C>(before: seq<Event<C>>, a: Account, calls: seq<C>) returns (events: seq<Event<C>>)
    requires a.address !in Run(before).lazy && calls != []
    ensures Run(events) == Run(before) && Issued(events) == Issued(before) + [Entry(a, calls)]
    ensures !Delivering(events) && (Harmless(events) ==> Harmless(before))
  {
    RunSnoc(before, Invoked(a, calls, true));
    events := before + [Invoked(a, calls, true)];
    assert events[..|before|] == before;
  }

  lemma {:induction false} TwiceIsConserved<C>(s: State<C>, sent: seq<Entry<C>>, pending: seq<Entry<C>>)
    requires s.sent == sent && s.queue == pending
    ensures Conserved(s, pending + sent)
  {
    forall of
      ensures multiset(CallsOf(pending + sent, of)) == multiset(CallsOf(sent, of)) + multiset(CallsOf(pending, of))
    {
      CallsOfAppend(pending, sent, of);
    }
  }

  /** A flush that sends the call of `a` and then raises. */
  lemma {:induction false} HalfFlushed<C>(a: Account, b: Account, c: C, d: C) returns (events: seq<Event<C>>)
    requires a.address == b.address && a != b
    ensures var ac, bd := Entry(a, [c]), Entry(b, [d]);
      Run(events) == State({a.address}, [ac, bd], [ac]) && Issued(events) == [ac, bd] && !Harmless(events)
  {
    var ac, bd := Entry(a, [c]), Entry(b, [d]);
    events := [];
    RunSnoc(events, Registered(a.address));
    events := events + [Registered(a.address)];
    assert Run(events) == State({a.address}, [], []) && Issued(events) == [];
    RunSnoc(events, Invoked(a, [c], false));
    events := events + [Invoked(a, [c], false)];
    assert Run(events) == State({a.address}, [ac], []) && Issued(events) == [ac];
    RunSnoc(events, Invoked(b, [d], false));
    EnqueueNewSlot([ac], b, [d]);
    events := events + [Invoked(b, [d], false)];
    assert Run(events) == State({a.address}, [ac, bd], []) && Issued(events) == [ac, bd];
    RunSnoc(events, Flushed(1));
    assert (events + [Flushed(1)])[..|events|] == events && [ac, bd][..1] == [ac];
    events := events + [Flushed(1)];
  }

  /** Entries that hold the same calls for every account. */
  ghost predicate SameCalls<C>(a: seq<Entry<C>>, b: seq<Entry<C>>) {
    forall account :: CallsOf(a, account) == CallsOf(b, account)
  }

  lemma {:induction false} DeliveringTakesAll<C>(events: seq<Event<C>>)
    requires Delivering(events)
    ensures SameCalls(Taken(events), Issued(events))
    ensures Conserved(Run(events), Taken(events)) <==> Conserved(Run(events), Issued(events))
  {
    if events != [] {
      var init, last := events[..|events| - 1], events[|events| - 1];
      DeliveringTakesAll(init);
      forall account
        ensures CallsOf(Taken(events), account) == CallsOf(Issued(events), account)
      {
        CallsOfAppend(Taken(init), TakenBy(Run(init), last), account);
        CallsOfAppend(Issued(init), IssuedBy(last), account);
        if last.Invoked? {
          CallsOfOne(Entry(last.account, last.calls), account);
        }
      }
    }
  }

  lemma {:induction false} RaisingInvocationLoses<C>(s: State<C>, issued: seq<Entry<C>>, account: Account,
          calls: seq<C>)
    requires Conserved(s, issued) && calls != []
    ensures !Conserved(s, issued + [Entry(account, calls)])
  {
    var more := issued + [Entry(account, calls)];
    CallsOfAppend(issued, [Entry(account, calls)], account);
    CallsOfOne(Entry(account, calls), account);
    ConservedHasNoSurplus(s, issued, account);
    if Conserved(s, more) {
      ConservedHasNoSurplus(s, more, account);
    }
  }

  // Order.

  /** Per account, the sent calls followed by the pending ones are the issued calls in order. */
  ghost predicate InOrder<C>(s: State<C>, issued: seq<Entry<C>>, account: Account) {
    CallsOf(issued, account) == CallsOf(s.sent, account) + CallsOf(s.queue, account)
  }

  predicate Commutes<C(==)>(pending: seq<C>, calls: seq<C>) {
    pending + calls == calls + pending
  }

  /** Only a call sent at once can overtake, and it does unless it commutes with the pending calls. */
  lemma {:induction false} InvokeOrder<C>(s: State<C>, issued: seq<Entry<C>>, account: Account, calls: seq<C>)
    requires Keyed(s.queue) && InOrder(s, issued, account)
    ensures InOrder(Invoke(s, account, calls, false), issued + [Entry(account, calls)], account)
       <==> account.address in s.lazy || Commutes(CallsOf(s.queue, account), calls)
  {
    InvokeAppends(s, issued, account, calls, account);
    CommutesBehind(CallsOf(s.sent, account), CallsOf(s.queue, account), calls);
  }

  lemma {:induction false} CommutesBehind<C>(sent: seq<C>, pending: seq<C>, calls: seq<C>)
    ensures sent + pending + calls == sent + (pending + calls)
    ensures sent + pending + calls == sent + calls + pending <==> Commutes(pending, calls)
  {
    assert sent + pending + calls == sent + (pending + calls);
    assert sent + calls + pending == sent + (calls + pending);
    assert (sent + (pending + calls))[|sent|..] == pending + calls;
    assert (sent + (calls + pending))[|sent|..] == calls + pending;
  }

  lemma {:induction false} InvokeAppends<C>(s: State<C>, issued: seq<Entry<C>>, account: Account, calls: seq<C>,
          of: Account)
    requires Keyed(s.queue)
    ensures var next := Invoke(s, account, calls, false); var added := if of == account then calls else [];
      && CallsOf(issued + [Entry(account, calls)], of) == CallsOf(issued, of) + added
      && CallsOf(next.sent, of) == CallsOf(s.sent, of) + (if account.address in s.lazy then [] else added)
      && CallsOf(next.queue, of) == CallsOf(s.queue, of) + (if account.address in s.lazy then added else [])
  {
    CallsOfAppend(issued, [Entry(account, calls)], of);
    CallsOfOne(Entry(account, calls), of);
    EnqueueAddsLast(s.queue, account, calls, of);
    CallsOfAppend(s.sent, [Entry(account, calls)], of);
  }

  /** No flush that raised had sent a call of the account. */
  ghost predicate NeverResent<C>(events: seq<Event<C>>, account: Account) {
    events == [] ||
    var last := events[|events| - 1];
    ResentBy(Run(events[..|events| - 1]), last, account) == [] && NeverResent(events[..|events| - 1], account)
  }

  /** The calls that a flush that raises sends without dropping them from the queue. */
  function ResentBy<C>(s: State<C>, event: Event<C>, account: Account): seq<C> {
    if event.Flushed? && event.failAt < |s.queue| then CallsOf(s.queue[..event.failAt], account) else []
  }

  /** The account sends calls at once that do not commute with what it has pending. */
  predicate Overtakes<C(==)>(s: State<C>, event: Event<C>, account: Account) {
    && event.Invoked? && event.account == account && account.address !in s.lazy && !event.raises
    && !Commutes(CallsOf(s.queue, account), event.calls)
  }

  ghost predicate NeverOvertaking<C>(events: seq<Event<C>>, account: Account) {
    events == [] ||
    var last := events[|events| - 1];
    !Overtakes(Run(events[..|events| - 1]), last, account) && NeverOvertaking(events[..|events| - 1], account)
  }

  /** The calls that the client took on run in issue order at every point of the run. */
  ghost predicate AlwaysInOrder<C>(events: seq<Event<C>>, account: Account) {
    && InOrder(Run(events), Taken(events), account)
    && (events == [] || AlwaysInOrder(events[..|events| - 1], account))
  }

  /**
   The calls of an account are in issue order throughout a run exactly when none sent at once overtakes a pending
   one and no flush that raised had sent one.
   */
  lemma {:induction false} CallsRunInIssueOrder<C>(events: seq<Event<C>>, account: Account)
    ensures AlwaysInOrder(events, account) <==> NeverOvertaking(events, account) && NeverResent(events, account)
  {
    if events != [] {
      var init, last := events[..|events| - 1], events[|events| - 1];
      CallsRunInIssueOrder(init, account);
      if AlwaysInOrder(init, account) {
        QueueIsKeyed(init);
        ApplyOrder(Run(init), Taken(init), last, account);
      }
    }
  }

  lemma {:induction false} QueueIsKeyed<C>(events: seq<Event<C>>)
    ensures Keyed(Run(events).queue)
  {
    if events != [] {
      var init, last := events[..|events| - 1], events[|events| - 1];
      QueueIsKeyed(init);
      if last.Invoked? {
        EnqueueSlots(Run(init).queue, last.account, last.calls);
      }
    }
  }

  lemma {:induction false} ApplyOrder<C>(s: State<C>, taken: seq<Entry<C>>, event: Event<C>, account: Account)
    requires Keyed(s.queue) && InOrder(s, taken, account)
    ensures InOrder(Apply(s, event), taken + TakenBy(s, event), account)
       <==> !Overtakes(s, event, account) && ResentBy(s, event, account) == []
  {
    match event {
      case Invoked(invoker, calls, raises) =>
        assert taken + [] == taken;
        if invoker == account {
          InvokeOrder(s, taken, account, calls);
        } else {
          InvokeAppends(s, taken, invoker, calls, account);
        }
      case Flushed(failAt) =>
        assert taken + [] == taken;
        FlushOrder(s, taken, failAt, account);
      case _ => assert taken + [] == taken;
    }
  }

  lemma {:induction false} FlushOrder<C>(s: State<C>, taken: seq<Entry<C>>, failAt: nat, account: Account)
    requires InOrder(s, taken, account)
    ensures InOrder(Flush(s, failAt), taken, account)
       <==> failAt >= |s.queue| || CallsOf(s.queue[..failAt], account) == []
  {
    var pending := CallsOf(s.queue, account);
    if failAt < |s.queue| {
      var front := CallsOf(s.queue[..failAt], account);
      CallsOfAppend(s.sent, s.queue[..failAt], account);
      assert |CallsOf(s.sent, account) + front + pending| == |CallsOf(taken, account)| + |front|;
    } else {
      CallsOfAppend(s.sent, s.queue, account);
    }
  }

  // The queue by itself is first in, first out, whatever is sent at once in between.

  /** The calls that were queued, in issue order. */
  function QueuedIssued<C>(events: seq<Event<C>>): seq<Entry<C>> {
    if events == [] then []
    else QueuedIssued(events[..|events| - 1]) + QueuedBy(Run(events[..|events| - 1]), events[|events| - 1])
  }

  function QueuedBy<C>(s: State<C>, event: Event<C>): seq<Entry<C>> {
    if event.Invoked? && event.account.address in s.lazy then [Entry(event.account, event.calls)] else []
  }

  /** What the flushes sent, in order. */
  function FlushSent<C>(events: seq<Event<C>>): seq<Entry<C>> {
    if events == [] then []
    else FlushSent(events[..|events| - 1]) + FlushSentBy(Run(events[..|events| - 1]), events[|events| - 1])
  }

  /** What the event added to the sent entries, if it is a flush. */
  function FlushSentBy<C>(s: State<C>, event: Event<C>): seq<Entry<C>> {
    if event.Flushed? then Flush(s, event.failAt).sent[|s.sent|..] else []
  }

  /** Flushed and then pending calls are the queued ones in issue order. */
  ghost predicate QueueInOrder<C>(events: seq<Event<C>>, account: Account) {
    CallsOf(QueuedIssued(events), account) == CallsOf(FlushSent(events), account) + CallsOf(Run(events).queue, account)
  }

  /**
   In any interleaving, calls sent at once included, the queued calls of an account run once each and in issue
   order, exactly when no flush that raised had sent one of them.
   */
  lemma {:induction false} QueuedCallsRunInIssueOrder<C>(events: seq<Event<C>>, account: Account)
    ensures QueueInOrder(events, account) <==> NeverResent(events, account)
  {
    if NeverResent(events, account) {
      NeverResentKeepsQueueOrder(events, account);
    } else {
      ResentCallsAreExtra(events, account);
    }
  }

  lemma {:induction false} NeverResentKeepsQueueOrder<C>(events: seq<Event<C>>, account: Account)
    requires NeverResent(events, account)
    ensures QueueInOrder(events, account)
  {
    if events != [] {
      var init, last := events[..|events| - 1], events[|events| - 1];
      NeverResentKeepsQueueOrder(init, account);
      QueueIsKeyed(init);
      EventMovesCalls(Run(init), last, account);
      var sent, queued := FlushSentBy(Run(init), last), QueuedBy(Run(init), last);
      CallsOfAppend(QueuedIssued(init), queued, account);
      CallsOfAppend(FlushSent(init), sent, account);
      var before, pending := CallsOf(FlushSent(init), account), CallsOf(Run(init).queue, account);
      Regroup(before, CallsOf(sent, account), CallsOf(Run(events).queue, account), pending, CallsOf(queued, account));
    }
  }

  lemma {:induction false} Regroup<C>(front: seq<C>, a: seq<C>, b: seq<C>, c: seq<C>, d: seq<C>)
    requires a + b == [] + c + d
    ensures front + a + b == front + c + d
  {
    assert front + a + b == front + (a + b);
    assert front + c + d == front + (c + d);
  }

  /** By how many calls the flushed and pending calls of the account exceed the queued ones. */
  function Extra<C>(events: seq<Event<C>>, account: Account): int {
    |CallsOf(FlushSent(events), account)|
        + |CallsOf(Run(events).queue, account)| - |CallsOf(QueuedIssued(events), account)|
  }

  lemma {:induction false} ResentCallsAreExtra<C>(events: seq<Event<C>>, account: Account)
    requires !NeverResent(events, account)
    ensures Extra(events, account) > 0
  {
    var init, last := events[..|events| - 1], events[|events| - 1];
    QueueIsKeyed(init);
    var sent, queued := FlushSentBy(Run(init), last), QueuedBy(Run(init), last);
    EventMovesCalls(Run(init), last, account);
    CallsOfAppend(QueuedIssued(init), queued, account);
    CallsOfAppend(FlushSent(init), sent, account);
    assert |CallsOf(sent, account) + CallsOf(Run(events).queue, account)|
        == |ResentBy(Run(init), last, account) + CallsOf(Run(init).queue, account) + CallsOf(queued, account)|;
    if NeverResent(init, account) {
      NeverResentKeepsQueueOrder(init, account);
    } else {
      ResentCallsAreExtra(init, account);
    }
  }

  /** One event: queued calls go last, a full flush moves them all, a raising one copies some. */
  lemma {:induction false} EventMovesCalls<C>(s: State<C>, event: Event<C>, account: Account)
    requires Keyed(s.queue)
    ensures CallsOf(FlushSentBy(s, event), account) + CallsOf(Apply(s, event).queue, account)
         == ResentBy(s, event, account) + CallsOf(s.queue, account) + CallsOf(QueuedBy(s, event), account)
  {
    if event.Invoked? {
      EnqueueAddsLast(s.queue, event.account, event.calls, account);
      CallsOfOne(Entry(event.account, event.calls), account);
    } else if event.Flushed? {
      FlushedCalls(s, event.failAt, account);
    }
  }

  lemma {:induction false} FlushedCalls<C>(s: State<C>, failAt: nat, account: Account)
    ensures var sent, pending := CallsOf(FlushSentBy(s, Flushed(failAt)), account), CallsOf(s.queue, account);
      sent + CallsOf(Flush(s, failAt).queue, account) == ResentBy(s, Flushed(failAt), account) + pending
  {
    var front := if failAt < |s.queue| then s.queue[..failAt] else s.queue;
    assert (s.sent + front)[|s.sent|..] == front;
  }

  /** A run is harmless exactly when the queued calls of all accounts run once each and in issue order. */
  lemma {:induction false} HarmlessRunsKeepQueueOrder<C>(events: seq<Event<C>>)
    ensures Harmless(events) <==> forall account :: QueueInOrder(events, account)
  {
    if Harmless(events) {
      forall account
        ensures QueueInOrder(events, account)
      {
        HarmlessNeverResends(events, account);
        QueuedCallsRunInIssueOrder(events, account);
      }
    } else {
      var account := HarmResends(events);
      QueuedCallsRunInIssueOrder(events, account);
    }
  }

  lemma {:induction false} HarmlessNeverResends<C>(events: seq<Event<C>>, account: Account)
    requires Harmless(events)
    ensures NeverResent(events, account)
  {
    if events != [] {
      var init, last := events[..|events| - 1], events[|events| - 1];
      HarmlessNeverResends(init, account);
      if last.Flushed? && last.failAt < |Run(init).queue| {
        EmptySlotsHaveNoCalls(Run(init).queue[..last.failAt], account);
      }
    }
  }

  lemma {:induction false} HarmResends<C>(events: seq<Event<C>>) returns (account: Account)
    requires !Harmless(events)
    ensures !NeverResent(events, account)
  {
    var init, last := events[..|events| - 1], events[|events| - 1];
    if Harmless(init) {
      var i :| 0 <= i < last.failAt && Run(init).queue[i].calls != [];
      var front := Run(init).queue[..last.failAt];
      account := front[i].account;
      SlotCallsAreCalls(front, i);
    } else {
      account := HarmResends(init);
    }
  }

  // One lazy stretch against the eager run.

  /** The queue that a stretch of invocations leaves when all their accounts are lazy. */
  function Queued<C>(invocations: seq<Entry<C>>): seq<Entry<C>> {
    if invocations == [] then []
    else
      var last := invocations[|invocations| - 1];
      Enqueue(Queued(invocations[..|invocations| - 1]), last.account, last.calls)
  }

  function InvokeAll<C>(s: State<C>, invocations: seq<Entry<C>>): State<C> {
    if invocations == [] then s
    else
      var last := invocations[|invocations| - 1];
      Invoke(InvokeAll(s, invocations[..|invocations| - 1]), last.account, last.calls, false)
  }

  /** The calls of some entries one by one, each with its account. */
  function Flat<C>(entries: seq<Entry<C>>): seq<(Account, C)> {
    if entries == [] then []
    else
      var last := entries[|entries| - 1];
      Flat(entries[..|entries| - 1]) + Tagged(last.account, last.calls)
  }

  function Tagged<C>(account: Account, calls: seq<C>): (tagged: seq<(Account, C)>)
    ensures |tagged| == |calls|
    ensures forall i :: 0 <= i < |calls| ==> tagged[i] == (account, calls[i])
  {
    seq(|calls|, i requires 0 <= i < |calls| => (account, calls[i]))
  }

  /** The calls of each account come without a call of another account in between. */
  ghost predicate InBlocks<C>(calls: seq<(Account, C)>) {
    forall i, j, k :: 0 <= i < j < k < |calls| && calls[i].0 == calls[k].0 ==> calls[j].0 == calls[i].0
  }

  lemma {:induction false} LazyStretchQueues<C>(lazy: set<Address>, invocations: seq<Entry<C>>)
    requires forall i :: 0 <= i < |invocations| ==> invocations[i].account.address in lazy
    ensures InvokeAll(State(lazy, [], []), invocations) == State(lazy, Queued(invocations), [])
  {
    if invocations != [] {
      LazyStretchQueues(lazy, invocations[..|invocations| - 1]);
    }
  }

  lemma {:induction false} EagerStretchSends<C>(lazy: set<Address>, invocations: seq<Entry<C>>)
    requires forall i :: 0 <= i < |invocations| ==> invocations[i].account.address !in lazy
    ensures InvokeAll(State(lazy, [], []), invocations) == State(lazy, [], invocations)
  {
    if invocations != [] {
      EagerStretchSends(lazy, invocations[..|invocations| - 1]);
      assert invocations == invocations[..|invocations| - 1] + [invocations[|invocations| - 1]];
    }
  }

  lemma {:induction false} QueuedKeepsCalls<C>(invocations: seq<Entry<C>>, account: Account)
    ensures Keyed(Queued(invocations)) && CallsOf(Queued(invocations), account) == CallsOf(invocations, account)
  {
    if invocations != [] {
      var init, last := invocations[..|invocations| - 1], invocations[|invocations| - 1];
      QueuedKeepsCalls(init, account);
      EnqueueSlots(Queued(init), last.account, last.calls);
      EnqueueAddsLast(Queued(init), last.account, last.calls, account);
      assert invocations == init + [last];
      CallsOfAppend(init, [last], account);
      CallsOfOne(last, account);
    }
  }

  /** With distinct accounts, each account's calls form one block. */
  lemma {:induction false} KeyedIsInBlocks<C>(queue: seq<Entry<C>>)
    requires Keyed(queue)
    ensures InBlocks(Flat(queue))
    ensures forall x :: 0 <= x < |Flat(queue)| ==> HasSlot(queue, Flat(queue)[x].0)
  {
    if queue != [] {
      var init, last := queue[..|queue| - 1], queue[|queue| - 1];
      KeyedIsInBlocks(init);
      var front := Flat(init);
      forall x | 0 <= x < |front|
        ensures front[x].0 != last.account && HasSlot(queue, front[x].0)
      {
        var i :| 0 <= i < |init| && init[i].account == front[x].0;
        assert queue[i].account == front[x].0;
      }
      assert queue[|queue| - 1].account == last.account;
    }
  }

  lemma {:induction false} EnqueueNewSlot<C>(queue: seq<Entry<C>>, account: Account, calls: seq<C>)
    requires forall i :: 0 <= i < |queue| ==> queue[i].account != account
    ensures Enqueue(queue, account, calls) == queue + [Entry(account, calls)]
  {
    if queue != [] {
      EnqueueNewSlot(queue[1..], account, calls);
    }
  }

  lemma {:induction false} EnqueueLastSlot<C>(queue: seq<Entry<C>>, account: Account, calls: seq<C>)
    requires Keyed(queue) && queue != [] && queue[|queue| - 1].account == account
    ensures Enqueue(queue, account, calls) == queue[..|queue| - 1] + [Entry(account, queue[|queue| - 1].calls + calls)]
  {
    if |queue| > 1 {
      assert queue[0].account != account;
      EnqueueLastSlot(queue[1..], account, calls);
      assert queue[1..][..|queue| - 2] == queue[1..|queue| - 1];
      assert [queue[0]] + queue[1..|queue| - 1] == queue[..|queue| - 1];
    }
  }

  lemma {:induction false} FlatSnoc<C>(entries: seq<Entry<C>>, entry: Entry<C>)
    ensures Flat(entries + [entry]) == Flat(entries) + Tagged(entry.account, entry.calls)
  {
    assert (entries + [entry])[..|entries|] == entries;
  }

  /** No slot is empty, since every invocation brings a call. */
  lemma {:induction false} EnqueueNonempty<C>(queue: seq<Entry<C>>, account: Account, calls: seq<C>)
    requires calls != [] && forall i :: 0 <= i < |queue| ==> queue[i].calls != []
    ensures forall i :: 0 <= i < |Enqueue(queue, account, calls)| ==> Enqueue(queue, account, calls)[i].calls != []
  {
    if queue != [] && queue[0].account != account {
      EnqueueNonempty(queue[1..], account, calls);
    }
  }

  lemma {:induction false} SlotHasCall<C>(queue: seq<Entry<C>>, i: nat) returns (x: nat)
    requires i < |queue| && queue[i].calls != []
    ensures x < |Flat(queue)| && Flat(queue)[x].0 == queue[i].account
  {
    if i == |queue| - 1 {
      x := |Flat(queue[..i])|;
    } else {
      x := SlotHasCall(queue[..|queue| - 1], i);
    }
  }

  /** Appending to the queue appends to the flat sequence while the blocks stay unbroken. */
  lemma {:induction false} EnqueueInBlocks<C>(queue: seq<Entry<C>>, account: Account, calls: seq<C>)
    requires Keyed(queue) && calls != [] && forall i :: 0 <= i < |queue| ==> queue[i].calls != []
    requires InBlocks(Flat(queue) + Tagged(account, calls))
    ensures Flat(Enqueue(queue, account, calls)) == Flat(queue) + Tagged(account, calls)
  {
    if HasSlot(queue, account) {
      LastSlotOfBlock(queue, account, calls);
      EnqueueLastSlot(queue, account, calls);
      FlatOfLonger(queue[..|queue| - 1], account, queue[|queue| - 1].calls, calls);
      assert queue[..|queue| - 1] + [queue[|queue| - 1]] == queue;
    } else {
      EnqueueNewSlot(queue, account, calls);
      FlatSnoc(queue, Entry(account, calls));
    }
  }

  /** An account that calls again without breaking its block has the last slot. */
  lemma {:induction false} LastSlotOfBlock<C>(queue: seq<Entry<C>>, account: Account, calls: seq<C>)
    requires calls != [] && forall i :: 0 <= i < |queue| ==> queue[i].calls != []
    requires HasSlot(queue, account) && InBlocks(Flat(queue) + Tagged(account, calls))
    ensures queue != [] && queue[|queue| - 1].account == account
  {
    var i :| 0 <= i < |queue| && queue[i].account == account;
    var x := SlotHasCall(queue, i);
    var flat := Flat(queue) + Tagged(account, calls);
    var y := |Flat(queue)|;
    assert flat[y].0 == account && flat[x].0 == account;
    assert flat[y - 1].0 == queue[|queue| - 1].account;
    assert x < y - 1 ==> flat[y - 1].0 == flat[x].0;
  }

  lemma {:induction false} FlatOfLonger<C>(front: seq<Entry<C>>, account: Account, a: seq<C>, b: seq<C>)
    ensures Flat(front + [Entry(account, a + b)]) == Flat(front + [Entry(account, a)]) + Tagged(account, b)
  {
    FlatSnoc(front, Entry(account, a + b));
    FlatSnoc(front, Entry(account, a));
    TaggedAppend(account, a, b);
    assert Flat(front) + (Tagged(account, a) + Tagged(account, b))
        == Flat(front) + Tagged(account, a) + Tagged(account, b);
  }

  lemma {:induction false} TaggedAppend<C>(account: Account, a: seq<C>, b: seq<C>)
    ensures Tagged(account, a + b) == Tagged(account, a) + Tagged(account, b)
  {
  }

  lemma {:induction false} QueuedInBlocks<C>(invocations: seq<Entry<C>>)
    requires forall i :: 0 <= i < |invocations| ==> invocations[i].calls != []
    requires InBlocks(Flat(invocations))
    ensures Flat(Queued(invocations)) == Flat(invocations)
    ensures Keyed(Queued(invocations))
    ensures forall i :: 0 <= i < |Queued(invocations)| ==> Queued(invocations)[i].calls != []
  {
    if invocations != [] {
      var init, last := invocations[..|invocations| - 1], invocations[|invocations| - 1];
      assert Flat(invocations) == Flat(init) + Tagged(last.account, last.calls);
      assert forall x :: 0 <= x < |Flat(init)| ==> Flat(init)[x] == Flat(invocations)[x];
      QueuedInBlocks(init);
      EnqueueInBlocks(Queued(init), last.account, last.calls);
      EnqueueSlots(Queued(init), last.account, last.calls);
      EnqueueNonempty(Queued(init), last.account, last.calls);
    }
  }

  /**
   A run that is lazy until one flush sends, for every account, the calls of the eager run. Over all accounts the
   sequence of calls is the same exactly when the eager run does not interleave accounts, provided that every
   invocation brings a call: one without calls still reserves a place in the queue for its account.
   */
  lemma {:induction false} LazyRunMatchesEagerRun<C>(lazy: set<Address>, eager: set<Address>,
          invocations: seq<Entry<C>>)
    requires forall i :: 0 <= i < |invocations| ==>
      invocations[i].account.address in lazy && invocations[i].account.address !in eager
    ensures var lazySent := Flush(InvokeAll(State(lazy, [], []), invocations), |invocations|).sent;
      var eagerSent := InvokeAll(State(eager, [], []), invocations).sent;
      && (forall account :: CallsOf(lazySent, account) == CallsOf(eagerSent, account))
      && ((forall i :: 0 <= i < |invocations| ==> invocations[i].calls != []) ==>
            (Flat(lazySent) == Flat(eagerSent) <==> InBlocks(Flat(eagerSent))))
  {
    LazyStretchQueues(lazy, invocations);
    EagerStretchSends(eager, invocations);
    QueuedIsShort(invocations);
    forall account {
      QueuedKeepsCalls(invocations, account);
    }
    QueuedKeepsCalls(invocations, Account(0, 0));
    KeyedIsInBlocks(Queued(invocations));
    var none: seq<Entry<C>> := [];
    assert none + Queued(invocations) == Queued(invocations);
    if InBlocks(Flat(invocations)) && forall i :: 0 <= i < |invocations| ==> invocations[i].calls != [] {
      QueuedInBlocks(invocations);
    }
  }

  lemma {:induction false} QueuedIsShort<C>(invocations: seq<Entry<C>>)
    ensures |Queued(invocations)| <= |invocations|
  {
    if invocations != [] {
      var init, last := invocations[..|invocations| - 1], invocations[|invocations| - 1];
      QueuedIsShort(init);
      EnqueueLength(Queued(init), last.account, last.calls);
    }
  }

  lemma {:induction false} EnqueueLength<C>(queue: seq<Entry<C>>, account: Account, calls: seq<C>)
    ensures |Enqueue(queue, account, calls)| <= |queue| + 1
  {
    if queue != [] && queue[0].account != account {
      EnqueueLength(queue[1..], account, calls);
    }
  }
}
