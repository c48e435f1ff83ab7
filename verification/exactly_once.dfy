/**
  Exactly-once crediting. Any sequence of `verifyPayment` and `createOrder`
  calls, with any gateway answers, credits each order at most once, never
  clears a settlement flag, and leaves every buyer's balance equal to the
  starting balance plus the credits of the orders settled along the way.
 */
module ExactlyOnce {
  import opened Lang
  import opened Entities
  import opened Razorpay
  import opened OrderService

  /** One service call with the gateway's answer to it. */
  datatype Call =
    | Verify(orderId: JString, creds: Credentials, reply: FetchReply)
    | Create(planId: JString, clerkId: JString, creds: Credentials, createReply: CreateReply)

  /** The store after a run, and the order ids credited, in the order the credits happened. */
  datatype Trace = Trace(store: Store, settled: seq<string>)

  function Next(t: Trace, c: Call): Trace {
    match c
    case Verify(orderId, creds, reply) =>
      var r := VerifyPayment(t.store, orderId, creds, reply);
      if r.result.Ok? && r.result.value.Settled? then Trace(r.store, t.settled + [orderId.value])
      else Trace(r.store, t.settled)
    case Create(planId, clerkId, creds, reply) =>
      Trace(t.store.(orders := CreateOrder(t.store.orders, planId, clerkId, creds, reply).orders), t.settled)
  }

  /**
    A verification step reads only the store and whether the call settled,
    and `verifyPayment` as written yields the same of both as the corrected
    code: every theorem below holds of the code as written too.
   */
  lemma NextFollowsAsWritten(t: Trace, orderId: JString, creds: Credentials, reply: FetchReply)
    ensures var w := VerifyPaymentAsWritten(t.store, orderId, creds, reply);
      Next(t, Verify(orderId, creds, reply))
        == if w.result.Ok? && w.result.value.Settled? then Trace(w.store, t.settled + [orderId.value])
           else Trace(w.store, t.settled)
  {
    VerifyPaymentReadingsAgree(t.store, orderId, creds, reply);
  }

  /** The trace of `calls` run in order from `s0`. */
  function Run(s0: Store, calls: seq<Call>): Trace
    decreases |calls|, 1
  {
    if |calls| == 0 then Trace(s0, []) else RunLast(s0, calls)
  }

  /** A non-empty run: the last call applied to the run of the others. */
  function RunLast(s0: Store, calls: seq<Call>): Trace
    requires |calls| > 0
    decreases |calls|, 0
  {
    Next(Run(s0, calls[..|calls| - 1]), calls[|calls| - 1])
  }

  /** Credits of the orders among `ids` that belong to buyer `u`. */
  function CreditsFor(orders: Orders, ids: seq<string>, u: string): int {
    if |ids| == 0 then 0
    else
      var last := ids[|ids| - 1];
      CreditsFor(orders, ids[..|ids| - 1], u)
        + (if last in orders && orders[last].clerkId == u then orders[last].credits else 0)
  }

  lemma {:induction false} CreditsForFrame(o1: Orders, o2: Orders, ids: seq<string>, u: string)
    requires forall i :: 0 <= i < |ids| ==> ids[i] in o1 && ids[i] in o2
    requires forall i :: 0 <= i < |ids| ==>
      o1[ids[i]].clerkId == o2[ids[i]].clerkId && o1[ids[i]].credits == o2[ids[i]].credits
    ensures CreditsFor(o1, ids, u) == CreditsFor(o2, ids, u)
    decreases |ids|
  {
    if |ids| > 0 {
      CreditsForFrame(o1, o2, ids[..|ids| - 1], u);
    }
  }

  /** Orders tables with the same ids, buyers and credits give every id list the same sums. */
  lemma {:induction false} CreditsForSameKeys(o1: Orders, o2: Orders, ids: seq<string>, u: string)
    requires o1.Keys == o2.Keys
    requires forall id :: id in o1 ==> o1[id].clerkId == o2[id].clerkId && o1[id].credits == o2[id].credits
    ensures CreditsFor(o1, ids, u) == CreditsFor(o2, ids, u)
    decreases |ids|
  {
    if |ids| > 0 {
      CreditsForSameKeys(o1, o2, ids[..|ids| - 1], u);
    }
  }

  ghost predicate SameProfile(before: User, after: User) {
    after == before.(credits := after.credits)
  }

  ghost predicate NoDuplicates(ids: seq<string>) {
    forall i, j :: 0 <= i < j < |ids| ==> ids[i] != ids[j]
  }

  /** Orders are never removed, only their flag can change, and a set flag stays set. */
  ghost predicate OrdersEvolve(o0: Orders, o: Orders) {
    && o0.Keys <= o.Keys
    && (forall k :: k in o0 ==> o[k] == o0[k].(payment := o[k].payment))
    && (forall k :: k in o0 && o0[k].payment ==> o[k].payment)
  }

  /** The credited ids are distinct, exist, and are exactly the orders whose flag was set along the way. */
  ghost predicate SettledExactly(o0: Orders, o: Orders, settled: seq<string>) {
    && (forall i :: 0 <= i < |settled| ==> settled[i] in o)
    && (forall k :: k in o ==> (k in settled <==> o[k].payment && !(k in o0 && o0[k].payment)))
    && NoDuplicates(settled)
  }

  /** No user appears or disappears, profiles stay, and a null balance stays null. */
  ghost predicate UsersEvolve(u0: Users, users: Users) {
    && users.Keys == u0.Keys
    && (forall u :: u in u0 ==> SameProfile(u0[u], users[u]))
    && (forall u :: u in u0 && u0[u].credits.None? ==> users[u].credits.None?)
  }

  /** Each balance is the starting one plus the credits of the buyer's settled orders. */
  ghost predicate Ledger(u0: Users, o: Orders, users: Users, settled: seq<string>)
    requires users.Keys == u0.Keys
  {
    forall u :: u in u0 && u0[u].credits.Some? ==>
      users[u].credits == Some(Wrap32(u0[u].credits.value + CreditsFor(o, settled, u)))
  }

  /** What holds of every trace from `s0`. */
  ghost predicate Invariant(s0: Store, t: Trace) {
    && OrdersEvolve(s0.orders, t.store.orders)
    && SettledExactly(s0.orders, t.store.orders, t.settled)
    && UsersEvolve(s0.users, t.store.users)
    && Ledger(s0.users, t.store.orders, t.store.users, t.settled)
  }

  /** `createOrder` can only add a fresh, unpaid order. */
  ghost predicate GrowsByFreshUnpaid(o: Orders, o': Orders) {
    && o.Keys <= o'.Keys
    && (forall k :: k in o ==> o'[k] == o[k])
    && (forall k :: k in o' && k !in o ==> !o'[k].payment)
  }

  lemma GrowthKeepsOrderFacts(o0: Orders, o: Orders, o': Orders, settled: seq<string>)
    requires OrdersEvolve(o0, o) && SettledExactly(o0, o, settled)
    requires GrowsByFreshUnpaid(o, o')
    ensures OrdersEvolve(o0, o') && SettledExactly(o0, o', settled)
  {
  }

  lemma GrowthKeepsLedger(u0: Users, o: Orders, o': Orders, users: Users, settled: seq<string>)
    requires users.Keys == u0.Keys
    requires forall i :: 0 <= i < |settled| ==> settled[i] in o
    requires GrowsByFreshUnpaid(o, o')
    requires Ledger(u0, o, users, settled)
    ensures Ledger(u0, o', users, settled)
  {
    forall u | u in u0 && u0[u].credits.Some?
      ensures users[u].credits == Some(Wrap32(u0[u].credits.value + CreditsFor(o', settled, u)))
    {
      CreditsForFrame(o, o', settled, u);
    }
  }

  lemma SettleKeepsOrderFacts(o0: Orders, s: Store, k: string, s': Store, settled: seq<string>)
    requires OrdersEvolve(o0, s.orders) && SettledExactly(o0, s.orders, settled)
    requires SettlesOrder(s, k, s')
    ensures OrdersEvolve(o0, s'.orders) && SettledExactly(o0, s'.orders, settled + [k])
  {
    assert k !in settled;
    assert !(k in o0 && o0[k].payment);
    var settled' := settled + [k];
    forall i, j | 0 <= i < j < |settled'| ensures settled'[i] != settled'[j] {
      if j == |settled| {
        assert settled[i] in settled;
      }
    }
  }

  lemma SettleKeepsUsers(u0: Users, s: Store, k: string, s': Store)
    requires UsersEvolve(u0, s.users)
    requires SettlesOrder(s, k, s')
    ensures UsersEvolve(u0, s'.users)
  {
  }

  /** Settling `k` adds its credits to its buyer's sum and nothing to anyone else's. */
  lemma SettleCreditsFor(s: Store, k: string, s': Store, settled: seq<string>, u: string)
    requires SettlesOrder(s, k, s')
    ensures CreditsFor(s'.orders, settled + [k], u) ==
      CreditsFor(s.orders, settled, u) + (if s.orders[k].clerkId == u then s.orders[k].credits else 0)
  {
    var settled' := settled + [k];
    assert settled'[..|settled'| - 1] == settled;
    CreditsForSameKeys(s.orders, s'.orders, settled, u);
  }

  /** A wrapped balance credited with `add` is the wrapped sum of everything credited so far. */
  lemma CreditStep(balance: Int32, before: int, sum: int, add: int, total: int)
    requires balance == Wrap32(before + sum) && total == sum + add
    ensures Wrap32(balance + add) == Wrap32(before + total)
  {
    Wrap32Add(before + sum, add);
  }

  /**
    One balance after a settlement: the buyer's running sum grows by the
    order's credits, any other balance stays as it was.
   */
  lemma SettleBalance(before: int, s: Store, k: string, s': Store, u: string, sum: int, total: int)
    requires SettlesOrder(s, k, s')
    requires u in s.users && s.users[u].credits == Some(Wrap32(before + sum))
    requires total == sum + (if s.orders[k].clerkId == u then s.orders[k].credits else 0)
    ensures u in s'.users && s'.users[u].credits == Some(Wrap32(before + total))
  {
    if s.orders[k].clerkId == u {
      CreditStep(s.users[u].credits.value, before, sum, s.orders[k].credits, total);
    }
  }

  lemma SettleKeepsLedger(u0: Users, s: Store, k: string, s': Store, settled: seq<string>)
    requires s.users.Keys == u0.Keys
    requires SettlesOrder(s, k, s')
    requires Ledger(u0, s.orders, s.users, settled)
    ensures s'.users.Keys == u0.Keys
    ensures Ledger(u0, s'.orders, s'.users, settled + [k])
  {
    forall u | u in u0 && u0[u].credits.Some?
      ensures s'.users[u].credits == Some(Wrap32(u0[u].credits.value + CreditsFor(s'.orders, settled + [k], u)))
    {
      SettleLedgerAt(u0[u].credits.value, s, k, s', settled, u);
    }
  }

  /** One ledger entry after a settlement. */
  lemma SettleLedgerAt(before: int, s: Store, k: string, s': Store, settled: seq<string>, u: string)
    requires SettlesOrder(s, k, s')
    requires u in s.users && s.users[u].credits == Some(Wrap32(before + CreditsFor(s.orders, settled, u)))
    ensures u in s'.users && s'.users[u].credits == Some(Wrap32(before + CreditsFor(s'.orders, settled + [k], u)))
  {
    SettleCreditsFor(s, k, s', settled, u);
    SettleBalance(before, s, k, s', u, CreditsFor(s.orders, settled, u), CreditsFor(s'.orders, settled + [k], u));
  }

  lemma VerifyStepPreserves(s0: Store, t: Trace, orderId: JString, creds: Credentials, reply: FetchReply)
    requires Invariant(s0, t)
    ensures Invariant(s0, Next(t, Verify(orderId, creds, reply)))
  {
    var r := VerifyPayment(t.store, orderId, creds, reply);
    if r.result.Ok? && r.result.value.Settled? {
      SettleKeepsOrderFacts(s0.orders, t.store, orderId.value, r.store, t.settled);
      SettleKeepsUsers(s0.users, t.store, orderId.value, r.store);
      SettleKeepsLedger(s0.users, t.store, orderId.value, r.store, t.settled);
    }
  }

  lemma CreateStepPreserves(s0: Store, t: Trace, planId: JString, clerkId: JString,
                            creds: Credentials, reply: CreateReply)
    requires Invariant(s0, t)
    ensures Invariant(s0, Next(t, Create(planId, clerkId, creds, reply)))
  {
    var orders' := CreateOrder(t.store.orders, planId, clerkId, creds, reply).orders;
    CreateOrderKeepsExistingOrders(t.store.orders, planId, clerkId, creds, reply);
    GrowthKeepsOrderFacts(s0.orders, t.store.orders, orders', t.settled);
    GrowthKeepsLedger(s0.users, t.store.orders, orders', t.store.users, t.settled);
  }

  lemma {:induction false} RunKeepsInvariant(s0: Store, calls: seq<Call>)
    ensures Invariant(s0, Run(s0, calls))
    decreases |calls|
  {
    if |calls| > 0 {
      var prefix := calls[..|calls| - 1];
      RunKeepsInvariant(s0, prefix);
      var t := Run(s0, prefix);
      match calls[|calls| - 1]
      case Verify(orderId, creds, reply) => VerifyStepPreserves(s0, t, orderId, creds, reply);
      case Create(planId, clerkId, creds, reply) => CreateStepPreserves(s0, t, planId, clerkId, creds, reply);
    }
  }

  /**
    The exactly-once theorem, orders half. Over any run: existing orders
    keep every field but the flag, and a set flag stays set; each order id
    is credited at most once; and the orders credited are exactly those
    whose flag went from unset (or absent) to set.
   */
  lemma ExactlyOnceSettlement(s0: Store, calls: seq<Call>, t: Trace)
    requires t == Run(s0, calls)
    ensures s0.orders.Keys <= t.store.orders.Keys
    ensures forall k :: k in s0.orders ==> t.store.orders[k] == s0.orders[k].(payment := t.store.orders[k].payment)
    ensures forall k :: k in s0.orders && s0.orders[k].payment ==> t.store.orders[k].payment
    ensures forall i, j :: 0 <= i < j < |t.settled| ==> t.settled[i] != t.settled[j]
    ensures forall k :: k in t.store.orders ==>
      (k in t.settled <==> t.store.orders[k].payment && !(k in s0.orders && s0.orders[k].payment))
  {
    RunKeepsInvariant(s0, calls);
    assert OrdersEvolve(s0.orders, t.store.orders);
    assert SettledExactly(s0.orders, t.store.orders, t.settled);
  }

  /** Over any run no user appears or disappears, and every profile field but the balance is untouched. */
  lemma ProfilesUntouched(s0: Store, calls: seq<Call>, t: Trace)
    requires t == Run(s0, calls)
    ensures t.store.users.Keys == s0.users.Keys
    ensures forall u :: u in s0.users ==> t.store.users[u] == s0.users[u].(credits := t.store.users[u].credits)
  {
    RunKeepsInvariant(s0, calls);
    assert UsersEvolve(s0.users, t.store.users);
  }

  /**
    The exactly-once theorem, balances half: over any run, each user with a
    balance ends with that balance plus the credits of their settled orders,
    as a Java `int`.
   */
  lemma ExactlyOnceCrediting(s0: Store, calls: seq<Call>, t: Trace)
    requires t == Run(s0, calls)
    ensures forall u :: u in s0.users && s0.users[u].credits.Some? ==>
      u in t.store.users
      && t.store.users[u].credits == Some(Wrap32(s0.users[u].credits.value + CreditsFor(t.store.orders, t.settled, u)))
  {
    RunKeepsLedger(s0, calls);
    LedgerMeans(s0.users, t.store.orders, t.store.users, t.settled);
  }

  /** The users and ledger parts of the invariant, for every run. */
  lemma RunKeepsLedger(s0: Store, calls: seq<Call>)
    ensures var t := Run(s0, calls);
      UsersEvolve(s0.users, t.store.users) && Ledger(s0.users, t.store.orders, t.store.users, t.settled)
  {
    RunKeepsInvariant(s0, calls);
  }

  /** `Ledger` spelled out, over any tables. */
  lemma LedgerMeans(u0: Users, o: Orders, users: Users, settled: seq<string>)
    requires UsersEvolve(u0, users) && Ledger(u0, o, users, settled)
    ensures forall u :: u in u0 && u0[u].credits.Some? ==>
      u in users && users[u].credits == Some(Wrap32(u0[u].credits.value + CreditsFor(o, settled, u)))
  {
  }

  /** Verifying one order over and over credits it at most once. */
  lemma {:induction false} SingleOrderSettlesAtMostOnce(s0: Store, calls: seq<Call>, k: string)
    requires forall j :: 0 <= j < |calls| ==> calls[j].Verify? && calls[j].orderId == Some(k)
    ensures Run(s0, calls).settled == [] || Run(s0, calls).settled == [k]
    decreases |calls|
  {
    if |calls| > 0 {
      var prefix := calls[..|calls| - 1];
      SingleOrderSettlesAtMostOnce(s0, prefix, k);
      RunKeepsInvariant(s0, prefix);
      var t := Run(s0, prefix);
      if t.settled == [k] {
        assert k in t.settled;
        assert t.store.orders[k].payment;
      }
    }
  }

  /** The balance and flag facts for a trace that credited nothing or only order `k`. */
  lemma OneOrderOutcome(s0: Store, t: Trace, k: string)
    requires Invariant(s0, t)
    requires t.settled == [] || t.settled == [k]
    requires k in s0.orders
    requires s0.orders[k].clerkId in s0.users && s0.users[s0.orders[k].clerkId].credits.Some?
    ensures var order := s0.orders[k];
      var before := s0.users[order.clerkId].credits.value;
      && k in t.store.orders && order.clerkId in t.store.users
      && (t.settled == [] ==> t.store.users[order.clerkId].credits == Some(before))
      && (t.settled == [k] ==> t.store.users[order.clerkId].credits == Some(Wrap32(before + order.credits)))
      && (t.settled == [k] <==> !order.payment && t.store.orders[k].payment)
  {
    var order := s0.orders[k];
    var u := order.clerkId;
    var before := s0.users[u].credits.value;
    assert t.store.orders[k].clerkId == u && t.store.orders[k].credits == order.credits;
    assert t.store.users[u].credits == Some(Wrap32(before + CreditsFor(t.store.orders, t.settled, u)));
    if t.settled == [] {
      assert Wrap32(before) == before;
    } else {
      assert t.settled[..0] == [];
      assert CreditsFor(t.store.orders, t.settled, u) == order.credits;
    }
  }

  /**
    Repeated verification of one order, with any gateway answers: at most
    one call credits it, and its buyer ends with the starting balance or
    that balance plus the order's credits, nothing else.
   */
  lemma RepeatedVerificationCreditsOnce(s0: Store, calls: seq<Call>, k: string, t: Trace)
    requires forall j :: 0 <= j < |calls| ==> calls[j].Verify? && calls[j].orderId == Some(k)
    requires k in s0.orders
    requires s0.orders[k].clerkId in s0.users && s0.users[s0.orders[k].clerkId].credits.Some?
    requires t == Run(s0, calls)
    ensures var order := s0.orders[k];
      var before := s0.users[order.clerkId].credits.value;
      && k in t.store.orders && order.clerkId in t.store.users
      && (t.settled == [] || t.settled == [k])
      && (t.settled == [] ==> t.store.users[order.clerkId].credits == Some(before))
      && (t.settled == [k] ==> t.store.users[order.clerkId].credits == Some(Wrap32(before + order.credits)))
      && (t.settled == [k] <==> !order.payment && t.store.orders[k].payment)
  {
    RunKeepsInvariant(s0, calls);
    SingleOrderSettlesAtMostOnce(s0, calls, k);
    OneOrderOutcome(s0, t, k);
  }
}
