/**
  `RazorpayServiceImpl`: creating a gateway order and verifying/settling a
  paid one. The gateway itself is not modelled: what it answers is a
  parameter (`CreateReply`, `FetchReply`), and what it was asked is part of
  the result. Each call is one atomic step over the `Store`; every error
  path leaves the store as it was, which is what the `@Transactional`
  rollback of `verifyPayment` guarantees.
 */
module Razorpay {
  import opened Lang
  import opened Failures
  import opened Entities
  import opened UserService

  datatype Credentials = Credentials(keyId: JString, keySecret: JString)

  /** Both Razorpay credentials are present and non-blank. */
  predicate Configured(creds: Credentials) {
    !NullOrBlank(creds.keyId) && !NullOrBlank(creds.keySecret)
  }

  // ---------------------------------------------------------------------
  // createOrder

  /** What is sent to `orders.create`: the amount in paise and the upper-cased currency. */
  datatype GatewayRequest = GatewayRequest(amountMinor: int, currency: string)

  /** The gateway's answer to `orders.create`: a `RazorpayException`, or an order whose id may be null. */
  datatype CreateReply = CreateRejected(reason: string) | CreateReturned(id: JString)

  /** `sent` is the request issued to the gateway, `None` when no call was made. */
  datatype GatewayCreate = GatewayCreate(sent: Option<GatewayRequest>, result: Result<JString>)

  const CREATE_FAILED := "Failed to create payment order"
  const GATEWAY_ERROR := "Payment gateway error: "

  /**
    `createOrder(amount, currency)`. Its own validation throws
    `PaymentProcessingException`, but those throws sit inside a try whose
    `catch (Exception)` re-wraps them, so a bad amount, a blank currency and
    missing credentials all surface as "Failed to create payment order".
   */
  function CreateGatewayOrder(amountMinor: Option<int>, currency: JString, creds: Credentials,
                              reply: CreateReply): (r: GatewayCreate)
    ensures r.sent.Some? <==> amountMinor.Some? && amountMinor.value > 0 && !NullOrBlank(currency) && Configured(creds)
    ensures r.sent.Some? ==> r.sent.value == GatewayRequest(amountMinor.value, UpperAscii(currency.value))
    ensures r.sent.None? ==> r.result == Err(PaymentProcessing(CREATE_FAILED))
    ensures r.result.Ok? <==> r.sent.Some? && reply.CreateReturned?
    ensures r.result.Ok? ==> r.result.value == reply.id
    ensures r.result.Err? ==> r.result.error.PaymentProcessing?
  {
    if amountMinor.None? || amountMinor.value <= 0 || NullOrBlank(currency) || !Configured(creds) then
      GatewayCreate(None, Err(PaymentProcessing(CREATE_FAILED)))
    else
      var request := GatewayRequest(amountMinor.value, UpperAscii(currency.value));
      match reply
      case CreateRejected(reason) => GatewayCreate(Some(request), Err(PaymentProcessing(GATEWAY_ERROR + reason)))
      case CreateReturned(id) => GatewayCreate(Some(request), Ok(id))
  }

  /**
    The currency's case does not matter: the request carries the
    upper-cased currency, so a currency and its upper-cased form issue the
    same request and get the same answer.
   */
  lemma CurrencyCaseIsIrrelevant(amountMinor: Option<int>, currency: string, creds: Credentials, reply: CreateReply)
    ensures CreateGatewayOrder(amountMinor, Some(currency), creds, reply)
         == CreateGatewayOrder(amountMinor, Some(UpperAscii(currency)), creds, reply)
  {
    var upper := UpperAscii(currency);
    assert UpperAscii(upper) == upper;
    assert IsBlank(upper) <==> IsBlank(currency) by {
      if !IsBlank(currency) {
        var i :| 0 <= i < |currency| && currency[i] > ' ';
        assert upper[i] > ' ';
      }
    }
  }

  // ---------------------------------------------------------------------
  // verifyPayment / processPaidOrder

  datatype Store = Store(users: Users, orders: Orders)

  /** The gateway's answer to `orders.fetch`: a `RazorpayException`, `null`, or an order with a status. */
  datatype FetchReply = FetchFailed(reason: string) | FetchedNull | Fetched(status: JString)

  /** The map `verifyPayment` returns, by its three shapes. */
  datatype Verification =
    | NotCompleted
    | AlreadyProcessed
    | Settled(creditsAdded: int, totalCredits: int)
  {
    /** The "success" entry. */
    predicate Success() {
      Settled?
    }

    /** The "message" entry. */
    function Message(): string {
      match this
      case NotCompleted => "Payment not completed. Please try again or contact support"
      case AlreadyProcessed => "Payment has already been processed for this order"
      case Settled(added, _) => "Payment successful! " + IntToString(added) + " credits added to your account"
    }
  }

  datatype Verified = Verified(result: Result<Verification>, store: Store)

  const ID_REQUIRED := "Order ID is required for verification"
  const CONFIG_ERROR := "Payment service configuration error"
  const VERIFY_GATEWAY_ERROR := "Payment gateway error during verification: "
  const NOT_IN_GATEWAY := "Order not found in payment gateway"
  const PROCESS_FAILED := "Failed to process payment. Please contact support"

  /** `"paid".equalsIgnoreCase(status)`, a null status reading as "". */
  predicate IsPaidStatus(status: JString) {
    EqualsIgnoreCase("paid", if status.None? then "" else status.value)
  }

  lemma IsPaidStatusMeansLowerPaid(status: JString)
    ensures IsPaidStatus(status) <==> status.Some? && LowerAscii(status.value) == "paid"
  {
    EqualsIgnoreCaseIsLowerEquality("paid", if status.None? then "" else status.value);
  }

  /**
    The one state change settlement makes: the unpaid order `orderId` is
    flagged paid and its buyer's credits grow by the order's credits (in
    `int` arithmetic); nothing else changes.
   */
  ghost predicate SettlesOrder(s: Store, orderId: string, s': Store) {
    && orderId in s.orders
    && var order := s.orders[orderId];
    && !order.payment
    && order.clerkId in s.users
    && var user := s.users[order.clerkId];
    && user.credits.Some?
    && s'.orders == s.orders[orderId := order.(payment := true)]
    && s'.users == s.users[order.clerkId := user.(credits := Some(Wrap32(user.credits.value + order.credits)))]
  }

  /**
    `processPaidOrder` as written. A missing order, a missing buyer and a
    null balance all throw inside the try and end in its catch-all. Its
    `catch (UserNotFoundException)` never fires: `getUserByClerkId`
    re-wraps that exception as a `UserServiceException`.
   */
  function ProcessPaidOrderAsWritten(s: Store, orderId: string): (r: Verified)
    ensures r.result.Err? ==> r.store == s && r.result.error == PaymentProcessing(PROCESS_FAILED)
    ensures (&& orderId in s.orders && !s.orders[orderId].payment
             && s.orders[orderId].clerkId in s.users
             && s.users[s.orders[orderId].clerkId].credits.Some?) ==>
      r.result.Ok? && r.result.value.Settled?
    ensures orderId !in s.orders ==> r.result.Err?
    ensures r.result == Ok(AlreadyProcessed) <==> orderId in s.orders && s.orders[orderId].payment
    ensures r.result == Ok(AlreadyProcessed) ==> r.store == s
    ensures r.result.Ok? ==> !r.result.value.NotCompleted?
    ensures r.result.Ok? && r.result.value.Settled? ==>
      && SettlesOrder(s, orderId, r.store)
      && var order := s.orders[orderId];
      && r.result.value.creditsAdded == order.credits
      && Some(r.result.value.totalCredits) == r.store.users[order.clerkId].credits
    ensures r.store == s || SettlesOrder(s, orderId, r.store)
  {
    if orderId !in s.orders then Verified(Err(PaymentProcessing(PROCESS_FAILED)), s)
    else
      var order := s.orders[orderId];
      if order.payment then Verified(Ok(AlreadyProcessed), s)
      else
        match GetUser(s.users, order.clerkId)
        case Err(_) => Verified(Err(PaymentProcessing(PROCESS_FAILED)), s)
        case Ok(dto) =>
          if dto.credits.None? then Verified(Err(PaymentProcessing(PROCESS_FAILED)), s)
          else
            var newCredits := Wrap32(dto.credits.value + order.credits);
            var saved := SaveUser(s.users, dto.(credits := Some(newCredits)));
            var orders' := s.orders[orderId := order.(payment := true)];
            assert saved.users[order.clerkId] == s.users[order.clerkId].(credits := Some(newCredits));
            Verified(Ok(Settled(order.credits, newCredits)), Store(saved.users, orders'))
  }

  const ACCOUNT_MISSING := "User account not found. Please contact support"

  /** An unsettled order whose buyer has no user record. */
  ghost predicate BuyerMissing(s: Store, orderId: string) {
    orderId in s.orders && !s.orders[orderId].payment && s.orders[orderId].clerkId !in s.users
  }

  /**
    `processPaidOrder` as its catch clauses intend: a missing buyer is
    reported as such; everything else is as written.
   */
  function ProcessPaidOrder(s: Store, orderId: string): (r: Verified)
    ensures r.result.Err? ==> r.store == s && r.result.error.PaymentProcessing?
    ensures r.result.Err? ==> (r.result.error.message == ACCOUNT_MISSING <==> BuyerMissing(s, orderId))
    ensures (&& orderId in s.orders && !s.orders[orderId].payment
             && s.orders[orderId].clerkId in s.users
             && s.users[s.orders[orderId].clerkId].credits.Some?) ==>
      r.result.Ok? && r.result.value.Settled?
    ensures orderId !in s.orders ==> r.result.Err?
    ensures r.result == Ok(AlreadyProcessed) <==> orderId in s.orders && s.orders[orderId].payment
    ensures r.result == Ok(AlreadyProcessed) ==> r.store == s
    ensures r.result.Ok? ==> !r.result.value.NotCompleted?
    ensures r.result.Ok? && r.result.value.Settled? ==>
      && SettlesOrder(s, orderId, r.store)
      && var order := s.orders[orderId];
      && r.result.value.creditsAdded == order.credits
      && Some(r.result.value.totalCredits) == r.store.users[order.clerkId].credits
    ensures r.store == s || SettlesOrder(s, orderId, r.store)
  {
    if orderId in s.orders && !s.orders[orderId].payment && s.orders[orderId].clerkId !in s.users then
      Verified(Err(PaymentProcessing(ACCOUNT_MISSING)), s)
    else ProcessPaidOrderAsWritten(s, orderId)
  }

  /**
    The finding: for an unsettled order whose buyer is gone, the code as
    written answers the generic failure, the intended code names the cause;
    on every other store the two agree.
   */
  lemma MissingBuyerMessage(s: Store, orderId: string)
    ensures BuyerMissing(s, orderId) ==>
      && ProcessPaidOrderAsWritten(s, orderId) == Verified(Err(PaymentProcessing(PROCESS_FAILED)), s)
      && ProcessPaidOrder(s, orderId) == Verified(Err(PaymentProcessing(ACCOUNT_MISSING)), s)
    ensures !BuyerMissing(s, orderId) ==> ProcessPaidOrder(s, orderId) == ProcessPaidOrderAsWritten(s, orderId)
  {
  }

  /**
    The checks `verifyPayment` makes before settlement: `Some(v)` ends the
    call with `v`; `None` means the gateway reports the order paid and
    settlement follows.
   */
  function GatewayVerdict(s: Store, orderId: JString, creds: Credentials, reply: FetchReply): (v: Option<Verified>)
    ensures v.None? <==> !NullOrBlank(orderId) && Configured(creds) && reply.Fetched? && IsPaidStatus(reply.status)
    ensures v.Some? ==> v.value.store == s && (v.value.result.Ok? ==> v.value.result.value == NotCompleted)
  {
    if NullOrBlank(orderId) then Some(Verified(Err(PaymentProcessing(ID_REQUIRED)), s))
    else if !Configured(creds) then Some(Verified(Err(PaymentProcessing(CONFIG_ERROR)), s))
    else
      match reply
      case FetchFailed(reason) => Some(Verified(Err(PaymentProcessing(VERIFY_GATEWAY_ERROR + reason)), s))
      case FetchedNull => Some(Verified(Err(OrderNotFound(NOT_IN_GATEWAY)), s))
      case Fetched(status) =>
        if IsPaidStatus(status) then None
        else Some(Verified(Ok(NotCompleted), s))
  }

  /** `verifyPayment` exactly as written: settlement through `ProcessPaidOrderAsWritten`. */
  function VerifyPaymentAsWritten(s: Store, orderId: JString, creds: Credentials, reply: FetchReply): (r: Verified)
    ensures NullOrBlank(orderId) ==> r == Verified(Err(PaymentProcessing(ID_REQUIRED)), s)
    ensures !NullOrBlank(orderId) && !Configured(creds) ==> r == Verified(Err(PaymentProcessing(CONFIG_ERROR)), s)
    ensures r.result.Err? ==> r.store == s
    ensures r.result == Ok(NotCompleted) <==>
      !NullOrBlank(orderId) && Configured(creds) && reply.Fetched? && !IsPaidStatus(reply.status)
    ensures r.result == Ok(AlreadyProcessed) ==>
      r.store == s && orderId.Some? && orderId.value in s.orders && s.orders[orderId.value].payment
    ensures r.result.Ok? && r.result.value.Settled? ==>
      && reply.Fetched? && IsPaidStatus(reply.status)
      && SettlesOrder(s, orderId.value, r.store)
      && r.result.value.creditsAdded == s.orders[orderId.value].credits
    ensures r.store == s || (r.result.Ok? && r.result.value.Settled?)
  {
    match GatewayVerdict(s, orderId, creds, reply)
    case Some(v) => v
    case None => ProcessPaidOrderAsWritten(s, orderId.value)
  }

  /** `verifyPayment`, settling through the corrected `ProcessPaidOrder`. */
  function VerifyPayment(s: Store, orderId: JString, creds: Credentials, reply: FetchReply): (r: Verified)
    ensures NullOrBlank(orderId) ==> r == Verified(Err(PaymentProcessing(ID_REQUIRED)), s)
    ensures !NullOrBlank(orderId) && !Configured(creds) ==> r == Verified(Err(PaymentProcessing(CONFIG_ERROR)), s)
    ensures r.result.Err? ==> r.store == s
    ensures r.result == Ok(NotCompleted) <==>
      !NullOrBlank(orderId) && Configured(creds) && reply.Fetched? && !IsPaidStatus(reply.status)
    ensures r.result == Ok(AlreadyProcessed) ==>
      r.store == s && orderId.Some? && orderId.value in s.orders && s.orders[orderId.value].payment
    ensures r.result.Ok? && r.result.value.Settled? ==>
      && reply.Fetched? && IsPaidStatus(reply.status)
      && SettlesOrder(s, orderId.value, r.store)
      && r.result.value.creditsAdded == s.orders[orderId.value].credits
    ensures r.store == s || (r.result.Ok? && r.result.value.Settled?)
  {
    match GatewayVerdict(s, orderId, creds, reply)
    case Some(v) => v
    case None => ProcessPaidOrder(s, orderId.value)
  }

  /**
    The two readings of `verifyPayment` move the tables identically. Their
    answers differ exactly when a paid gateway status meets an unsettled
    order whose buyer is missing: the code as written then reports the
    generic failure where the corrected code names the missing account.
   */
  lemma VerifyPaymentReadingsAgree(s: Store, orderId: JString, creds: Credentials, reply: FetchReply)
    ensures VerifyPaymentAsWritten(s, orderId, creds, reply).store == VerifyPayment(s, orderId, creds, reply).store
    ensures var w := VerifyPaymentAsWritten(s, orderId, creds, reply);
      var c := VerifyPayment(s, orderId, creds, reply);
      w.result != c.result <==>
        && !NullOrBlank(orderId) && Configured(creds) && reply.Fetched? && IsPaidStatus(reply.status)
        && BuyerMissing(s, orderId.value)
    ensures var w := VerifyPaymentAsWritten(s, orderId, creds, reply);
      var c := VerifyPayment(s, orderId, creds, reply);
      w.result != c.result ==>
        w.result == Err(PaymentProcessing(PROCESS_FAILED)) && c.result == Err(PaymentProcessing(ACCOUNT_MISSING))
  {
    if GatewayVerdict(s, orderId, creds, reply).None? {
      MissingBuyerMessage(s, orderId.value);
      assert |PROCESS_FAILED| != |ACCOUNT_MISSING|;
    }
  }

  /**
    Idempotence: once an order has been settled, verifying it again with
    a "paid" gateway status reports "already processed" and changes nothing.
   */
  lemma SecondVerificationIsAlreadyProcessed(s: Store, orderId: string, creds: Credentials,
                                             reply: FetchReply, reply': FetchReply)
    requires Configured(creds) && !IsBlank(orderId)
    requires VerifyPayment(s, Some(orderId), creds, reply).result.Ok?
    requires VerifyPayment(s, Some(orderId), creds, reply).result.value.Settled?
    requires reply'.Fetched? && IsPaidStatus(reply'.status)
    ensures var s1 := VerifyPayment(s, Some(orderId), creds, reply).store;
      VerifyPayment(s1, Some(orderId), creds, reply') == Verified(Ok(AlreadyProcessed), s1)
  {
    var s1 := VerifyPayment(s, Some(orderId), creds, reply).store;
    assert s1.orders[orderId].payment;
  }

  /** The scenario of a first settlement: the buyer gains exactly the order's credits. */
  lemma FirstSettlementCreditsBuyer(s: Store, orderId: string, creds: Credentials, status: string)
    requires Configured(creds) && !IsBlank(orderId)
    requires LowerAscii(status) == "paid"
    requires orderId in s.orders && !s.orders[orderId].payment
    requires s.orders[orderId].clerkId in s.users
    requires s.users[s.orders[orderId].clerkId].credits.Some?
    ensures var r := VerifyPayment(s, Some(orderId), creds, Fetched(Some(status)));
      var order := s.orders[orderId];
      var before := s.users[order.clerkId].credits.value;
      && r.result == Ok(Settled(order.credits, Wrap32(before + order.credits)))
      && r.store.orders[orderId].payment
      && r.store.users[order.clerkId].credits == Some(Wrap32(before + order.credits))
  {
    IsPaidStatusMeansLowerPaid(Some(status));
  }
}
