/**
  `OrderServiceImpl`: the fixed plan catalog and the creation of a pending
  order. Validation runs in a fixed order (plan id, plan, buyer); the
  gateway is asked for the plan's amount in INR, and the order is stored
  unpaid only once the gateway has returned an id.
 */
module OrderService {
  import opened Lang
  import opened Failures
  import opened Entities
  import opened Razorpay

  /** `PlanDetails`; the amount is in paise (499.00 rupees is 49900). */
  datatype Plan = Plan(name: string, credits: Int32, amountMinor: int)

  /** `PLAN_DETAILS`: case-sensitive keys. */
  const PLAN_DETAILS: map<string, Plan> := map[
    "Basic" := Plan("Basic", 100, 49900),
    "Premium" := Plan("Premium", 250, 89900),
    "Ultimate" := Plan("Ultimate", 1000, 149900)
  ]

  const CURRENCY := "INR"
  const PLAN_ID_EMPTY := "Plan ID cannot be empty"
  const PLAN_UNAVAILABLE := "Selected plan is not available. Please choose from: Basic, Premium, or Ultimate"
  const USER_REQUIRED := "User identification is required"
  const SAVE_FAILED := "Failed to save order details. Please try again later"

  /** `isValidPlan` */
  predicate IsValidPlan(planId: JString) {
    planId.Some? && planId.value in PLAN_DETAILS
  }

  /** The catalog holds exactly the three tiers, each named after its key. */
  lemma CatalogContents()
    ensures PLAN_DETAILS.Keys == {"Basic", "Premium", "Ultimate"}
    ensures forall id :: id in PLAN_DETAILS ==> PLAN_DETAILS[id].name == id
    ensures forall id :: id in PLAN_DETAILS ==> PLAN_DETAILS[id].credits > 0 && PLAN_DETAILS[id].amountMinor > 0
  {
  }

  /** `isValidPlan` holds exactly for the three names, spelled with their exact case. */
  lemma IsValidPlanExactNames(planId: JString)
    ensures IsValidPlan(planId) <==> planId == Some("Basic") || planId == Some("Premium") || planId == Some("Ultimate")
    ensures !IsValidPlan(Some("basic")) && !IsValidPlan(Some("Basic "))
  {
    CatalogContents();
  }

  /** No catalog key is blank, so a blank plan id is never a valid plan. */
  lemma CatalogKeysNotBlank()
    ensures forall id :: id in PLAN_DETAILS ==> !IsBlank(id)
  {
    assert "Basic"[0] > ' ' && "Premium"[0] > ' ' && "Ultimate"[0] > ' ';
  }

  /** `sent` is the gateway request issued, `None` when validation stopped first. */
  datatype Created = Created(sent: Option<GatewayRequest>, result: Result<Order>, orders: Orders)

  /** `createOrder(planId, clerkId)` */
  function CreateOrder(orders: Orders, planId: JString, clerkId: JString, creds: Credentials,
                       reply: CreateReply): (r: Created)
    ensures NullOrBlank(planId) ==> r == Created(None, Err(InvalidPlan(PLAN_ID_EMPTY)), orders)
    ensures !NullOrBlank(planId) && !IsValidPlan(planId) ==> r == Created(None, Err(InvalidPlan(PLAN_UNAVAILABLE)), orders)
    ensures IsValidPlan(planId) && NullOrBlank(clerkId) ==> r == Created(None, Err(OrderServiceFailure(USER_REQUIRED)), orders)
    ensures IsValidPlan(planId) && !NullOrBlank(clerkId) && !Configured(creds) ==>
      r == Created(None, Err(PaymentProcessing(CREATE_FAILED)), orders)
    ensures r.sent.Some? <==> IsValidPlan(planId) && !NullOrBlank(clerkId) && Configured(creds)
    ensures r.sent.Some? ==> r.sent.value == GatewayRequest(PLAN_DETAILS[planId.value].amountMinor, CURRENCY)
    ensures r.sent.Some? && reply.CreateRejected? ==>
      r == Created(r.sent, Err(PaymentProcessing(GATEWAY_ERROR + reply.reason)), orders)
    ensures r.sent.Some? && reply == CreateReturned(None) ==>
      r == Created(r.sent, Err(PaymentProcessing(CREATE_FAILED)), orders)
    ensures r.sent.Some? && reply.CreateReturned? && reply.id.Some? && reply.id.value in orders ==>
      r == Created(r.sent, Err(OrderServiceFailure(SAVE_FAILED)), orders)
    ensures r.sent.Some? && reply.CreateReturned? && reply.id.Some? && reply.id.value !in orders ==> r.result.Ok?
    ensures r.result.Err? ==> r.orders == orders
    ensures r.result.Ok? ==>
      && IsValidPlan(planId) && !NullOrBlank(clerkId)
      && var plan := PLAN_DETAILS[planId.value];
      && var order := r.result.value;
      && reply == CreateReturned(Some(order.orderId))
      && order.orderId !in orders
      && order == Order(clerkId.value, plan.name, plan.credits, plan.amountMinor, order.orderId, false)
      && r.orders == orders[order.orderId := order]
  {
    if NullOrBlank(planId) then
      CatalogKeysNotBlank();
      Created(None, Err(InvalidPlan(PLAN_ID_EMPTY)), orders)
    else if planId.value !in PLAN_DETAILS then Created(None, Err(InvalidPlan(PLAN_UNAVAILABLE)), orders)
    else if NullOrBlank(clerkId) then Created(None, Err(OrderServiceFailure(USER_REQUIRED)), orders)
    else
      var plan := PLAN_DETAILS[planId.value];
      var gateway := CreateGatewayOrder(Some(plan.amountMinor), Some(CURRENCY), creds, reply);
      assert UpperAscii(CURRENCY) == CURRENCY;
      assert plan.amountMinor > 0 && !IsBlank(CURRENCY) by {
        CatalogContents();
        assert CURRENCY[0] > ' ';
      }
      match gateway.result
      case Err(e) => Created(gateway.sent, Err(e), orders)
      case Ok(id) =>
        if id.None? then Created(gateway.sent, Err(PaymentProcessing(CREATE_FAILED)), orders)
        // a second row with the same gateway id violates the unique column
        else if id.value in orders then Created(gateway.sent, Err(OrderServiceFailure(SAVE_FAILED)), orders)
        else
          var order := Order(clerkId.value, plan.name, plan.credits, plan.amountMinor, id.value, false);
          Created(gateway.sent, Ok(order), orders[id.value := order])
  }

  /** Creating an order never touches an order that already exists. */
  lemma CreateOrderKeepsExistingOrders(orders: Orders, planId: JString, clerkId: JString,
                                       creds: Credentials, reply: CreateReply)
    ensures var r := CreateOrder(orders, planId, clerkId, creds, reply);
      && orders.Keys <= r.orders.Keys
      && (forall k :: k in orders ==> r.orders[k] == orders[k])
      && (forall k :: k in r.orders && k !in orders ==> !r.orders[k].payment)
  {
  }
}
