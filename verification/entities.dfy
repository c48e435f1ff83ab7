/**
  The persisted records (`User`, `OrderEntity`), the `UserDto` the services
  exchange, and the two tables, keyed the way the repositories look them up
  (`findByClerkId`, `findByOrderId`).
 */
module Entities {
  import opened Lang

  /** A stored user; the table key is its clerkId. `credits` is a nullable `Integer`. */
  datatype User = User(email: JString, firstName: JString, lastName: JString,
                       photoUrl: JString, credits: Option<Int32>)

  /**
    `UserDto` as the service layer receives it. Every caller in the
    repository hands `saveUser` a DTO whose clerkId is non-null (the
    principal name, a non-blank webhook id, or a DTO read back from the
    store), so the key is a plain string here.
   */
  datatype UserDto = UserDto(clerkId: string, email: JString, firstName: JString,
                             lastName: JString, credits: Option<Int32>, photoUrl: JString)

  /** One purchase; `payment` is the settlement flag. Amounts are in paise. */
  datatype Order = Order(clerkId: string, plan: string, credits: Int32,
                         amountMinor: int, orderId: string, payment: bool)

  type Users = map<string, User>

  /** Orders keyed by the gateway's order id (a unique column). */
  type Orders = map<string, Order>
}
