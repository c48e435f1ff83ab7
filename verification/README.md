# BGRemover backend: credits, payments and webhooks in Dafny

This project models the trust boundary and the settlement engine of the
BGRemover backend, a Spring service where users spend credits on
background removal and buy credits through Razorpay. It covers the
following:

- **Webhook signatures** (`WebhookSignatureServiceImpl`): Clerk sends
  identity events signed with the Standard Webhooks (Svix) scheme. The
  model covers the secret check, the five-minute freshness window, the
  signed content `id.timestamp.payload`, the `whsec_` prefix, the
  constant-time comparison and the scan of the `v1,` signature tokens.
- **Payments** (`RazorpayServiceImpl`, `OrderServiceImpl`): the plan
  catalog, creation of a pending order, payment verification, and
  settlement of a paid order. Settlement credits the buyer once and marks
  the order paid.
- **Users** (`UserServiceImpl`): an upsert, lookup and delete keyed by
  clerkId.
- **Controllers:** the image endpoint's file validation, credit gate and
  one-credit debit (`ImageController`), the Clerk webhook dispatcher and
  its extractors (`ClerkWebhookController`), and the profile upsert and
  balance lookup (`UserController`).

Every service call is a pure function from the current tables (`Users`,
`Orders`) to a result and the tables afterwards. An error result leaves
the tables as they were. External systems are parameters, not code:

- the payment gateway's reply;
- the removal service's reply;
- the JSON parser;
- HMAC-SHA256, base64 and UTF-8, which are fields of a `Crypto` record;
- the clock.

Every property therefore holds for every behaviour of those systems.

Modules, one per source component:

| file | module | models |
|---|---|---|
| `lang.dfy` | `Lang` | nullable strings, `trim().isEmpty()`, `split(" ")`, ASCII case folding, `Long.parseLong`, `int`/`long` wrap-around, bitwise xor and or |
| `failures.dfy` | `Failures` | the exception classes as one `Error` datatype, and `Result` |
| `entities.dfy` | `Entities` | `User`, `UserDto`, `OrderEntity`, and the two tables |
| `http.dfy` | `Http` | the `RemoveBgResponse` envelope |
| `user_service.dfy` | `UserService` | `UserServiceImpl` |
| `webhook_signature.dfy` | `WebhookSignature` | `WebhookSignatureServiceImpl` |
| `razorpay_service.dfy` | `Razorpay` | `RazorpayServiceImpl` |
| `order_service.dfy` | `OrderService` | `OrderServiceImpl` |
| `exactly_once.dfy` | `ExactlyOnce` | any sequence of order creations and verifications |
| `image_controller.dfy` | `ImageApi` | `ImageController` |
| `clerk_webhook.dfy` | `ClerkWebhook` | `ClerkWebhookController` |
| `user_controller.dfy` | `UserApi` | `UserController` |

Amounts are integer paise: the catalog's 499.00 rupees is 49900. Credit
arithmetic wraps like Java's `int`. The settlement sum `getCredits() +
order.getCredits()` is `Wrap32`, and the exactly-once ledger is stated
modulo 2^32.

## Model

| member | source | states |
|---|---|---|
| `Lang.Split` | src/main/java/in/apoorvsahu/removebg/services/impl/WebhookSignatureServiceImpl.java:62 | the tokens of `split(" ")` contain no space and glue back together into the header |
| `Lang.ParseLongOfIntToString` | src/main/java/in/apoorvsahu/removebg/services/impl/WebhookSignatureServiceImpl.java:87 | `Long.parseLong` reads back every `long` written in decimal |
| `Lang.EqualsIgnoreCaseIsLowerEquality` | src/main/java/in/apoorvsahu/removebg/services/impl/RazorpayServiceImpl.java:106 | `equalsIgnoreCase` holds exactly when the lower-cased strings are equal |
| `Lang.Wrap32` | src/main/java/in/apoorvsahu/removebg/services/impl/RazorpayServiceImpl.java:141 | the `int` sum is in range, congruent to the exact sum modulo 2^32, and equal to it when that fits |
| `Lang.Wrap32Add` | src/main/java/in/apoorvsahu/removebg/services/impl/RazorpayServiceImpl.java:141 | adding credits to an already wrapped balance wraps like adding to the exact balance, so successive settlements compose |
| `Lang.BitXorZero` | src/main/java/in/apoorvsahu/removebg/services/impl/WebhookSignatureServiceImpl.java:103 | `a ^ b` is zero exactly when `a == b` |
| `Lang.BitOrZero` | src/main/java/in/apoorvsahu/removebg/services/impl/WebhookSignatureServiceImpl.java:103 | the bitwise or of two values is zero exactly when both are zero |
| `WebhookSignature.JavaAbs` | src/main/java/in/apoorvsahu/removebg/services/impl/WebhookSignatureServiceImpl.java:89 | `Math.abs` of a `long` is non-negative, except that `Long.MIN_VALUE` maps to itself |
| `WebhookSignature.AncientTimestampPassesAsWritten` | src/main/java/in/apoorvsahu/removebg/services/impl/WebhookSignatureServiceImpl.java:85-94 | for every non-negative clock reading, the timestamp 2^63 s in the past passes the freshness check as written but falls outside the 300 s window |
| `WebhookSignature.WindowAsWrittenAgreesElsewhere` | src/main/java/in/apoorvsahu/removebg/services/impl/WebhookSignatureServiceImpl.java:85-94 | for clock readings up to 2^62, that timestamp is the only input on which the written check and the window disagree |
| `WebhookSignature.StaleTimestampRejected` | src/main/java/in/apoorvsahu/removebg/services/impl/WebhookSignatureServiceImpl.java:85-94 | the corrected freshness check rejects every timestamp more than 300 s before or after now |
| `WebhookSignature.SignedContent` | src/main/java/in/apoorvsahu/removebg/services/impl/WebhookSignatureServiceImpl.java:43 | the signed text is id, dot, timestamp, dot, payload, each at its own offset |
| `WebhookSignature.SignedContentDeterminesEachPart` | src/main/java/in/apoorvsahu/removebg/services/impl/WebhookSignatureServiceImpl.java:43 | changing any single part of an event changes the signed text |
| `WebhookSignature.SecretBody` | src/main/java/in/apoorvsahu/removebg/services/impl/WebhookSignatureServiceImpl.java:46-47 | a leading `whsec_` is removed and any other secret is used as is |
| `WebhookSignature.SecretPrefixStrippedOnce` | src/main/java/in/apoorvsahu/removebg/services/impl/WebhookSignatureServiceImpl.java:46-47 | the prefix is removed once, so a doubled prefix keeps its second copy |
| `WebhookSignature.AccumulateZero` | src/main/java/in/apoorvsahu/removebg/services/impl/WebhookSignatureServiceImpl.java:101-104 | the or-of-xors accumulator over the first n positions is zero exactly when those prefixes are equal |
| `WebhookSignature.CtEqualsIsEquality` | src/main/java/in/apoorvsahu/removebg/services/impl/WebhookSignatureServiceImpl.java:96-106 | the constant-time comparison is string equality |
| `WebhookSignature.ConstantTimeEquals` | src/main/java/in/apoorvsahu/removebg/services/impl/WebhookSignatureServiceImpl.java:96-106 | the loop answers string equality; for equal lengths it visits every position, without stopping at the first mismatch |
| `WebhookSignature.AnyTokenMatches` | src/main/java/in/apoorvsahu/removebg/services/impl/WebhookSignatureServiceImpl.java:64-71 | the token scan succeeds exactly when some token is `v1,` followed by the expected signature |
| `WebhookSignature.VerifyWebhookSignatureAsWritten` | src/main/java/in/apoorvsahu/removebg/services/impl/WebhookSignatureServiceImpl.java:27-94 | the verdict as written: true exactly when the secret is set, the timestamp passes the wrapping `long` check, the key decodes to bytes, and some header token is `v1,` plus the base64 HMAC of the signed text |
| `WebhookSignature.VerifyWebhookSignature` | src/main/java/in/apoorvsahu/removebg/services/impl/WebhookSignatureServiceImpl.java:27-83 | the same verdict with the intended window: the timestamp must be within 300 s of now |
| `WebhookSignature.VerdictsAgreeAwayFromWrap` | src/main/java/in/apoorvsahu/removebg/services/impl/WebhookSignatureServiceImpl.java:27-94 | for clock readings up to 2^62, the two verdicts agree on every header whose timestamp is not `now - 2^63` |
| `WebhookSignature.AncientSignedEventAcceptedAsWritten` | src/main/java/in/apoorvsahu/removebg/services/impl/WebhookSignatureServiceImpl.java:27-94 | an event genuinely signed at timestamp `now - 2^63` is accepted as written and rejected by the intended window |
| `WebhookSignature.GenuineSignatureAccepted` | src/main/java/in/apoorvsahu/removebg/services/impl/WebhookSignatureServiceImpl.java:43-71 | a fresh event whose header lists the genuine signature among any other tokens is accepted |
| `WebhookSignature.OneTokenAcceptance` | src/main/java/in/apoorvsahu/removebg/services/impl/WebhookSignatureServiceImpl.java:43-71 | acceptance against a one-token header `v1,sig` means the expected signature is `sig` |
| `WebhookSignature.TamperingNeedsMacCollision` | src/main/java/in/apoorvsahu/removebg/services/impl/WebhookSignatureServiceImpl.java:43-71 | a signature accepted for one event and for a copy differing in one part must be an HMAC collision on two distinct signed texts |
| `UserService.SaveUser` | src/main/java/in/apoorvsahu/removebg/services/impl/UserServiceImpl.java:24-49 | the upsert stores the DTO's profile under its clerkId, keeps the stored balance when the DTO has none, leaves other users alone, and returns what it stored |
| `UserService.GetUser` | src/main/java/in/apoorvsahu/removebg/services/impl/UserServiceImpl.java:51-64 | the lookup succeeds exactly for stored clerkIds and returns that record; otherwise it fails with the re-wrapped "unexpected error" |
| `UserService.DeleteUser` | src/main/java/in/apoorvsahu/removebg/services/impl/UserServiceImpl.java:66-81 | delete removes exactly the named user; an unknown clerkId is an error that changes nothing |
| `UserService.SaveThenGet` | src/main/java/in/apoorvsahu/removebg/services/impl/UserServiceImpl.java:24-64 | reading back a saved DTO returns it, with a null balance replaced by the stored one |
| `UserService.SaveIdempotent` | src/main/java/in/apoorvsahu/removebg/services/impl/UserServiceImpl.java:24-49 | saving the same DTO twice is the same as saving it once |
| `UserService.SaveOfFetchedIsNoop` | src/main/java/in/apoorvsahu/removebg/services/impl/UserServiceImpl.java:24-64 | writing back a fetched DTO leaves the table unchanged |
| `UserService.DeleteThenGet` | src/main/java/in/apoorvsahu/removebg/services/impl/UserServiceImpl.java:51-81 | a deleted user can no longer be fetched |
| `Razorpay.CreateGatewayOrder` | src/main/java/in/apoorvsahu/removebg/services/impl/RazorpayServiceImpl.java:39-77 | the gateway is called exactly when amount, currency and both credentials are valid, with the amount and the upper-cased currency; any validation error surfaces as "Failed to create payment order" |
| `Razorpay.CurrencyCaseIsIrrelevant` | src/main/java/in/apoorvsahu/removebg/services/impl/RazorpayServiceImpl.java:46-60 | a currency and its upper-cased form give the same request and the same answer, blank check included |
| `Razorpay.IsPaidStatusMeansLowerPaid` | src/main/java/in/apoorvsahu/removebg/services/impl/RazorpayServiceImpl.java:104-106 | a status counts as paid exactly when it is non-null and lower-cases to `paid` |
| `Razorpay.ProcessPaidOrderAsWritten` | src/main/java/in/apoorvsahu/removebg/services/impl/RazorpayServiceImpl.java:126-168 | settlement as written: an unknown order, missing buyer or null balance all give the generic failure and change nothing; a paid order is reported as already processed and left alone; otherwise (an unflagged order whose buyer exists with a balance) the order is always flagged and the buyer credited once |
| `Razorpay.ProcessPaidOrder` | src/main/java/in/apoorvsahu/removebg/services/impl/RazorpayServiceImpl.java:126-168 | settlement as intended: the same, success direction included, except that a missing buyer is reported as "User account not found" |
| `Razorpay.MissingBuyerMessage` | src/main/java/in/apoorvsahu/removebg/services/impl/RazorpayServiceImpl.java:140-166 | the two settlements differ only for an unpaid order whose buyer is missing, and only in the message |
| `Razorpay.GatewayVerdict` | src/main/java/in/apoorvsahu/removebg/services/impl/RazorpayServiceImpl.java:84-119 | the checks before settlement: they hand over to settlement exactly when the id and credentials are present and the gateway reports the order paid, and otherwise end the call without changing the tables |
| `Razorpay.VerifyPaymentAsWritten` | src/main/java/in/apoorvsahu/removebg/services/impl/RazorpayServiceImpl.java:79-168 | verification as written: the order id and credentials are checked first; "not completed" exactly when the gateway answers with a status other than paid; a change to the tables happens only as one settlement of that order; every error leaves the tables unchanged |
| `Razorpay.VerifyPayment` | src/main/java/in/apoorvsahu/removebg/services/impl/RazorpayServiceImpl.java:79-124 | the same with the corrected settlement; "already processed" only for an order already flagged paid |
| `Razorpay.VerifyPaymentReadingsAgree` | src/main/java/in/apoorvsahu/removebg/services/impl/RazorpayServiceImpl.java:79-168 | the two verifications change the tables identically; their answers differ exactly when a paid status meets an unsettled order whose buyer is missing, and then only as the generic failure against "User account not found" |
| `Razorpay.SecondVerificationIsAlreadyProcessed` | src/main/java/in/apoorvsahu/removebg/services/impl/RazorpayServiceImpl.java:133-138 | verifying a settled order again reports "already processed" and changes nothing |
| `Razorpay.FirstSettlementCreditsBuyer` | src/main/java/in/apoorvsahu/removebg/services/impl/RazorpayServiceImpl.java:140-156 | the first paid verification adds exactly the order's credits to its buyer and flags the order |
| `OrderService.CatalogContents` | src/main/java/in/apoorvsahu/removebg/services/impl/OrderServiceImpl.java:28-32 | the catalog is exactly Basic, Premium and Ultimate, each named after its key, with positive credits and price |
| `OrderService.IsValidPlanExactNames` | src/main/java/in/apoorvsahu/removebg/services/impl/OrderServiceImpl.java:95-97 | `isValidPlan` is case-sensitive and holds exactly for the three names |
| `OrderService.CatalogKeysNotBlank` | src/main/java/in/apoorvsahu/removebg/services/impl/OrderServiceImpl.java:40-48 | no catalog key is blank, so the blank-id check never hides a valid plan |
| `OrderService.CreateOrder` | src/main/java/in/apoorvsahu/removebg/services/impl/OrderServiceImpl.java:36-88 | checks run in order: plan id, plan, buyer, then the gateway credentials, whose absence is "Failed to create payment order"; the gateway is asked for the plan's price in INR exactly when all four pass; after the call, a gateway error, a null id and an id already stored each give their own failure and store nothing, and a fresh id always stores the order, unpaid, with the catalog's credits |
| `OrderService.CreateOrderKeepsExistingOrders` | src/main/java/in/apoorvsahu/removebg/services/impl/OrderServiceImpl.java:62-71 | creating an order never alters an existing one and can add only an unpaid one |
| `ExactlyOnce.NextFollowsAsWritten` | src/main/java/in/apoorvsahu/removebg/services/impl/RazorpayServiceImpl.java:79-168 | a verification step of a run is exactly the step of `verifyPayment` as written, so the run theorems hold of the code as written |
| `ExactlyOnce.RunKeepsInvariant` | src/main/java/in/apoorvsahu/removebg/services/impl/RazorpayServiceImpl.java:126-156 | the settlement invariant (flags, credited ids, profiles, ledger) holds after any sequence of creations and verifications |
| `ExactlyOnce.ExactlyOnceSettlement` | src/main/java/in/apoorvsahu/removebg/services/impl/RazorpayServiceImpl.java:126-156 | over any run: no order is lost or edited but its flag, and set flags stay set; each order is credited at most once, and the orders credited are exactly those whose flag went from unset to set |
| `ExactlyOnce.ProfilesUntouched` | src/main/java/in/apoorvsahu/removebg/services/impl/RazorpayServiceImpl.java:140-143 | over any run no user appears or disappears, and every profile field but the balance stays as it was |
| `ExactlyOnce.ExactlyOnceCrediting` | src/main/java/in/apoorvsahu/removebg/services/impl/RazorpayServiceImpl.java:140-143 | over any run each balance is the starting balance plus the credits of the buyer's settled orders, as a Java `int` |
| `ExactlyOnce.SingleOrderSettlesAtMostOnce` | src/main/java/in/apoorvsahu/removebg/services/impl/RazorpayServiceImpl.java:133-146 | repeated verification of one order credits it zero times or once |
| `ExactlyOnce.RepeatedVerificationCreditsOnce` | src/main/java/in/apoorvsahu/removebg/services/impl/RazorpayServiceImpl.java:133-154 | after any retries of one order's verification, its buyer holds the starting balance or that plus the order's credits, the latter exactly when the order went from unpaid to paid |
| `ImageApi.MatchesAnyIsSome` | src/main/java/in/apoorvsahu/removebg/controllers/ImageController.java:98-105 | the loop over the allowed types succeeds exactly when some listed type matches |
| `ImageApi.AllowedMeansListed` | src/main/java/in/apoorvsahu/removebg/controllers/ImageController.java:33 | a content type is allowed exactly when its lower-cased form is one of the four listed types |
| `ImageApi.ValidateFile` | src/main/java/in/apoorvsahu/removebg/controllers/ImageController.java:78-96 | accepts exactly non-empty uploads of at most 30 MiB with an allowed type and a non-blank name; each rejection carries the message of the first failed check, each of the four pinned to its case |
| `ImageApi.RemoveBackground` | src/main/java/in/apoorvsahu/removebg/controllers/ImageController.java:36-76 | 401, 400, 500 and 402 in that order; the removal service runs only for a caller with a positive balance; 200 debits that caller exactly one credit; every other answer leaves balances unchanged |
| `ImageApi.RemovalKeepsBalancesNonNegative` | src/main/java/in/apoorvsahu/removebg/controllers/ImageController.java:49-61 | no request takes a balance below zero, and only the caller's record can change, by one credit, on a 200 |
| `ImageApi.SingleCreditBuysOneImage` | src/main/java/in/apoorvsahu/removebg/controllers/ImageController.java:49-61 | with one credit, the first request succeeds and leaves 0, and the next is a 402 with balance 0 |
| `ClerkWebhook.ValidateHeaders` | src/main/java/in/apoorvsahu/removebg/controllers/ClerkWebhookController.java:84-94 | the headers pass exactly when all three are non-blank; otherwise the first missing one is named, each of the three messages pinned to its case |
| `ClerkWebhook.ExtractClerkId` | src/main/java/in/apoorvsahu/removebg/controllers/ClerkWebhookController.java:153-159 | the id is extracted exactly when it is non-blank |
| `ClerkWebhook.ExtractEmail` | src/main/java/in/apoorvsahu/removebg/controllers/ClerkWebhookController.java:161-171 | the email is the first address of a non-empty array; a blank one and a missing array have distinct messages |
| `ClerkWebhook.ExtractFirstName` | src/main/java/in/apoorvsahu/removebg/controllers/ClerkWebhookController.java:173-176 | the stored first name is never blank: the event's value, or "Unknown" when that is blank |
| `ClerkWebhook.ExtractLastName` | src/main/java/in/apoorvsahu/removebg/controllers/ClerkWebhookController.java:178-181 | the stored last name is never blank: the event's value, or "User" when that is blank |
| `ClerkWebhook.ExtractPhotoUrl` | src/main/java/in/apoorvsahu/removebg/controllers/ClerkWebhookController.java:183-186 | the photo is null exactly when the URL is blank |
| `ClerkWebhook.BuildUser` | src/main/java/in/apoorvsahu/removebg/controllers/ClerkWebhookController.java:136-144 | a user is built exactly from events with a usable id and email; the user has the event's profile and no balance |
| `ClerkWebhook.UpdateFromWebhook` | src/main/java/in/apoorvsahu/removebg/controllers/ClerkWebhookController.java:146-151 | an update replaces the profile fields and keeps the clerkId and the balance |
| `ClerkWebhook.HandleUserCreated` | src/main/java/in/apoorvsahu/removebg/controllers/ClerkWebhookController.java:125-134 | creation succeeds exactly for usable events, storing the profile and keeping any existing balance; failure is "Failed to create user" with no change |
| `ClerkWebhook.HandleUserUpdatedAsWritten` | src/main/java/in/apoorvsahu/removebg/controllers/ClerkWebhookController.java:107-123 | the update as written succeeds only for a user already stored; an unknown user is a failure |
| `ClerkWebhook.HandleUserUpdated` | src/main/java/in/apoorvsahu/removebg/controllers/ClerkWebhookController.java:107-123 | the update as intended succeeds for every usable event, creating an unknown user |
| `ClerkWebhook.HandleUserDeleted` | src/main/java/in/apoorvsahu/removebg/controllers/ClerkWebhookController.java:96-105 | deletion succeeds exactly for a non-blank stored id and removes only that user |
| `ClerkWebhook.HandleClerkWebhook` | src/main/java/in/apoorvsahu/removebg/controllers/ClerkWebhookController.java:28-82 | under either reading (as written, or with the corrected window and update handler): header errors give 400 without consulting the verifier; a bad signature gives 401; for an authentic request, an unparsable body gives 500 "Webhook processing failed", an empty event type 400 "Invalid webhook payload: missing event type", any other unsupported type 400 "Unsupported event type", and a failing handler 500 "Failed to process user data"; the tables change only for authentic events of a supported type whose handler succeeds (200); every other answer changes nothing |
| `ClerkWebhook.ReadingsAgreeAwayFromFindings` | src/main/java/in/apoorvsahu/removebg/controllers/ClerkWebhookController.java:28-123 | for clock readings up to 2^62, the two readings give the same reply unless the timestamp is `now - 2^63` or the event updates a user the store lacks |
| `ClerkWebhook.AncientCreateProcessedAsWritten` | src/main/java/in/apoorvsahu/removebg/controllers/ClerkWebhookController.java:28-82 | a genuinely signed `user.created` stamped `now - 2^63` is processed with 200 as written, storing the user, and refused with 401 when corrected |
| `ClerkWebhook.UpdateOfUnknownUserAsWrittenFails` | src/main/java/in/apoorvsahu/removebg/controllers/ClerkWebhookController.java:107-123 | for an empty store, the update as written fails and stores nothing, while the intended update creates the user |
| `ClerkWebhook.UpdateOfKnownUserUnchangedByCorrection` | src/main/java/in/apoorvsahu/removebg/controllers/ClerkWebhookController.java:107-123 | for a stored user the two update handlers agree |
| `ClerkWebhook.WebhookNeverTouchesBalances` | src/main/java/in/apoorvsahu/removebg/controllers/ClerkWebhookController.java:28-82 | under either reading, no webhook changes the balance of a user that survives it, and users it creates have no balance |
| `ClerkWebhook.DispatchKeepsBalances` | src/main/java/in/apoorvsahu/removebg/controllers/ClerkWebhookController.java:96-134 | none of the three event handlers changes a surviving user's balance, and a user one creates has no balance |
| `ClerkWebhook.StaleNotificationChangesNothing` | src/main/java/in/apoorvsahu/removebg/controllers/ClerkWebhookController.java:36-40 | an event timestamped more than 300 s away is rejected and changes nothing: always when corrected, and as written for clock readings up to 2^62 and timestamps other than `now - 2^63` |
| `ClerkWebhook.ReplayedCreateIsIdempotent` | src/main/java/in/apoorvsahu/removebg/controllers/ClerkWebhookController.java:55-57 | replaying a `user.created` delivery leaves the store as the first delivery did |
| `UserApi.ValidateUserDto` | src/main/java/in/apoorvsahu/removebg/controllers/UserController.java:79-95 | a request passes exactly when id, email, first and last name are all non-blank; otherwise the first missing field is named, each of the four messages pinned to its case |
| `UserApi.CreateOrUpdateUser` | src/main/java/in/apoorvsahu/removebg/controllers/UserController.java:26-53 | 401 without a principal, 403 unless the body names the caller, 400 for an incomplete body; 200 exactly when all pass, storing the body under the caller's id; otherwise nothing changes |
| `UserApi.OnlyOwnRecordChanges` | src/main/java/in/apoorvsahu/removebg/controllers/UserController.java:29-39 | whatever is sent, no record other than the caller's own can change |
| `UserApi.OwnerCanSetOwnBalance` | src/main/java/in/apoorvsahu/removebg/controllers/UserController.java:37-41 | an owner who sends a credits value gets exactly that balance stored |
| `UserApi.GetUserCreditsAsWritten` | src/main/java/in/apoorvsahu/removebg/controllers/UserController.java:55-77 | the lookup as written: 401 without a name, 500 for an unknown user, otherwise 200 with the stored balance |
| `UserApi.GetUserCredits` | src/main/java/in/apoorvsahu/removebg/controllers/UserController.java:55-77 | the lookup as intended: an unknown user is a 404 |
| `UserApi.UnknownUserCreditsAsWrittenIs500` | src/main/java/in/apoorvsahu/removebg/controllers/UserController.java:70-75 | for an unknown user, the lookup as written answers 500 where 404 is meant |
| `UserApi.SavedBalanceIsReported` | src/main/java/in/apoorvsahu/removebg/controllers/UserController.java:26-68 | after a successful upsert with a balance, the lookup reports that balance |

## Left out

- **Payment gateway, removal service and parser.** The Razorpay client, the Clipdrop client and `RemoveBgServiceImpl` are not modelled. Their answers are parameters (`CreateReply`, `FetchReply`, `ProcessReply`). Every failure of `RemoveBgServiceImpl` is a `RemoveBgServiceException`, which is why `ProcessFailed` is the removal service's only failure. Jackson's `readTree` is the `parse` parameter of `WebhookEnv`.
- **Crypto primitives.** HMAC-SHA256, base64 and UTF-8 are fields of `Crypto`. `NoSuchAlgorithmException` cannot arise with a fixed algorithm name.
- **Clock and receipt.** The clock is the parameter `now`. The request's `receipt` (built from `System.currentTimeMillis`) and `payment_capture` fields are not part of `GatewayRequest`.
- **Money.** Floating-point amounts and `Math.round(amount * 100)` are replaced by integer paise. The three catalog prices are exact in paise.
- **`OrderController`.** It is outside the modelled core. So are `getAvailablePlans`, which only returns the catalog that `OrderService.CatalogContents` describes, and Spring's HTTP plumbing and logging.
- **Database failures.** `DataAccessException` paths are left out: the database never fails in the model. The one exception is a duplicate gateway order id, modelled as the unique-column violation that gives "Failed to save order details".
- **Unexpected exceptions.**
  - The catch-alls of `verifyPayment` ("Payment verification failed") and `saveUser` ("An unexpected error occurred while saving user") are not modelled, because no modelled input reaches them.
  - `saveUser` with a null clerkId is not modelled, because every caller passes a non-null one.
- **Concurrency.** Each call is one atomic step. The theorem in `ExactlyOnce` covers every sequential interleaving of calls. It does not cover the isolation level of `@Transactional`, so two verifications running at once against a weaker isolation are not modelled.
- **Java string semantics.**
  - Case folding is ASCII only: `equalsIgnoreCase` and `toUpperCase` on non-ASCII letters are not modelled.
  - `Long.parseLong` is modelled for ASCII digits only; it also accepts other Unicode decimal digits.
  - Java's `split` drops trailing empty tokens. No empty token can match `v1,...`, so the verdict is the same.
- **`User` entity.** The entity class is not part of this model. Any default it applies when a record is first persisted (such as a starting balance) is not modelled: a new user gets exactly the credits its DTO carries, and a webhook-created user has none.
- **`UserNotFoundException`.** The class itself is not part of this model. The findings below assume only what the services show: `getUserByClerkId` catches it and throws a new `UserServiceException`.
- `WebhookSignature.VerifyWebhookSignature`: models the intended 300 s window, not the wrapping check of the code as written; `VerifyWebhookSignatureAsWritten` is the code as written, and `VerdictsAgreeAwayFromWrap` bounds where the two differ.
- `Razorpay.VerifyPayment`: settles through the corrected `ProcessPaidOrder`, so a missing buyer is answered "User account not found. Please contact support", which the code as written never returns; `VerifyPaymentAsWritten` is the code as written, and `VerifyPaymentReadingsAgree` shows the two differ in that message only.
- `ClerkWebhook.StaleNotificationChangesNothing`: for the code as written it is stated only for clock readings up to 2^62 seconds and timestamps other than `now - 2^63`, because the wrapping check accepts that timestamp (`AncientCreateProcessedAsWritten`).
- **Null headers.** `WebhookSignature.VerifyWebhookSignature` takes the id and payload as nullable strings and renders null as "null", as string concatenation does. The controller always passes the non-null request body.

## Findings

| source | as written | input that shows it | evidently intended | confidence | as-written member | corrected member |
|---|---|---|---|---|---|---|
| src/main/java/in/apoorvsahu/removebg/services/impl/WebhookSignatureServiceImpl.java:89 | `Math.abs(currentTime - timestamp) <= 300` in `long` arithmetic | now = 1700000000, `svix-timestamp: -9223372035154775808`: the difference wraps to `Long.MIN_VALUE`, whose absolute value is negative, so the check passes | reject every timestamp more than 300 s from now | not executed | `WebhookSignature.AncientTimestampPassesAsWritten` (on `IsTimestampValidAsWritten`, end to end in `ClerkWebhook.AncientCreateProcessedAsWritten`) | `WebhookSignature.StaleTimestampRejected` (on `IsTimestampValid`, used by `VerifyWebhookSignature` and the corrected reading of `HandleClerkWebhook`) |
| src/main/java/in/apoorvsahu/removebg/controllers/ClerkWebhookController.java:116-118 | `catch (UserNotFoundException)` in `handleUserUpdated`, but `getUserByClerkId` (UserServiceImpl.java:60-63) re-wraps that exception as `UserServiceException` | a signed `user.updated` event for a clerkId the store lacks: 500 "Failed to process user data", and no user is created | fall back to creating the user | not executed | `ClerkWebhook.UpdateOfUnknownUserAsWrittenFails` (on `HandleUserUpdatedAsWritten`) | `ClerkWebhook.HandleUserUpdated` (used by the corrected reading of `HandleClerkWebhook`) |
| src/main/java/in/apoorvsahu/removebg/controllers/UserController.java:70-72 | `catch (UserNotFoundException)` in `getUserCredits`, unreachable for the same reason | `GET /credits` by an authenticated user with no record: 500 "Unable to fetch credits" | 404 "User account not found" | not executed | `UserApi.UnknownUserCreditsAsWrittenIs500` (on `GetUserCreditsAsWritten`) | `UserApi.GetUserCredits` |
| src/main/java/in/apoorvsahu/removebg/services/impl/RazorpayServiceImpl.java:158-160 | `catch (UserNotFoundException)` in `processPaidOrder`, unreachable for the same reason | a paid, unsettled order whose buyer has no record: "Failed to process payment. Please contact support" | "User account not found. Please contact support" | not executed | `Razorpay.MissingBuyerMessage` (on `ProcessPaidOrderAsWritten`) | `Razorpay.ProcessPaidOrder` (used by `VerifyPayment` and the `ExactlyOnce` runs) |
