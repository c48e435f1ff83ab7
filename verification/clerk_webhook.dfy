/**
  `ClerkWebhookController.handleClerkWebhook`: header checks, the
  signature verdict, event dispatch, and the three user handlers with the
  field extractors they share. JSON parsing is not modelled: the parser is
  a parameter that yields the fields the controller reads, each as the
  text `asText()` gives (a missing field reads as "").
 */
module ClerkWebhook {
  import opened Lang
  import opened Failures
  import opened Entities
  import opened Http
  import opened UserService
  import opened WebhookSignature

  /**
    The `data` node: `id`, `first_name`, `last_name` and `image_url` as
    text, and the `email_address` text of each entry of `email_addresses`
    (`None` when that node is not an array).
   */
  datatype WebhookData = WebhookData(id: string, emailAddresses: Option<seq<string>>,
                                     firstName: string, lastName: string, imageUrl: string)

  /** The `type` text and the `data` node of an event. */
  datatype WebhookPayload = WebhookPayload(eventType: string, data: WebhookData)

  /**
    What the controller depends on besides its arguments: the signature
    service's crypto, secret and clock, and `ObjectMapper.readTree`
    (`None` is a `JsonProcessingException`).
   */
  datatype WebhookEnv = WebhookEnv(crypto: Crypto, secret: JString, now: Long,
                                   parse: string -> Option<WebhookPayload>)

  const MISSING_ID_HEADER := "Missing svix-id header"
  const MISSING_TIMESTAMP_HEADER := "Missing svix-timestamp header"
  const MISSING_SIGNATURE_HEADER := "Missing svix-signature header"
  const MISSING_USER_ID := "Missing user ID in webhook data"
  const MISSING_EMAIL := "Missing email address in webhook data"
  const NO_EMAILS := "No email addresses found in webhook data"
  const DEFAULT_FIRST_NAME := "Unknown"
  const DEFAULT_LAST_NAME := "User"
  const CREATE_FAILED := "Failed to create user"
  const UPDATE_FAILED := "Failed to update user"
  const DELETE_FAILED := "Failed to delete user"

  // ---------------------------------------------------------------------
  // Headers and extractors

  /** `validateWebhookHeaders`: each header must be non-blank, checked in order. */
  function ValidateHeaders(svixId: JString, svixTimestamp: JString, svixSignature: JString): (r: Result<()>)
    ensures r.Ok? <==> !NullOrBlank(svixId) && !NullOrBlank(svixTimestamp) && !NullOrBlank(svixSignature)
    ensures NullOrBlank(svixId) ==> r == Err(WebhookRejected(MISSING_ID_HEADER))
    ensures !NullOrBlank(svixId) && NullOrBlank(svixTimestamp) ==> r == Err(WebhookRejected(MISSING_TIMESTAMP_HEADER))
    ensures !NullOrBlank(svixId) && !NullOrBlank(svixTimestamp) && NullOrBlank(svixSignature) ==>
      r == Err(WebhookRejected(MISSING_SIGNATURE_HEADER))
    ensures r.Err? ==>
      r.error.WebhookRejected? && r.error.message in {MISSING_ID_HEADER, MISSING_TIMESTAMP_HEADER, MISSING_SIGNATURE_HEADER}
  {
    if NullOrBlank(svixId) then Err(WebhookRejected(MISSING_ID_HEADER))
    else if NullOrBlank(svixTimestamp) then Err(WebhookRejected(MISSING_TIMESTAMP_HEADER))
    else if NullOrBlank(svixSignature) then Err(WebhookRejected(MISSING_SIGNATURE_HEADER))
    else Ok(())
  }

  /** `extractClerkId` */
  function ExtractClerkId(d: WebhookData): (r: Result<string>)
    ensures r.Ok? <==> !IsBlank(d.id)
    ensures r.Ok? ==> r.value == d.id
    ensures r.Err? ==> r.error == Validation(MISSING_USER_ID)
  {
    if IsBlank(d.id) then Err(Validation(MISSING_USER_ID)) else Ok(d.id)
  }

  /** `extractEmail`: the first address of a non-empty array, which must not be blank. */
  function ExtractEmail(d: WebhookData): (r: Result<string>)
    ensures r.Ok? <==> d.emailAddresses.Some? && |d.emailAddresses.value| > 0 && !IsBlank(d.emailAddresses.value[0])
    ensures r.Ok? ==> r.value == d.emailAddresses.value[0]
    ensures r.Err? ==> r.error == Validation(
      if d.emailAddresses.Some? && |d.emailAddresses.value| > 0 then MISSING_EMAIL else NO_EMAILS)
  {
    match d.emailAddresses
    case Some(emails) =>
      if |emails| > 0 then
        if IsBlank(emails[0]) then Err(Validation(MISSING_EMAIL)) else Ok(emails[0])
      else Err(Validation(NO_EMAILS))
    case None => Err(Validation(NO_EMAILS))
  }

  /** A blank text falls back to `fallback`. */
  function OrDefault(text: string, fallback: string): (r: string)
    requires !IsBlank(fallback)
    ensures !IsBlank(r)
    ensures r == text || (IsBlank(text) && r == fallback)
  {
    if IsBlank(text) then fallback else text
  }

  /** `extractFirstName` */
  function ExtractFirstName(d: WebhookData): (r: string)
    ensures !IsBlank(r)
    ensures r == d.firstName || (IsBlank(d.firstName) && r == DEFAULT_FIRST_NAME)
  {
    assert DEFAULT_FIRST_NAME[0] > ' ';
    OrDefault(d.firstName, DEFAULT_FIRST_NAME)
  }

  /** `extractLastName` */
  function ExtractLastName(d: WebhookData): (r: string)
    ensures !IsBlank(r)
    ensures r == d.lastName || (IsBlank(d.lastName) && r == DEFAULT_LAST_NAME)
  {
    assert DEFAULT_LAST_NAME[0] > ' ';
    OrDefault(d.lastName, DEFAULT_LAST_NAME)
  }

  /** `extractPhotoUrl`: a blank URL is stored as null. */
  function ExtractPhotoUrl(d: WebhookData): (r: JString)
    ensures r.None? <==> IsBlank(d.imageUrl)
    ensures r.Some? ==> r.value == d.imageUrl
  {
    if IsBlank(d.imageUrl) then None else Some(d.imageUrl)
  }

  /** The profile fields a webhook carries, as `updateUserFromWebhookData` copies them. */
  ghost predicate HasWebhookProfile(dto: UserDto, d: WebhookData) {
    && d.emailAddresses.Some? && |d.emailAddresses.value| > 0
    && dto.email == Some(d.emailAddresses.value[0])
    && dto.firstName == Some(ExtractFirstName(d))
    && dto.lastName == Some(ExtractLastName(d))
    && dto.photoUrl == ExtractPhotoUrl(d)
  }

  /** A webhook a user can be built from: a non-blank id and a usable first email. */
  ghost predicate Usable(d: WebhookData) {
    !IsBlank(d.id) && d.emailAddresses.Some? && |d.emailAddresses.value| > 0 && !IsBlank(d.emailAddresses.value[0])
  }

  /** `buildUserFromWebhookData`; the builder leaves credits null. */
  function BuildUser(d: WebhookData): (r: Result<UserDto>)
    ensures r.Ok? <==> Usable(d)
    ensures r.Ok? ==> r.value.clerkId == d.id && r.value.credits.None? && HasWebhookProfile(r.value, d)
    ensures r.Err? ==> r.error.Validation?
  {
    var clerkId :- ExtractClerkId(d);
    var email :- ExtractEmail(d);
    Ok(UserDto(clerkId, Some(email), Some(ExtractFirstName(d)), Some(ExtractLastName(d)), None, ExtractPhotoUrl(d)))
  }

  /** `updateUserFromWebhookData`: the profile fields are replaced, clerkId and credits kept. */
  function UpdateFromWebhook(dto: UserDto, d: WebhookData): (r: Result<UserDto>)
    ensures r.Ok? <==> d.emailAddresses.Some? && |d.emailAddresses.value| > 0 && !IsBlank(d.emailAddresses.value[0])
    ensures r.Ok? ==> r.value.clerkId == dto.clerkId && r.value.credits == dto.credits && HasWebhookProfile(r.value, d)
  {
    var email :- ExtractEmail(d);
    Ok(dto.(email := Some(email), firstName := Some(ExtractFirstName(d)),
            lastName := Some(ExtractLastName(d)), photoUrl := ExtractPhotoUrl(d)))
  }

  // ---------------------------------------------------------------------
  // Handlers. Each wraps every failure, validation included, into a
  // `UserServiceException` with its own message.

  datatype Handled = Handled(result: Result<()>, users: Users)

  /** `handleUserCreated` */
  function HandleUserCreated(users: Users, d: WebhookData): (h: Handled)
    ensures h.result.Ok? <==> Usable(d)
    ensures h.result.Err? ==> h == Handled(Err(UserServiceFailure(CREATE_FAILED)), users)
    ensures h.result.Ok? ==>
      && h.users.Keys == users.Keys + {d.id}
      && HasWebhookProfile(ToDto(d.id, h.users[d.id]), d)
      && h.users[d.id].credits == (if d.id in users then users[d.id].credits else None)
      && (forall k :: k in users && k != d.id ==> h.users[k] == users[k])
  {
    match BuildUser(d)
    case Err(_) => Handled(Err(UserServiceFailure(CREATE_FAILED)), users)
    case Ok(dto) => Handled(Ok(()), SaveUser(users, dto).users)
  }

  /**
    `handleUserUpdated` as written. Its `catch (UserNotFoundException)`
    never fires: `getUserByClerkId` re-wraps that exception as a
    `UserServiceException`, so an update for an unknown user falls into the
    generic catch and fails instead of creating the user.
   */
  function HandleUserUpdatedAsWritten(users: Users, d: WebhookData): (h: Handled)
    ensures h.result.Ok? <==> Usable(d) && d.id in users
    ensures h.result.Err? ==> h == Handled(Err(UserServiceFailure(UPDATE_FAILED)), users)
    ensures h.result.Ok? ==>
      && h.users.Keys == users.Keys
      && HasWebhookProfile(ToDto(d.id, h.users[d.id]), d)
      && h.users[d.id].credits == users[d.id].credits
      && (forall k :: k in users && k != d.id ==> h.users[k] == users[k])
  {
    match ExtractClerkId(d)
    case Err(_) => Handled(Err(UserServiceFailure(UPDATE_FAILED)), users)
    case Ok(clerkId) =>
      match GetUser(users, clerkId)
      case Err(_) => Handled(Err(UserServiceFailure(UPDATE_FAILED)), users)
      case Ok(existing) =>
        match UpdateFromWebhook(existing, d)
        case Err(_) => Handled(Err(UserServiceFailure(UPDATE_FAILED)), users)
        case Ok(updated) => Handled(Ok(()), SaveUser(users, updated).users)
  }

  /**
    `handleUserUpdated` as its catch clause intends: an update for a user
    the store does not know creates the user.
   */
  function HandleUserUpdated(users: Users, d: WebhookData): (h: Handled)
    ensures h.result.Ok? <==> Usable(d)
    ensures h.result.Err? ==> h.users == users && h.result.error.UserServiceFailure?
    ensures h.result.Ok? ==>
      && h.users.Keys == users.Keys + {d.id}
      && HasWebhookProfile(ToDto(d.id, h.users[d.id]), d)
      && h.users[d.id].credits == (if d.id in users then users[d.id].credits else None)
      && (forall k :: k in users && k != d.id ==> h.users[k] == users[k])
  {
    if !IsBlank(d.id) && d.id !in users then HandleUserCreated(users, d)
    else HandleUserUpdatedAsWritten(users, d)
  }

  /** `handleUserDeleted` */
  function HandleUserDeleted(users: Users, d: WebhookData): (h: Handled)
    ensures h.result.Ok? <==> !IsBlank(d.id) && d.id in users
    ensures h.result.Err? ==> h == Handled(Err(UserServiceFailure(DELETE_FAILED)), users)
    ensures h.result.Ok? ==> h.users == users - {d.id}
  {
    match ExtractClerkId(d)
    case Err(_) => Handled(Err(UserServiceFailure(DELETE_FAILED)), users)
    case Ok(clerkId) =>
      var deleted := DeleteUser(users, clerkId);
      match deleted.result
      case Err(_) => Handled(Err(UserServiceFailure(DELETE_FAILED)), users)
      case Ok(_) =>
        assert deleted.users == users - {clerkId};
        Handled(Ok(()), deleted.users)
  }

  // ---------------------------------------------------------------------
  // handleClerkWebhook

  const INVALID_SIGNATURE := "Invalid webhook signature"
  const MISSING_EVENT_TYPE := "Invalid webhook payload: missing event type"
  const UNSUPPORTED_EVENT := "Unsupported event type"
  const USER_DATA_FAILED := "Failed to process user data"
  const PROCESSING_FAILED := "Webhook processing failed"
  const PROCESSED := "Webhook processed successfully"

  const USER_CREATED := "user.created"
  const USER_UPDATED := "user.updated"
  const USER_DELETED := "user.deleted"

  /**
    Which reading of the controller a composition follows: the code as
    written (wrapping timestamp check, failing update of an unknown user),
    or the code with both findings corrected.
   */
  datatype Reading = AsWritten | Corrected

  /** The response, the user table afterwards, and whether the signature service was consulted. */
  datatype Reply = Reply(response: Response, users: Users, signatureChecked: bool)

  /** The handler an event type dispatches to (`None`: unsupported). */
  function Dispatch(reading: Reading, users: Users, eventType: string, d: WebhookData): Option<Handled> {
    if eventType == USER_CREATED then Some(HandleUserCreated(users, d))
    else if eventType == USER_UPDATED then
      Some(if reading.AsWritten? then HandleUserUpdatedAsWritten(users, d) else HandleUserUpdated(users, d))
    else if eventType == USER_DELETED then Some(HandleUserDeleted(users, d))
    else None
  }

  /** The signature verdict for a request whose headers passed. */
  predicate Authentic(reading: Reading, env: WebhookEnv, svixId: JString, svixTimestamp: JString,
                      svixSignature: JString, payload: string)
  {
    if reading.AsWritten? then
      VerifyWebhookSignatureAsWritten(env.crypto, env.secret, env.now, svixId, svixTimestamp, svixSignature, Some(payload))
    else
      VerifyWebhookSignature(env.crypto, env.secret, env.now, svixId, svixTimestamp, svixSignature, Some(payload))
  }

  /** `handleClerkWebhook`, under either reading. */
  function HandleClerkWebhook(reading: Reading, env: WebhookEnv, users: Users, svixId: JString, svixTimestamp: JString,
                              svixSignature: JString, payload: string): (r: Reply)
    ensures ValidateHeaders(svixId, svixTimestamp, svixSignature).Err? ==>
      r == Reply(ErrorResponse(BAD_REQUEST, ValidateHeaders(svixId, svixTimestamp, svixSignature).error.message), users, false)
    ensures r.signatureChecked <==> ValidateHeaders(svixId, svixTimestamp, svixSignature).Ok?
    ensures r.signatureChecked && !Authentic(reading, env, svixId, svixTimestamp, svixSignature, payload) ==>
      r == Reply(ErrorResponse(UNAUTHORIZED, INVALID_SIGNATURE), users, true)
    ensures r.users != users ==> r.signatureChecked && Authentic(reading, env, svixId, svixTimestamp, svixSignature, payload)
    ensures (r.signatureChecked && Authentic(reading, env, svixId, svixTimestamp, svixSignature, payload)
             && env.parse(payload).None?) ==>
      r == Reply(ErrorResponse(INTERNAL_SERVER_ERROR, PROCESSING_FAILED), users, true)
    ensures (r.signatureChecked && Authentic(reading, env, svixId, svixTimestamp, svixSignature, payload)
             && env.parse(payload).Some? && |env.parse(payload).value.eventType| == 0) ==>
      r == Reply(ErrorResponse(BAD_REQUEST, MISSING_EVENT_TYPE), users, true)
    ensures (r.signatureChecked && Authentic(reading, env, svixId, svixTimestamp, svixSignature, payload)
             && env.parse(payload).Some? && |env.parse(payload).value.eventType| > 0
             && var event := env.parse(payload).value;
                Dispatch(reading, users, event.eventType, event.data).None?) ==>
      r == Reply(ErrorResponse(BAD_REQUEST, UNSUPPORTED_EVENT), users, true)
    ensures (r.signatureChecked && Authentic(reading, env, svixId, svixTimestamp, svixSignature, payload)
             && env.parse(payload).Some?
             && var event := env.parse(payload).value;
                Dispatch(reading, users, event.eventType, event.data).Some?
                && Dispatch(reading, users, event.eventType, event.data).value.result.Err?) ==>
      r == Reply(ErrorResponse(INTERNAL_SERVER_ERROR, USER_DATA_FAILED), users, true)
    ensures r.response.status == OK <==>
      && r.signatureChecked && Authentic(reading, env, svixId, svixTimestamp, svixSignature, payload)
      && env.parse(payload).Some?
      && var event := env.parse(payload).value;
      && Dispatch(reading, users, event.eventType, event.data).Some?
      && Dispatch(reading, users, event.eventType, event.data).value.result.Ok?
    ensures r.response.status == OK ==>
      && r.response == Acknowledged(PROCESSED)
      && var event := env.parse(payload).value;
         r.users == Dispatch(reading, users, event.eventType, event.data).value.users
    ensures r.response.status != OK ==> r.users == users
    ensures r.response.status in {OK, BAD_REQUEST, UNAUTHORIZED, INTERNAL_SERVER_ERROR}
  {
    match ValidateHeaders(svixId, svixTimestamp, svixSignature)
    case Err(e) => Reply(ErrorResponse(BAD_REQUEST, e.message), users, false)
    case Ok(_) =>
      if !Authentic(reading, env, svixId, svixTimestamp, svixSignature, payload) then
        Reply(ErrorResponse(UNAUTHORIZED, INVALID_SIGNATURE), users, true)
      else
        match env.parse(payload)
        case None => Reply(ErrorResponse(INTERNAL_SERVER_ERROR, PROCESSING_FAILED), users, true)
        case Some(event) =>
          if |event.eventType| == 0 then Reply(ErrorResponse(BAD_REQUEST, MISSING_EVENT_TYPE), users, true)
          else
            match Dispatch(reading, users, event.eventType, event.data)
            case None => Reply(ErrorResponse(BAD_REQUEST, UNSUPPORTED_EVENT), users, true)
            case Some(h) =>
              if h.result.Err? then Reply(ErrorResponse(INTERNAL_SERVER_ERROR, USER_DATA_FAILED), users, true)
              else Reply(Acknowledged(PROCESSED), h.users, true)
  }

  // ---------------------------------------------------------------------
  // Properties

  /**
    The finding behind the corrected handler: for a store that lacks the
    user, the handler as written answers an error and stores nothing,
    while the intended handler creates the user.
   */
  lemma UpdateOfUnknownUserAsWrittenFails(d: WebhookData)
    requires Usable(d)
    ensures HandleUserUpdatedAsWritten(map[], d) == Handled(Err(UserServiceFailure(UPDATE_FAILED)), map[])
    ensures HandleUserUpdated(map[], d).result.Ok?
    ensures d.id in HandleUserUpdated(map[], d).users
  {
  }

  /** For a user the store knows, the two update handlers agree. */
  lemma UpdateOfKnownUserUnchangedByCorrection(users: Users, d: WebhookData)
    requires d.id in users
    ensures HandleUserUpdated(users, d) == HandleUserUpdatedAsWritten(users, d)
  {
  }

  /**
    The two readings of the controller answer alike unless the timestamp
    is the wrapped one, or the event is an update of a user the store
    lacks: for a clock reading up to 2^62 seconds, away from both, they
    give the same reply.
   */
  lemma ReadingsAgreeAwayFromFindings(env: WebhookEnv, users: Users, svixId: JString, svixTimestamp: JString,
                                      svixSignature: JString, payload: string)
    requires 0 <= env.now <= TWO_63 / 2
    requires ParseLong(svixTimestamp) != Some(env.now - TWO_63)
    requires env.parse(payload).Some? && env.parse(payload).value.eventType == USER_UPDATED ==>
      env.parse(payload).value.data.id in users
    ensures HandleClerkWebhook(AsWritten, env, users, svixId, svixTimestamp, svixSignature, payload)
         == HandleClerkWebhook(Corrected, env, users, svixId, svixTimestamp, svixSignature, payload)
  {
    VerdictsAgreeAwayFromWrap(env.crypto, env.secret, env.now, svixId, svixTimestamp, svixSignature, Some(payload));
    assert Authentic(AsWritten, env, svixId, svixTimestamp, svixSignature, payload)
        == Authentic(Corrected, env, svixId, svixTimestamp, svixSignature, payload);
    if env.parse(payload).Some? {
      var event := env.parse(payload).value;
      if event.eventType == USER_UPDATED {
        UpdateOfKnownUserUnchangedByCorrection(users, event.data);
      }
      assert Dispatch(AsWritten, users, event.eventType, event.data) == Dispatch(Corrected, users, event.eventType, event.data);
    }
  }

  /**
    Webhooks carry profile data only: under either reading, no event
    changes the credit balance of a user that survives it, and a user
    created by one has no balance.
   */
  lemma WebhookNeverTouchesBalances(reading: Reading, env: WebhookEnv, users: Users, svixId: JString,
                                    svixTimestamp: JString, svixSignature: JString, payload: string)
    ensures var r := HandleClerkWebhook(reading, env, users, svixId, svixTimestamp, svixSignature, payload);
      && (forall k :: k in users && k in r.users ==> r.users[k].credits == users[k].credits)
      && (forall k :: k in r.users && k !in users ==> r.users[k].credits.None?)
  {
    var r := HandleClerkWebhook(reading, env, users, svixId, svixTimestamp, svixSignature, payload);
    if r.response.status == OK {
      var event := env.parse(payload).value;
      DispatchKeepsBalances(reading, users, event.eventType, event.data);
    }
  }

  /** No event handler changes a surviving balance, and a user one creates has none. */
  lemma DispatchKeepsBalances(reading: Reading, users: Users, eventType: string, d: WebhookData)
    requires Dispatch(reading, users, eventType, d).Some?
    ensures var h := Dispatch(reading, users, eventType, d).value;
      && (forall k :: k in users && k in h.users ==> h.users[k].credits == users[k].credits)
      && (forall k :: k in h.users && k !in users ==> h.users[k].credits.None?)
  {
  }

  /**
    A notification whose timestamp is outside the five-minute window
    changes nothing. The corrected reading promises this for every clock
    reading; the code as written only for clock readings up to 2^62
    seconds and timestamps other than the wrapped `now - 2^63`.
   */
  lemma StaleNotificationChangesNothing(reading: Reading, env: WebhookEnv, users: Users, svixId: JString,
                                        svixTimestamp: JString, svixSignature: JString, payload: string, ts: Long)
    requires ParseLong(svixTimestamp) == Some(ts)
    requires ts < env.now - TIMESTAMP_TOLERANCE || ts > env.now + TIMESTAMP_TOLERANCE
    requires reading.AsWritten? ==> 0 <= env.now <= TWO_63 / 2 && ts != env.now - TWO_63
    ensures var r := HandleClerkWebhook(reading, env, users, svixId, svixTimestamp, svixSignature, payload);
      r.users == users && r.response.status != OK
  {
    StaleTimestampRejected(svixTimestamp, env.now, ts);
    if reading.AsWritten? {
      VerdictsAgreeAwayFromWrap(env.crypto, env.secret, env.now, svixId, svixTimestamp, svixSignature, Some(payload));
    }
  }

  /**
    The wrapped timestamp end to end: a genuinely signed `user.created`
    stamped `now - 2^63` is processed by the code as written, which stores
    the user, and refused with 401 by the corrected reading.
   */
  lemma AncientCreateProcessedAsWritten(env: WebhookEnv, users: Users, svixId: string, payload: string, sig: string)
    requires env.now >= 0
    requires env.secret.Some? && !IsBlank(env.secret.value)
    requires !IsBlank(svixId)
    requires ExpectedSignature(env.crypto, env.secret.value, SignedContent(svixId, IntToString(env.now - TWO_63), payload))
          == Some(sig)
    requires forall j :: 0 <= j < |sig| ==> sig[j] != ' '
    requires env.parse(payload).Some? && env.parse(payload).value.eventType == USER_CREATED
    requires Usable(env.parse(payload).value.data)
    ensures var ts := Some(IntToString(env.now - TWO_63));
      var w := HandleClerkWebhook(AsWritten, env, users, Some(svixId), ts, Some(SCHEME_TAG + sig), payload);
      && w.response == Acknowledged(PROCESSED)
      && env.parse(payload).value.data.id in w.users
    ensures var ts := Some(IntToString(env.now - TWO_63));
      HandleClerkWebhook(Corrected, env, users, Some(svixId), ts, Some(SCHEME_TAG + sig), payload)
        == Reply(ErrorResponse(UNAUTHORIZED, INVALID_SIGNATURE), users, true)
  {
    var ts := IntToString(env.now - TWO_63);
    var header := SCHEME_TAG + sig;
    AncientSignedEventAcceptedAsWritten(env.crypto, env.secret.value, env.now, Some(svixId), Some(payload), [header], 0);
    assert ts[0] == '-';
    assert header[0] == 'v';
  }

  /** Replaying a delivered `user.created` (same headers, same body) leaves the store as the first delivery did. */
  lemma ReplayedCreateIsIdempotent(reading: Reading, env: WebhookEnv, users: Users, svixId: JString,
                                   svixTimestamp: JString, svixSignature: JString, payload: string)
    requires env.parse(payload).Some? && env.parse(payload).value.eventType == USER_CREATED
    ensures var once := HandleClerkWebhook(reading, env, users, svixId, svixTimestamp, svixSignature, payload);
      HandleClerkWebhook(reading, env, once.users, svixId, svixTimestamp, svixSignature, payload).users == once.users
  {
    var once := HandleClerkWebhook(reading, env, users, svixId, svixTimestamp, svixSignature, payload);
    var d := env.parse(payload).value.data;
    if once.response.status == OK {
      var dto := BuildUser(d).value;
      SaveIdempotent(users, dto);
    }
  }
}
