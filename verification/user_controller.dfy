/**
  `UserController`: the profile upsert guarded by an ownership check, and
  the credit-balance lookup.
 */
module UserApi {
  import opened Lang
  import opened Failures
  import opened Entities
  import opened Http
  import opened UserService

  /** The request body: a `UserDto` as the client sent it, so even its clerkId may be null. */
  datatype UserRequest = UserRequest(clerkId: JString, email: JString, firstName: JString,
                                     lastName: JString, credits: Option<Int32>, photoUrl: JString)

  const AUTH_REQUIRED := "Authentication required"
  const FORBIDDEN_MESSAGE := "You don't have permission to perform this action"
  const ID_REQUIRED := "User ID is required"
  const EMAIL_REQUIRED := "Email is required"
  const FIRST_NAME_REQUIRED := "First name is required"
  const LAST_NAME_REQUIRED := "Last name is required"
  const SOMETHING_WRONG := "Something went wrong. Please try again later"
  const SAVED := "User saved successfully"
  const CREDITS_RETRIEVED := "Credits retrieved successfully"
  const CREDITS_FAILED := "Unable to fetch credits. Please try again later"
  const ACCOUNT_NOT_FOUND := "User account not found"

  /** A request every check of `validateUserDto` accepts. */
  ghost predicate Complete(req: UserRequest) {
    !NullOrBlank(req.clerkId) && !NullOrBlank(req.email) && !NullOrBlank(req.firstName) && !NullOrBlank(req.lastName)
  }

  /** `validateUserDto` (the null-body check is unreachable after the ownership check dereferences it). */
  function ValidateUserDto(req: UserRequest): (r: Result<()>)
    ensures r.Ok? <==> Complete(req)
    ensures NullOrBlank(req.clerkId) ==> r == Err(Validation(ID_REQUIRED))
    ensures !NullOrBlank(req.clerkId) && NullOrBlank(req.email) ==> r == Err(Validation(EMAIL_REQUIRED))
    ensures !NullOrBlank(req.clerkId) && !NullOrBlank(req.email) && NullOrBlank(req.firstName) ==>
      r == Err(Validation(FIRST_NAME_REQUIRED))
    ensures (!NullOrBlank(req.clerkId) && !NullOrBlank(req.email) && !NullOrBlank(req.firstName)
             && NullOrBlank(req.lastName)) ==> r == Err(Validation(LAST_NAME_REQUIRED))
    ensures r.Err? ==>
      r.error.Validation? && r.error.message in {ID_REQUIRED, EMAIL_REQUIRED, FIRST_NAME_REQUIRED, LAST_NAME_REQUIRED}
  {
    if NullOrBlank(req.clerkId) then Err(Validation(ID_REQUIRED))
    else if NullOrBlank(req.email) then Err(Validation(EMAIL_REQUIRED))
    else if NullOrBlank(req.firstName) then Err(Validation(FIRST_NAME_REQUIRED))
    else if NullOrBlank(req.lastName) then Err(Validation(LAST_NAME_REQUIRED))
    else Ok(())
  }

  /** The service DTO of a request whose clerkId is known to be present. */
  function ToServiceDto(req: UserRequest): UserDto
    requires req.clerkId.Some?
  {
    UserDto(req.clerkId.value, req.email, req.firstName, req.lastName, req.credits, req.photoUrl)
  }

  datatype Answer = Answer(response: Response, users: Users)

  /** The caller owns the request: authenticated under exactly the clerkId the body names. */
  predicate Owns(principal: JString, req: UserRequest) {
    principal.Some? && req.clerkId == principal
  }

  /**
    `createOrUpdateUser`. A null body (`null` JSON) fails on the first
    dereference with a `NullPointerException`, answered as a 500.
   */
  function CreateOrUpdateUser(users: Users, principal: JString, body: Option<UserRequest>): (a: Answer)
    ensures principal.None? ==> a == Answer(ErrorResponse(UNAUTHORIZED, AUTH_REQUIRED), users)
    ensures principal.Some? && body.None? ==> a == Answer(ErrorResponse(INTERNAL_SERVER_ERROR, SOMETHING_WRONG), users)
    ensures principal.Some? && body.Some? && !Owns(principal, body.value) ==>
      a == Answer(ErrorResponse(FORBIDDEN, FORBIDDEN_MESSAGE), users)
    ensures body.Some? && Owns(principal, body.value) && !Complete(body.value) ==>
      a == Answer(ErrorResponse(BAD_REQUEST, ValidateUserDto(body.value).error.message), users)
    ensures a.response.status == OK <==> body.Some? && Owns(principal, body.value) && Complete(body.value)
    ensures a.response.status == OK ==>
      && var dto := ToServiceDto(body.value);
      && a.users.Keys == users.Keys + {dto.clerkId}
      && StoredFrom(a.users[dto.clerkId], dto, Lookup(users, dto.clerkId))
      && a.response == Response(OK, SAVED, SavedUser(ToDto(dto.clerkId, a.users[dto.clerkId])))
    ensures a.response.status != OK ==> a.users == users
  {
    if principal.None? then Answer(ErrorResponse(UNAUTHORIZED, AUTH_REQUIRED), users)
    else if body.None? then Answer(ErrorResponse(INTERNAL_SERVER_ERROR, SOMETHING_WRONG), users)
    else
      var req := body.value;
      if !Owns(principal, req) then Answer(ErrorResponse(FORBIDDEN, FORBIDDEN_MESSAGE), users)
      else
        match ValidateUserDto(req)
        case Err(e) => Answer(ErrorResponse(BAD_REQUEST, e.message), users)
        case Ok(_) =>
          var saved := SaveUser(users, ToServiceDto(req));
          Answer(Response(OK, SAVED, SavedUser(saved.dto)), saved.users)
  }

  /** Whatever is sent, a caller can change no record but the one stored under its own name. */
  lemma OnlyOwnRecordChanges(users: Users, principal: JString, body: Option<UserRequest>)
    ensures var a := CreateOrUpdateUser(users, principal, body);
      && users.Keys <= a.users.Keys
      && (forall k :: k in a.users && (principal.None? || k != principal.value) ==> k in users && a.users[k] == users[k])
  {
  }

  /**
    The upsert takes the balance from the request: an owner who sends a
    credits value gets exactly that balance stored, whatever it was.
   */
  lemma OwnerCanSetOwnBalance(users: Users, clerkId: string, req: UserRequest, c: Int32)
    requires req.clerkId == Some(clerkId) && Complete(req) && req.credits == Some(c)
    ensures var a := CreateOrUpdateUser(users, Some(clerkId), Some(req));
      a.response.status == OK && a.users[clerkId].credits == Some(c)
  {
  }

  // ---------------------------------------------------------------------
  // getUserCredits

  /**
    `getUserCredits` as written. Its `catch (UserNotFoundException)` is
    dead: `getUserByClerkId` re-wraps that exception, so an unknown user
    is answered with the generic 500.
   */
  function GetUserCreditsAsWritten(users: Users, principal: JString): (resp: Response)
    ensures NullOrEmpty(principal) ==> resp == ErrorResponse(UNAUTHORIZED, AUTH_REQUIRED)
    ensures !NullOrEmpty(principal) && principal.value !in users ==> resp == ErrorResponse(INTERNAL_SERVER_ERROR, CREDITS_FAILED)
    ensures resp.status == OK <==> !NullOrEmpty(principal) && principal.value in users
    ensures resp.status == OK ==> resp == Response(OK, CREDITS_RETRIEVED, Credits(users[principal.value].credits))
  {
    if NullOrEmpty(principal) then ErrorResponse(UNAUTHORIZED, AUTH_REQUIRED)
    else
      match GetUser(users, principal.value)
      case Err(_) => ErrorResponse(INTERNAL_SERVER_ERROR, CREDITS_FAILED)
      case Ok(dto) => Response(OK, CREDITS_RETRIEVED, Credits(dto.credits))
  }

  /** `getUserCredits` as its catch clause intends: an unknown user is a 404. */
  function GetUserCredits(users: Users, principal: JString): (resp: Response)
    ensures NullOrEmpty(principal) ==> resp == ErrorResponse(UNAUTHORIZED, AUTH_REQUIRED)
    ensures !NullOrEmpty(principal) && principal.value !in users ==> resp == ErrorResponse(NOT_FOUND, ACCOUNT_NOT_FOUND)
    ensures resp.status == OK <==> !NullOrEmpty(principal) && principal.value in users
    ensures resp.status == OK ==> resp == Response(OK, CREDITS_RETRIEVED, Credits(users[principal.value].credits))
  {
    if !NullOrEmpty(principal) && principal.value !in users then ErrorResponse(NOT_FOUND, ACCOUNT_NOT_FOUND)
    else GetUserCreditsAsWritten(users, principal)
  }

  /** The finding: for an unknown user the code as written answers 500 where 404 is meant. */
  lemma UnknownUserCreditsAsWrittenIs500(clerkId: string)
    requires |clerkId| > 0
    ensures GetUserCreditsAsWritten(map[], Some(clerkId)).status == INTERNAL_SERVER_ERROR
    ensures GetUserCredits(map[], Some(clerkId)).status == NOT_FOUND
  {
  }

  /** Saving a profile and then asking for the balance returns the balance just saved. */
  lemma SavedBalanceIsReported(users: Users, clerkId: string, req: UserRequest)
    requires |clerkId| > 0
    requires req.clerkId == Some(clerkId) && Complete(req) && req.credits.Some?
    ensures var a := CreateOrUpdateUser(users, Some(clerkId), Some(req));
      GetUserCredits(a.users, Some(clerkId)) == Response(OK, CREDITS_RETRIEVED, Credits(req.credits))
  {
  }
}
