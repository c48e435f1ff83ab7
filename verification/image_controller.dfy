/**
  `ImageController.removeBackground`: authenticate, validate the upload,
  gate on the caller's credit balance, run the background removal, and
  debit one credit on success. The removal service is not modelled; its
  outcome is a parameter (`ProcessReply`), and so is the base64 encoder.
 */
module ImageApi {
  import opened Lang
  import opened Failures
  import opened Entities
  import opened Http
  import opened UserService

  type byte = b: int | 0 <= b < 256

  /** A non-null `MultipartFile`: its size in bytes, content type and original name. */
  datatype Upload = Upload(size: nat, contentType: JString, originalFilename: JString)

  /** 30 * 1024 * 1024 */
  const MAX_FILE_SIZE: nat := 31_457_280

  const ALLOWED_TYPES: seq<string> := ["image/jpeg", "image/jpg", "image/png", "image/webp"]

  const NO_FILE := "Please select an image file"
  const TOO_LARGE := "File size too large. Maximum allowed size is 30MB"
  const BAD_TYPE := "Invalid file type. Please upload JPEG, PNG, or WebP images only"
  const BAD_NAME := "Invalid file name"

  // ---------------------------------------------------------------------
  // isAllowedFileType

  /** The loop over the allowed types, first match wins. */
  function MatchesAny(types: seq<string>, contentType: string): bool {
    |types| > 0 && (EqualsIgnoreCase(types[0], contentType) || MatchesAny(types[1..], contentType))
  }

  /** `isAllowedFileType` */
  function IsAllowedFileType(contentType: string): bool {
    MatchesAny(ALLOWED_TYPES, contentType)
  }

  lemma {:induction false} MatchesAnyIsSome(types: seq<string>, contentType: string)
    ensures MatchesAny(types, contentType) <==> exists i :: 0 <= i < |types| && EqualsIgnoreCase(types[i], contentType)
  {
    if |types| > 0 {
      MatchesAnyIsSome(types[1..], contentType);
      if MatchesAny(types[1..], contentType) {
        var i :| 0 <= i < |types[1..]| && EqualsIgnoreCase(types[1..][i], contentType);
        assert types[i + 1] == types[1..][i];
      }
      if exists i :: 0 <= i < |types| && EqualsIgnoreCase(types[i], contentType) {
        var i :| 0 <= i < |types| && EqualsIgnoreCase(types[i], contentType);
        if i > 0 {
          assert types[1..][i - 1] == types[i];
        }
      }
    }
  }

  predicate HasNoUpper(s: string) {
    forall i :: 0 <= i < |s| ==> !('A' <= s[i] <= 'Z')
  }

  lemma LowerOfLower(s: string)
    requires HasNoUpper(s)
    ensures LowerAscii(s) == s
  {
  }

  /**
    A content type is allowed exactly when its lower-cased form is one of
    the four listed types: case does not matter, nothing else does either.
   */
  lemma AllowedMeansListed(contentType: string)
    ensures IsAllowedFileType(contentType) <==> LowerAscii(contentType) in ALLOWED_TYPES
  {
    MatchesAnyIsSome(ALLOWED_TYPES, contentType);
    forall i | 0 <= i < |ALLOWED_TYPES|
      ensures EqualsIgnoreCase(ALLOWED_TYPES[i], contentType) <==> LowerAscii(contentType) == ALLOWED_TYPES[i]
    {
      assert HasNoUpper(ALLOWED_TYPES[i]);
      LowerOfLower(ALLOWED_TYPES[i]);
      EqualsIgnoreCaseIsLowerEquality(ALLOWED_TYPES[i], contentType);
    }
    if LowerAscii(contentType) in ALLOWED_TYPES {
      var i :| 0 <= i < |ALLOWED_TYPES| && ALLOWED_TYPES[i] == LowerAscii(contentType);
    }
  }

  lemma AllowedIsListed()
    ensures forall contentType :: IsAllowedFileType(contentType) <==> LowerAscii(contentType) in ALLOWED_TYPES
  {
    forall contentType ensures IsAllowedFileType(contentType) <==> LowerAscii(contentType) in ALLOWED_TYPES {
      AllowedMeansListed(contentType);
    }
  }

  // ---------------------------------------------------------------------
  // validateFile

  /** An upload every check accepts. */
  ghost predicate Acceptable(file: Option<Upload>) {
    && file.Some?
    && 0 < file.value.size <= MAX_FILE_SIZE
    && file.value.contentType.Some?
    && LowerAscii(file.value.contentType.value) in ALLOWED_TYPES
    && !NullOrBlank(file.value.originalFilename)
  }

  /** `validateFile`: the four checks in order, each failing with its own `InvalidFileException`. */
  function ValidateFile(file: Option<Upload>): (r: Result<()>)
    ensures r.Ok? <==> Acceptable(file)
    ensures (file.None? || file.value.size == 0) ==> r == Err(InvalidFile(NO_FILE))
    ensures file.Some? && file.value.size > MAX_FILE_SIZE ==> r == Err(InvalidFile(TOO_LARGE))
    ensures (&& file.Some? && 0 < file.value.size <= MAX_FILE_SIZE
             && (file.value.contentType.None? || LowerAscii(file.value.contentType.value) !in ALLOWED_TYPES)) ==>
      r == Err(InvalidFile(BAD_TYPE))
    ensures (&& file.Some? && 0 < file.value.size <= MAX_FILE_SIZE && file.value.contentType.Some?
             && LowerAscii(file.value.contentType.value) in ALLOWED_TYPES
             && NullOrBlank(file.value.originalFilename)) ==>
      r == Err(InvalidFile(BAD_NAME))
    ensures r.Err? ==> r.error.InvalidFile? && r.error.message in {NO_FILE, TOO_LARGE, BAD_TYPE, BAD_NAME}
    ensures r == Err(InvalidFile(BAD_NAME)) ==>
      file.Some? && file.value.contentType.Some? && IsAllowedFileType(file.value.contentType.value)
  {
    AllowedIsListed();
    if file.None? || file.value.size == 0 then Err(InvalidFile(NO_FILE))
    else if file.value.size > MAX_FILE_SIZE then Err(InvalidFile(TOO_LARGE))
    else if file.value.contentType.None? || !IsAllowedFileType(file.value.contentType.value) then Err(InvalidFile(BAD_TYPE))
    else if NullOrBlank(file.value.originalFilename) then Err(InvalidFile(BAD_NAME))
    else Ok(())
  }

  // ---------------------------------------------------------------------
  // removeBackground

  /**
    What `RemoveBgService.removeBackground` answers: the processed image,
    or a `RemoveBgServiceException` (every failure of that service,
    including an empty reply, is reported as one).
   */
  datatype ProcessReply = Processed(image: seq<byte>) | ProcessFailed(message: string)

  /** The response, the user table afterwards, and whether the removal service was called. */
  datatype Handled = Handled(response: Response, users: Users, processed: bool)

  const AUTH_REQUIRED := "Authentication required"
  const INSUFFICIENT := "Insufficient credits to process image"
  const PROCESS_FAILED := "Failed to process image. Please try again later"
  const REMOVED := "Image background removed successfully"

  /** A caller with a positive balance: the only ones the service is run for. */
  ghost predicate CanPay(users: Users, clerkId: string) {
    clerkId in users && users[clerkId].credits.Some? && users[clerkId].credits.value > 0
  }

  /** `removeBackground` */
  function RemoveBackground(users: Users, principal: JString, file: Option<Upload>,
                            reply: ProcessReply, encode: seq<byte> -> string): (h: Handled)
    ensures NullOrEmpty(principal) ==> h == Handled(ErrorResponse(UNAUTHORIZED, AUTH_REQUIRED), users, false)
    ensures !NullOrEmpty(principal) && !Acceptable(file) ==>
      h.response.status == BAD_REQUEST && h.response.message == ValidateFile(file).error.message
      && h.users == users && !h.processed
    ensures !NullOrEmpty(principal) && Acceptable(file) && principal.value !in users ==>
      h == Handled(ErrorResponse(INTERNAL_SERVER_ERROR, PROCESS_FAILED), users, false)
    ensures h.processed <==> !NullOrEmpty(principal) && Acceptable(file) && CanPay(users, principal.value)
    ensures h.response.status == PAYMENT_REQUIRED <==>
      !NullOrEmpty(principal) && Acceptable(file) && principal.value in users && !CanPay(users, principal.value)
    ensures h.response.status == PAYMENT_REQUIRED ==>
      && h.response == Response(PAYMENT_REQUIRED, INSUFFICIENT,
                                CreditBalance(var c := users[principal.value].credits; if c.Some? then c.value else 0))
      && h.users == users
    ensures h.response.status == SERVICE_UNAVAILABLE <==> h.processed && reply.ProcessFailed?
    ensures h.response.status == SERVICE_UNAVAILABLE ==> h.response.message == reply.message && h.users == users
    ensures h.response.status == OK <==> h.processed && reply.Processed?
    ensures h.response.status == OK ==>
      && var clerkId := principal.value;
      && h.response == Response(OK, REMOVED, Image(encode(reply.image)))
      && h.users == users[clerkId := users[clerkId].(credits := Some(users[clerkId].credits.value - 1))]
    ensures h.response.status != OK ==> h.users == users
  {
    if NullOrEmpty(principal) then Handled(ErrorResponse(UNAUTHORIZED, AUTH_REQUIRED), users, false)
    else
      match ValidateFile(file)
      case Err(e) => Handled(ErrorResponse(BAD_REQUEST, e.message), users, false)
      case Ok(_) =>
        var clerkId := principal.value;
        match GetUser(users, clerkId)
        case Err(_) => Handled(ErrorResponse(INTERNAL_SERVER_ERROR, PROCESS_FAILED), users, false)
        case Ok(dto) =>
          if dto.credits.None? || dto.credits.value <= 0 then
            var balance := if dto.credits.Some? then dto.credits.value else 0;
            Handled(Response(PAYMENT_REQUIRED, INSUFFICIENT, CreditBalance(balance)), users, false)
          else
            match reply
            case ProcessFailed(message) => Handled(ErrorResponse(SERVICE_UNAVAILABLE, message), users, true)
            case Processed(image) =>
              var saved := SaveUser(users, dto.(credits := Some(dto.credits.value - 1)));
              assert saved.users == users[clerkId := users[clerkId].(credits := Some(dto.credits.value - 1))];
              Handled(Response(OK, REMOVED, Image(encode(image))), saved.users, true)
  }

  /** No stored balance is negative. */
  ghost predicate NoNegativeBalance(users: Users) {
    forall k :: k in users && users[k].credits.Some? ==> users[k].credits.value >= 0
  }

  /**
    The credit gate: a request never takes a balance below zero, and a
    user's balance moves by at most one, downward, and only on a 200.
   */
  lemma RemovalKeepsBalancesNonNegative(users: Users, principal: JString, file: Option<Upload>,
                                        reply: ProcessReply, encode: seq<byte> -> string)
    requires NoNegativeBalance(users)
    ensures var h := RemoveBackground(users, principal, file, reply, encode);
      && NoNegativeBalance(h.users)
      && h.users.Keys == users.Keys
      && (forall k :: k in users && h.users[k] != users[k] ==>
            h.response.status == OK && principal == Some(k)
            && users[k].credits.Some? && h.users[k] == users[k].(credits := Some(users[k].credits.value - 1)))
  {
  }

  /**
    Two successful removals debit two credits; a user with a single credit
    gets one image and then a 402 for the next.
   */
  lemma SingleCreditBuysOneImage(users: Users, clerkId: string, file: Option<Upload>,
                                 image: seq<byte>, reply: ProcessReply, encode: seq<byte> -> string)
    requires Acceptable(file) && |clerkId| > 0
    requires clerkId in users && users[clerkId].credits == Some(1)
    ensures var first := RemoveBackground(users, Some(clerkId), file, Processed(image), encode);
      && first.response.status == OK
      && var second := RemoveBackground(first.users, Some(clerkId), file, reply, encode);
      && second.response == Response(PAYMENT_REQUIRED, INSUFFICIENT, CreditBalance(0))
      && second.users == first.users
      && first.users[clerkId].credits == Some(0)
  {
  }
}
