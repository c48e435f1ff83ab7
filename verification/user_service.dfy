/**
  `UserServiceImpl`: an upsert keyed by clerkId, a lookup and a delete over
  the user table. Lookup and delete of an unknown clerkId throw
  `UserNotFoundException` inside a try whose catch-all re-wraps it, so the
  caller sees a `UserServiceException`.
 */
module UserService {
  import opened Lang
  import opened Failures
  import opened Entities

  datatype Saved = Saved(users: Users, dto: UserDto)
  datatype Deleted = Deleted(result: Result<()>, users: Users)

  const FETCH_FAILED := "An unexpected error occurred while fetching user"
  const DELETE_FAILED := "An unexpected error occurred while deleting user"

  /** `mapToDto` */
  function ToDto(clerkId: string, u: User): UserDto {
    UserDto(clerkId, u.email, u.firstName, u.lastName, u.credits, u.photoUrl)
  }

  /** `mapToEntity` */
  function ToEntity(dto: UserDto): User {
    User(dto.email, dto.firstName, dto.lastName, dto.photoUrl, dto.credits)
  }

  /** `updateExistingUser`: profile fields always, credits only when the DTO carries some. */
  function UpdateExisting(u: User, dto: UserDto): User {
    var credits := if dto.credits.Some? then dto.credits else u.credits;
    User(dto.email, dto.firstName, dto.lastName, dto.photoUrl, credits)
  }

  /** The record `saveUser` leaves under the DTO's clerkId. */
  ghost predicate StoredFrom(u: User, dto: UserDto, prior: Option<User>) {
    && u.email == dto.email
    && u.firstName == dto.firstName
    && u.lastName == dto.lastName
    && u.photoUrl == dto.photoUrl
    && u.credits == (if dto.credits.Some? || prior.None? then dto.credits else prior.value.credits)
  }

  function Lookup(users: Users, clerkId: string): Option<User> {
    if clerkId in users then Some(users[clerkId]) else None
  }

  /** `saveUser` */
  function SaveUser(users: Users, dto: UserDto): (r: Saved)
    ensures r.users.Keys == users.Keys + {dto.clerkId}
    ensures StoredFrom(r.users[dto.clerkId], dto, Lookup(users, dto.clerkId))
    ensures forall k :: k in users && k != dto.clerkId ==> r.users[k] == users[k]
    ensures r.dto.clerkId == dto.clerkId && ToEntity(r.dto) == r.users[dto.clerkId]
  {
    var stored := if dto.clerkId in users then UpdateExisting(users[dto.clerkId], dto) else ToEntity(dto);
    Saved(users[dto.clerkId := stored], ToDto(dto.clerkId, stored))
  }

  /** `getUserByClerkId` */
  function GetUser(users: Users, clerkId: string): (r: Result<UserDto>)
    ensures r.Ok? <==> clerkId in users
    ensures r.Ok? ==> r.value.clerkId == clerkId && ToEntity(r.value) == users[clerkId]
    ensures r.Err? ==> r.error == UserServiceFailure(FETCH_FAILED)
  {
    if clerkId in users then Ok(ToDto(clerkId, users[clerkId]))
    else Err(UserServiceFailure(FETCH_FAILED))
  }

  /** `deleteUserByClerkId` */
  function DeleteUser(users: Users, clerkId: string): (r: Deleted)
    ensures r.result.Ok? <==> clerkId in users
    ensures r.result.Err? ==> r.result.error == UserServiceFailure(DELETE_FAILED) && r.users == users
    ensures r.users.Keys == users.Keys - {clerkId}
    ensures forall k :: k in r.users ==> r.users[k] == users[k]
  {
    if clerkId in users then Deleted(Ok(()), users - {clerkId})
    else Deleted(Err(UserServiceFailure(DELETE_FAILED)), users)
  }

  /** Reading back a freshly saved DTO returns it, except that null credits keep the stored balance. */
  lemma SaveThenGet(users: Users, dto: UserDto)
    ensures var got := GetUser(SaveUser(users, dto).users, dto.clerkId);
      && got.Ok?
      && got.value == dto.(credits := if dto.credits.Some? || dto.clerkId !in users
                                      then dto.credits else users[dto.clerkId].credits)
  {
  }

  /** Saving the same DTO a second time changes nothing. */
  lemma SaveIdempotent(users: Users, dto: UserDto)
    ensures var once := SaveUser(users, dto);
      SaveUser(once.users, dto) == once
  {
  }

  /** Saving a DTO read from the store writes back the very same record. */
  lemma SaveOfFetchedIsNoop(users: Users, clerkId: string)
    requires clerkId in users
    ensures SaveUser(users, GetUser(users, clerkId).value).users == users
  {
    var dto := GetUser(users, clerkId).value;
    assert SaveUser(users, dto).users[clerkId] == users[clerkId];
  }

  /** A deleted user can no longer be fetched. */
  lemma DeleteThenGet(users: Users, clerkId: string)
    ensures GetUser(DeleteUser(users, clerkId).users, clerkId).Err?
  {
  }
}
