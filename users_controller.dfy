/** The HTTP layer: each endpoint runs a fixed sequence of checks, calls the
    service, and turns the answer into an HTTP outcome. */
module Controllers {
  import opened Models
  import opened Text
  import opened Repositories
  import opened Services

  /** The responses the endpoints give, with their status codes. */
  datatype Outcome =
    | OkUsers(users: seq<User>)          // 200, the list of users
    | OkUser(user: User)                 // 200, one user
    | OkFlag(flag: bool)                 // 200, the boolean result of an update or delete
    | OkMessage(message: string)         // 200, an informational text
    | Created(routeId: int, user: User)  // 201, the new user and the id its location names
    | NotFound                           // 404, no body
    | NotFoundMessage(message: string)   // 404, with a text
    | BadRequest                         // 400, no body
    | Conflict(message: string)          // 409, with a text

  /** The text the list endpoint answers with when there are no users. */
  const UsersNotFound: string := "Users not found"

  function DigitChar(d: int): char
    requires 0 <= d < 10
  {
    ('0' as int + d) as char
  }

  /** The decimal digits of `n`. */
  function Decimal(n: nat): string {
    if n < 10 then [DigitChar(n)] else Decimal(n / 10) + [DigitChar(n % 10)]
  }

  function MissingUserMessage(id: nat): string {
    "User with the id:" + Decimal(id) + " does not exist"
  }

  function DuplicateNameMessage(name: string): string {
    "User '" + name + "' already exists."
  }

  class UsersController {
    const service: UserService

    ghost predicate Valid()
      reads this, service, service.repository
    {
      service.Valid()
    }

    constructor (service: UserService)
      requires service.Valid()
      ensures this.service == service && Valid()
    {
      this.service := service;
    }

    /** GET /users: the list, or a 200 message when the table is empty. */
    method GetUsers() returns (o: Outcome)
      requires Valid()
      modifies service
      ensures Valid()
      ensures service.calls == old(service.calls) + [GetUsersCall]
      ensures service.repository.users == map[] ==> o == OkMessage(UsersNotFound)
      ensures service.repository.users != map[] ==>
                o.OkUsers? && SortedById(o.users) && HoldsExactly(o.users, service.repository.users)
      ensures service.repository.users != map[] ==> o == OkUsers(Listing(service.repository.users))
    {
      var response := service.GetUsers();
      if response.None? {
        return OkMessage(UsersNotFound);
      }
      return OkUsers(response.value);
    }

    /** GET /users/{id}: a non-positive id is answered 404 without asking the
        service; otherwise the user, or 404 when there is none. */
    method GetUserById(id: int) returns (o: Outcome)
      requires Valid()
      modifies service
      ensures Valid()
      ensures id <= 0 ==> o == NotFound && service.calls == old(service.calls)
      ensures 0 < id ==> service.calls == old(service.calls) + [GetUserByIdCall(id)]
      ensures 0 < id ==> (o.OkUser? <==> id in service.repository.users)
      // Stored ids are positive, so over the whole stack the answer depends on the table alone.
      ensures o == if id in service.repository.users then OkUser(User(id, service.repository.users[id])) else NotFound
    {
      if id <= 0 {
        return NotFound;
      }
      var response := service.GetUserById(id);
      return if response.Some? then OkUser(response.value) else NotFound;
    }

    /** POST /users: 400 for an invalid request, 409 when the name is taken
        in any letter case, otherwise 201 with the stored user. */
    method CreateUser(valid: bool, user: User) returns (o: Outcome)
      requires Valid()
      modifies service, service.repository
      ensures Valid()
      ensures !valid ==>
                o == BadRequest && service.calls == old(service.calls) && unchanged(service.repository)
      ensures valid && NameTaken(old(service.repository.users), user.userName) ==>
                && o == Conflict(DuplicateNameMessage(user.userName))
                && service.calls == old(service.calls) + [UserExistsCall(user.userName)]
                && unchanged(service.repository)
      ensures valid && !NameTaken(old(service.repository.users), user.userName) ==>
                && o.Created?
                && o.user == User(o.routeId, user.userName)
                && o.routeId !in old(service.repository.users)
                && service.repository.users == old(service.repository.users)[o.routeId := user.userName]
                && service.calls == old(service.calls) + [UserExistsCall(user.userName), CreateUserCall(user)]
    {
      if !valid {
        return BadRequest;
      }
      var userExists := service.UserExists(user.userName);
      if userExists {
        return Conflict(DuplicateNameMessage(user.userName));
      }
      var response := service.CreateUser(user);
      return Created(response.userId, response);
    }

    /** DELETE /users/{id}: 404 for a non-positive id without asking the
        service, 404 with a text when there is no such user, otherwise the
        result of the delete. */
    method DeleteUser(id: int) returns (o: Outcome)
      requires Valid()
      modifies service, service.repository
      ensures Valid()
      ensures id <= 0 ==>
                o == NotFound && service.calls == old(service.calls) && unchanged(service.repository)
      ensures 0 < id && id !in old(service.repository.users) ==>
                && o == NotFoundMessage(MissingUserMessage(id))
                && service.calls == old(service.calls) + [GetUserByIdCall(id)]
                && unchanged(service.repository)
      ensures 0 < id && id in old(service.repository.users) ==>
                && o == OkFlag(true)
                && service.repository.users == old(service.repository.users) - {id}
                && service.calls == old(service.calls) + [GetUserByIdCall(id), DeleteUserCall(id)]
    {
      if id <= 0 {
        return NotFound;
      }
      var userId := service.GetUserById(id);
      if userId.None? {
        return NotFoundMessage(MissingUserMessage(id));
      }
      var deleted := service.DeleteUser(id);
      return OkFlag(deleted);
    }

    /** PUT /users/{id}: the request is validated before the id is looked
        at: 400 for an invalid request, then 404 for a non-positive id, then
        404 with a text when there is no such user, otherwise the result of
        the update. */
    method UpdateUser(valid: bool, id: int, user: Option<User>) returns (o: Outcome)
      requires Valid()
      modifies service, service.repository
      ensures Valid()
      ensures !valid ==>
                o == BadRequest && service.calls == old(service.calls) && unchanged(service.repository)
      ensures valid && id <= 0 ==>
                o == NotFound && service.calls == old(service.calls) && unchanged(service.repository)
      ensures valid && 0 < id && id !in old(service.repository.users) ==>
                && o == NotFoundMessage(MissingUserMessage(id))
                && service.calls == old(service.calls) + [GetUserByIdCall(id)]
                && unchanged(service.repository)
      ensures valid && 0 < id && id in old(service.repository.users) ==>
                && o == OkFlag(user.Some?)
                && service.repository.users ==
                     (if user.Some? then old(service.repository.users)[id := user.value.userName]
                      else old(service.repository.users))
                && service.calls == old(service.calls) + [GetUserByIdCall(id), UpdateUserCall(id, user)]
    {
      if !valid {
        return BadRequest;
      }
      if id <= 0 {
        return NotFound;
      }
      var userId := service.GetUserById(id);
      if userId.None? {
        return NotFoundMessage(MissingUserMessage(id));
      }
      var updated := service.UpdateUser(id, user);
      return OkFlag(updated);
    }
  }

  /** A session against a fresh store: create "alice", try to create her
      again under two spellings, read her back, delete her, and read again. */
  method ExampleSession() returns (created: Outcome, again: Outcome, shouted: Outcome,
                                   read: Outcome, deleted: Outcome, reread: Outcome)
    ensures created.Created? && created.user == User(created.routeId, "alice")
    ensures again == Conflict(DuplicateNameMessage("alice"))
    ensures shouted == Conflict(DuplicateNameMessage("ALICE"))
    ensures read == OkUser(User(created.routeId, "alice"))
    ensures deleted == OkFlag(true)
    ensures reread == NotFound
  {
    var repository := new UserRepository();
    var service := new UserService(repository);
    var controller := new UsersController(service);
    created := controller.CreateUser(true, User(0, "alice"));
    var id := created.routeId;
    assert NameTaken(repository.users, "alice") by {
      assert id in repository.users;
    }
    again := controller.CreateUser(true, User(0, "alice"));
    NameTakenIgnoresCase(repository.users, "alice", "ALICE");
    shouted := controller.CreateUser(true, User(0, "ALICE"));
    read := controller.GetUserById(id);
    deleted := controller.DeleteUser(id);
    reread := controller.GetUserById(id);
  }
}
