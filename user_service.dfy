/** The service layer: every operation hands its arguments to the storage
    gateway and hands the gateway's answer back, unchanged. */
module Services {
  import opened Models
  import opened Repositories

  /** One call received by the service, with its arguments. */
  datatype Call =
    | CreateUserCall(user: User)
    | DeleteUserCall(id: int)
    | GetUserByIdCall(id: int)
    | GetUsersCall
    | UpdateUserCall(id: int, patch: Option<User>)
    | UserExistsCall(name: string)

  class UserService {
    const repository: UserRepository
    /** The calls received so far, oldest first. It is bookkeeping for the
        proofs: callers use it to state which operations ran. */
    ghost var calls: seq<Call>

    ghost predicate Valid()
      reads this, repository
    {
      repository.Valid()
    }

    constructor (repository: UserRepository)
      requires repository.Valid()
      ensures this.repository == repository && calls == [] && Valid()
    {
      this.repository := repository;
      calls := [];
    }

    method CreateUser(user: User) returns (created: User)
      requires Valid()
      modifies this, repository
      ensures Valid() && calls == old(calls) + [CreateUserCall(user)]
      ensures created.userName == user.userName
      ensures created.userId !in old(repository.users)
      ensures created.userId == old(repository.nextId)
      ensures repository.users == old(repository.users)[created.userId := user.userName]
      ensures |repository.users| == |old(repository.users)| + 1
    {
      calls := calls + [CreateUserCall(user)];
      created := repository.CreateUser(user);
    }

    method DeleteUser(id: int) returns (deleted: bool)
      requires Valid()
      modifies this, repository
      ensures Valid() && calls == old(calls) + [DeleteUserCall(id)]
      ensures repository.nextId == old(repository.nextId)
      ensures deleted <==> id in old(repository.users)
      ensures repository.users == old(repository.users) - {id}
      ensures !deleted ==> repository.users == old(repository.users)
    {
      calls := calls + [DeleteUserCall(id)];
      deleted := repository.DeleteUser(id);
    }

    method GetUserById(id: int) returns (found: Option<User>)
      requires Valid()
      modifies this
      ensures Valid() && calls == old(calls) + [GetUserByIdCall(id)]
      ensures found.Some? <==> id in repository.users
      ensures found.Some? ==> found.value == User(id, repository.users[id])
    {
      calls := calls + [GetUserByIdCall(id)];
      found := repository.GetUserById(id);
    }

    method GetUsers() returns (listed: Option<seq<User>>)
      requires Valid()
      modifies this
      ensures Valid() && calls == old(calls) + [GetUsersCall]
      ensures listed.None? <==> repository.users == map[]
      ensures listed.Some? ==> SortedById(listed.value) && HoldsExactly(listed.value, repository.users)
      ensures listed.Some? ==> listed.value == Listing(repository.users)
    {
      calls := calls + [GetUsersCall];
      listed := repository.GetUsers();
    }

    method UpdateUser(id: int, user: Option<User>) returns (updated: bool)
      requires Valid()
      modifies this, repository
      ensures Valid() && calls == old(calls) + [UpdateUserCall(id, user)]
      ensures repository.nextId == old(repository.nextId)
      ensures updated <==> id in old(repository.users) && user.Some?
      ensures updated ==> repository.users == old(repository.users)[id := user.value.userName]
      ensures !updated ==> repository.users == old(repository.users)
      ensures repository.users.Keys == old(repository.users).Keys
    {
      calls := calls + [UpdateUserCall(id, user)];
      updated := repository.UpdateUser(id, user);
    }

    method UserExists(name: string) returns (taken: bool)
      requires Valid()
      modifies this
      ensures Valid() && calls == old(calls) + [UserExistsCall(name)]
      ensures taken <==> NameTaken(repository.users, name)
    {
      calls := calls + [UserExistsCall(name)];
      taken := repository.UserExists(name);
    }
  }
}
