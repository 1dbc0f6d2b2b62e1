# UserService in Dafny

A model of a small CRUD web service for one resource, the user (an integer
id and a name), in three layers:

- **Storage gateway** (`Repositories.UserRepository`, `user_repository.dfy`):
  the user table as a map from id to name plus a source of fresh ids. It
  creates, deletes, updates, looks up by id, lists in id order, and checks
  whether a name is already taken, ignoring letter case.
- **Service** (`Services.UserService`, `user_service.dfy`): a wrapper over the
  gateway that forwards every call unchanged. It records each call it receives
  in a ghost log, `calls`, so that the layer above can state which operations
  ran.
- **Request handler** (`Controllers.UsersController`, `users_controller.dfy`):
  the five HTTP endpoints. Each applies its checks in the source's order: request
  validity, `id <= 0`, an existence lookup, a duplicate-name check. Each
  returns an `Outcome`: `OkUsers`, `OkUser`, `OkFlag`, `OkMessage` (200),
  `Created` (201), `NotFound`, `NotFoundMessage` (404), `BadRequest` (400) or
  `Conflict` (409).

`models.dfy` holds the `User` record and `Option`, which stands for a null
result. `text.dfy` holds the case folding the duplicate-name check uses.

The gateway keeps one invariant, `Valid()`: every stored id is positive and
below the next id it will hand out. Every gateway method preserves it. So a
new record never reuses a key, and for the whole stack "GET by id finds a
user" is exactly "the id is a key of the table", for every id.

Properties proved:
- The listing is sorted by ascending id and holds every record exactly once.
  Any list with those two properties is the listing (`ListingIsUnique`).
- Each endpoint's rejection path (400, 404, 409) leaves the table unchanged.
  It also calls the service exactly as the source does: no call at all for
  the 400 and the `id <= 0` answers, only the lookup for the "does not exist"
  answers.
- The example session create / duplicate create / read / delete / read gives
  201, 409, 200, 200 `true`, 404 (`ExampleSession`).

Two behaviours of the code worth knowing:
- The duplicate-name check happens in the request handler, which calls the
  service's `UserExists`. It is not done by the service layer.
- Update returns `false` when no user is supplied, as well as when the id is
  absent.

## Model

| member | source | states |
|---|---|---|
| Text.LowerChar | Src/UserService.Infrastructure/Repositories/UserRepository.cs:79 | the folded character is never an upper-case ASCII letter; an upper-case letter moves to its lower-case partner, anything else is kept |
| Text.Lower | Src/UserService.Infrastructure/Repositories/UserRepository.cs:79 | folding keeps the length and folds each character in place |
| Text.LowerIdempotent | Src/UserService.Infrastructure/Repositories/UserRepository.cs:79 | folding a folded name changes nothing |
| Text.LowerIgnoresCase | Src/UserService.Infrastructure/Repositories/UserRepository.cs:79 | two names of equal length that at every position hold the same character or the upper- and lower-case forms of one ASCII letter fold to the same string |
| Repositories.SortedKeys | Src/UserService.Infrastructure/Repositories/UserRepository.cs:54 | the ordering step of the listing query gives every id of the set once, in strictly ascending order |
| Repositories.Listing | Src/UserService.Infrastructure/Repositories/UserRepository.cs:54-57 | the listed records ascend strictly by id, every element is a stored record, every stored record is listed, and the length equals the table size |
| Repositories.ListingIsUnique | Src/UserService.Infrastructure/Repositories/UserRepository.cs:54 | any list that is sorted by id and holds exactly the stored records equals the listing |
| Repositories.NameTakenIgnoresCase | Src/UserService.Infrastructure/Repositories/UserRepository.cs:77-80 | when two names differ only in the case of ASCII letters (character by character the same, or an upper- and lower-case letter pair), one is taken exactly when the other is, so the 409 of the create endpoint covers every case variant |
| Repositories.NameTakenFoldsCase | Src/UserService.Infrastructure/Repositories/UserRepository.cs:77-80 | whether a name is taken is the same for the name and for its lower-case form |
| Repositories.UserRepository.constructor | Src/UserService.Infrastructure/Repositories/UserRepository.cs:18-22 | a new gateway starts over an empty table that satisfies the invariant |
| Repositories.UserRepository.CreateUser | Src/UserService.Infrastructure/Repositories/UserRepository.cs:23-30 | the incoming id is ignored: the new key is the store's next id and was not a key before; the table gains exactly that key with the given name; all other records stay as they were; the size grows by one; the result carries the new key and the given name |
| Repositories.UserRepository.DeleteUser | Src/UserService.Infrastructure/Repositories/UserRepository.cs:32-42 | the result is true exactly when the id was a key; that key is removed and every other record keeps its name; on false the table is unchanged |
| Repositories.UserRepository.GetUserById | Src/UserService.Infrastructure/Repositories/UserRepository.cs:44-50 | returns the record with that id and its stored name exactly when the id is a key, otherwise nothing; the table is only read |
| Repositories.UserRepository.GetUsers | Src/UserService.Infrastructure/Repositories/UserRepository.cs:52-58 | returns nothing exactly when the table is empty; otherwise the list that is sorted by id and holds every record once |
| Repositories.UserRepository.UpdateUser | Src/UserService.Infrastructure/Repositories/UserRepository.cs:60-75 | returns true exactly when the id is a key and a user is given; then only that key's name becomes the given name and the keys stay the same; on false the table is unchanged |
| Repositories.UserRepository.UserExists | Src/UserService.Infrastructure/Repositories/UserRepository.cs:77-80 | true exactly when some stored name equals the given one after lower-casing both; the table is only read |
| Repositories.CreateThenLookup | Src/UserService.Infrastructure/Repositories/UserRepository.cs:23-50 | a lookup of the id a create returned finds that id with the name that was given |
| Repositories.DeleteThenLookup | Src/UserService.Infrastructure/Repositories/UserRepository.cs:32-50 | a lookup right after deleting the same id finds nothing |
| Services.UserService.constructor | Src/UserService.Core/Services/UserService.cs:15-18 | the service wraps the given gateway and has received no calls |
| Services.UserService.CreateUser | Src/UserService.Core/Services/UserService.cs:19-22 | gives the gateway's create result and effect, and logs one create call with the same user |
| Services.UserService.DeleteUser | Src/UserService.Core/Services/UserService.cs:24-27 | gives the gateway's delete result and effect, and logs one delete call with the same id |
| Services.UserService.GetUserById | Src/UserService.Core/Services/UserService.cs:29-32 | gives the gateway's lookup result, leaves the table alone, and logs one lookup call |
| Services.UserService.GetUsers | Src/UserService.Core/Services/UserService.cs:34-37 | gives the gateway's listing, with "nothing" exactly when the table is empty, and logs one listing call |
| Services.UserService.UpdateUser | Src/UserService.Core/Services/UserService.cs:39-42 | gives the gateway's update result and effect, and logs one update call with the same arguments |
| Services.UserService.UserExists | Src/UserService.Core/Services/UserService.cs:44-47 | gives the gateway's case-insensitive name check, leaves the table alone, and logs one check call |
| Controllers.UsersController.constructor | Src/UserService.Api/Controllers/UsersController.cs:13-16 | the handler wraps the given service |
| Controllers.UsersController.GetUsers | Src/UserService.Api/Controllers/UsersController.cs:31-40 | calls the listing once; answers 200 "Users not found" exactly when the table is empty, otherwise 200 with the sorted list of all records |
| Controllers.UsersController.GetUserById | Src/UserService.Api/Controllers/UsersController.cs:55-64 | for id <= 0 answers 404 without calling the service; otherwise calls the lookup once and answers 200 with the user exactly when the id is a key, else 404; over the whole stack the answer is the stored user or 404 for every id |
| Controllers.UsersController.CreateUser | Src/UserService.Api/Controllers/UsersController.cs:80-93 | an invalid request gives 400 with no service call and the table unchanged; a name taken in any letter case gives 409 with its message after only the name check, table unchanged; otherwise 201 carrying the new id and the stored user, the table gains exactly that record, and the calls are the name check then the create |
| Controllers.UsersController.DeleteUser | Src/UserService.Api/Controllers/UsersController.cs:108-118 | id <= 0 gives 404 with no service call; an absent id gives 404 with its message after only the lookup, table unchanged; otherwise the lookup then the delete run, the record is removed and the answer is 200 true |
| Controllers.UsersController.UpdateUser | Src/UserService.Api/Controllers/UsersController.cs:133-147 | request validity is checked before the id: an invalid request gives 400 even for id <= 0; then id <= 0 gives 404; both with no service call and the table unchanged; an absent id gives 404 with its message after only the lookup; otherwise the lookup then the update run and the answer is 200 with the update's result |
| Controllers.ExampleSession | Src/UserService.Api/Controllers/UsersController.cs:55-118 | on a fresh stack: creating "alice" gives 201; creating "alice" or "ALICE" again gives 409; reading the new id gives 200 with alice; deleting it gives 200 true; reading it again gives 404 |

## Left out

- Asynchronous calls (`Task`, `await`, `ConfigureAwait`) are modelled as synchronous calls.
- Entity Framework and AutoMapper are replaced by direct map updates. The mapping's one rule is kept: on create the incoming id is ignored.
- Entity Framework's own key generation is not modelled. The table hands out ids from a counter that stays above every stored key.
- The store's ids are unbounded integers. A 32-bit overflow of the id counter is not modelled.
- Request validation (ModelState and data annotations) is a boolean input, `valid`.
- A null request body on create is not modelled: `CreateUser` takes a user. The source would fail on `user.UserName`. On update, a missing user is modelled with `Option`.
- Null names are not modelled: names are strings.
- Framework response objects are replaced by `Outcome`. For `Created`, the route name and Location header are reduced to the id they carry.
- The response-type annotations are documentation only and are not modelled.
- Repositories.UserRepository.CreateUser: the source also writes the new id into the caller's own `User` object. That in-place change is not modelled. The model returns a new record carrying the id, and the handler uses that return value, as the source does.
- The gateway's update checks that the found record's id equals the requested id. The model keeps this check. It can never fail, because a record's id is its key.
- Text.Lower: folds only ASCII letters. The source uses culture-sensitive lower-casing.
- Infrastructure failures (the store is unreachable, giving a 500) are not modelled.
- The race between the existence lookup and the later delete or update is not modelled. It matters only under concurrent requests.
- Dependency injection, Swagger, the in-memory provider and the HTTP pipeline are startup wiring with no logic. The database context is configuration only.
- The service interface holds only signatures, and the service class stands in for it.
