# A verified model of the conexa movie API core

The conexa service is a small NestJS API with three parts:

- a user store where accounts register under a unique username and e-mail;
- a login endpoint that checks credentials and signs a JWT;
- a movie catalog. Listing movies needs a token. Reading one, and every change, also need a role on the route's allow-list.

This project models those parts and proves properties about them. It has one Dafny module per component:

| module | file | what it models |
|---|---|---|
| `Common` | common.dfy | `Option`, `Result`, the error kinds (Conflict, Unauthorized, token and role rejections, NotFound, a failed database query) and the two fixed messages |
| `Decimal` | decimal.dfy | `+id` on a path id made of digits, and `${id}` in the NotFound message; parsing a rendering gives the number back, and rendering the parse of a digit string without leading zeros gives the string back |
| `Crypto` | crypto.dfy | bcrypt `hash` / `compare` and `JwtService.sign`, as functions the caller supplies; the JWT claims `{ username, sub }` |
| `Users` | users.dfy | UsersService: the user table, its uniqueness invariant, what `create` and `remove` do, the lookups, and the class `UsersService` that updates the table in place |
| `UsersController` | users_controller.dfy | the user routes: delegation, and the public view without the password |
| `Auth` | auth.dfy | AuthService: `validateUser` and `login` |
| `AuthController` | auth_controller.dfy | `POST /auth/login` |
| `Routes` | routes.dfy | the route table of `@UseGuards` and `@Roles`, and the guards run in order |
| `Movies` | movies.dfy | MoviesService: the catalog keyed by id, what `create`, `update` and `remove` do, the lookups, and the class `MoviesService` |
| `MoviesController` | movies_controller.dfy | the movie routes: guards first, then `+id` and delegation |

## How the model is built

- **Stateful services.** The two services change their tables in place, so each is a class.
  - `Users.UsersService` holds `users: seq<User>` (creation order) and an id counter.
  - `Movies.MoviesService` holds `rows: map<int, Movie>` and `nextId`.
  - Each method's `ensures` ties the returned value and the new fields to a pure function of the old table: `CreateStep`, `UpdateStep` or `RemoveStep`. Most of the lemmas are stated about those functions.
- **Controllers.** Controllers hold no state. They are functions over the table value. Each returns the same table change as the service call it forwards to.
- **Collaborators.** bcrypt and the JWT signer are foreign code. They come in as the arbitrary functions of a `Crypto` value, so every property holds for any choice of them. The one assumption used is that bcrypt accepts a password against a digest of that same password. Only the login-after-registration lemma relies on it, and it states it as a `requires`.
- **Ids.**
  - User ids are described as UUID strings, but the user entity is not part of this model. Here they are naturals from a counter. Only their freshness matters.
  - Movie ids come from a serial column that starts at 1. The column is a Postgres `integer` (src/movies/movie.entity.ts:5, src/app.module.ts:16), so ids run up to 2147483647. A query for an id outside that range fails in the database. The `year` column is an `integer` as well (src/movies/movie.entity.ts:11-12), so an insert or a save of a year outside that range fails too.
  - A movie path id reaches the catalog as `ToNumber(id)`, the value of `+id`.
- **Roles.** The token claims carry no role (src/auth/auth.service.spec.ts:122-125). So the role reaches the route policy as a separate input: the `Caller` is either `Anonymous` or `Bearer(role)`.

Where the tests and the code disagree, the model follows the code:

- `GET /movies/:id` declares `@Roles(Role.Regular, Role.Administrador)` (src/movies/movies.controller.ts:44-45), so an Administrador is admitted. test/movies.e2e-spec.ts:147-166 expects a 403 for an Administrador there.

users.service.ts is not part of this model, so the store's behaviour follows what src/users/users.service.spec.ts and test/users.e2e-spect.ts assert:

- `findByUsername` on an unknown name returns no user rather than raising. This follows the mock at src/auth/auth.service.spec.ts:77, which resolves to `null` for an unknown name. `validateUser` turns that into the Unauthorized error (src/auth/auth.service.spec.ts:76-84).
- The users listing is in creation order, and a delete keeps the other users in their order. This is the order test/users.e2e-spect.ts:106-112 expects. How the store queries the table is not known: its unit test checks only that `find` was called (src/users/users.service.spec.ts:146).

## Model

| member | source | states |
|---|---|---|
| `Decimal.ToNumber` | src/movies/movies.controller.ts:56 | `+id` on a digit string: a single digit is its value, and a leading zero is ignored |
| `Decimal.NatToDecimal` | src/movies/movies.service.ts:22 | the rendering of a number is a non-empty digit string without a leading zero |
| `Decimal.IntToDecimal` | src/movies/movies.service.ts:22 | the rendering starts with `-` exactly for negative numbers, and the digits that follow parse back to the number's magnitude |
| `Decimal.IntToDecimalInjective` | src/movies/movies.service.ts:22 | different integers render differently |
| `Decimal.ToNumberOfDecimal` | src/movies/movies.controller.ts:56 | `+id` applied to the rendering of a number gives that number back |
| `Decimal.DecimalOfToNumber` | src/movies/movies.controller.spec.ts:81-83 | a digit string without leading zeros, such as `'1'`, is the rendering of the number `+id` makes of it |
| `Users.WithoutPassword` | src/users/users.controller.ts:16 | the public view carries the id, username, e-mail and user type of the record; its type has no password field |
| `Users.WithoutPasswordKeepsTheRest` | src/users/users.controller.ts:16 | the public view drops the password and nothing else: the record is recovered from its view and its digest |
| `Users.FindOne` | src/users/users.service.spec.ts:150-179 | returns a stored user with the requested id, or NotFound exactly when no stored user has it |
| `Users.FindByUsername` | src/users/users.service.spec.ts:199-218 | returns a stored user with exactly that username, or none when no stored user has it |
| `Users.FindByUsernameOrEmail` | src/users/users.service.spec.ts:83-88 | the registration query: a stored user sharing the username or the e-mail, or none when no user shares either |
| `Users.Without` | src/users/users.service.spec.ts:182-196 | the rows left by a delete are the stored rows with another id, in their stored order; the row count falls exactly when a row had the id, and nothing changes otherwise |
| `Users.CreateStep` | src/users/users.service.spec.ts:46-125 | Conflict with the fixed message and an unchanged table exactly when a stored user shares the username or e-mail; otherwise one user is appended with a fresh id, the given username, e-mail and user type, and `Hash(password)`; the invariant is kept |
| `Users.RemoveStep` | src/users/users.service.spec.ts:182-196 | succeeds exactly when a user has the id; the table is then the other users in their order, with the id counter unchanged; otherwise NotFound and no change; the invariant is kept |
| `Users.RemovedIdIsNotReissued` | src/users/users.service.spec.ts:182-196 | after a removal, the next registration gets an id other than the removed one |
| `Users.InsertKeepsUnique` | src/users/users.service.spec.ts:100-125 | appending a user whose id, username and e-mail are all new keeps the table free of duplicates |
| `Users.WithoutKeepsUnique` | src/users/users.service.spec.ts:182-196 | deleting rows keeps the table free of duplicates |
| `Users.WithoutRemovesOne` | src/users/users.service.spec.ts:184-188 | with unique ids, deleting an existing id affects exactly one row |
| `Users.LookupsFindTheStoredUser` | src/users/users.service.spec.ts:150-218 | in a table without duplicates, looking up a stored user's id or username returns that user |
| `Users.CreatedUserIsFound` | src/users/users.service.spec.ts:46-98 | after a successful registration, the new user is found by id and by username, and every earlier user is still found |
| `Users.SecondRegistrationConflicts` | test/users.e2e-spect.ts:50-74 | registering again with the same username or the same e-mail is a Conflict that leaves the table unchanged |
| `Users.RemovedUserIsGone` | test/users.e2e-spect.ts:143-158 | after a removal the id is NotFound and every other user is still found |
| `Users.UsersService.constructor` | src/users/users.service.spec.ts:13-40 | the store starts as the empty table, with the id counter at its start |
| `Users.UsersService.Create` | src/users/users.service.spec.ts:46-125 | the in-place registration does exactly what `CreateStep` says: the table grows by the returned user or stays unchanged on Conflict |
| `Users.UsersService.Remove` | src/users/users.service.spec.ts:182-196 | the in-place delete does exactly what `RemoveStep` says, and NotFound comes from a delete that affected no row |
| `UsersController.Create` | src/users/users.controller.ts:23-27 | passes the body's username, password, e-mail and user type; the returned user has the body's fields and a fresh id, and holds no password; the stored one holds `Hash(password)`; Conflict exactly when the username or e-mail is taken |
| `UsersController.FindAll` | src/users/users.controller.ts:29-34 | lists every stored user, in creation order, as its public view |
| `UsersController.FindOne` | src/users/users.controller.ts:36-43 | the public view of the user with that id, or NotFound exactly when none has it |
| `UsersController.Remove` | src/users/users.controller.ts:45-48 | the store's removal with the id unchanged; succeeds exactly when a user has the id |
| `UsersController.CreatedUserIsListed` | test/users.e2e-spect.ts:78-140 | after a registration, the listing is the old listing plus the new user's public view, and looking up its id returns that view |
| `Auth.ValidateUser` | src/auth/auth.service.spec.ts:49-103 | success only for a stored user with exactly that username whose digest bcrypt accepts for the password, returning the record without the password; every failure is `Unauthorized('Credenciales inválidas')`; an unknown username always fails |
| `Auth.Login` | src/auth/auth.service.spec.ts:105-127 | the access token is the signature of the claims `{ username, sub: id }` |
| `Auth.ValidUserIsAccepted` | src/auth/auth.service.spec.ts:50-74 | a stored user with a password bcrypt accepts gets its record back without the password |
| `Auth.FailuresAreIndistinguishable` | src/auth/auth.service.spec.ts:76-102 | a wrong password gives the very same error as an unknown username |
| `Auth.TokenCarriesNoRole` | src/auth/auth.service.spec.ts:122-125 | the signed claims depend only on username and id: two records differing in user type have the same claims signed, so the token carries no role |
| `AuthController.Login` | src/auth/auth.controller.ts:10-15 | validates the body's username and password; a token is issued exactly when validation succeeds, for the user it returned, and the login result is returned unchanged; otherwise Unauthorized with the fixed message |
| `AuthController.LoginAfterRegistration` | test/auth.e2e-spec.ts:22-39 | after registering, logging in with the same password yields the token signed over the new user's username and id; a password bcrypt rejects yields Unauthorized |
| `Routes.Guards` | src/movies/movies.controller.ts:32-109 | exactly the movie routes have guards; the token guard comes first; the role guard is present exactly on the routes with an allow-list |
| `Routes.AllowList` | src/movies/movies.controller.ts:44-109 | every allow-list belongs to a movie route and admits Administrador; Regular is listed only for `GET /movies/:id` |
| `Routes.Check` | src/movies/movies.controller.ts:44 | the token guard admits exactly a caller with a token; the role guard admits exactly a token holder whose role is listed; a rejection is Unauthenticated from the token guard and Forbidden from the role guard |
| `Routes.RunGuards` | src/movies/movies.controller.ts:44 | the guards run in order; the request is admitted exactly when every guard admits it, and a rejection is the verdict of the first guard that rejects, after all the guards before it admitted |
| `Routes.Authorize` | src/movies/movies.controller.ts:32-109 | a request is admitted exactly on a route outside the movies controller, or with a token on `GET /movies`, or with a token whose role is on the route's allow-list; a rejection is Unauthenticated exactly when the caller has no token |
| `Routes.AuthorizeIsTheDeclaredPolicy` | src/movies/movies.controller.ts:32-109 | the guard pipeline equals the declared policy: every movie route needs a token, which is checked first; routes with `@Roles` also need a listed role |
| `Routes.MovieRoutesNeedAToken` | src/movies/movies.controller.ts:32-108 | a caller without a valid token is rejected as unauthenticated on every guarded route |
| `Routes.ListingNeedsOnlyAToken` | src/movies/movies.controller.ts:32-42 | `GET /movies` admits both roles |
| `Routes.BothRolesReadAMovie` | src/movies/movies.controller.ts:44-57 | `GET /movies/:id` admits Regular and Administrador |
| `Routes.WritesAreForAdministrador` | src/movies/movies.controller.ts:59-124 | create, update, delete and sync reject a Regular user as Forbidden and admit an Administrador |
| `Routes.UserRoutesAreOpen` | src/users/users.controller.ts:14-49 | no user route and no login route is guarded, so every caller reaches the handler |
| `Movies.FindAll` | src/movies/movies.service.ts:15-17 | lists exactly the stored movies |
| `Movies.NotFoundMessage` | src/movies/movies.service.ts:22 | the message is `Movie with ID `, the id, then ` not found`, and the digits between parse back to the id |
| `Movies.NotFoundMessageNamesTheId` | src/movies/movies.service.ts:22 | two different ids never have the same message |
| `Movies.Missing` | src/movies/movies.service.ts:19-23 | the error for an id no row has: NotFound with its message exactly when the id fits the `integer` column, and a failed query otherwise |
| `Movies.FindOne` | src/movies/movies.service.ts:19-25 | the movie stored under that id; when there is none, NotFound with `Movie with ID <id> not found` for an id the column can hold, and a failed query for one it cannot |
| `Movies.Patched` | src/movies/movies.service.ts:34-37 | the preloaded row keeps the id, takes every field the patch names, and keeps the others |
| `Movies.CreateStep` | src/movies/movies.service.ts:27-31 | adds one movie with the body's fields under an id no movie has, leaves every other row unchanged, and keeps the invariant; answers a failed query and changes nothing exactly when the id sequence is past the column's largest value or the year does not fit its `integer` column (src/movies/movie.entity.ts:11-12) |
| `Movies.UpdateStep` | src/movies/movies.service.ts:33-42 | the missing-id error and no change for an unknown id; a failed query and no change when the patch sets a year outside the `integer` column; otherwise the patched row replaces the stored one and nothing else changes; the id counter never moves |
| `Movies.RemoveStep` | src/movies/movies.service.ts:44-47 | the lookup's error and no change for an unknown id; otherwise exactly that row goes; the id counter never moves |
| `Movies.RemovedIdIsNotReissued` | src/movies/movie.entity.ts:5 | the serial never hands out a removed id again: the next insert gets another id |
| `Movies.FindAllAgreesWithFindOne` | src/movies/movies.service.ts:15-25 | a movie is listed exactly when looking up its id returns it |
| `Movies.CreatedMovieIsFound` | src/movies/movies.service.spec.ts:102-125 | the created movie is found under its new id, and every other lookup is unchanged; a failed insert changes no lookup |
| `Movies.DuplicateTitlesAreAllowed` | src/movies/movies.service.ts:28 | while the id sequence has room and the year fits its column, creating the same body twice stores two movies with that title under different ids |
| `Movies.UpdatedMovieIsFound` | test/movies.e2e-spec.ts:168-197 | after an update the id holds the patched movie, or the old one when the patched year does not fit, and every other lookup is unchanged; the same patch again changes nothing |
| `Movies.RemovedMovieIsGone` | test/movies.e2e-spec.ts:223-247 | after a removal the id is NotFound and every other lookup is unchanged |
| `Movies.MoviesService.constructor` | src/movies/movies.service.ts:10-13 | the catalog starts empty, with the id sequence at 1 |
| `Movies.MoviesService.Create` | src/movies/movies.service.ts:27-31 | the in-place insert does what `CreateStep` says: one new row under a fresh id, or a failed insert and no change |
| `Movies.MoviesService.Update` | src/movies/movies.service.ts:33-42 | the in-place update does what `UpdateStep` says; nothing is saved for an unknown id or a year that does not fit |
| `Movies.MoviesService.Remove` | src/movies/movies.service.ts:44-47 | the in-place removal looks the id up first and does what `RemoveStep` says |
| `MoviesController.PathId` | src/movies/movies.controller.ts:56 | the number `+id` makes of the path id: an id without leading zeros is that number's rendering, and leading zeros are ignored |
| `MoviesController.Serve` | src/movies/movies.controller.ts:39-106 | each handler converts the path id with `+id`, calls the service once, and returns its result and table change unchanged |
| `MoviesController.Handle` | src/movies/movies.controller.ts:32-106 | a request the guards reject gets the guard's error and never reaches the catalog; an admitted one gets exactly the handler's answer |
| `MoviesController.AnonymousChangesNothing` | src/movies/movies.controller.ts:32-106 | without a valid token every movie request is rejected and the catalog is unchanged |
| `MoviesController.RegularCannotWrite` | test/movies.e2e-spec.ts:89-101 | a Regular user's create, update or delete is Forbidden and changes nothing |
| `MoviesController.CreatedMovieCanBeRead` | test/movies.e2e-spec.ts:123-145 | while the id sequence has room and the year fits its column, an Administrador's create returns the movie under a new id, and it can then be read at the path written from that id by either role |
| `MoviesController.AdministradorUpdates` | test/movies.e2e-spec.ts:183-196 | for a patch whose year, if any, fits its column, an Administrador's patch returns the movie with the same id and the patched fields, and stores it |
| `MoviesController.DeletedMovieIsNotFound` | test/movies.e2e-spec.ts:238-246 | after an Administrador deletes a movie, exactly that row is gone and reading its id answers NotFound |
| `MoviesController.UnknownIdIsNotFound` | src/movies/movies.service.ts:19-42 | an admitted lookup, update or delete of an unknown id changes nothing; it answers NotFound when the id fits the `integer` column and a failed query when it is larger |

## Left out

- bcrypt and JWT internals: salts, cost, signature algorithm, expiry, and the issued-at (`iat`) timestamp `JwtService.sign` adds. Because of `iat`, two logins at different seconds get different tokens over the same claims; `Auth.TokenCarriesNoRole` is about the claims, not the token bytes. Hashing, comparison and signing are arbitrary functions. Token verification belongs to the JWT guard, which is not part of this model. A caller is either without a valid token or authenticated with a role.
- The guards' own code is not part of this model: jwt-auth.guard.ts, roles.guard.ts and role.enum.ts. Role enforcement is the allow-list membership the controller declares. Whether the role guard re-reads the role from storage cannot be seen, so the role is a separate input. Also not modelled: the numeric values of the roles, and how `userTypeId` maps to a role.
- `syncMoviesFromStarWarsAPI`: only its route policy is modelled. The service method is not in the catalog's source file, and it is an HTTP fetch.
- `MoviesController.WellFormed`: path ids are restricted to strings of decimal digits. Many other strings also reach the catalog as integers: `+'0x1'` is 1, `+'1e2'` is 100, `+' 1'` is 1, `+'1.0'` is 1 and `+'-1'` is -1, so `DELETE /movies/0x1` deletes movie 1 and `GET /movies/-1` answers NotFound for -1. These paths are outside the model. Only the remaining strings give NaN or a non-integer, and where that leads is database behaviour. A digit id above 2147483647 is modelled as the failed query Postgres raises for a value outside its `integer` type, answered as a server error. Below that the conversion is exact; beyond 2^53 JavaScript numbers lose precision, but every such id already fails the query, so the lost digits do not change the answer.
- The movie ids come from a serial sequence. An insert once the sequence has handed out 2147483647 is modelled as a failed query. The exact message Postgres gives is not modelled.
- The request bodies are typed records without an `id` field. That leaves out two effects of a body that carries `id`. In `update`, `preload({ id, ...dto })` (src/movies/movies.service.ts:34-37) lets the body's `id` replace the path id. In `create`, `create` followed by `save` (src/movies/movies.service.ts:29-30) updates the row with that id instead of inserting a new one.
- `genres` is a `simple-array` column (src/movies/movie.entity.ts:17-18), stored as one comma-joined string. A genre containing a comma reads back as several genres. An empty string as the only genre is stored as an empty string and reads back as no genres. The model stores the list as given, so `Movies.CreatedMovieIsFound` holds only for genres without commas and other than `[""]`.
- `Routes.Caller`: a role is Regular or Administrador. A user whose `userTypeId` names neither role is not modelled. `CreateUserDto` demands only an integer (src/users/dto/create-user.dto.ts:23-25). Such a user holds a valid token, so the source would admit them to `GET /movies`. The role guard is expected to reject them on every route with `@Roles`, but roles.guard.ts is not part of this model.
- The NotFound message of the user store: users.service.ts is not part of this model, so `UserNotFound` carries no message.
- The framework's default messages for the guards' 401 and 403 are not modelled.
- `Users.CreateStep`, `Auth.ValidateUser`, `Movies.CreateStep`, `Movies.UpdateStep`: a Postgres text parameter cannot hold the character U+0000. A username, e-mail, title, director or genre containing it makes the query fail, and the client sees a server error. The model accepts every string, so for such input it answers as if the query had run: registration stores the user, login answers Unauthorized, and the movie is stored. Strings containing U+0000 are not modelled.
- `Common.UserId`: user ids are naturals, so a malformed user id cannot be expressed. If the id column is `uuid`, then `GET /users/1` or `DELETE /users/abc` fails the query with a server error rather than answering NotFound. The user entity is not part of this model, so this is not modelled.
- `Movies.FindAll`: the listing is a set. Without an ORDER BY the database's row order is unspecified. The users listing is a sequence in creation order only because test/users.e2e-spect.ts:106-112 expects that order.
- `score` is a float column. It is carried as an opaque number and never computed with.
- Not modelled:
  - HTTP status codes;
  - serialisation beyond dropping the password;
  - Swagger metadata;
  - `ValidationPipe` and the class-validator rules of the DTOs (their field lists are the request datatypes);
  - the `created_at` and `updated_at` timestamps.
- Concurrency: the model is sequential, so two registrations racing past the uniqueness query are not modelled.
- src/users/users.controller.spec.ts:118-124 makes `findOne` return undefined. That is mock behaviour and does not match the store's NotFound, so it is not modelled.
