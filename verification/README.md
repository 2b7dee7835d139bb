# Library REST API — a Dafny model

This project models the core of a small library management REST API built on
Express and Sequelize. The API manages books (`libros`), users (`usuarios`)
and reservations (`reservas`). Its core is:

- the book lifecycle: create, look up, list with filters and pagination,
  update, soft-disable and reserve;
- the user lifecycle: register, log in, look up, update and soft-disable;
- the reservation history of a book or of a user, newest first;
- the `authenticate` and `hasPermission` middleware, together with the
  validation chains and middleware order that each route declares.

Every handler is a pure function. It takes the database (a `Store` of three
tables plus the two auto-increment counters) and the request's parts. It
returns a `Step`: the answer, as an HTTP status with a payload or an error
body, and the database after the call. The primitives the code calls but does
not define are fields of an `Env` value and are left uninterpreted:

- bcrypt hashing and comparison;
- JWT signing and verification;
- validator.js `isEmail` and `isISO8601`;
- the "same calendar day" date filter.

Modules follow the program's structure:

- `Base`: option, result and error shapes, status codes, JavaScript truthiness.
- `Text`: `split(' ')`, substring and name order.
- `Sorting`: `ORDER BY` as a functional insertion sort.
- `Model`: the three tables and the database invariant `Valid`.
- `Auth`: `middleware/auth.js`.
- `Paging`: the listing's page arithmetic.
- `BookController`, `UserController`, `ReservationController`: the three
  controllers.
- `Validation`: the express-validator rules.
- `BookRoutes`, `UserRoutes`, `ReservationRoutes`: the three route files.

The invariant `Valid` has three parts:

- every stored id was handed out by its counter;
- emails are unique;
- every reservation points at an existing user and book.

Every route that writes keeps `Valid`. Among the handlers, `ReserveBook`
keeps it only when the acting user is stored, which the authentication
middleware guarantees; every other handler that writes keeps it
unconditionally.

## Model

| member | source | states |
|---|---|---|
| Model.NewBook | src/models/Libro.js:30-39 | a new book is available and active and holds the supplied fields |
| Model.NewUser | src/models/Usuario.js:27-36 | a new account is active and holds the supplied name, email, stored password and permissions |
| Model.EmptyStoreValid | src/models/index.js:6-9 | the empty database meets the invariant: id counters, unique emails, reservation foreign keys |
| Model.FindUserByEmail | src/controllers/usuarioController.js:23 | a hit is an account with that email; with in-range ids, a miss means no account has it |
| Text.Split | src/middleware/auth.js:6 | `split(' ')` yields at least one piece and no piece contains the separator |
| Text.JoinSplit | src/middleware/auth.js:6 | joining the pieces of a split with the separator rebuilds the header |
| Text.SplitJoin | src/middleware/auth.js:6 | splitting a join of separator-free pieces gives back exactly those pieces |
| Text.StrLeTotal | src/controllers/libroController.js:99 | any two book names are ordered one way or the other |
| Text.StrLeTrans | src/controllers/libroController.js:99 | the name order is transitive |
| Sorting.Sort | src/controllers/libroController.js:99 | the result is a permutation of the input, sorted under any total order |
| Sorting.SortedPairwise | src/controllers/libroController.js:99 | in a sorted list under a transitive order, every earlier element precedes every later one |
| Auth.BearerToken | src/middleware/auth.js:6-10 | a token is found only in a present header, and it is the non-empty, space-free second word after the first space; whenever the second piece of `split(' ')` exists and is non-empty, that piece is the token, however many words follow |
| Auth.BearerTokenOfHeader | src/middleware/auth.js:6 | for a space-free scheme and a non-empty space-free token, `<scheme> <token>` yields exactly that token |
| Auth.NoSpaceNoToken | src/middleware/auth.js:6-10 | a header without a space carries no token and is refused as missing |
| Auth.Authenticate | src/middleware/auth.js:4-24 | every refusal is a 401; no token gives the "token required" error; success means the verifier's id names a stored active user, and that user is the actor; a verified id of an active user is always admitted |
| Auth.SomeIncluded | src/middleware/auth.js:33 | true exactly when some required permission is among the user's |
| Auth.HasPermission | src/middleware/auth.js:26-41 | 401 without an actor; otherwise admitted exactly when the actor holds one of the listed permissions, else 403 |
| Auth.EmptyRequirementDenies | src/middleware/auth.js:33-37 | an empty permission list admits nobody |
| Auth.OneOfSuffices | src/middleware/auth.js:33 | holding any one listed permission is enough |
| Auth.PermissionMonotone | src/middleware/auth.js:32-37 | granting extra permissions never turns an admission into a denial |
| Paging.PageNumber | src/controllers/libroController.js:90 | the page is at least 1; a parsed page of 1 or more is kept; absent, unparsable, zero or negative gives 1 |
| Paging.PageSize | src/controllers/libroController.js:91 | the size lies in [1, 100]; in-range values are kept, larger ones become 100, negative ones 1, zero or unparsable 10 |
| Paging.Offset | src/controllers/libroController.js:92 | the offset is non-negative and the page ends at row `page * limit` |
| Paging.CeilDiv | src/controllers/libroController.js:102 | ceiling division: zero for zero, otherwise the least q with n <= q*d |
| Paging.TotalPages | src/controllers/libroController.js:102 | at least one page; one page for no rows; otherwise the fewest pages of `limit` rows holding every row |
| Paging.TotalPagesLeast | src/controllers/libroController.js:102 | any page count t >= 1 that holds every row is at least the reported count |
| Paging.Window | src/controllers/libroController.js:94-100 | a page holds at most `limit` rows: the rows from the offset on, in order, as many as remain, and none past the end |
| Paging.OffsetsOrdered | src/controllers/libroController.js:92 | pages do not overlap: a later page starts at or after the row where an earlier page ends |
| Paging.PastLastPageEmpty | src/controllers/libroController.js:90-102 | a page number past the last page returns no rows |
| Paging.RowOnOnePage | src/controllers/libroController.js:90-102 | every row lies on exactly one page, and that page is within the page count |
| BookController.CreateBook | src/controllers/libroController.js:6-31 | 400 with the validation errors; otherwise created exactly when every field is present: the book counter's next id (the counter advances by one), the supplied fields, available and active, no other table or counter changed; a missing field is a 500 and changes nothing |
| BookController.GetBook | src/controllers/libroController.js:34-54 | found exactly when the book exists and is active or `includeDisabled` is exactly "true"; otherwise 404 |
| BookController.ListBooks | src/controllers/libroController.js:57-116 | the count is the number of matching books; page and size are the clamped query values and the page count is the ceiling of count over size; the rows are exactly the requested page (offset `(page-1)*size`, at most `size` rows) of all matching books put in name order; so each row is a matching book with its name, rows are name-sorted, a page past the last is empty and a first page that can hold every match lists every match |
| BookController.MatchingIds | src/controllers/libroController.js:71-88 | the scan returns, in increasing order, exactly the ids in range whose book passes the filters |
| BookController.SameFilterSameIds | src/controllers/libroController.js:71-88 | two queries whose filters agree on every book scan the same ids, whatever their page numbers |
| BookController.EarlierPagesFirst | src/controllers/libroController.js:90-100 | the name order runs across pages: each row of an earlier page sorts no later than each row of a later page of the same listing |
| BookController.WindowsInOrder | src/controllers/libroController.js:92-99 | in an ordered list, every element of an earlier page comes no later than every element of a later page |
| BookController.IncludeDisabledReadDifferently | src/controllers/libroController.js:37-42 | a value such as "yes" lists inactive books, but the lookup by id still hides them |
| BookController.UpdateBook | src/controllers/libroController.js:119-159 | 400 on validation errors; 404 for an absent book; 403 when a descriptive field is sent without `modificar_libros`; otherwise exactly the sent fields are overwritten and no other row changes |
| BookController.AvailabilityOnlyUpdateUngated | src/controllers/libroController.js:134-148 | an update of `disponible` alone succeeds for any actor on any existing book |
| BookController.DisableBook | src/controllers/libroController.js:162-177 | 404 for an absent book; otherwise that book becomes inactive and unavailable and nothing else changes |
| BookController.DisableIdempotent | src/controllers/libroController.js:171 | disabling twice gives the same answer and database as disabling once |
| BookController.DisabledBookHidden | src/controllers/libroController.js:40-42 | a disabled book is not found by default, not listed by default and cannot be reserved |
| BookController.ReserveBook | src/controllers/libroController.js:180-209 | 404 unless the book exists and is active; 400 when unavailable; otherwise one reservation by the actor, dated now with no return date, is appended and the book becomes unavailable |
| BookController.SecondReserveRejected | src/controllers/libroController.js:190-200 | after a successful reservation, any second reservation of that book gets 400 |
| UserController.Register | src/controllers/usuarioController.js:14-50 | 400 on validation errors or a taken email; with in-range ids, it succeeds exactly when validation passed, name, email and password are present, the email is an address and no account has it; on success a new active account under the account counter's next id (the counter advances by one, the book counter is unchanged), password stored through the create hook, permissions defaulting to none, a response without the password and a token signed for the account |
| UserController.RegisterHidesPassword | src/controllers/usuarioController.js:37-46 | the registration answer is the same whatever password is sent, empty or not |
| UserController.Login | src/controllers/usuarioController.js:53-91 | unknown email: 401 "invalid credentials"; inactive account: 401 "disabled", before the password is checked; wrong password: 401 "invalid credentials"; right password: 200 with the account and a token |
| UserController.RegisterThenLogin | src/models/Usuario.js:41-56 | logging in with the email and password just registered returns the registered account and token |
| UserController.GetUser | src/controllers/usuarioController.js:94-117 | found exactly when the account exists and is active or `includeDisabled` is exactly "true"; the answer carries no password |
| UserController.GetUserHidesPassword | src/controllers/usuarioController.js:104-107 | changing a stored password never changes a lookup answer |
| UserController.UpdateUser | src/controllers/usuarioController.js:120-163 | 400 on validation errors; 403 for someone else's account without `modificar_usuarios`, before the lookup; then 404; it succeeds exactly when validation passed, the target is the actor or the actor holds `modificar_usuarios`, the account exists, and a non-empty new email is an address no other account uses; on success only non-empty name, email and password (hashed) are merged, permissions only for a holder of `modificar_usuarios`, and no other row changes |
| UserController.NoSelfGrant | src/controllers/usuarioController.js:146-148 | a user without `modificar_usuarios` cannot change their own permissions |
| UserController.DisableUser | src/controllers/usuarioController.js:166-188 | allowed on oneself or with `deshabilitar_usuarios`, else 403 before the lookup; 404 for an absent account; otherwise only `activo` becomes false |
| UserController.DisabledCannotLogin | src/controllers/usuarioController.js:67-69 | a disabled account is refused at login even with the right password |
| UserController.DisabledCannotAuthenticate | src/middleware/auth.js:15-17 | a disabled account is refused by the middleware whatever token it presents |
| ReservationController.Project | src/controllers/reservaController.js:25-29 | one entry per selected reservation: each entry occurs exactly as many times as selected reservations project to it |
| ReservationController.History | src/controllers/reservaController.js:11-29 | the entries are newest first, and each occurs exactly as many times as selected reservations project to it |
| ReservationController.HistoryForBook | src/controllers/reservaController.js:4-38 | always 200 with the requested id; entries are newest first; each entry occurs exactly as many times as reservations of the book carry its user's name (or "Usuario eliminado" when the join finds no visible user) and its dates |
| ReservationController.HistoryForUser | src/controllers/reservaController.js:41-75 | always 200 with the requested id; entries are newest first; each entry occurs exactly as many times as reservations by the user carry its book's name (or "Libro eliminado" when the join finds no visible book) and its dates |
| ReservationController.UnknownBookEmptyHistory | src/controllers/reservaController.js:9-34 | in a consistent database, a book id that does not exist gets an empty history, not a 404 |
| ReservationController.UnknownUserEmptyHistory | src/controllers/reservaController.js:46-71 | in a consistent database, a user id that does not exist gets an empty history, not a 404 |
| ReservationController.HiddenUserShownAsRemoved | src/controllers/reservaController.js:18-26 | a disabled user's reservation stays in the book history under "Usuario eliminado" by default |
| ReservationController.ReservationInHistory | src/controllers/libroController.js:194-198 | a successful reservation appears in the book's history under the reserving user's name, with its date and no return date |
| Validation.Failures | src/controllers/libroController.js:8-11 | no errors exactly when every rule passes; a field is reported exactly when its rule fails |
| BookRoutes.ValidateCreate | src/routes/libroRoutes.js:8-14 | passes exactly when name, author, genre and publisher are non-empty and the date is ISO 8601; only those fields are reported |
| BookRoutes.ValidateUpdate | src/routes/libroRoutes.js:16-23 | passes exactly when every field that is present satisfies its rule; `disponible` is reported exactly when it is not a boolean |
| BookRoutes.PostBook | src/routes/libroRoutes.js:67 | authentication is checked first (401, nothing changes), then `crear_libros` (403), then validation (400); a validated body never reaches the 500 path; 201 exactly when the session is valid, the actor holds `crear_libros` and the body passes validation |
| BookRoutes.PutBook | src/routes/libroRoutes.js:187 | 401 first; with a valid session the answer is exactly the update handler's on the validated patch, with no permission gate in front; after validation a non-boolean `disponible` cannot reach the column, so there is no 500; success implies a patch applied as sent, and `modificar_libros` whenever a descriptive field was sent |
| BookRoutes.DeleteBook | src/routes/libroRoutes.js:211 | 401 first, then 403 without `deshabilitar_libros`; 200 exactly when the session is valid, the actor holds `deshabilitar_libros` and the book exists; success leaves the book inactive |
| BookRoutes.PostReservation | src/routes/libroRoutes.js:240 | 401 first; with a valid session the answer is exactly the reservation handler's for the session's user, with no permission required; a reservation is always in the name of the authenticated, active user, so the foreign keys keep holding |
| BookRoutes.ValidBodyIsCreated | src/routes/libroRoutes.js:8-14 | every body that passes the create rules is stored |
| BookRoutes.AuthenticationFirst | src/routes/libroRoutes.js:67-187 | without a valid session the answer does not depend on the body |
| UserRoutes.ValidateRegistration | src/routes/usuarioRoutes.js:8-12 | passes exactly when the name is non-empty, the email is an address and the password has at least 6 characters |
| UserRoutes.ValidateLogin | src/routes/usuarioRoutes.js:14-17 | passes exactly when the email is an address and the password is non-empty |
| UserRoutes.ValidatePatch | src/routes/usuarioRoutes.js:19-23 | passes exactly when every present field satisfies its registration rule |
| UserRoutes.PostRegister | src/routes/usuarioRoutes.js:60 | never a 500; with in-range ids, 201 exactly when the body passes validation and no account has the email; the password is always stored as the hash of the password sent |
| UserRoutes.PostLogin | src/routes/usuarioRoutes.js:89 | never a 500; a bad email is a 400; a login that passes validation gets exactly the login handler's answer; success means an active account with that email whose stored hash matches the password |
| UserRoutes.PutUser | src/routes/usuarioRoutes.js:155 | 401 first; the only 500 left after validation is a non-empty email another account already uses; 200 exactly when the session is valid, the patch passes validation, the target is the actor or the actor holds `modificar_usuarios`, the account exists and no other account has a non-empty new email |
| UserRoutes.DeleteUser | src/routes/usuarioRoutes.js:179 | 401 first; 200 exactly when the session is valid, the target is the actor or the actor holds `deshabilitar_usuarios`, and the account exists; the target is then inactive |
| UserRoutes.RegisteredTokenAuthenticates | src/controllers/usuarioController.js:5-11 | the token issued at registration, sent as `Bearer <token>`, authenticates exactly the new account |
| UserRoutes.SelfDisableLocksOut | src/routes/usuarioRoutes.js:179 | any signed-in user may disable their own account, and the same header is refused afterwards |
| ReservationRoutes.GetBookHistory | src/routes/reservaRoutes.js:28 | 401 without a valid session; otherwise exactly the controller's answer for the book: its full history |
| ReservationRoutes.GetUserHistory | src/routes/reservaRoutes.js:52 | 401 without a valid session; otherwise exactly the controller's answer for the user, whoever asks |
| ReservationRoutes.HistoryIgnoresCaller | src/routes/reservaRoutes.js:52 | two signed-in callers get the same user history |

## Left out

- HTTP, Express routing, CORS, JSON parsing, Swagger and the health check are not modelled. A route is a function of the request parts it reads.
- Sequelize and the database engine are replaced by an in-memory store. Transactions, `timestamps`, `sync` and the seeder are not modelled.
- bcrypt, JWT and validator.js's `isEmail` and `isISO8601` are uninterpreted oracles. Token expiry and the secret are part of the `verify` oracle.
- The publication-date filter turns into a "same local calendar day" oracle. `Date` parsing and time zones are not modelled.
- `LIKE` is read as a plain substring test. Its `%` and `_` wildcards inside the user's text, and the database's case and collation rules, are not modelled.
- Email matching (the registration and login lookups and the unique column) and the exact `genero` and `editorial` filters compare strings character for character. The database's case and collation rules for these equalities are not modelled: under a case-insensitive collation "A@x.com" would count as taken when "a@x.com" is stored, where the model accepts it.
- Names are ordered by character code, not by the database collation. Rows with equal names or dates come in unspecified order, as in SQL.
- Each request runs alone. Two concurrent reservations of the same book, which the code does not guard against, are not modelled.
- The model covers only these 500s:
  - creating a book with a field missing, which a NOT NULL column refuses;
  - updating a book with a non-boolean `disponible`, which the BOOLEAN column refuses;
  - registering without an email, which fails in the `findOne` lookup with an undefined `where` value;
  - registering without a name or password, which a NOT NULL column refuses;
  - registering an email that the model's `isEmail` rule rejects;
  - updating an account to a non-empty email that another account uses (unique column) or that the `isEmail` rule rejects;
  - logging in without an email (the `findOne` lookup) or, for an active account, without a password (`bcrypt.compare`).
  Other database failures and thrown exceptions are left out.
- `permisos` is a NOT NULL column, so the `|| []` fallback in `hasPermission` is never taken. It is left out.
- `permisos` is a JSON column that no validation rule checks, so a client may register (or a holder of `modificar_usuarios` may set) a string instead of a list. Every `includes` on it would then be a substring test. The model types permissions as a list of strings and leaves that case out.
- The reservation's `libroId` comes from the request body without `parseInt`. The model takes it as an integer; strings, numeric strings and other JSON values are left out.
- Path and query ids are the integers `parseInt` produced. Non-numeric ids, and `parseInt` prefixes and radix details, are left out. Page and limit arrive as already-parsed optional integers.
- Numbers are unbounded integers. JavaScript's float precision in the page arithmetic is not modelled.
- Body fields are strings or absent. JSON numbers, nulls and arrays in string fields are left out. The values `isBoolean` accepts are collapsed into `Bool`; any other value is `NonBoolean`.
- `isLength` counts characters of the Dafny string. Its special treatment of some Unicode sequences is left out.
- The `beforeUpdate` hook hashes the password whenever it changes. The model hashes every non-empty password sent on update, which is the same thing unless the new text equals the stored hash.
- The `fechaEntrega` return date is never written by any operation, so no return flow is modelled.
- The error body of a validation failure keeps only the failing field names. The messages and the express-validator error objects are left out.
- The test suite and `jest.config.js` are not part of this model.
