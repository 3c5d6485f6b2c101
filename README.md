# KickRateServer handlers, modelled in Dafny

KickRateServer is the backend of a small sports-team organiser. Its logic is the set of
HTTP handlers in `Program.cs`, each a short query or insert over the `Users` and `Games`
tables. This project models those handlers over an in-memory store and proves what each one
promises.

The handlers modelled:

- `POST /auth/register`: refuses a name already taken; otherwise stores one user with the
  hashed password and the admin flag.
- `POST /auth/login`: looks the user up by exact name and verifies the password.
- `GET /users`: lists users without their password hashes.
- `GET /games`, `GET /games/next`, `GET /games/past`: list, pick and filter games by date
  relative to the current time.
- `POST /games`: stores one game, or answers Bad Request with nothing written.

Files:

- `Models.dfy` (module `Models`): the table rows `User` and `Game`, the request bodies, the
  response shapes and the error answers.
- `Casing.dfy` (module `Casing`): ASCII lower-casing and the admin-name rule.
- `Ordering.dfy` (module `Ordering`): `OrderBy` / `OrderByDescending` on the game date, as a
  stable insertion sort, and `Where`.
- `Handlers.dfy` (module `Handlers`): the read-only handlers as functions of the rows and of
  `now`. The class `Store` holds the two tables. Its methods `Register` and `CreateGame`
  append a row (`modifies this`). Its invariant `Valid()` has four parts: names are unique,
  every user's admin flag follows the admin-name rule, keys are fresh and increasing, and
  every game's creator exists.

Abstractions:

- BCrypt's `HashPassword` and `Verify` are function parameters `hash` and `verify`.
  Salting is folded into `hash`.
- `DateTime.Parse` is a parameter `parse: string -> Option<Timestamp>`, applied to the text
  `"<date> <time>"`.
- `DateTime.Now` is a parameter `now`.
- Identity keys are handed out by two counters in `Store`. A new key is larger than every key
  in use, so it is fresh.

Where the sources disagree:

- `Program.cs` treats a game's date as one `DateTime` (lines 105, 118, 171, 175).
  `Models/Game.cs:11-14` and `DT0s/CreateGameDto.cs:8-11` split it into a date and a time.
  The model follows `Program.cs` and keeps one integer timestamp, `Game.gameDate`.
- `POST /games` also fails when `createdByUserId` names no user. The foreign key
  (`Data/AppDbContext.cs:22-26`) is enforced by the SQLite provider, so the save throws and
  the catch block answers Bad Request. The model has this as `GameNotCreated(UnknownCreator)`,
  next to `GameNotCreated(UnparsableDateTime)`.

## Model

| member | source | states |
|---|---|---|
| Casing.ToLower | Program.cs:50 | lower-casing keeps the length and maps each ASCII capital to its small letter, leaving every other character alone |
| Models.ReplyOf | Program.cs:63-69 | the register and login answer is the stored row's id, name and admin flag (also Program.cs:83-89) |
| Models.UserViewOf | Program.cs:96 | a user listing entry is the row's id, name, admin flag and creation time, without the hash |
| Models.GameViewOf | Program.cs:114-122 | a game answer is the row's id, date, location, opponent and creator id, without the creation time or the owning user (also Program.cs:151-159 and 185-193) |
| Casing.IsAdminName | Program.cs:50 | a name is an admin name iff its lower-cased form equals "roie" |
| Casing.AdminNameExactly | Program.cs:50 | a name gets the admin flag iff it has four characters, each the matching letter of "roie" in either case |
| Casing.AdminNameExamples | Program.cs:50 | "roie", "Roie" and "ROIE" are admin names; "roie2", "rose" and "" are not |
| Ordering.Insert | Program.cs:129 | inserting a game into a date-ordered sequence gives a date-ordered sequence with that game added and nothing else changed |
| Ordering.SortBy | Program.cs:129 | ordering by game date (ascending or descending) returns the same games, each as often, in date order |
| Ordering.Where | Program.cs:105 | filtering keeps each game that passes the test exactly as often as it is stored and drops every other |
| Handlers.HasUsername | Program.cs:42 | some stored user has exactly this name (case-sensitive) |
| Handlers.AdminFlagsFollowRule | Program.cs:50-56 | every stored user's admin flag equals the admin-name rule applied to its name |
| Handlers.LoginAdminFlagIsRule | Program.cs:83-89 | on a store whose admin flags follow the rule, a successful login reports the admin flag that the rule gives for the name logged in with |
| Handlers.FindByUsername | Program.cs:75 | the lookup finds the first user with exactly that name, and finds nothing iff no user has it |
| Handlers.Login | Program.cs:73-90 | login succeeds iff the user found by name exists and the password verifies against that user's stored hash; it then echoes that user's id, name and admin flag; every failure is the one InvalidCredentials answer |
| Handlers.UniqueNamedIsFirst | Data/AppDbContext.cs:18-20 | under the unique index, any user with a given name is the one the lookup finds |
| Handlers.LoginSucceedsIff | Program.cs:75-89 | with unique names, login succeeds iff some stored user has the name and a hash the password verifies against, and answers with that user's stored fields |
| Handlers.LoginFailuresIdentical | Program.cs:77-79 | on any store, a missing user and a password that fails against the row the lookup finds produce the same answer |
| Handlers.LoginAfterRegister | Program.cs:47-77 | a user appended under a fresh name can log in with a password that verifies against the stored hash, and login echoes the stored row |
| Handlers.ListUsers | Program.cs:93-99 | one entry per stored user, in store order, with that user's id, name, admin flag and creation time |
| Handlers.ListUsersIgnoresHashes | Program.cs:95-97 | two stores that differ only in password hashes give the same user listing, so no hash reaches the answer |
| Handlers.Views | Program.cs:151-159 | the game projection keeps one view per row, in order |
| Handlers.AllGames | Program.cs:126-143 | every stored game is listed, each as often as stored, none filtered, in non-decreasing date order |
| Handlers.Upcoming | Program.cs:104-105 | the next-game filter keeps exactly the games dated at or after now |
| Handlers.NextGame | Program.cs:102-123 | NotFound iff no game is dated at or after now; otherwise the answer is the view of a stored game at or after now that no game at or after now precedes |
| Handlers.PastGames | Program.cs:148-150 | exactly the stored games dated before now, each as often as stored, in non-increasing date order |
| Handlers.ViewsDescending | Program.cs:150-159 | projecting rows ordered latest first keeps them latest first |
| Handlers.PastViewsSound | Program.cs:148-159 | every entry of the past listing is the view of a stored game dated before now |
| Handlers.PastViewsComplete | Program.cs:148-159 | every stored game dated before now appears in the past listing |
| Handlers.PastListingFacts | Program.cs:148-159 | the projected past rows are ordered latest first, each is the view of a stored game dated before now, and every such game is listed |
| Handlers.PastGamesResponse | Program.cs:146-163 | the past listing is ordered latest first, shows a game iff it is stored and dated before now, and has one entry per past row, i.e. each past game as often as it is stored |
| Handlers.PartitionByNow | Program.cs:105-149 | at a fixed now, the next filter and the past filter together hold every stored game exactly as often as the store, and no game is in both |
| Handlers.DateTimeText | Program.cs:171 | the text handed to the parser is the date, one space, then the time |
| Handlers.Store.Valid | Data/AppDbContext.cs:18-26 | the store invariant: unique names (the unique index), admin flags by the rule, fresh increasing keys, and every game's creator a stored user (the foreign key) |
| Handlers.Store.constructor | Data/AppDbContext.cs:10-11 | an empty database satisfies the store invariant |
| Handlers.Store.Register | Program.cs:40-70 | a taken name gives UsernameTaken with nothing changed; otherwise exactly one user is appended with a fresh id, the name, hash(password), the admin flag and now; the answer echoes the stored row; the invariant, unique names included, is kept |
| Handlers.Store.CreateGame | Program.cs:166-199 | an unparsable date and time, or an unknown creator, gives Bad Request with nothing changed; otherwise exactly one game is appended with a fresh id, the parsed timestamp, the body's location, opponent and creator, and now as creation time; the answer echoes it |
| Handlers.RegisterTwice | Program.cs:42-61 | registering one name twice on an empty store: the first call succeeds, the second is refused, and the single stored user is the first one |

## Left out

- Framework wiring is not modelled: CORS, Swagger, schema creation at startup, dependency injection, `app.Run` and the async save plumbing (`Program.cs:6-37`, `Program.cs:201`).
- BCrypt is not modelled. `hash` and `verify` are parameters, and no cryptographic property is assumed. `LoginAfterRegister` takes the fact that `verify` accepts the stored hash as a hypothesis.
- `DateTime.Parse`, `DateTime.Now` and the `"yyyy-MM-dd"` / `"HH:mm"` formatting are library code. Parsing and the clock are parameters. A response's formatted date and time are represented by the one `gameDate` timestamp they are formatted from. That formatting drops seconds and anything finer, so two games a few seconds apart show the same date and time in the source's answer while the model's views carry different `gameDate` values. The order properties still hold of the answers, because the formatting keeps non-strict order.
- The fixed Hebrew message text of each answer is not modelled. Each answer is an error constructor or a success value.
- The text of the caught exception in `POST /games` is not modelled. Its cause is recorded as `UnparsableDateTime` or `UnknownCreator`. Other failures of the save (disk, locking) are I/O.
- Casing.ToLower: lower-cases ASCII letters only. .NET's culture-sensitive `ToLower` also maps non-ASCII capitals, and under a Turkish culture it maps `I` differently. So `IsAdminName` and `Casing.AdminNameExactly` describe the ASCII rule, not the full .NET one. For example, "Roİe" (with U+0130) lower-cases to "roie" in .NET, so the source makes that user an admin; the model does not.
- Null request fields are not modelled. Every string field of `Credentials` and `CreateGameDto` is a Dafny string, but the source accepts an explicit JSON `null` in them, since no DataAnnotations validation runs. A null username passes the check at `Program.cs:42`, then `ToLower` at `Program.cs:50` throws, which is an unhandled 500 with nothing written. A null location or opponent makes the save at `Program.cs:183` fail on the NOT NULL columns (`Models/Game.cs:16-22`), which the catch at `Program.cs:195-197` answers with Bad Request and nothing written. The date and time of the create-game body are `DateOnly` and `TimeOnly` values (`DT0s/CreateGameDto.cs:8-11`): a null or malformed date or time is refused with 400 by the JSON binding before the handler runs, so it never reaches `DateTime.Parse` at `Program.cs:171`. The model's `UnparsableDateTime` stands only for text that `DateTime.Parse` itself refuses.
- Handlers.Store.Register: identity keys come from a counter. The model does not reproduce SQLite's own rowid choice, only that a new key is fresh.
- The check-then-insert race in register is not modelled. The unique index (`Data/AppDbContext.cs:18-20`) guards that case, and it needs concurrent requests.
- Handlers.ListUsers: the query at `Program.cs:95-97` has no `ORDER BY`, so SQL promises no order. The model lists users in store order, which is what SQLite's rowid scan gives; under the store invariant's increasing ids that is also id order.
- Ordering.SortBy: for games with equal dates the model keeps store order (a stable sort). The SQL `ORDER BY` behind the query leaves that order unspecified, so only date order and membership are promised.
- Integer widths are not modelled. Keys and timestamps are unbounded integers, with no 32-bit key overflow.
- Cascade delete (`Data/AppDbContext.cs:22-26`) is not modelled, because no handler deletes anything.
- Ratings (`Models/Rating.cs`) and attendance (`Models/Attendance.cs`) are not modelled. No handler reads or writes them.
- The length limits in `DT0s/RegisterDto.cs:8-13`, `DT0s/CreateGameDto.cs:14-19` and `Models/Game.cs:17-22` are not modelled. No handler checks them.
