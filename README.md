# User repository of hoctap-api, modelled in Dafny

The service keeps one table, `users`, and reaches it only through
`UserRepository` (`database/user.go`). The repository lists, reads, creates,
updates and deletes users. It also counts them and seeds three sample users
into an empty table. Email addresses are unique: the repository probes for the
email before every create and update and reports a named conflict, and the
table's own UNIQUE constraint backs this up. Updates and deletes first check
that the id exists. Creates and updates finish by reading the written row back.

The model has three modules:

- `Errors` (`errors.dfy`): the three failures the repository's logic reports
  (not found, email conflict, failed seed) and the exact text of each. It proves
  that comparing an error's text with a freshly formatted message identifies
  the error. The HTTP handlers rely on this to choose 404 or 409.
- `UserTable` (`table.dfy`): the table as a value. It holds the rows keyed by
  `id`, the AUTO_INCREMENT counter `nextId` and a logical clock `clock` that
  stands in for CURRENT_TIMESTAMP. `Valid` states what the table always keeps:
  every row is stored under its own id, ids are below `nextId`,
  `created_at <= updated_at <= clock`, and no two rows share an email. The
  read-only queries (`GetUserByID`, `GetUsersCount`, `EmailExists`,
  `EmailExistsForOtherUser`) are functions of the rows. Each writing
  operation is a function from the table before to the table after plus the
  reply (`Create`, `Update`, `Delete`, `CreateEach`, `Seed`). Every one of them
  preserves `Valid`, and lemmas state the repository's promises about them.
- `Repository` (`repository.dfy`): the class `UserRepository`. Its fields
  `rows`, `nextId` and `clock` are updated in place by `CreateUser`,
  `UpdateUser`, `DeleteUser` and `SeedUsers`. Each method does the same
  check-then-write steps as the Go code. Each is proved to have exactly the
  effect of the matching `UserTable` function. `GetAllUsers` builds its list
  with a loop, the way the Go code appends rows from the cursor.
  `UserLifecycle` walks one user through create, duplicate create, update,
  delete and lookup, as a caller would.

## Model

| member | source | states |
|---|---|---|
| `Errors.Digits` | hoctap-api-project/database/user.go:66 | The digits `%d` prints for a natural number: at least one, a single digit exactly for numbers below ten, and every character in '0'..'9'. |
| `Errors.Decimal` | hoctap-api-project/database/user.go:144 | The `%d` text of an id: never empty, and it starts with '-' exactly for negative ids. |
| `Errors.Message` | hoctap-api-project/database/user.go:66 | The fmt.Errorf text of each error: "user with ID %d not found" (also user.go:144), "user with email '%s' already exists" (user.go:80 and 110) and "failed to seed user %s: %v" (user.go:214). The kind of failure can be read off the text: it starts with 'f' exactly for a seed failure, and otherwise has 'I' at position 10 exactly for not found. A seed failure's text ends with its cause's text. |
| `Errors.DigitsInjective` | hoctap-api-project/database/user.go:66 | Different numbers print different digit strings. |
| `Errors.DecimalInjective` | hoctap-api-project/database/user.go:144 | Different ids give different `%d` texts, so the id can be read back from a not-found message. |
| `Errors.NotFoundMessageIdentifies` | hoctap-api-project/database/user.go:64-69 | An error's text equals "user with ID <id> not found" exactly when the error is the not-found error for that id. No conflict or seed failure has that text. |
| `Errors.ConflictMessageIdentifies` | hoctap-api-project/database/user.go:79-81 | An error's text equals "user with email '<email>' already exists" exactly when the error is the conflict error for that email. |
| `UserTable.GetUserByID` | hoctap-api-project/database/user.go:56-72 | Succeeds exactly when some row has that id. The result is then that row, with that id. Otherwise the error is NotFound(id). |
| `UserTable.GetUsersCount` | hoctap-api-project/database/user.go:151-161 | The count is zero exactly when the table has no rows. |
| `UserTable.EmailExists` | hoctap-api-project/database/user.go:164-174 | COUNT(*) of rows with the email is positive exactly when some row has that email. |
| `UserTable.EmailExistsForOtherUser` | hoctap-api-project/database/user.go:177-187 | The probe is positive exactly when a row with a different id has that email. The row itself is never counted. |
| `UserTable.Create` | hoctap-api-project/database/user.go:75-97 | It fails exactly when the email is already in the table. The failure is Conflict(email) and the table is unchanged. On success it adds one row under the fresh id `nextId`, with the given name and email and both timestamps at the current clock. It returns that row as `GetUserByID` reads it back, advances `nextId`, and keeps the table valid, so emails stay unique. |
| `UserTable.Update` | hoctap-api-project/database/user.go:100-122 | A missing id gives NotFound(id) and an unchanged table, before any email probe. For an existing id it fails exactly when another id holds the email, with Conflict(email) and an unchanged table. On success only the target row changes: name, email and updated_at (set to the current clock, not necessarily later). Its id and created_at stay. It returns the row as read back, and the table stays valid. |
| `UserTable.Delete` | hoctap-api-project/database/user.go:125-148 | It succeeds exactly when the id exists. It removes exactly that row and leaves every other row as it was. A missing id gives NotFound(id) and removes nothing. Afterwards `GetUserByID` on that id is not found. |
| `UserTable.CreateEach` | hoctap-api-project/database/user.go:211-216 | Creating a list of users in turn keeps the table valid, leaves the clock alone and never changes or removes a row that was already there. |
| `UserTable.Seed` | hoctap-api-project/database/user.go:190-200 | Seeding keeps the table valid. When the count is above zero it does nothing and reports success. |
| `UserTable.CreateEachStopsAtFirstConflict` | hoctap-api-project/database/user.go:211-216 | The loop stops at the first user whose email is taken, either by the table or by an earlier user of the list. It fails with SeedFailed(that user's name, Conflict(email)), or passes when there is no such user. It adds exactly one row and one id for each user before that point. |
| `UserTable.CreateEachInsertsInOrder` | hoctap-api-project/database/user.go:202-216 | The users before the first conflict are stored in list order, under consecutive ids from `nextId`, with their names and emails and both timestamps at the current clock. |
| `UserTable.SeedOnEmpty` | hoctap-api-project/database/user.go:197-216 | On an empty table seeding succeeds and leaves exactly three rows: John Doe, Jane Smith and Alice Johnson with their emails, in that order, under consecutive ids. |
| `UserTable.SeedIdempotent` | hoctap-api-project/database/user.go:190-200 | Seeding a second time changes nothing and reports success. Starting from an empty table, two runs leave exactly three rows. |
| `UserTable.CreateSameEmailTwice` | hoctap-api-project/database/user.go:76-81 | Two creates with the same email, one after the other: the second returns Conflict(email) and leaves the table as the first left it. |
| `UserTable.UpdateKeepsOwnEmail` | hoctap-api-project/database/user.go:106-111 | Updating an existing user with the email it already has never reports a conflict. |
| `UserTable.EmailIsKey` | hoctap-api-project/database/connection.go:74 | Under the UNIQUE constraint on `email` (the `UniqueEmails` part of `Valid`, which every operation keeps), a table has exactly as many distinct emails as rows. |
| `UserTable.ListedSoFarStep` | hoctap-api-project/database/user.go:38-46 | Appending a newest not-yet-read row keeps the list read so far correct: each row once, newest first, none older than a row still to come. |
| `UserTable.NewestExists` | hoctap-api-project/database/user.go:30 | Every non-empty set of rows has a row with the greatest created_at, which ORDER BY created_at DESC delivers next. |
| `UserTable.ListingLength` | hoctap-api-project/database/user.go:29-53 | Any full listing of the table has as many users as `GetUsersCount` counts. |
| `Repository.UserRepository.constructor` | hoctap-api-project/database/user.go:23-26 | The repository starts over the table the database holds. |
| `Repository.UserRepository.Tick` | hoctap-api-project/database/connection.go:75-76 | Time passes: the clock behind CURRENT_TIMESTAMP moves on by one, and the rows and `nextId` are untouched. |
| `Repository.UserRepository.GetAllUsers` | hoctap-api-project/database/user.go:29-53 | Returns every row of the table exactly once, newest created_at first. It returns as many users as the count query reports. |
| `Repository.UserRepository.CreateUser` | hoctap-api-project/database/user.go:75-97 | The new table and the result are exactly those of `Create` on the old table. The table stays valid. |
| `Repository.UserRepository.UpdateUser` | hoctap-api-project/database/user.go:100-122 | The new table and the result are exactly those of `Update` on the old table. The table stays valid. |
| `Repository.UserRepository.DeleteUser` | hoctap-api-project/database/user.go:125-148 | The new table and the outcome are exactly those of `Delete` on the old table. This includes the second not-found check on the number of affected rows. |
| `Repository.UserRepository.SeedUsers` | hoctap-api-project/database/user.go:190-219 | The new table and the outcome are exactly those of `Seed` on the old table. A non-empty table is left as it was. |

## Left out

- Storage and driver failures are not modelled. These are failures of Query, QueryRow/Scan, rows.Err, Exec, LastInsertId and RowsAffected, and the "failed to ..." errors that wrap them. The error type has no variant for them, so no operation here ever fails for a storage reason.
- The race between the email probe and the write under concurrent requests is not modelled. So is the storage-level rejection of a duplicate email, which only that race can reach. The UNIQUE constraint appears only as the `UniqueEmails` part of `Valid`.
- Emails are compared with plain string equality. The table's case-insensitive collation (utf8mb4_unicode_ci) is not modelled.
- Timestamps are readings of a logical clock that only `Tick` advances. Wall-clock time and the one-second resolution of TIMESTAMP are not modelled. A strict increase of updated_at on every update is not claimed, because the UPDATE only sets it to CURRENT_TIMESTAMP. Two writes in the same second leave it unchanged.
- Ids, counts and the clock are unbounded integers. The 32-bit INT column and its AUTO_INCREMENT limit are not modelled, and neither is the width of Go's int. The VARCHAR(255) length limits on name and email are not modelled either.
- The repository accepts any name and email, including empty ones. The non-empty check is done by the HTTP handlers in main.go, which are not part of this model.
- The order of rows with equal created_at in GetAllUsers is left open, as ORDER BY leaves it.
- The Go methods return pointers to users; the model returns the user values. On an empty table the Go GetAllUsers returns a nil slice (`var users []User` is never appended to), which the HTTP layer encodes as JSON `null`; the model returns the empty sequence and does not tell the two apart.
- AUTO_INCREMENT is modelled as a counter that starts at 1, steps by 1 and never goes back. This assumes `auto_increment_increment = 1` and a counter that is never reset. Before MySQL 8.0, InnoDB resets the counter to max(id)+1 when the server restarts, so the id of a deleted newest row can be handed out again; that reuse is not modelled, and `Valid` (every id below `nextId`) and `CreateEachInsertsInOrder` (consecutive ids from `nextId`) rely on the assumption.
- main.go (HTTP routing, JSON, CORS, logging, shutdown) is not part of this model. Neither is connection.go (configuration, DSN, opening and pinging the connection, pool limits, running the DDL). Only the table shape in connection.go's DDL shapes the model.
