# Task tracker: owner-scoped user/task store, its request handlers and the client list

This project models the core of a small multi-user task tracker in Dafny.
Users register and log in with an email and a password and get a bearer token.
With that token they list, create, update and delete their own tasks.

The same rules exist twice in the repository:

- `backend/server.js` runs over the SQLite schema of `backend/database.js`.
- `api/index.js` is a near-copy with an in-memory database, a fallback signing secret and looser validation.

The React client `frontend/src/App.js` keeps a small state machine over the task list.

## Structure

| file | module | models |
|---|---|---|
| `wrappers.dfy` | `Wrappers` | `Option`, for JavaScript's `undefined` beside a present value |
| `strings.dfy` | `Strings` | `indexOf`, `replace` with a string pattern (first occurrence only), `trim` |
| `crypto.dfy` | `Crypto` | stand-ins for bcryptjs and jsonwebtoken |
| `database.dfy` | `Database` | the `users` and `tasks` tables, the schema invariants and the `Db` class holding both tables and their AUTOINCREMENT counters |
| `server.dfy` | `Server` | the `auth` middleware and the six routes of `backend/server.js` |
| `api.dfy` | `Api` | the variants of `api/index.js` |
| `client.dfy` | `Client` | the list functions and the `App` state class of `frontend/src/App.js` |

How the model is built:

- **Requests.** Each handler is one atomic method on the `Db` handle. A request is plain parameters. A body field is an `Option`, where `None` is `undefined`. The `Authorization` header is an `Option<string>`. The `:id` path segment is an `Option<int>`, where `None` is a segment SQLite cannot read as an integer.
- **Storage errors.** A `fault` flag stands for an I/O error reported by a SQLite statement. A statement also fails while the tables do not exist yet.
- **Responses.** A reply is `Reply(status, body)`. A request that is never answered is `NoReply`.
- **Crypto.** bcrypt and JWT are modelled as concrete injective encodings, not as cryptography:
  - `Hash(p)` is `"$2a$10$" + p`.
  - A token is the decimal `userId` claim, a dot, and the key standing in for the signature.
  - `Verify(Sign(u, k), k) == Some(u)` holds, and every other token, or another key, is rejected (`Crypto.VerifyOnlySigned`, `Crypto.VerifyOtherKey`).
- **Library versions.** The modelled files do not pin library versions. The model follows bcryptjs 2 (whose hashes start `$2a$`), jsonwebtoken 9 and Express 4 (see "## Left out").
- **Signing secret.** jsonwebtoken 9 treats an absent or empty secret as no key: `sign` throws and `verify` fails.
  - In `backend/server.js` that leaves register and login unanswered, because `sign` is called inside a callback. Every token then gets 400 'Invalid token'.
  - `api/index.js` always has a key, `process.env.JWT_SECRET || 'fallback_secret'`.

Behaviour of the code that the model follows and a reader might not expect:

- **Missing token.** The code answers 401 'Access denied' for a missing or empty token. It answers 400 'Invalid token' only for a token that fails verification.
- **List order.** Listing has no `ORDER BY`. The model promises the caller's rows as a multiset, not in insertion order.
- **Foreign key.** `tasks.user_id` references `users` but foreign keys are never enabled. The model therefore has no referential-integrity invariant.
- **Register checks.** `api/index.js` registers without a presence check:
  - An undefined email reaches the INSERT. The NOT NULL column refuses it and the reply is 400 'User already exists'.
  - An undefined password makes `bcrypt.hash` reject, and under Express 4 the request is never answered.
  - An empty email or password is accepted.
- **Update with a NULL title.** An update whose title is `undefined` fails with 500 only when some row matches. SQLite checks NOT NULL only on rows it actually updates. With no matching row the reply is `{success: true}`.
- **Toggle flag.** The client's `toggleTask` sets `completed` to the negation of its `completed` argument, not of each entry's own flag. The JSX always passes the entry's own flag.

## Model

| member | source | states |
|---|---|---|
| `Strings.IndexOf` | backend/server.js:19 | the position `replace` rewrites: an occurrence of the pattern with none before it, or none when the pattern does not occur |
| `Strings.RemoveFirst` | backend/server.js:19 | `replace('Bearer ', '')` removes exactly the first occurrence of the pattern; without one the header is returned unchanged |
| `Strings.RemoveFirstOfPrefix` | backend/server.js:19 | a header `"Bearer " + t` yields the token `t` |
| `Strings.TrimStartSpec` | frontend/src/App.js:64 | `TrimStart` removes a whitespace-only prefix and stops at a non-whitespace character |
| `Strings.TrimEndSpec` | frontend/src/App.js:64 | `TrimEnd` removes a whitespace-only suffix and stops at a non-whitespace character |
| `Strings.Trim` | frontend/src/App.js:64 | `trim()` is the slice of `s` that starts where `TrimStart` stops, with a whitespace-only prefix and suffix removed and no whitespace at its own ends |
| `Strings.TrimEmptyIffBlank` | frontend/src/App.js:64 | `!s.trim()` holds exactly when `s` is made of whitespace only, including the empty string |
| `Crypto.Hash` | backend/server.js:38 | the stored hash carries the `$2a$10$` cost-10 prefix and is never the plain password |
| `Crypto.Compare` | backend/server.js:70 | a successful compare means the stored hash has the bcrypt prefix and encodes this very password |
| `Crypto.CompareHash` | backend/server.js:70 | `bcrypt.compare(p, hash(q))` succeeds exactly when `p == q` |
| `Crypto.JwtSign` | backend/server.js:45 | `jwt.sign` produces a token exactly when there is a key |
| `Crypto.ParseDecimalIff` | backend/server.js:45 | the decimal `userId` claim reads back as the same id, and only its canonical numeral reads as that id |
| `Crypto.JwtVerify` | backend/server.js:23 | `jwt.verify` yields a user id only when there is a key and the token is exactly that id signed with it |
| `Crypto.VerifySign` | backend/server.js:23 | a token verifies under the key that signed it and yields the id it was signed for |
| `Crypto.VerifyOnlySigned` | backend/server.js:22-28 | a token verifies as user `u` under key `k` if and only if it is exactly `Sign(u, k)` |
| `Crypto.VerifyOtherKey` | backend/server.js:26-28 | a token signed under one key is rejected under any other key |
| `Crypto.JwtRoundTrip` | api/index.js:36 | with a usable secret, verifying a freshly signed token returns its `userId` |
| `Database.UserByEmail` | backend/server.js:61 | the lookup returns a row of `users` with that email, or none when no row has it; a NULL email matches nothing |
| `Database.UserByEmailUnique` | backend/database.js:9 | with UNIQUE emails, the row found for an email is the only row with that email |
| `Database.OwnedBy` | backend/server.js:86 | `WHERE user_id = ?` selects exactly the rows owned by the caller |
| `Database.Updated` | backend/server.js:102 | the UPDATE rewrites title and completed of the rows whose id and user_id both match; every other row, and the row count, is unchanged |
| `Database.Deleted` | backend/server.js:110 | the DELETE never adds rows |
| `Database.DeletedShrinks` | backend/server.js:110 | the DELETE removes at least one row exactly when some row matches both id and user_id |
| `Database.DeletedMembers` | backend/server.js:110 | the DELETE removes exactly the rows whose id and user_id both match and keeps every other row |
| `Database.DeletedDistributes` | backend/server.js:110 | the DELETE keeps the surviving rows in their order |
| `Database.NoMatchNoChange` | backend/server.js:100-114 | an UPDATE or DELETE whose `WHERE id = ? AND user_id = ?` matches no row leaves the table unchanged |
| `Database.DeletedValid` | backend/database.js:14 | deleting rows keeps AUTOINCREMENT ids increasing and within the issued range |
| `Database.Db.Open` | api/index.js:10 | a new database has no tables and no rows |
| `Database.Db.CreateTables` | backend/database.js:6-20 | `CREATE TABLE IF NOT EXISTS` makes both tables exist and leaves existing rows and counters unchanged |
| `Database.Db.InsertUser` | backend/database.js:7-11 | a NULL or already present email is refused with nothing changed; otherwise one row is appended with the id one above every id issued |
| `Database.Db.FindUserByEmail` | backend/server.js:61-65 | `db.get` reports the statement error, or the row of `users` with that email, or none |
| `Database.Db.InsertTask` | backend/database.js:13-19 | a NULL title is refused with nothing changed; otherwise one row owned by the caller with `completed` false and a fresh id is appended |
| `Database.Db.SelectTasksOwnedBy` | backend/server.js:86-87 | the result holds exactly the caller's rows, as a multiset, or the statement error |
| `Database.Db.UpdateTasks` | backend/server.js:102-104 | fails exactly on an I/O error or a NULL title that would be written to a matching row; otherwise only matching rows change |
| `Database.Db.DeleteTasks` | backend/server.js:110-111 | fails only on an I/O error; otherwise exactly the matching rows are removed |
| `Server.TokenReply` | backend/server.js:45-46 | a token is returned with status 200 exactly when there is a key, and it verifies as the user it was issued for; without a key there is no reply |
| `Server.BearerToken` | backend/server.js:19 | no header gives no token; a header starting with "Bearer " gives the rest of the header |
| `Server.Authenticate` | backend/server.js:18-29 | a missing header is denied; a user is admitted only when there is a key and the bearer token is that user's id signed with it |
| `Server.BearerTokenEmpty` | backend/server.js:19 | removing the first "Bearer " leaves an empty token exactly for the headers "" and "Bearer " |
| `Server.DeniedIff` | backend/server.js:19-20 | the gate answers 401 'Access denied' exactly for a missing header, "" or "Bearer " |
| `Server.AdmittedIff` | backend/server.js:22-25 | the gate admits user `u` exactly when there is a key and the extracted token is `u` signed with it |
| `Server.NoKeyNoAdmission` | backend/server.js:18-46 | with an absent or empty `JWT_SECRET`, a missing, empty or bare "Bearer " header gets 401, every other header 400, and register and login never answer |
| `Server.IssuedTokenAdmitted` | backend/server.js:45 | a token issued by register or login, sent as "Bearer <token>", passes the gate as the same user |
| `Server.ForeignTokenRejected` | backend/server.js:26-28 | a token signed under another key gets 400 'Invalid token' |
| `Server.Register` | backend/server.js:32-52 | missing or empty email or password gives 400 'Email and password required'; a taken email or a failed insert gives 400 'User already exists'; both leave users unchanged; otherwise exactly one user with a fresh id and the hashed password is added and a token for that id is returned |
| `Server.Login` | backend/server.js:54-82 | missing fields give 400; a database error gives 500; an unknown email and a wrong password both give 400 'Invalid credentials'; matching credentials give a token for the matched user's id |
| `Server.ListTasks` | backend/server.js:85-90 | 401/400 from the gate; 500 on a database error; otherwise exactly the caller's rows, never another user's |
| `Server.CreateTask` | backend/server.js:92-98 | appends one row owned by the caller with `completed` false and returns its fresh id and title; a missing title gives 500 and changes nothing |
| `Server.UpdateTask` | backend/server.js:100-107 | changes only the row whose id and user_id both match; replies `{success: true}` even when none matched; 500 only on an error |
| `Server.DeleteTask` | backend/server.js:109-114 | removes only the row whose id and user_id both match; replies `{success: true}` even when none matched; 500 only on an error |
| `Api.SigningSecret` | api/index.js:36 | `JWT_SECRET` when set and non-empty, else 'fallback_secret': always a usable key |
| `Api.OpenStore` | api/index.js:10-26 | the in-memory store starts with both tables created and empty |
| `Api.Register` | api/index.js:44-53 | an undefined password is never answered; an undefined, taken or failed email gives 400 'User already exists' with users unchanged; otherwise one user is added and a token for its id is returned |
| `Api.Login` | api/index.js:55-67 | never 500: a database error, an unknown email and a wrong password all give 400 'Invalid credentials'; matching credentials give a token for the matched user |
| `Api.IssuedTokensAdmitted` | api/index.js:50 | tokens from register and login pass the gate, since sign and verify use the same fallback-aware secret |
| `Api.ListTasks` | api/index.js:69-74 | the caller's rows only, behind the gate with the fallback-aware secret |
| `Api.CreateTask` | api/index.js:76-82 | one new row owned by the caller with `completed` false; nothing else changes |
| `Api.UpdateTask` | api/index.js:84-91 | owner-scoped update; success even when no row matched |
| `Api.DeleteTask` | api/index.js:93-98 | owner-scoped delete; success even when no row matched |
| `Client.Find` | frontend/src/App.js:78 | `tasks.find` finds nothing exactly when no entry has the id; what it finds is an entry of the list with that id |
| `Client.FindFirst` | frontend/src/App.js:78 | when some entry has the id, `find` returns the first such entry: every entry before it has another id |
| `Client.Toggled` | frontend/src/App.js:85 | the mapped list has the length of the original |
| `Client.ToggledAt` | frontend/src/App.js:85 | only entries with the id change, and only their `completed`; ids, titles and order are kept |
| `Client.Retitled` | frontend/src/App.js:117 | the mapped list has the length of the original |
| `Client.RetitledAt` | frontend/src/App.js:117 | only entries with the id change, and only their title; ids, `completed` and order are kept |
| `Client.ToggleRequest` | frontend/src/App.js:78-84 | no PUT is sent exactly when no entry has the id (`task.title` throws); otherwise it carries the id, `!completed` and the title of an entry with that id |
| `Client.EditRequest` | frontend/src/App.js:108-116 | no PUT is sent exactly when the edit text is whitespace only or no entry has the id; otherwise it carries the id, the edit text unchanged and the `completed` of an entry with that id |
| `Client.Removed` | frontend/src/App.js:96 | the filter never adds entries |
| `Client.RemovedShrinks` | frontend/src/App.js:96 | the filter drops at least one entry exactly when some entry has the id |
| `Client.RemovedMembers` | frontend/src/App.js:96 | the filter drops every entry with the id and keeps every other entry |
| `Client.RemovedDistributes` | frontend/src/App.js:96 | the filter keeps the surviving entries in their original order |
| `Client.RemovedAbsent` | frontend/src/App.js:96 | deleting an id no entry has leaves the list unchanged |
| `Client.ToggleTwice` | frontend/src/App.js:81-85 | toggling back with the flag just set restores the list |
| `Client.RetitleLastWins` | frontend/src/App.js:117 | of two successive edits of one entry, the later title wins |
| `Client.App.constructor` | frontend/src/App.js:8-15 | the token comes from storage; the list, the inputs and the edit state start empty |
| `Client.App.FetchTasks` | frontend/src/App.js:22-31 | on success the list becomes the server's rows; on failure it is unchanged |
| `Client.App.HandleAuth` | frontend/src/App.js:33-60 | an empty email or password sends nothing and changes nothing; success stores the token and clears both fields; failure changes nothing |
| `Client.App.AddTask` | frontend/src/App.js:62-74 | whitespace-only input sends nothing; success appends the server's task after the unchanged earlier entries and clears the input |
| `Client.App.ToggleTask` | frontend/src/App.js:76-89 | the request sent is `ToggleRequest` of the list before the call; only when one was sent and succeeded does the list become `Toggled`, otherwise it is unchanged |
| `Client.App.DeleteTask` | frontend/src/App.js:91-100 | success removes the id's entries; failure changes nothing |
| `Client.App.StartEdit` | frontend/src/App.js:102-105 | enters edit mode with the entry's id and title |
| `Client.App.SaveEdit` | frontend/src/App.js:107-123 | the request sent is `EditRequest` of the list and edit text before the call; only when one was sent and succeeded does the list become `Retitled` with that text and edit mode end; otherwise list and edit state are unchanged |
| `Client.App.CancelEdit` | frontend/src/App.js:125-128 | clears `editingId` and `editText` |
| `Client.App.Logout` | frontend/src/App.js:130-134 | clears the token and empties the task list |

## Left out

- **Cryptography.** bcrypt and JWT are modelled as injective encodings with the round-trip properties above. Salts, the cost factor's work, HMAC, forgery resistance and token claims other than `userId` (such as `iat`) are not modelled.
- **Express plumbing.** CORS, dotenv, JSON body parsing, `app.listen` and logging are left out.
- **Non-string body fields.** Request fields are modelled as strings or booleans, possibly absent. Numbers, objects and other JSON values are not modelled.
- **Concurrency.** Each request is one atomic step; callbacks are not interleaved.
- **Crashes.** When `jwt.sign` throws inside a callback, the model gives `NoReply`. The resulting process crash is not modelled.
- Server.Register: does not produce the 500 'Server error' of the outer `catch` at backend/server.js:48-51. `bcrypt.hash` on a string does not reject, and errors from callbacks do not reach that `catch`.
- Server.Login: does not produce the 500 'Server error' of the outer `catch` at backend/server.js:78-81, for the same reason.
- **SQLite itself.** SQL text and type affinity are not modelled; `:id` is an `Option<int>`.
- **AUTOINCREMENT.** The new id is modelled as the sequence value plus one. This equals SQLite's rule under the model's invariant that every id is at most the sequence value.
- **Orphan tasks.** `user_id` is modelled as the id from the token. A token for a user that does not exist (for example after the in-memory store restarts) creates tasks whose owner is not in `users`; nothing in the model forbids this, as nothing in the code does.
- **React.** Rendering, `useEffect` (refetching when the token changes), `localStorage` writes, `alert`, and the `isLogin`/`showTasks` toggles are left out. So are the `onChange` setters of the inputs.
- Client.App.HandleAuth: does not say which endpoint is called. `isLogin` only picks login or register, and the outcome of either is the response parameter.
- Crypto.Compare: bcrypt reads only the first 72 bytes of a password, so two passwords that share their first 72 UTF-8 bytes match the same hash. The model's `Hash` is injective and rejects the second one. Passwords are strings here, not UTF-8 bytes.
- Crypto.CompareHash: for the same reason, holds for the stand-in and not for passwords longer than 72 bytes.
- Server.Login: "a wrong password gives 400 'Invalid credentials'" is stronger than the program for passwords that agree with the stored one in their first 72 bytes; those log in.
- Api.Login: the same 72-byte caveat as Server.Login.
- Server.NoKeyNoAdmission: assumes jsonwebtoken 9 or later. Before version 9, `jwt.verify` with a falsy secret accepts an unsigned `alg: none` token (CVE-2022-23540), so backend/server.js:23 would admit any `userId` when `JWT_SECRET` is unset. Library versions are not part of the modelled files.
- Api.Register: "an undefined password is never answered" assumes Express 4. Express 5 passes a rejected async handler's error to its error handler, which answers 500.
