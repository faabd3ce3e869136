# SecureChat server core in Dafny

This project models the server half of SecureChat, a small messaging service.
The server keeps four tables:

- users;
- one-time email verification codes;
- directed contact edges;
- messages, each with two per-side soft-delete flags.

Its request handlers gate every change to these tables:

- sign-in by emailed code;
- profile completion;
- adding a contact by invitation code;
- reading, sending and deleting messages.

After every send, the new message is pushed to every open WebSocket connection.

The modules follow the program's structure:

| file | module | what it holds |
|---|---|---|
| `options.dfy` | `Options` | `Option` and `Result` |
| `queries.dfy` | `Queries` | `Where` and `First`: the filtering and first-row selection that every `select … where …` query performs. `Pairwise`: a relation every two rows of a table satisfy. |
| `encoding.dfy` | `Encoding` | Decimal rendering of a number, as `Number.toString()` gives it. Hex rendering of random bytes, as `Buffer.toString("hex")` gives it. A round-trip proof for each. |
| `schema.dfy` | `Schema` | The row types and insert types of the four tables, and the column defaults. The declared constraints as one well-formedness predicate: primary keys, unique columns and foreign keys. The cascade delete of a user, and a proof that it keeps the constraints. |
| `storage.dfy` | `Storage` | The read queries of `DatabaseStorage` as functions of the table contents. The soft-delete rule as a function, with lemmas about it. The class `DatabaseStorage`, which has one `seq` field per table and methods for the inserts and updates. Its invariant `Valid()` is the schema's constraints plus freshness of the id counter. |
| `realtime.dfy` | `Realtime` | A connected client (ready state and outbox), and the broadcast loop. |
| `routes.dfy` | `Routes` | The session record `{userId?, email?}`, the responses, and one member per handler. Read-only handlers are functions of the tables. Handlers that write are methods over the store. |

The model's design choices:

- **Ids.** Every row id is the decimal rendering of a counter. This stands in for the `gen_random_uuid()` default. Every stored id is non-empty and parses to a number below the counter, so a new id is provably fresh in all four tables. Non-empty matters because signing in needs a truthy `session.userId` (server/routes.ts:40).
- **Database errors.** A unique or foreign-key violation raised by the database is the `Err` result of the insert method. The handlers turn it into a 400 answer, as their `catch` blocks do.
- **Parameters for what the model cannot see.** These are: the current time, the random verification code (required to lie in 100000–999999), the eight random bytes behind an invitation code, the bcrypt hash and the zod email-format check.

Five behaviours of the code that the model keeps as written:

- A generated verification code is `Math.floor(100000 + Math.random() * 900000)` rendered in decimal, so it lies in 100000–999999 (server/routes.ts:22).
- An invitation code that matches no user answers 404 "Invalid invitation code" (server/routes.ts:203).
- Every error thrown by `deleteMessage`, "Message not found" and "Unauthorized" alike, answers 400 (server/routes.ts:298).
- Registration checks the username only for length, 3 to 20 characters (server/routes.ts:132).
- The code lookup matches email, code and `used = false` and does not look at `expiresAt` (server/storage.ts:97-102). Expiry is checked afterwards by the handler (server/routes.ts:106).

## Model

| member | source | states |
|---|---|---|
| Storage.GetUser | server/storage.ts:47-50 | The row returned has the requested id. Nothing is returned exactly when no user has that id. |
| Storage.GetUserByEmail | server/storage.ts:52-55 | The row returned has the requested email. Nothing is returned exactly when no user has it. |
| Storage.GetUserByUsername | server/storage.ts:57-60 | The row returned has the requested username. Nothing is returned exactly when no user has it. |
| Storage.GetUserByInvitationCode | server/storage.ts:62-65 | The row returned has the requested invitation code. Nothing is returned exactly when no user has it. |
| Storage.DatabaseStorage.CreateUser | server/storage.ts:67-73 | Fails with a unique violation exactly when an existing user shares the email, the username or the invitation code. The violation named is the first of these in declaration order (shared/schema.ts:9-14), which assumes PostgreSQL's checking order. A failure changes nothing. Otherwise it appends exactly one user built from the insert values, with an id no user has. The other tables are untouched and the store invariant holds. |
| Storage.DatabaseStorage.CreateVerificationCode | server/storage.ts:85-91 | Always appends exactly one row, with a fresh id. `used` defaults to false when the insert leaves it out. Earlier rows and the other tables are untouched. |
| Storage.GetVerificationCode | server/storage.ts:93-105 | Returns only a row whose email and code both match and whose `used` is false; expiry is not consulted. Returns nothing exactly when no such row exists. |
| Storage.MarkUsed | server/storage.ts:107-112 | The table keeps its length. A row's `used` becomes true exactly when its id is the given one, or stays true if it already was. Every other column of every row is unchanged. |
| Storage.DatabaseStorage.MarkCodeAsUsed | server/storage.ts:107-112 | The in-place update loop leaves exactly `MarkUsed` of the old table and keeps the store invariant. |
| Storage.ConsumedCodeNotReturned | server/storage.ts:93-112 | After the found row is marked used, the same lookup never returns that row again. The lookup comes back empty exactly when every unused row matching (email, code) was that row. |
| Storage.GetContacts | server/storage.ts:115-120 | Returns exactly the edges whose `userId` is the user, each as often as it is stored. |
| Storage.GetContactWithUser | server/storage.ts:122-135 | Projected back to the edge columns, the result is exactly the user's outgoing edges whose peer exists, in table order, so each such edge appears exactly once. Every entry carries a user row whose id is the edge's `contactId`. |
| Storage.DatabaseStorage.CreateContact | server/storage.ts:137-143 | Fails with a foreign-key violation exactly when either end is not a user, and then changes nothing. The violation names `user_id` when the owner is missing, else `contact_id`. Otherwise it appends exactly one edge with a fresh id and leaves the existing rows unchanged. |
| Storage.CheckContactExists | server/storage.ts:145-156 | True exactly when a row with `userId = a` and `contactId = b` exists. |
| Storage.CheckAfterInsert | server/storage.ts:145-156 | After one edge is inserted, `checkContactExists` is true for that edge's own pair and answers as before for every other pair. |
| Storage.ContactsAreDirected | server/storage.ts:145-156 | A lone edge b→a answers true for (b, a) and false for (a, b). |
| Storage.SortBySentAt | server/storage.ts:179 | The result is ordered ascending by `sentAt` and is a permutation of its input. |
| Storage.GetMessages | server/storage.ts:159-181 | Ordered ascending by `sentAt`. Holds exactly the rows that pass the visibility filter, each as often as stored. The filter passes two kinds of row: sent by u to c and not deleted for the sender, or sent by c to u and not deleted for the receiver. |
| Storage.DatabaseStorage.CreateMessage | server/storage.ts:183-189 | Fails with a foreign-key violation exactly when the sender or the receiver is not a user, and then changes nothing. The violation names `sender_id` when the sender is missing, else `receiver_id`. Otherwise it appends exactly one message with a fresh id and both deletion flags false, and leaves the existing rows unchanged. |
| Storage.SetDeleted | server/storage.ts:201-210 | Only the deletion flags change. The chosen side's flag is set on the rows with the id; every other flag keeps its value. |
| Storage.SoftDelete | server/storage.ts:191-199 | Fails with "Message not found" exactly when no row has the id. |
| Storage.SoftDeleteEffect | server/storage.ts:201-213 | The sender gets only `deletedForSender` set on that row. A receiver who is not the sender gets only `deletedForReceiver`. Anyone else gets "Unauthorized". No other row changes. |
| Storage.SoftDeleteIdempotent | server/storage.ts:201-210 | Repeating a successful delete by the same party succeeds and leaves the table as it was. |
| Storage.DeleteHidesOnlyFromRequester | server/storage.ts:191-214 | For a message between two different users, a delete removes exactly that message from the requester's conversation view. The peer's view keeps exactly the messages it had. The handlers never store a self-message (Routes.NoSelfLoops), so this covers every message they store. |
| Storage.DatabaseStorage.SetDeletedFlag | server/storage.ts:202-210 | The in-place update loop leaves exactly `SetDeleted` of the old table and keeps the store invariant. |
| Storage.DatabaseStorage.DeleteMessage | server/storage.ts:191-214 | On success the new table is `SoftDelete` of the old one. On error it returns the error `SoftDelete` gives and the table is unchanged. |
| Storage.DatabaseStorage.FreshId | shared/schema.ts:8 | The id given out is non-empty, is held by no row of any table, and the next one will differ from it. |
| Schema.AddUserKeepsWellFormed | shared/schema.ts:8-14 | Appending a user who clashes with no existing user on id, email, username or invitation code keeps every constraint. |
| Schema.AddCodeKeepsWellFormed | shared/schema.ts:20 | Appending a code row with a fresh id keeps every constraint. |
| Schema.AddContactKeepsWellFormed | shared/schema.ts:29-34 | Appending an edge with a fresh id whose two ends are users keeps every constraint. |
| Schema.AddMessageKeepsWellFormed | shared/schema.ts:37-45 | Appending a message with a fresh id whose sender and receiver are users keeps every constraint. |
| Schema.MessageIndexUnique | shared/schema.ts:38 | Under the primary key, two different positions of the message table hold different ids. |
| Schema.DeleteUser | shared/schema.ts:31-40 | The cascade removes the user, every contact naming the user and every message naming the user. The verification codes stay. |
| Schema.CascadeKeepsWellFormed | shared/schema.ts:31-40 | After the cascade every constraint still holds, no reference dangles and the user is gone. |
| Encoding.DecimalString | server/routes.ts:22 | The rendering is a non-empty string of decimal digits. |
| Encoding.DecimalRoundTrip | server/routes.ts:22 | Parsing the rendering gives back the number. |
| Encoding.SixDigitCode | server/routes.ts:22 | Every code value in 100000–999999 renders to exactly six characters, so an issued code passes verify-code's length check. |
| Encoding.Hex | server/routes.ts:27 | Two hex characters per byte, so eight random bytes give a 16-character invitation code. |
| Encoding.HexRoundTrip | server/routes.ts:27 | Decoding the hex rendering gives back the bytes, so distinct bytes give distinct codes. |
| Realtime.Client.Send | server/routes.ts:275-280 | The frame is queued after the frames already sent to that client. |
| Realtime.Broadcast | server/routes.ts:273-282 | Every client whose state is OPEN gets the frame exactly once. Every other client gets nothing. No client changes state. |
| Routes.SignedIn | server/routes.ts:39-44 | A session without a user id, or with an empty one, is not signed in, so the handler answers 401 with "Unauthorized". |
| Routes.SendCode | server/routes.ts:62-92 | An invalid email answers 400 and changes nothing. Otherwise exactly one code row is appended, whether or not the account exists: it has the email, the six-digit rendering of the generated value, `used` false and `expiresAt` 10 minutes after now. Earlier codes and the other tables are untouched. The notice depends on whether the email is registered. No self-loop is created. |
| Routes.VerifyCode | server/routes.ts:94-125 | With no matching unused code: 400 "Invalid or expired verification code", store and session unchanged. With a matching code past `expiresAt`: 400 "Verification code expired", the code stays unused and the session is unchanged. Otherwise the code is marked used. Replaying the same lookup never returns that row again, and finds nothing exactly when it was the only unused match. A registered email then sets both `userId` and `email` of the session, so the caller is signed in as that user, with `needsProfile` false. An unregistered email sets only `email`, with `needsProfile` true. No self-loop is created. |
| Routes.CompleteRegistration | server/routes.ts:127-164 | Any non-200 answer changes neither store nor session. Bad field lengths answer 400. A session email that differs from the body email answers 401 "Email not verified". A username already taken answers 400. When those checks pass but the insert clashes, the answer is 400 with the database's text: the email constraint first, else the invitation-code constraint. Success happens exactly when no existing user clashes. Then exactly one user is created from the body, the hash and the invitation code, and the session's `userId` becomes its id, so the caller is signed in as the new user. No self-loop is created. |
| Routes.Me | server/routes.ts:166-176 | 401 when not signed in. When signed in, 404 exactly when the session's user does not exist and 200 exactly when it does; the 200 answer is that user's row. |
| Routes.ListContacts | server/routes.ts:185-192 | 401 exactly when not signed in, and 200 otherwise. The entries, projected to edges, are exactly the caller's outgoing edges whose peer exists, in table order. Each entry carries the peer's user row. |
| Routes.AddContact | server/routes.ts:194-233 | 401 when not signed in. An unknown code answers 404, the caller's own code 400, and an existing forward edge 400. A caller with no user row answers 400 with the foreign-key text. Every failure leaves the store unchanged. Success, exactly when none of these applies, stores the forward edge and returns it. Afterwards both directions exist. One reverse edge is added exactly when target→caller was absent, and nothing else is added, so no self-loop is created. |
| Routes.Link | server/routes.ts:215-227 | The forward edge is inserted, then the reverse edge only if it is absent; a reverse edge is reported exactly when one was added. A missing caller fails with the `user_id` foreign-key violation. The table becomes the old one plus those rows, and both directions exist. |
| Routes.AddMissingEdge | server/routes.ts:221-227 | Inserts the edge exactly when `checkContactExists` reports it missing, and appends nothing otherwise. Afterwards the edge exists. |
| Routes.ReadMessages | server/routes.ts:236-250 | 401 exactly when not signed in. When signed in, 403 "Not a contact" exactly when the edge caller→peer is missing, and 200 exactly when it exists. The 200 answer holds the conversation rows the caller may see, each as often as it is stored, ordered by `sentAt`. |
| Routes.SendMessage | server/routes.ts:252-288 | Any non-200 answer changes no table and sends nothing. Empty content answers 400, and a missing edge caller→receiver answers 403. Success, exactly when the content is non-empty and the edge exists, appends exactly one message from the caller with both flags false. Each OPEN client then gets exactly one `message` frame carrying it; non-open clients get nothing. No self-loop is created. |
| Routes.Post | server/routes.ts:266-270 | Along an existing edge the insert cannot fail. It appends exactly one message with the caller, receiver, content and time given, both flags false and a fresh id. No self-loop is created. |
| Routes.EdgeEndsExist | shared/schema.ts:31-32 | Both ends of a stored contact edge are users, so creating a message along an edge cannot violate a foreign key. |
| Routes.DeleteMessage | server/routes.ts:290-300 | 401 when not signed in, with nothing changed. Otherwise the result follows `SoftDelete`: success answers 200 "Message deleted" with the new table, and an error answers 400 with the error's text and no change. No self-loop is created. |
| Routes.EdgeKeepsNoSelfLoops | server/routes.ts:206-227 | Storing an edge between two different users keeps the tables free of self-edges and self-messages. |
| Routes.SoftDeleteKeepsNoSelfLoops | server/storage.ts:201-213 | A successful soft delete keeps every message's sender and receiver, so it creates no self-message. |

## Left out

- Express, the session middleware and its cookie settings. The session is a plain record passed in and returned.
- Logout. It only destroys the session.
- The JSON encoding of requests and responses. Bodies are datatypes.
- The 500 answers for storage exceptions on the read-only routes. The modelled store raises none there.
- bcrypt. The hash is a function parameter of complete-registration.
- `Math.random` and `randomBytes`. They are replaced by the parameters `generated` (required to lie in 100000–999999) and `bytes` (eight of them).
- `Date.now` and `new Date()`. They are replaced by an integer time parameter in milliseconds.
- `sendEmail`, which only writes to the console.
- The WebSocket server setup and its connection, message, close and error handlers, which only log. The broadcast sees the client list as a parameter.
- The zod email-format check. It is a `string -> bool` parameter.
- The text of zod's validation messages. Only the 400 status is modelled.
- The length rules count `seq<char>` elements rather than UTF-16 code units.
- `gen_random_uuid()`. A counter rendered in decimal stands in for it, so ids are fresh but not random.
- `updateUser`. No handler calls it.
- Concurrency between requests, including the unguarded check-then-mark of a code and the check-then-insert of contact edges. Each handler is one atomic step.
- Upstream SQL row order is unspecified. The model returns rows in table order. For the lookups this matters only when several unused codes share an email and a code. For `getContactWithUser`, which has no `orderBy` (server/storage.ts:123-133), Storage.GetContactWithUser and Routes.ListContacts state the joined rows in table order, which the database does not promise; the rows themselves and their multiplicities do not depend on it.
- Storage.DatabaseStorage.CreateUser, Storage.DatabaseStorage.CreateContact, Storage.DatabaseStorage.CreateMessage, Routes.Link, Routes.AddContact and Routes.CompleteRegistration: the source only forwards the thrown error's `message` with a 400 (server/routes.ts:162, 231). The constraint names (`users_email_unique`, `contacts_user_id_users_id_fk`, …) assume the drizzle-kit naming convention. The texts built by `Storage.DbErrorText` assume PostgreSQL's wording with no wrapping by the driver. Naming the first violated constraint in declaration order assumes PostgreSQL checks them in that order. None of these is fixed by the repository itself; the 400 status and the kind of violation are.
- Storage.DeleteHidesOnlyFromRequester: requires a message whose sender and receiver differ. A self-message deleted by its sender would stay visible through the receiver clause of the view. The handlers never store one: server/routes.ts:206 refuses adding oneself, server/routes.ts:261-264 refuses a message without an edge, and every state-changing handler preserves Routes.NoSelfLoops.
- Routes.VerifyCode: a replay of the same (email, code) is stated to fail only when no other unused row has the same email and code. Two unused rows with equal codes can exist, and then the replay succeeds.
- `getMessages` orders by `sentAt` only. The model's stable sort fixes an order among equal timestamps, which the database does not promise, so only sortedness and the exact multiset of rows are stated.
- The client application (React pages, forms and chat components).
