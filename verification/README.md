# Budget tracker API — a Dafny model

This project models the backend of a personal budget tracker: users register
with a username and password, log in to obtain a bearer token, and then
create, list and delete dated income/expense entries that only they can see.

The model has six modules:

- `Wrappers` (`wrappers.dfy`): `Option` and `Result`.
- `Auth` (`auth.dfy`): password hashing and token signing. The real
  functions live in a module that is not part of this model. Here they are
  concrete stand-ins with the properties the handlers rely on:
  `Hash` is injective, `Verify(p, h)` holds iff `Hash(p) == h`,
  `Decode(Encode(sub)) == Some(sub)`, and a token that is not the encoding
  of some subject decodes to `None`. The stand-ins' bodies are visible to
  the proofs, but no proof depends on the particular marks they use.
- `Models` (`models.dfy`): the `users` and `entries` rows (`User`, `Entry`),
  the two-tag `EntryType`, the calendar `Date`, and the table constraints
  (unique user ids, unique usernames, unique entry ids, every entry's owner
  exists), gathered in `TablesValid`.
- `Schemas` (`schemas.dfy`): the wire shapes `EntryBase`, `EntryCreate`,
  `WireEntry` (`EntryBase` plus `id`) and `UserCreate`, and `ToWire`, the
  projection of a stored entry onto its wire shape, which drops the owner.
- `Queries` (`queries.dfy`): the filters the handlers run against the tables
  (user by username, entries by owner, entry by id and owner), with lemmas on
  how they react to inserts and deletes.
- `Api` (`api.dfy`): the class `Store`, the database as an in-memory state
  machine. It holds both tables as sequences of rows in insertion order and
  the next id each table assigns. `Register`, `CreateEntry` and
  `DeleteEntry` are methods that modify the store. `CurrentUser`, `Login` and
  `ListEntries` are functions that read it. `Store.Valid()` is the table
  invariant; every mutating handler preserves it.
- `Scenarios` (`scenarios.dfy`): clients that chain handler calls: sign up
  and log in, the end-to-end run (register, log in, create, list, delete,
  list), the two-user isolation run, and a duplicate registration.

Every handler that needs a caller resolves the bearer token first, as the
framework's dependency does. When that fails, the handler returns the
resolution error and leaves the tables untouched.

Three facts about the handlers that the model keeps:

- Register answers with the message `"User registered"`
  (backend/main.py:47).
- The create handler does not check that `amount` is non-negative; the amount
  is carried through unchanged (backend/main.py:59).
- Errors carry the handlers' own `detail` messages: `UsernameExists`,
  `IncorrectCredentials`, `InvalidAuthentication`, `UserNotFound`,
  `EntryNotFound`. The one addition is `InvalidEntryType` (see "Left out").

## Model

| member | source | states |
|---|---|---|
| Auth.Hash | backend/main.py:42 | stand-in for the hashing call; it carries no contract of its own, and the properties the handlers use are stated by HashInjective and VerifyHash |
| Auth.Verify | backend/main.py:52 | stand-in for the password check: a password verifies against a stored digest iff the digest is that password's hash |
| Auth.HashInjective | backend/main.py:42-43 | two passwords with the same stored digest are the same password |
| Auth.VerifyHash | backend/main.py:52 | a digest verifies the password it was made from and no other |
| Auth.Decode | backend/main.py:30-32 | a token decodes only when it is the encoding of the subject returned; every other token is rejected |
| Auth.Encode | backend/main.py:54 | stand-in for issuing a token with subject `sub`; it carries no contract of its own, and what the handlers use is stated by Decode and DecodeEncode |
| Auth.DecodeEncode | backend/main.py:54 | the token issued for a username decodes back to that username |
| Models.TypeName | backend/models.py:16 | every tag's name is one of the enum's two labels, "Income" or "Expense" |
| Models.ParseEntryType | backend/models.py:16 | a type string is accepted only if it is the name of one of the two tags, and then names that tag |
| Models.TypeNameRoundTrip | backend/models.py:16 | reading a tag's name gives the tag back |
| Models.DaysInMonth | backend/schemas.py:5 | the month length is fixed: 28 days exactly for February of a common year, 29 exactly for February of a leap year, 30 exactly for April, June, September and November, and 31 for every other month; `IsCalendarDate` uses it to admit only dates that exist |
| Models.IsCalendarDate | backend/schemas.py:5 | a date is a year, month and day that exist in the calendar, with no time component; `CalendarDate` is the type of such dates |
| Models.TablesValid | backend/models.py:8-19 | the schema's constraints: unique user ids, unique usernames, unique entry ids, and every entry's `user_id` names an existing user |
| Models.OwnersExistAddUser | backend/models.py:19 | adding a user keeps every entry's owner reference valid |
| Models.TablesValidRemoveEntry | backend/models.py:14-19 | removing one entry keeps unique entry ids, unique users and existing owners |
| Schemas.ToWire | backend/schemas.py:13-16 | the wire entry keeps the id, date, category and amount, and its type string names the stored tag |
| Schemas.ToWireAll | backend/main.py:65 | a listed response has one wire entry per stored entry, position by position |
| Schemas.ToWireAllAppend | backend/main.py:65 | projecting two lists joined is joining their projections |
| Schemas.ToWireLosesOnlyOwner | backend/schemas.py:13-16 | the wire entry and the owner together determine the stored row: the projection drops only `user_id` |
| Schemas.ToWireSeparatesIds | backend/schemas.py:14 | entries with different ids have different wire forms |
| Schemas.NewEntry | backend/main.py:59 | a create request becomes a row iff its type is a tag; the row has the assigned id and the caller as owner, and projecting it back gives the request plus the id |
| Queries.FindUser | backend/main.py:33 | a user is found iff some row has that username, and the one found has it |
| Queries.FindUserUnique | backend/models.py:9 | with unique usernames, looking up a row's username finds exactly that row |
| Queries.OwnedBy | backend/main.py:67 | an entry is in the list iff it is in the table and owned by the given user |
| Queries.OwnedByMultiplicity | backend/main.py:67 | each of the user's entries occurs in the list exactly as often as in the table, and no other entry occurs |
| Queries.OwnedByUniqueIds | backend/main.py:67 | with unique entry ids in the table, the user's list holds no id twice |
| Queries.OwnedByAppend | backend/main.py:59-61 | inserting an entry appends it to its owner's list and leaves every other user's list unchanged |
| Queries.OwnedByRemoveForeign | backend/main.py:74 | removing another user's entry leaves a user's list unchanged |
| Queries.FindEntry | backend/main.py:71 | an index is returned iff some entry has both the id and the owner, and it points at such an entry |
| Queries.ForeignEntryNotFound | backend/main.py:71-73 | with unique entry ids, an entry owned by someone else is never found for the caller |
| Queries.RemoveEntryAt | backend/main.py:74 | removing a row removes exactly the entry with that row's id and keeps the rest in order |
| Api.Store.Valid | backend/models.py:8-19 | the table constraints hold and every id is below the id its table assigns next, so a new id is always fresh |
| Api.Store.constructor | backend/main.py:8 | an empty database satisfies the table invariant |
| Api.Store.CurrentUser | backend/main.py:29-36 | fails with "Invalid authentication" iff the token does not decode, with "User not found" iff no user has the `sub` username; otherwise returns a stored user with that username |
| Api.Store.Register | backend/main.py:38-47 | an existing username fails with "Username exists" and changes nothing; a new one appends exactly one user with the next id, that username and `Hash(password)`, and leaves entries untouched; the invariant (unique usernames included) is kept |
| Api.Store.Login | backend/main.py:49-55 | succeeds iff a user has that username and the password verifies; both failures give the same error; the token's subject is the username and its kind is "bearer" |
| Api.Store.CreateEntry | backend/main.py:57-63 | token failures and non-tag types fail and change nothing; otherwise exactly one entry is appended with a fresh id, the caller as owner and the request's fields, other entries and users are unchanged, and the response is the request plus the id; the creator's entries gain the new entry at their end and every other user's entries are unchanged |
| Api.Store.ListEntries | backend/main.py:65-67 | fails iff the token does not resolve; otherwise a wire entry is listed iff it is the wire form of one of the caller's entries, and with unique entry ids none is listed twice |
| Api.Store.DeleteEntry | backend/main.py:69-76 | fails with "Entry not found" and changes nothing iff no entry has both that id and the caller as owner; otherwise removes exactly that entry and nothing else, and every other user's entries are unchanged |
| Api.RegisteredPasswordLogsIn | backend/main.py:51-55 | logging in with a user's registered password succeeds with a token naming them; any other password fails with the login error |
| Api.LoginTokenResolves | backend/main.py:29-36 | the token from a successful login resolves to the user who logged in |
| Api.ListExcludesForeign | backend/main.py:66-67 | no entry owned by another user appears in the caller's list |
| Scenarios.SignUp | backend/main.py:38-55 | registering a new username and logging in with the same password gives a token that resolves to the new user |
| Scenarios.Add | backend/main.py:57-63 | creating an entry stores exactly the row built from the request, the next id and the caller |
| Scenarios.EndToEnd | backend/main.py:38-76 | register, log in, create, list, delete, list gives the created entry with id 1, a list of just that entry, a deletion and an empty list |
| Scenarios.GroceriesRow | backend/main.py:59 | the stored row for the example request projects back to the request with id 1 |
| Scenarios.SetUpTwoUsers | backend/main.py:38-63 | from an empty database, two sign-ups and one create give two users with ids 1 and 2 and the one entry owned by user 1 |
| Scenarios.Isolation | backend/main.py:65-76 | another user lists nothing and cannot delete the owner's entry ("Entry not found"); the owner still lists it |
| Scenarios.DeleteTwice | backend/main.py:69-76 | the owner's delete succeeds once, and a second delete of the same id fails with "Entry not found" |
| Scenarios.CreateKeepsOtherLists | backend/main.py:57-67 | a create by one user leaves another user's list as it was, and a successful one appends the response to the creator's list |
| Scenarios.DeleteKeepsOtherLists | backend/main.py:65-76 | a delete by one user, successful or not, leaves another user's list as it was |
| Scenarios.RegisterTwice | backend/main.py:38-47 | of two registrations with one username the second fails with "Username exists" and leaves the store as the first left it, and only the first password logs in |

## Left out

- Token expiry and the clock: tokens never expire in this model. The signing
  algorithm, the secret and the expiry arithmetic are not part of this model.
- Password hashing is a deterministic, injective stand-in. A salted hash gives
  a different digest each time; the handlers only use it through `Verify`,
  whose contract the stand-in keeps.
- A decoded token whose payload has no `sub` claim: `Decode` returns the subject
  or nothing, so the failure a missing claim would raise is not modelled.
- CreateEntry: the create schema takes `type` as any string (backend/schemas.py:6),
  while the column is a two-tag enum (backend/models.py:16). The model rejects any
  other string with `InvalidEntryType` and stores nothing. What the real database
  does with such a string depends on the engine and is not part of this model.
- Id assignment is a counter per table starting at 1. A database that reuses the
  highest id after that row is deleted is not modelled. The model only relies on
  each new id being different from every id in the table.
- `amount` is a Float column carried as a `real`. No arithmetic or sign check is
  done on it, and NaN or infinities are not modelled.
- Listing returns entries in table order. The source promises no order.
- Request-body validation by the web framework (rejecting malformed dates or
  missing fields) is not modelled: requests arrive already typed, with dates as
  calendar dates.
- The ORM session (add, commit, refresh, close), the CORS middleware, database
  configuration (backend/database.py), HTTP status codes beyond the error names,
  and the Streamlit client (frontend/app.py) are not modelled.
- Concurrency: handlers are modelled as running one at a time. Two simultaneous
  registrations racing past the username check are not modelled.
