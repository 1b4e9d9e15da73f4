# Notepad backend: note store, user store and authentication in Dafny

This project models the core of a NestJS notepad backend. Each user owns a private set of notes.

- **Note repository** (`NoteStore`). The `notes` table is a sequence of `Note` records in insertion order. The pure queries are functions of that table: lookup by id, the joint (id, owner) lookup, the owner's listing newest first, and the paginated, title-filtered listing. `create`, `update` and `delete` are methods of the `NoteRepository` class and change the table in place. Keys come from a counter, so every new key is fresh. `createdAt`/`updatedAt` come from a logical clock that `create` and `update` advance.
- **Note service** (`NoteAccess`). `findOne`, `update` and `remove` all start with the joint (id, owner) lookup. A note owned by someone else and a missing note give the same NotFound. `create` always sets the owner to the caller.
- **User repository** (`IdentityStore`). The `users` table. `findAll` and `findById` return the password-free `PublicUser` projection. `findByEmail` returns the whole `User` row, including the stored hash.
- **User service** (`Identity`). Email pre-checks raise Conflict on `create` and `update`, and missing ids raise NotFound. The `UserService` class invariant says no two users share an email.
- **Auth service** (`Auth`). `validateUser` returns a projection or nothing. `login` raises Unauthorized when `validateUser` returns nothing. `register` creates the user and then signs the `{sub: id, email}` payload. bcrypt's `hash` and `compare` and the JWT signer are function parameters. The model relies on no property of them.

The page query does not fix one ordering. The database breaks no ties between equal `updatedAt` values. So `FindByUserIdPaginated` promises only this: for some ordering of the matching notes that is newest first and is a permutation of them, `items` is the window `[(page-1)*limit, (page-1)*limit + limit)` of it.

In four places the code does something other than what a reader might expect. The model follows the code in the first and third, replaces it in the second, and corrects it in the fourth:

- The controller calls the service's listing with a page query and expects one page back. The service's `findAllByUser` takes no query and returns the caller's whole list (see Findings).
- The title search is not a plain substring test. It uses SQL `LIKE`, and the model replaces `LIKE` with substring containment (see Left out).
- Notes with equal `updatedAt` are not guaranteed to be listed in insertion order. The query sets no tie-break, so the model leaves the order among ties open.
- `UserService.update` skips the email conflict check when the new email is empty. `Identity.UserService.Update` uses the corrected check instead, which checks every given email (see Findings).

## Model

| member | source | states |
|---|---|---|
| `NoteStore.FindAll` | src/notes/repositories/note.repository.ts:15-19 | returns exactly the stored notes |
| `NoteStore.FindById` | src/notes/repositories/note.repository.ts:21-26 | a note is returned iff one with that id is stored; the result is stored and has that id |
| `NoteStore.FindByIdUnique` | src/notes/repositories/note.repository.ts:21-26 | with unique keys, the lookup by id returns the one stored note with that id |
| `NoteStore.FindByUserIdAndNoteId` | src/notes/repositories/note.repository.ts:35-42 | a note is returned iff one exists with both that id and that owner; the result is stored and has both |
| `NoteStore.JointLookupIsOwnedLookup` | src/notes/repositories/note.repository.ts:35-42 | with unique keys, the joint lookup equals the lookup by id restricted to the given owner (another owner's note looks like a missing one) |
| `NoteStore.FindByUserId` | src/notes/repositories/note.repository.ts:28-33 | returns exactly the owner's notes, as a permutation ordered by `updatedAt` non-increasing |
| `NoteStore.Filter` | src/notes/repositories/note.repository.ts:66-70 | keeps exactly the owner's notes whose title contains `search`, with no title filter when `search` is absent or empty, and keeps each as many times as it is stored |
| `NoteStore.SortByRecency` | src/notes/repositories/note.repository.ts:73-78 | returns a permutation of its input ordered by `updatedAt` non-increasing |
| `NoteStore.Window` | src/notes/repositories/note.repository.ts:76-77 | skip/take: the result has `min(take, n - skip)` elements (0 past the end), element `k` being input element `skip + k` |
| `NoteStore.CeilDiv` | src/notes/repositories/note.repository.ts:84 | `totalPages * limit >= total` and, if `totalPages > 0`, `(totalPages - 1) * limit < total` |
| `NoteStore.CeilDivIsLeast` | src/notes/repositories/note.repository.ts:84 | `totalPages` is the least page count whose pages hold all `total` notes |
| `NoteStore.NoPagesIffEmpty` | src/notes/repositories/note.repository.ts:84 | `totalPages` is 0 exactly when `total` is 0 |
| `NoteStore.FindByUserIdPaginated` | src/notes/repositories/note.repository.ts:59-86 | `total` is the number of matching notes, whatever `page` and `limit` are; `currentPage = page`; `totalPages` is the ceiling of `total/limit`; every item is stored and matches owner and search; the page length is `min(limit, total - (page-1)*limit)` and 0 past the end; items are the window of some newest-first permutation of the matching notes |
| `NoteStore.MostRecentFirst` | src/notes/repositories/note.repository.ts:28-33 | in any newest-first ordering, a note updated after all the others comes first |
| `NoteStore.PatchKeepsBounds` | src/notes/repositories/note.repository.ts:49-52 | an update at a later time keeps every key and timestamp bound, and leaves every other note older than the patched one |
| `NoteStore.PatchedRowFound` | src/notes/repositories/note.repository.ts:49-52 | after an update, the lookup by that id returns the stored note with the patch applied |
| `NoteStore.Without` | src/notes/repositories/note.repository.ts:54-57 | after deletion no note has that id, and every note with another id remains |
| `NoteStore.WithoutKeepsUnique` | src/notes/repositories/note.repository.ts:54-57 | deleting keeps the keys unique |
| `NoteStore.NoteRepository.Create` | src/notes/repositories/note.repository.ts:44-47 | appends one note with the given fields, a fresh key and both timestamps set to an advanced clock, and returns it |
| `NoteStore.NoteRepository.Update` | src/notes/repositories/note.repository.ts:49-52 | returns `findById(id)`, which is null iff the id was absent (the table and clock are then unchanged); otherwise only that note changes: its patched fields and an `updatedAt` later than every other note's (under the model's strictly increasing clock) |
| `NoteStore.NoteRepository.Delete` | src/notes/repositories/note.repository.ts:54-57 | returns true exactly when a note with that id existed; afterwards that id is gone and all other notes remain |
| `NoteAccess.FindOne` | src/notes/services/note.service.ts:15-21 | NotFound iff no note has both the id and the caller as owner; otherwise that note |
| `NoteAccess.NotOwnedLooksMissing` | src/notes/services/note.service.ts:15-21 | another user's note gives exactly the same NotFound as an id that is not stored |
| `NoteAccess.FindAllByUser` | src/notes/services/note.service.ts:11-13 | returns exactly the caller's notes, each once, as a newest-first permutation; unpaginated |
| `NoteAccess.FindAllByUserIgnoresLimit` | src/notes/services/note.service.ts:11-13 | with more notes than the default limit, the service's list is longer than the default page, which holds exactly 10 |
| `NoteAccess.FindAllByUserPaginated` | src/notes/interfaces/note-service.interface.ts:8-11 | the paginated listing the controller expects: `total` is the number of the caller's notes matching `search`; `currentPage` is the requested page; `totalPages` is the ceiling of `total/limit`; every item is the caller's and matches `search`; at most `limit` items, exactly `min(limit, total - (page-1)*limit)` and none past the end; the items are that window of some newest-first permutation of the matching notes |
| `NoteAccess.NoteService.Create` | src/notes/services/note.service.ts:23-28 | the stored note has the caller as owner and the dto's title and content, and both timestamps equal the advanced clock; it is the only addition, and `findOne` by the caller finds it |
| `NoteAccess.NoteService.Update` | src/notes/services/note.service.ts:30-46 | NotFound with the store unchanged iff the caller does not own note `id`; otherwise only that note's patched fields and update time change, its owner stays, and it heads the caller's listing (under the model's strictly increasing clock) |
| `NoteAccess.NoteService.Remove` | src/notes/services/note.service.ts:48-58 | NotFound with nothing deleted iff the caller does not own note `id`; otherwise exactly that note is deleted |
| `IdentityStore.ProjectionForgetsOnlyPassword` | src/users/repositories/user.repository.ts:16-23 | the selected columns are everything but the password: two rows project alike iff they differ at most in their password |
| `IdentityStore.FindAll` | src/users/repositories/user.repository.ts:14-25 | one password-free projection per stored user, in table order |
| `IdentityStore.FindById` | src/users/repositories/user.repository.ts:27-39 | null iff no user has that id; otherwise the password-free projection of a user with that id |
| `IdentityStore.FindByEmail` | src/users/repositories/user.repository.ts:41-45 | null iff no user has that email; otherwise a full stored record, password included, with that email |
| `IdentityStore.LookupPathsAgree` | src/users/repositories/user.repository.ts:27-45 | with unique keys and emails, a user comes back whole by email and as its projection by id |
| `IdentityStore.PatchKeepsKeys` | src/users/repositories/user.repository.ts:53-56 | an update keeps the keys unique |
| `IdentityStore.PatchedRowFound` | src/users/repositories/user.repository.ts:53-56 | after an update, the lookup by that id returns the patched row without its password |
| `IdentityStore.Without` | src/users/repositories/user.repository.ts:58-61 | after deletion no user has that id, and every user with another id remains |
| `IdentityStore.UserRepository.Create` | src/users/repositories/user.repository.ts:47-51 | appends exactly one record built from the given fields with a fresh key, and returns it whole |
| `IdentityStore.UserRepository.Update` | src/users/repositories/user.repository.ts:53-56 | null with the table unchanged iff the id is absent; otherwise the given fields are applied to that user only, and the result is its password-free projection |
| `IdentityStore.UserRepository.Delete` | src/users/repositories/user.repository.ts:58-61 | true exactly when a user with that id existed; afterwards that user is absent and the others remain |
| `Identity.FindUserById` | src/users/services/user.service.ts:20-26 | NotFound iff no user has that id; otherwise that user's projection |
| `Identity.EmptyEmailEscapesCheck` | src/users/services/user.service.ts:51-58 | the check as written lets an update to the empty email through while another user has it, which leaves two users with one email |
| `Identity.UpdateKeepsEmailsUnique` | src/users/services/user.service.ts:51-60 | an update that passes the intended email check keeps emails unique |
| `Identity.UserService.Create` | src/users/services/user.service.ts:32-46 | Conflict with the store unchanged iff the email is taken; otherwise one new user with the dto's email and names, a password that is the hash result and both timestamps equal to the advanced clock, and emails stay unique |
| `Identity.UserService.Update` | src/users/services/user.service.ts:48-66 | NotFound for an absent id before any email check; Conflict iff a new, different email is taken (re-submitting the current email never conflicts); a stored id without a conflict always succeeds, with the patched projection; emails stay unique |
| `Identity.UserService.Remove` | src/users/services/user.service.ts:68-73 | NotFound exactly when no user had that id; the user is removed |
| `Auth.ValidateUser` | src/auth/services/auth.service.ts:20-33 | nothing when the email is unknown or `compare` rejects; otherwise the projection of the user with that email, with no password; with unique emails, a result exists iff some user has the email and a hash that `compare` accepts |
| `Auth.Login` | src/auth/services/auth.service.ts:35-48 | Unauthorized iff `validateUser` returns nothing (unknown email and wrong password alike); otherwise the validated user and a token signed over `{sub: id, email}` |
| `Auth.StoredUserLogsIn` | src/auth/services/auth.service.ts:20-48 | a stored user logs in exactly with the passwords `compare` accepts against its hash, and gets its own projection and payload |
| `Auth.AuthService.Register` | src/auth/services/auth.service.ts:50-60 | passes on Conflict from user creation and signs no token; otherwise stores the user with the dto's email and names and the hashed password, signs `{sub: id, email}`, and the user can then log in whenever `compare` accepts the registered password against its hash |

## Findings

| source | as written | input that shows it | evidently intended | confidence | as-written member | corrected member |
|---|---|---|---|---|---|---|
| src/notes/services/note.service.ts:11-13 | `findAllByUser(userId)` returns the whole `findByUserId` list. It ignores the page, limit and search that the controller passes (src/notes/controllers/notes.controller.ts:40) and that `INoteService` declares | a user with 11 notes and the default query: all 11 notes, with no `total` or `totalPages` | one page from `findByUserIdPaginated(userId, page, limit, search)` | high; not executed | `NoteAccess.FindAllByUserIgnoresLimit` | `NoteAccess.FindAllByUserPaginated` |
| src/users/services/user.service.ts:51 | `if (updateUserDto.email && ...)` treats an empty email as absent, so the conflict check is skipped | user 1 has email `""`; user 2 is updated with email `""`; both end with `""` | check whenever an email is given | low (the update DTO's validation and the table's constraints are not part of this model); not executed | `Identity.EmptyEmailEscapesCheck` | `Identity.UpdateKeepsEmailsUnique` |

`Identity.UserService.Update` uses the corrected check (`EmailConflict`). The as-written check is kept as `EmailConflictAsWritten`.

## Left out

- SQL `LIKE` semantics. SQLite's `LIKE '%search%'` is ASCII case-insensitive and treats `%` and `_` in `search` as wildcards. The model uses plain substring containment, `Common.Contains`, and makes no claim about case.
- The `relations: ['user']` join of the note `findAll` and `findById` is not modelled. Notes carry only their owner's id.
- Database-generated UUIDs and timestamps are replaced by a key counter and a logical clock. `Math.ceil(total / limit)` is modelled as exact integer ceiling division.
- The cascade delete of a user's notes is not modelled. The database does it through `onDelete: 'CASCADE'`, not the repository code.
- Concurrency is not modelled. The race between the ownership pre-check and the update or delete cannot happen in this sequential model. The post-checks that follow a successful pre-check in `NoteService.update`, `NoteService.remove` and `UserService.update` (`updatedNote`/`updatedUser` null, `deleted` false) are modelled but never taken. `UserService.remove` has no pre-check: its `deleted` check is its only check and gives NotFound for every absent id.
- bcrypt's `hash` and `compare` and `jwtService.sign` are uninterpreted function parameters. The salt, the cost factor 10 and token expiry are not modelled.
- Controllers, guards, the response interceptors and the global ValidationPipe are not modelled. Of the query DTO, only `page >= 1`, `limit >= 1` and the defaults 1 and 10 are kept.
- IdentityStore.FindAll: lists the projections in table order. The query sets no `ORDER BY`, so the database promises no order; only the set of users returned is part of the source's behaviour.
- `UserService.findAll` and `UserService.findByEmail` pass the call straight through. They are modelled by `IdentityStore.FindAll` and `IdentityStore.FindByEmail`.
- src/users/entities/user.entity.ts and the note and user DTO files are not part of this model. The model takes the note patch to carry title and content, and the user patch email, first name and last name. It treats user timestamps like the note ones.
- Whether the `users` table has a unique constraint on email is not modelled, since the entity file is not part of this model.
- `Register` returns the saved record with its hash, as the service does. Removing it from the HTTP response is left to `ClassSerializerInterceptor`, which is not modelled.
- NoteStore.NoteRepository.Update: its promise that the updated note is newer than every other note holds only because the model's clock goes up on every write. The database's `@UpdateDateColumn` timestamps can tie, since SQLite stores them to the second, so a note written in the same second can share the newest time.
- NoteAccess.NoteService.Update: its promise that the updated note heads the caller's listing rests on the same strictly increasing clock. With a tie in `updatedAt`, the query's order (`updatedAt DESC` with no tie-break) may put another note of the same second first.
- NoteStore.Without: states which notes remain, not that their order is kept.
- IdentityStore.Without: states which users remain, not that their order is kept.
- NoteStore.FindAll: states which notes are returned, not their order (the query sets none).
