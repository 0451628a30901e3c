# Notes backend: owner-scoped store of notes and categories

This project models the request handlers of a small note-taking backend
(`register/views.py`). It covers registering users, creating, updating,
deleting, viewing, listing and searching notes, creating categories,
assigning a category to a note, and toggling a note's favourite flag. The
database is replaced by three in-memory tables:

- the set of registered usernames;
- categories keyed by id, each with a name and an owner;
- notes keyed by id, each with a title, a content, an owner, an optional
  category and a favourite flag.

Note ids and category ids come from two auto-increment sequences, one per
table, starting at 1.

Every handler takes the authenticated caller as an explicit argument. Every
read or write of a note or category is scoped to rows the caller owns, so a
row owned by someone else behaves like a missing one. Results are tagged:
`Ok(..)`, or `Err` with `BadRequest`, `Conflict`, `NotFound` or
`InvalidRef`.

Modules:

- `TextMatch` (`text_match.dfy`): ASCII lower-casing and substring
  containment. `Contains` is proved equal to the positional definition of a
  substring.
- `NoteModel` (`note_model.dfy`): the rows, the `Tables` value, the store
  invariant `Valid`, the scoped fetches, and `OthersUnchanged` (rows of other
  users are untouched). The scoped fetches `ScopedNote` and `ScopedCategory`
  and the category display `CategoryName` are helpers: what they promise is
  stated by the handlers that use them and, for `CategoryName`, by
  `CategoryNameShown`.
- `NoteQueries` (`note_queries.dfy`): the read-only handlers (`View`, `List`,
  `Search`) as functions of the tables, with their lemmas. `Hit`, `HitsOf`,
  `ListBelow` and `Filter` are helpers of `List` and `Search`.
- `NoteOps` (`note_ops.dfy`): the state-changing handlers as transitions
  `Tables -> (result, Tables)`. Their contracts state the result, the new
  tables and the frame. `Missing`, the registration handler's test for an
  absent or empty field, is a helper of `Register`.
- `NoteStore` (`note_store.dfy`): the class `Store`. Its fields are the
  tables and the two id counters. Its methods update those fields step by
  step, the way the handlers do. Each method is proved to return the result
  and reach the state of its `NoteOps` transition, and to keep `Valid`. The
  file ends with a verified session through these methods: register, create,
  categorise, view, favourite, search, register again.

Assumptions the code depends on but does not show (the model definitions
in `register/models.py` are not part of this model):

- title, content and category name are plain strings;
- a new note is not a favourite;
- a note has no category until one is assigned.

## Model

| member | source | states |
|---|---|---|
| `NoteOps.Register` | register/views.py:24-30 | BadRequest when the username or password is absent or empty; otherwise Conflict when the username exists. The store is unchanged in both cases. Otherwise Ok, and the user set grows by exactly that username and nothing else changes. Valid is kept. |
| `NoteOps.RegisterTwiceConflicts` | register/views.py:27-28 | a username that registered successfully gets Conflict on a second registration |
| `NoteOps.CreateNote` | register/views.py:62-68 | returns a fresh id that was not a note key before. The notes table gains exactly that key, holding (title, content, owner = caller, no category, not favourite). Every existing note, the users and the categories are unchanged. Other users' rows are untouched. Valid is kept when the caller is a registered user. |
| `NoteOps.CreateThenView` | register/views.py:62-66 | viewing a just-created note returns exactly the supplied title and content, no category and not favourite |
| `NoteOps.UpdateNote` | register/views.py:74-83 | NotFound with the store unchanged unless the caller owns the note. Otherwise the title changes only if the request carries one, and likewise the content. Present values replace the old ones, even when empty. Owner, category, favourite flag, every other note and the other tables are unchanged, and Valid is kept. |
| `NoteOps.EmptyUpdateChangesNothing` | register/views.py:79-81 | an update request with neither field leaves the store exactly as it was |
| `NoteOps.DeleteNote` | register/views.py:89-94 | NotFound with the store unchanged unless the caller owns the note. Otherwise exactly that key is removed, the remaining notes keep their values, and categories and users are unchanged. Valid is kept. |
| `NoteOps.DeleteThenNotFound` | register/views.py:89-94 | after a successful delete, View, Update, Toggle and Delete of that id give NotFound, and the view of every other id is as before |
| `NoteOps.CreateCategory` | register/views.py:134-138 | returns a fresh category id. The categories table gains exactly that key, holding (name, owner = caller). Existing categories, notes and users are unchanged. Valid is kept when the caller is a registered user. |
| `NoteOps.AssignCategory` | register/views.py:146-158 | Ok iff the caller owns the note AND a category id was sent AND the caller owns that category. Any failure gives the single InvalidRef with the store unchanged. On success only that note's category field changes, and Valid is kept (a note's category belongs to the note's owner). |
| `NoteOps.AssignThenView` | register/views.py:155-156 | after a successful assignment the note's view shows the assigned category's name |
| `NoteOps.ToggleFavorite` | register/views.py:177-184 | NotFound with the store unchanged unless the caller owns the note. Otherwise it returns the negated flag and stores it in that note. Nothing else changes, and Valid is kept. |
| `NoteOps.ToggleTwiceRestores` | register/views.py:181-184 | toggling twice restores the store exactly; the second answer is the negation of the first, and a failed toggle fails again |
| `NoteOps.OtherUsersNotesUntouchable` | register/views.py:74-76 | a note of another user: Update, Delete and Toggle give NotFound and AssignCategory gives InvalidRef, all with the store unchanged |
| `NoteOps.UnregisteredCallerChangesNothing` | register/views.py:74-76 | in a valid store a caller who is not a registered user owns no note: Update, Delete and Toggle give NotFound and AssignCategory gives InvalidRef, all with the store unchanged |
| `NoteModel.CategoryNameShown` | register/views.py:105 | in a valid store a note shows a category name iff it has a category, and the name shown is that category's name |
| `NoteQueries.View` | register/views.py:116-126 | Ok iff the caller owns the note, otherwise NotFound. The view carries the id, title, content, category name (None without a category) and favourite flag of that note. |
| `NoteQueries.Project` | register/views.py:101-107 | the dictionary built for a note by the list handler and, identically, by the view handler (lines 120-126) carries the note's id; it shows a category only for a note that has one, and in a valid store that is the name of the note's own category |
| `NoteQueries.List` | register/views.py:98-110 | every listed entry is a note the caller owns, shown as projected, in strictly ascending id order, and every note of the caller with an id below the note id counter is listed; in a valid store that is every note of the caller (`ListIsExactlyOwned`) |
| `NoteQueries.ListBelowCorrect` | register/views.py:100-109 | the list below a bound holds each caller's note below it, as projected, in strictly ascending id order, and nothing else |
| `NoteQueries.ListIsExactlyOwned` | register/views.py:100-109 | in a valid store an id is listed iff the caller owns that note. Each listed entry equals what the view handler returns for its id, and no id appears twice. |
| `NoteQueries.QueryText` | register/views.py:163 | a sent `q` is the query as given; a missing `q` gives a query that matches every note |
| `NoteQueries.Matches` | register/views.py:166 | the empty query matches every note, and a query matches only when it is no longer than the title, the content or the category name of the note |
| `NoteQueries.Search` | register/views.py:161-171 | every hit is a note the caller owns that matches the query, shown as (id, title, category name), in strictly ascending id order |
| `NoteQueries.SearchIsExactlyMatching` | register/views.py:163-169 | in a valid store an id is found iff the caller owns the note and its title, content or category name contains the query ignoring case. Each hit is the (id, title, category name) of its note, in strictly ascending id order. |
| `NoteQueries.FoundByContent` | register/views.py:166 | a caller's note whose content contains the query is found |
| `NoteQueries.SearchEmptyIsList` | register/views.py:163-166 | a missing or empty query returns the whole list of the caller's notes, in the same order |
| `NoteQueries.SearchCaseIrrelevant` | register/views.py:166 | two queries equal after ASCII lower-casing give identical results |
| `NoteQueries.SearchLowerQuery` | register/views.py:166 | lower-casing the query before searching changes no result |
| `NoteQueries.LongQueryFindsNothing` | register/views.py:164-166 | a query longer than every note's title and content and every category's name finds no note |
| `NoteQueries.OtherUsersNotesHidden` | register/views.py:108-118 | a note of another user is not viewable, not listed and not found by any query |
| `TextMatch.LowerChar` | register/views.py:166 | upper-case ASCII letters map to their lower-case letter, every other character is kept, and the result is never an upper-case ASCII letter |
| `TextMatch.LowerIdempotent` | register/views.py:166 | lower-casing twice is lower-casing once |
| `TextMatch.ContainsIffOccurs` | register/views.py:166 | the recursive substring test holds iff the needle occurs at some position of the haystack |
| `TextMatch.ContainsIgnoringCase` | register/views.py:166 | the `icontains` test holds iff the lower-cased needle occurs at some position of the lower-cased haystack, so a needle longer than the haystack never matches |
| `TextMatch.EmptyQueryMatches` | register/views.py:163-166 | the empty query matches every field |
| `TextMatch.QueryCaseIrrelevant` | register/views.py:166 | queries equal after lower-casing match the same fields |
| `TextMatch.GroceriesMatchesGro` | register/views.py:166 | the title "Groceries" matches the query "GRO" |
| `NoteStore.Store.RegisterUser` | register/views.py:24-31 | result and new state are those of `NoteOps.Register`; Valid is kept |
| `NoteStore.Store.CreateNote` | register/views.py:62-68 | result and new state are those of `NoteOps.CreateNote`; Valid is kept |
| `NoteStore.Store.UpdateNote` | register/views.py:74-83 | result and new state are those of `NoteOps.UpdateNote`; Valid is kept |
| `NoteStore.Store.DeleteNote` | register/views.py:89-94 | result and new state are those of `NoteOps.DeleteNote`; Valid is kept |
| `NoteStore.Store.CreateCategory` | register/views.py:134-138 | result and new state are those of `NoteOps.CreateCategory`; Valid is kept |
| `NoteStore.Store.AssignCategory` | register/views.py:146-158 | result and new state are those of `NoteOps.AssignCategory`; Valid is kept |
| `NoteStore.Store.ToggleFavorite` | register/views.py:177-184 | result and new state are those of `NoteOps.ToggleFavorite`; Valid is kept |

## Left out

- HTTP and JSON plumbing is not modelled: parsing request bodies, building
  responses, CSRF exemption, and the message returned for non-POST requests
  (register/views.py:17-18, 35-36). Status codes appear only as the result
  tags.
- `login_user` and `logout_user` (register/views.py:33-53) are left out.
  They call the framework's authentication and session functions.
- The login-required redirect is left out. The authenticated caller is a
  method argument. `Store.CreateNote` and `Store.CreateCategory` require
  that caller to be a registered user, since the new row's owner must be
  one. `UpdateNote`, `DeleteNote`, `AssignCategory` and `ToggleFavorite`
  accept any caller: in a valid store an unregistered caller owns no row,
  so these give NotFound or InvalidRef and leave the store unchanged.
- Passwords are checked only for presence. They are not stored, because
  `create_user` hashes them inside the framework.
- Database behaviour is not modelled: query compilation, joins, collation,
  Unicode case folding (only ASCII letters are folded), transactions, and
  concurrent requests (last write wins).
- List and search order: the handlers do not order their queries. The model
  returns rows in ascending id order, which is the insertion order of an
  auto-increment table.
- `NoteOps.CreateNote`: the title and content are taken as present strings.
  A request body without them would pass None to the database, and what
  happens then depends on field nullability in `register/models.py`, which
  is not part of this model. The same holds for the category name in
  `NoteOps.CreateCategory`.
- `NoteOps.UpdateNote`: a field that is present in the body with a JSON null
  value is not modelled; a present field always carries a string.
- `NoteOps.Register`: only absent and empty strings count as missing. Other
  falsy JSON values, such as 0 or false, are not modelled.
- `NoteOps.Register`: does not model the Unicode NFKC normalisation that
  `create_user` (register/views.py:30) applies to the username before
  saving it, while the existence check at register/views.py:27 compares the
  raw name. A name that equals a registered one only after normalisation
  (fullwidth "ｆｏｏ" when "foo" exists) passes that check and then fails on
  the unique username constraint in the source. The model returns Ok and
  adds it as a new user.
- `NoteOps.CreateNote` and `NoteOps.CreateCategory`: ids are unbounded
  naturals, whereas the framework's auto-increment id columns have a fixed
  width; that width, and what happens when a sequence is exhausted, are not
  modelled.
- Deleting users and categories is left out. The handlers never do it, so
  cascade deletes are not modelled.
