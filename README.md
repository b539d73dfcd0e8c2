# Local library catalogue: author and genre handlers

A Dafny model of the decision logic of the two Express controllers
`controllers/authorController.js` and `controllers/genreController.js` of a
small library catalogue. The catalogue holds Authors, Genres and Books. A
Book names one author id and a set of genre ids.

The model covers:

- the `express-validator` chains of the author and genre forms: `trim()`,
  `isLength({ min: 1 })`, `escape()`, `isAlphanumeric()`, and the optional
  ISO-8601 `date_of_birth`;
- validated create and update-by-id;
- the delete that the books referring to the record block;
- genre find-or-create by name;
- the detail pages with their 404;
- the listings sorted by family name and by genre name.

## Structure

- `text.dfy` (module `Text`) holds the three string operations the chains use.
  - `Trim` removes characters of JavaScript's `\s` class.
  - `Escape` is validator.js's entity table for `& " ' < > / \` and the backtick.
  - `IsAlphanumeric` is the en-US alphabet: one or more ASCII letters or digits.
- `ordering.dfy` (module `Ordering`) holds the string order of a sorted
  `find()`, code point by code point. It also builds a sorted listing of a
  set of ids (`SortedIds`).
- `store.dfy` (module `Store`) holds the records and the validation messages
  (`FieldError`, each with its field and its exact text). It also has:
  - the outcomes a handler reports: `ValidationFailed`, `NotFound`, `Blocked`
    with the blocking books, and `StoreError`;
  - the catalogue as a value (`Catalog`, one map per collection);
  - the lookups: `findOne` by name and `find` by author or by genre;
  - the two lookups of `async.parallel`, as `Aggregate`;
  - the live collections as the class `Collections`, whose map fields the
    handlers update in place.
- `author_controller.dfy` and `genre_controller.dfy` model the handlers in two forms.
  - A step function takes a `Catalog` and returns the new catalogue and the
    outcome (`Create`, `Update`, `Delete`). The properties are proved about it.
  - A method on `Collections` changes the maps in place (`CreatePost`,
    `UpdatePost`, `DeletePost`). Its postcondition says the new state and the
    outcome are exactly what the step function gives.

Backend errors (a failing `exec`, `save`, `findByIdAndUpdate` or
`findByIdAndRemove`) enter as a `Faults` parameter. It says which of the
record lookup, the dependents lookup and the write fails. Whether a string is
ISO-8601 is the parameter `isIso`.

Behaviour of the code worth knowing:

- An author form with first name `" Jo3 "` and a blank family name gives
  exactly two errors, both on `family_name`. No `.bail()` stops the chain, so
  the blank name fails `isLength` and `isAlphanumeric('')` fails as well,
  while `" Jo3 "` trims to the alphanumeric `"Jo3"`
  (`BlankFamilyNameGivesTwoErrors`).
- Create never adds a second genre of a stored name, but update renames
  without looking at other genres (`UpdateMayDuplicateName`).
- `isLength` does not count the variation selectors U+FE0E and U+FE0F. A name
  made of them alone is not blank, yet it fails `isLength({ min: 1 })`
  (`MeasuredLength`, `SelectorOnlyNameIsRejected`).
- Escaping is written out rather than treated as an opaque step. This shows
  that it cannot change the alphanumeric verdict (`EscapeKeepsAlphanumeric`)
  or the `isLength` verdict (`EscapeKeepsMeasuredZero`). Every entity starts
  with `&`.

## Model

| member | source | states |
|---|---|---|
| Text.TrimStart | controllers/authorController.js:58 | the result is a suffix of the input, everything dropped is whitespace, and it does not start with whitespace |
| Text.TrimEnd | controllers/authorController.js:58 | the result is a prefix of the input, everything dropped is whitespace, and it does not end with whitespace |
| Text.Trim | controllers/authorController.js:58 | no whitespace at either end, and the result is empty exactly when the input is all whitespace |
| Text.TrimKeepsCore | controllers/authorController.js:58 | what `trim()` keeps is one contiguous stretch of the input with only whitespace before and after it |
| Text.DroppedLeadIsSpace | controllers/authorController.js:58 | the leading part `trim()` drops is all whitespace |
| Text.DroppedTailIsSpace | controllers/authorController.js:58 | the trailing part `trim()` drops is all whitespace |
| Text.TrimIdempotent | controllers/authorController.js:58 | trimming an already trimmed value changes nothing |
| Text.EscapeChar | controllers/authorController.js:60 | a special character becomes an entity starting with `&`, any other character is kept, and no markup character is produced |
| Text.Escape | controllers/authorController.js:60 | the result is empty exactly when the input is, is never shorter, equals the input when it has no special character, and contains no markup character |
| Text.EscapeKeepsAllAlnum | controllers/authorController.js:60-62 | escaping leaves a string all-alphanumeric exactly when it was all-alphanumeric (by induction) |
| Text.EscapeKeepsAlphanumeric | controllers/authorController.js:58-62 | `isAlphanumeric` gives the same verdict after `escape()` as before, so escaping between the two checks is invisible to them |
| Text.EscapeAlphanumericIsIdentity | controllers/authorController.js:60-62 | an alphanumeric name is stored exactly as trimmed |
| Text.IsAlphanumeric | controllers/authorController.js:62 | defines the `isAlphanumeric()` check of the default en-US locale: a non-empty string of ASCII letters and digits |
| Text.MeasuredLength | controllers/authorController.js:59 | the length `isLength()` compares: U+FE0E and U+FE0F are not counted, so it is at most the string length and zero exactly when the string holds nothing else |
| Text.MeasuredLengthAppend | controllers/authorController.js:59 | the measured length of a concatenation is the sum of the parts' |
| Text.EscapeKeepsMeasuredZero | controllers/genreController.js:59 | `escape()` never changes whether `isLength({ min: 1 })` passes |
| Text.AlphanumericIsMeasured | controllers/authorController.js:59-62 | a name that passes `isAlphanumeric()` also passes `isLength({ min: 1 })` |
| Ordering.LexLe | controllers/authorController.js:9 | defines the order of an ascending `.sort()` on a string field (also genreController.js:10): code point by code point, a proper prefix first |
| Ordering.LexLeReflexive | controllers/authorController.js:9 | the listing order is reflexive |
| Ordering.LexLeTotal | controllers/authorController.js:9 | any two names are comparable in the listing order |
| Ordering.LexLeAntisymmetric | controllers/authorController.js:9 | two names ordered both ways are equal |
| Ordering.LexLeTransitive | controllers/authorController.js:9 | the listing order is transitive |
| Ordering.FirstExists | controllers/authorController.js:9 | a non-empty set of records has a first one in the listing order |
| Ordering.SortedIds | controllers/genreController.js:9-10 | a listing of a set of ids holds each id exactly once, in ascending key order |
| Store.BooksByAuthor | controllers/authorController.js:137-139 | `Book.find({ author: id })` returns exactly the books naming `id`, unchanged |
| Store.BooksInGenre | controllers/genreController.js:117-119 | `Book.find({ genre: id })` returns exactly the books listing `id`, unchanged |
| Store.Aggregate | controllers/authorController.js:132-142 | the two parallel lookups fail exactly when one of them fails; otherwise they give the record if stored (`null` if not) and its dependents |
| Store.LeastExists | controllers/genreController.js:71 | below any member of a set of ids there is a least member |
| Store.FindByName | controllers/genreController.js:71 | `findOne({ name })` is `null` exactly when no genre has the name; otherwise it is the first genre of that name |
| Store.ListSorted | controllers/authorController.js:8-10 | a sorted `find()` lists every record exactly once, in ascending order of the sort field |
| Store.Collections.FreshId | controllers/authorController.js:90-95 | a new record gets an id no stored author or genre has |
| AuthorController.NameChain | controllers/authorController.js:57-70 | a name chain reports its required message exactly when the trimmed name has nothing `isLength` counts and its alphanumeric message exactly when the trimmed name is not alphanumeric, in that order; a passing name is stored trimmed |
| AuthorController.Falsy | controllers/authorController.js:72 | defines what `optional({ checkFalsy: true })` skips: an empty text or a `null` value |
| AuthorController.DateChain | controllers/authorController.js:71-74 | a falsy date is skipped; otherwise the only possible error is "Invalid date of birth", given exactly for non-empty non-ISO text; an ISO text becomes a date |
| AuthorController.SecondDateRuleAddsNothing | controllers/authorController.js:71-78 | the repeated `date_of_birth` rule never adds an error or changes what the first rule left |
| AuthorController.BirthRules | controllers/authorController.js:71-78 | both date rules together report "Invalid date of birth" once, exactly for a non-empty non-ISO date, and otherwise keep the date or its absence |
| AuthorController.Validate | controllers/authorController.js:57-78 | the errors are the messages of exactly the failing checks, in chain order with no short-circuit (the required checks use the length `isLength` counts); with no error the author holds the trimmed names, the date of birth if given, and the date of death as sent |
| AuthorController.ReportedOnce | controllers/authorController.js:57-78 | the five author messages are distinct, so each is present exactly when its check failed |
| AuthorController.ValidateReportsEachFailure | controllers/authorController.js:57-78 | each of the five messages is shown exactly when its own check fails; a required message exactly when the trimmed name has nothing `isLength` counts |
| AuthorController.ValidateAcceptsExactly | controllers/authorController.js:57-78 | the form passes exactly when both trimmed names are alphanumeric and the date of birth is blank or ISO-8601; the date of death is never checked |
| AuthorController.OnlyFamilyFails | controllers/authorController.js:64-70 | with only the two family-name checks failing, the list is their two messages in order |
| AuthorController.BlankFamilyNameGivesTwoErrors | controllers/authorController.js:57-70 | an alphanumeric first name with a blank family name gives exactly the two family-name errors, in order |
| AuthorController.Create | controllers/authorController.js:79-102 | with any error the store is unchanged and the errors are reported; otherwise exactly one author is added, under a fresh id, and nothing else changes |
| AuthorController.CreateStoresSubmittedFields | controllers/authorController.js:57-100 | a valid form adds one new author holding the four submitted fields: the trimmed names and the dates as sent |
| AuthorController.Update | controllers/authorController.js:194-225 | with any error nothing changes; otherwise exactly the author at the id is replaced and keeps its id; an id with no author changes nothing |
| AuthorController.Delete | controllers/authorController.js:131-159 | any book naming the author blocks the delete, leaves the store unchanged and returns those books; otherwise exactly that author id is removed and nothing else changes |
| AuthorController.DeleteAbsentIsNoOp | controllers/authorController.js:144-155 | deleting an absent author with no books succeeds and changes nothing |
| AuthorController.DeleteIsIdempotent | controllers/authorController.js:151-155 | a second delete of the same author succeeds and changes nothing more |
| AuthorController.BlockedUntilBooksRemoved | controllers/authorController.js:144-155 | a book by the author blocks the delete and is among the returned books; once the author's books are gone, the delete removes the author |
| AuthorController.HandlersKeepReferencesResolved | controllers/authorController.js:79-225 | no author handler leaves a book naming a missing author |
| AuthorController.Detail | controllers/authorController.js:23-48 | a missing author is NotFound whatever its books; otherwise the page holds the author and exactly its books |
| AuthorController.List | controllers/authorController.js:7-20 | the author list holds every author exactly once, ascending by family name |
| AuthorController.CreatePost | controllers/authorController.js:79-102 | the create handler on the live collections ends in exactly the state and outcome of `Create` |
| AuthorController.UpdatePost | controllers/authorController.js:194-225 | the update handler on the live collections ends in exactly the state and outcome of `Update` |
| AuthorController.DeletePost | controllers/authorController.js:131-159 | the delete handler checks and removes the one id it was given, and ends in exactly the state and outcome of `Delete` |
| GenreController.ValidateName | controllers/genreController.js:59 | "Genre name required" is reported exactly when the trimmed name has nothing `isLength` counts; the sanitized name has nothing counted exactly then, holds no markup character, and is the trimmed name when that has no special character |
| GenreController.SelectorOnlyNameIsRejected | controllers/genreController.js:59 | a name that is only U+FE0F is refused with "Genre name required" although it is not blank |
| GenreController.BlankNameIsRejected | controllers/genreController.js:59-69 | a blank name is refused with the one message, and the store is not consulted or changed |
| GenreController.Create | controllers/genreController.js:60-85 | with an error nothing is looked up or changed; an existing genre of that name is returned with the store unchanged; otherwise exactly one new genre is added under a fresh id |
| GenreController.CreateTwice | controllers/genreController.js:71-81 | a second create of the same name returns the genre the first ended on and changes nothing |
| GenreController.CreateKeepsNamesUnique | controllers/genreController.js:71-81 | create never adds a second genre of a stored name |
| GenreController.CreateTwiceLeavesOneGenre | controllers/genreController.js:71-81 | with unique names before, two creates of a name return the same id and leave exactly one genre of that name |
| GenreController.Update | controllers/genreController.js:153-178 | with an error nothing changes; otherwise exactly the genre at the id takes the name and keeps its id; an id with no genre changes nothing |
| GenreController.UpdateMayDuplicateName | controllers/genreController.js:155-176 | renaming a genre to another genre's name succeeds, and two genres then share the name |
| GenreController.Delete | controllers/genreController.js:111-139 | any book listing the genre blocks the delete, leaves the store unchanged and returns those books; otherwise exactly that genre is removed and nothing else changes |
| GenreController.DeleteIsIdempotent | controllers/genreController.js:130-136 | a second delete of the same genre succeeds and changes nothing more |
| GenreController.BlockedUntilBooksRemoved | controllers/genreController.js:124-136 | a book listing the genre blocks the delete and is among the returned books; once those books are gone, the delete removes the genre |
| GenreController.HandlersKeepReferencesResolved | controllers/genreController.js:60-178 | no genre handler leaves a book listing a missing genre |
| GenreController.Detail | controllers/genreController.js:24-50 | a missing genre is NotFound whatever its books; otherwise the page holds the genre and exactly its books |
| GenreController.List | controllers/genreController.js:8-21 | the genre list holds every genre exactly once, ascending by name |
| GenreController.CreatePost | controllers/genreController.js:60-85 | the find-or-create handler on the live collections ends in exactly the state and outcome of `Create` |
| GenreController.UpdatePost | controllers/genreController.js:153-178 | the update handler on the live collections ends in exactly the state and outcome of `Update` |
| GenreController.DeletePost | controllers/genreController.js:111-139 | the delete handler on the live collections ends in exactly the state and outcome of `Delete` |

## Left out

- Rendering, redirects and `url` virtuals are left out. A handler's page is replaced by its outcome: `Ok`, `ValidationFailed`, `NotFound`, `Blocked` or `StoreError`.
- Mongoose and MongoDB are replaced by maps keyed by a natural-number id.
  - Ids are handed out in increasing order.
  - `populate('author')` only affects display.
  - A malformed id that fails the ObjectId cast is not modelled.
- `async.parallel` becomes the two lookups taken one after the other, and the first failure wins. The race between `findOne` and `save` in genre create needs concurrent requests and is not modelled.
- Real ISO-8601 parsing and `toDate()` are left out. `isIso` is a parameter, and a valid date is stored as its text.
- The repeated `date_of_birth` rule assumes that a `Date` passes `isISO8601` again, since it is checked through its ISO string.
- Mongoose's casting of `date_of_death` is reduced to: an empty value is stored as absent, anything else as sent.
- `escape()` covers only the entity table, and `isAlphanumeric` only the default en-US locale.
- Sorting compares strings code point by code point. The order of equal names is unspecified in the store, so no contract states it.
- `findOne` returning the "first" genre is modelled as the genre with the least id, which stands for the collection's insertion order.
- AuthorController.Update: an id with no author returns `NotFound` and changes nothing. The code instead crashes when it reads `theAuthor.url` on a `null` result.
- GenreController.Update: an id with no genre returns `NotFound` and changes nothing. The code instead crashes when it reads `theGenre.url` on a `null` result.
- The GET handlers are not modelled: the create, update and delete forms, and `author_delete_get`, which redirects without returning.
- `genre_list` and `genre_detail` call a `next` they do not receive, so a store error there throws a ReferenceError instead of reaching the error handler. The model reports `StoreError`.
- GenreController.Detail: in `genre_detail` a missing genre throws that ReferenceError too (genreController.js:40). The model reports the `NotFound` that lines 37-39 build.
- Books and book instances are never created, updated or deleted by these handlers. `Collections.constructor` takes the books as given.
