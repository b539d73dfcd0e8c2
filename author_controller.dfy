/** The Author handlers: the validation chains of the create and update
    forms, create, update by id, the delete guarded by the author's books,
    the detail page and the list ordered by family name. */
module AuthorController {
  import opened Text
  import opened Store
  import Ordering

  /** The submitted author form; a field that was not sent reads as "". */
  datatype AuthorForm = AuthorForm(firstName: string, familyName: string,
                                   dateOfBirth: string, dateOfDeath: string)

  /** A name chain: `trim()`, `isLength({ min: 1 })`, `escape()`,
      `isAlphanumeric()`. There is no `.bail()`, so both checks run and each
      failing one adds its own message (an empty name fails both). The
      length check counts no variation selector (`MeasuredLength`); escaping
      between the two checks never changes the second verdict. Gives the
      errors and the sanitized value, which is the trimmed name when that is
      alphanumeric. */
  function NameChain(raw: string, required: FieldError, notAlphanumeric: FieldError)
    : (r: (seq<FieldError>, string))
    ensures r.0 == Reported(MeasuredLength(Trim(raw)) == 0, required) + Reported(!IsAlphanumeric(Trim(raw)), notAlphanumeric)
    ensures IsAlphanumeric(Trim(raw)) ==> r.1 == Trim(raw)
  {
    var trimmed := Trim(raw);
    var missing := if MeasuredLength(trimmed) >= 1 then [] else [required];
    var escaped := Escape(trimmed);
    EscapeKeepsAlphanumeric(trimmed);
    EscapeAlphanumericIsIdentity(trimmed);
    var malformed := if IsAlphanumeric(escaped) then [] else [notAlphanumeric];
    (missing + malformed, escaped)
  }

  /** `date_of_birth` as the chains see it: the submitted text, the `Date`
      that `toDate()` made of it, or the `null` it gives for text it cannot read. */
  datatype DateValue = Text(text: string) | Date(iso: string) | Null

  /** What `optional({ checkFalsy: true })` skips. */
  predicate Falsy(d: DateValue) {
    d == Text("") || d == Null
  }

  /** One `date_of_birth` chain: a falsy value is skipped, any other must be
      ISO-8601 (`isIso` stands for `isISO8601()`) and is turned into a date.
      A `Date` is checked through its ISO string, which passes. */
  function DateChain(d: DateValue, isIso: string -> bool): (r: (seq<FieldError>, DateValue))
    ensures Falsy(d) ==> r == ([], d)
    ensures r.0 == [] || r.0 == [InvalidDateOfBirth]
    ensures r.0 != [] <==> d.Text? && d.text != "" && !isIso(d.text)
    ensures r.0 == [] && !Falsy(d) ==> r.1.Date?
  {
    match d
    case Text(s) =>
      if s == "" then ([], d)
      else if isIso(s) then ([], Date(s))
      else ([InvalidDateOfBirth], Null)
    case Date(_) => ([], d)
    case Null => ([], d)
  }

  /** The `date_of_birth` rule is written twice; the second run sees what the
      first left (a date, `null` or a falsy text) and never adds an error or
      changes the value. */
  lemma SecondDateRuleAddsNothing(d: DateValue, isIso: string -> bool)
    ensures DateChain(DateChain(d, isIso).1, isIso) == ([], DateChain(d, isIso).1)
  {
  }

  /** Both `date_of_birth` rules, the one after the other: at most one error,
      reported exactly when a non-empty date is not ISO-8601, and otherwise the
      date kept (or `None` when none was given). */
  function BirthRules(dateOfBirth: string, isIso: string -> bool): (r: (seq<FieldError>, Option<string>))
    ensures r.0 == Reported(dateOfBirth != "" && !isIso(dateOfBirth), InvalidDateOfBirth)
    ensures r.0 == [] ==> r.1 == if dateOfBirth == "" then None else Some(dateOfBirth)
  {
    var once := DateChain(Text(dateOfBirth), isIso);
    var twice := DateChain(once.1, isIso);
    SecondDateRuleAddsNothing(Text(dateOfBirth), isIso);
    (once.0 + twice.0, if twice.1.Date? then Some(twice.1.iso) else None)
  }

  /** The validated form: every error in chain order, and the author to store. */
  datatype Checked = Checked(errors: seq<FieldError>, author: Author)

  /** The validation chains of `author_create_post` and `author_update_post`.
      Every failing check is reported, once; with no error the author holds
      the trimmed names, the date of birth when one was given, and the date of
      death exactly as it was sent (it is never checked). */
  function Validate(form: AuthorForm, isIso: string -> bool): (r: Checked)
    ensures r.errors == (Reported(MeasuredLength(Trim(form.firstName)) == 0, FirstNameRequired)
                         + Reported(!IsAlphanumeric(Trim(form.firstName)), FirstNameNotAlphanumeric))
                      + (Reported(MeasuredLength(Trim(form.familyName)) == 0, FamilyNameRequired)
                         + Reported(!IsAlphanumeric(Trim(form.familyName)), FamilyNameNotAlphanumeric))
                      + Reported(form.dateOfBirth != "" && !isIso(form.dateOfBirth), InvalidDateOfBirth)
    ensures r.errors == [] ==> r.author == Author(Trim(form.firstName), Trim(form.familyName),
                                                  if form.dateOfBirth == "" then None else Some(form.dateOfBirth),
                                                  if form.dateOfDeath == "" then None else Some(form.dateOfDeath))
  {
    var first := NameChain(form.firstName, FirstNameRequired, FirstNameNotAlphanumeric);
    var family := NameChain(form.familyName, FamilyNameRequired, FamilyNameNotAlphanumeric);
    var birth := BirthRules(form.dateOfBirth, isIso);
    var dateOfDeath := if form.dateOfDeath == "" then None else Some(form.dateOfDeath);
    Checked(first.0 + family.0 + birth.0, Author(first.1, family.1, birth.1, dateOfDeath))
  }

  /** The five author messages are distinct, so each one is in the list
      exactly when its own check failed. */
  lemma ReportedOnce(firstMissing: bool, firstMalformed: bool, familyMissing: bool,
                     familyMalformed: bool, birthInvalid: bool)
    ensures var errors := (Reported(firstMissing, FirstNameRequired) + Reported(firstMalformed, FirstNameNotAlphanumeric))
                          + (Reported(familyMissing, FamilyNameRequired) + Reported(familyMalformed, FamilyNameNotAlphanumeric))
                          + Reported(birthInvalid, InvalidDateOfBirth);
            && (FirstNameRequired in errors <==> firstMissing)
            && (FirstNameNotAlphanumeric in errors <==> firstMalformed)
            && (FamilyNameRequired in errors <==> familyMissing)
            && (FamilyNameNotAlphanumeric in errors <==> familyMalformed)
            && (InvalidDateOfBirth in errors <==> birthInvalid)
  {
  }

  /** With only the two family-name checks failing, the list is their two
      messages in chain order. */
  lemma OnlyFamilyFails(firstMissing: bool, firstMalformed: bool, familyMissing: bool,
                        familyMalformed: bool, birthInvalid: bool)
    requires !firstMissing && !firstMalformed && familyMissing && familyMalformed && !birthInvalid
    ensures (Reported(firstMissing, FirstNameRequired) + Reported(firstMalformed, FirstNameNotAlphanumeric))
            + (Reported(familyMissing, FamilyNameRequired) + Reported(familyMalformed, FamilyNameNotAlphanumeric))
            + Reported(birthInvalid, InvalidDateOfBirth)
            == [FamilyNameRequired, FamilyNameNotAlphanumeric]
  {
  }

  /** Each of the five messages is shown exactly when its own check fails. */
  lemma ValidateReportsEachFailure(form: AuthorForm, isIso: string -> bool)
    ensures var errors := Validate(form, isIso).errors;
            && (FirstNameRequired in errors <==> MeasuredLength(Trim(form.firstName)) == 0)
            && (FirstNameNotAlphanumeric in errors <==> !IsAlphanumeric(Trim(form.firstName)))
            && (FamilyNameRequired in errors <==> MeasuredLength(Trim(form.familyName)) == 0)
            && (FamilyNameNotAlphanumeric in errors <==> !IsAlphanumeric(Trim(form.familyName)))
            && (InvalidDateOfBirth in errors <==> form.dateOfBirth != "" && !isIso(form.dateOfBirth))
  {
    ReportedOnce(MeasuredLength(Trim(form.firstName)) == 0, !IsAlphanumeric(Trim(form.firstName)),
                 MeasuredLength(Trim(form.familyName)) == 0, !IsAlphanumeric(Trim(form.familyName)),
                 form.dateOfBirth != "" && !isIso(form.dateOfBirth));
  }

  /** The form is accepted exactly when both names are alphanumeric once
      trimmed and the date of birth is blank or ISO-8601; the date of death
      is never checked. */
  lemma ValidateAcceptsExactly(form: AuthorForm, isIso: string -> bool)
    ensures Validate(form, isIso).errors == [] <==>
              && IsAlphanumeric(Trim(form.firstName))
              && IsAlphanumeric(Trim(form.familyName))
              && (form.dateOfBirth == "" || isIso(form.dateOfBirth))
  {
    if IsAlphanumeric(Trim(form.firstName)) {
      AlphanumericIsMeasured(Trim(form.firstName));
    }
    if IsAlphanumeric(Trim(form.familyName)) {
      AlphanumericIsMeasured(Trim(form.familyName));
    }
  }

  /** A blank family name fails both of its checks, while a first name that
      is alphanumeric once trimmed (" Jo3 ", say) passes: exactly two errors,
      both on `family_name`, in chain order. */
  lemma BlankFamilyNameGivesTwoErrors(form: AuthorForm, isIso: string -> bool)
    requires IsAlphanumeric(Trim(form.firstName))
    requires AllSpace(form.familyName) && form.dateOfBirth == ""
    ensures Validate(form, isIso).errors == [FamilyNameRequired, FamilyNameNotAlphanumeric]
  {
    var first := Trim(form.firstName);
    var family := Trim(form.familyName);
    assert family == [] && MeasuredLength(family) == 0;
    assert !IsAlphanumeric(family);
    AlphanumericIsMeasured(first);
    OnlyFamilyFails(MeasuredLength(first) == 0, !IsAlphanumeric(first),
                    MeasuredLength(family) == 0, !IsAlphanumeric(family),
                    form.dateOfBirth != "" && !isIso(form.dateOfBirth));
  }

  /** The handler of `author_create_post`, given what its validation chains
      left (`validationResult(req)` and the sanitized body): with any error the
      form is shown again and nothing is stored; otherwise one author is saved
      under a new id. */
  function Create(c: Catalog, checked: Checked, faults: Faults): (r: Step<Id>)
    ensures r.outcome.Err? ==> r.after == c
    ensures checked.errors != [] ==>
              r.outcome == Err(ValidationFailed(checked.errors))
    ensures r.outcome.Ok? <==> checked.errors == [] && !faults.writeFails
    ensures r.outcome.Ok? ==> && r.after.authors == c.authors[r.outcome.value := checked.author]
                              && r.after.genres == c.genres && r.after.books == c.books
    ensures WellFormed(c) ==> WellFormed(r.after)
    ensures WellFormed(c) && r.outcome.Ok? ==> && r.outcome.value !in c.authors
                                               && |r.after.authors| == |c.authors| + 1
  {
    if checked.errors != [] then Step(c, Err(ValidationFailed(checked.errors)))
    else if faults.writeFails then Step(c, Err(StoreError))
    else Step(c.(authors := c.authors[c.nextId := checked.author], nextId := c.nextId + 1), Ok(c.nextId))
  }

  /** A submission that passes validation stores one new author holding the
      four submitted fields: the names trimmed, the dates as sent. */
  lemma CreateStoresSubmittedFields(c: Catalog, form: AuthorForm, isIso: string -> bool)
    requires WellFormed(c)
    requires Validate(form, isIso).errors == []
    ensures var r := Create(c, Validate(form, isIso), NoFaults);
            && r.outcome.Ok? && r.outcome.value !in c.authors
            && r.after.authors == c.authors[r.outcome.value := Author(
                 Trim(form.firstName), Trim(form.familyName),
                 if form.dateOfBirth == "" then None else Some(form.dateOfBirth),
                 if form.dateOfDeath == "" then None else Some(form.dateOfDeath))]
  {
  }

  /** The handler of `author_update_post` for the author at `id`, given what
      its validation chains left: with any error
      nothing changes; otherwise that author, and no other record, gets the
      submitted fields and keeps its id. An id with no author changes nothing
      (the handler then fails on the missing result). */
  function Update(c: Catalog, id: Id, checked: Checked, faults: Faults): (r: Step<Id>)
    ensures r.outcome.Err? ==> r.after == c
    ensures checked.errors != [] ==>
              r.outcome == Err(ValidationFailed(checked.errors))
    ensures checked.errors == [] && !faults.writeFails && id !in c.authors ==>
              r.outcome == Err(NotFound)
    ensures r.outcome.Ok? <==> checked.errors == [] && !faults.writeFails && id in c.authors
    ensures r.outcome.Ok? ==> && r.outcome.value == id
                              && r.after == c.(authors := c.authors[id := checked.author])
    ensures r.after.authors.Keys == c.authors.Keys
    ensures WellFormed(c) ==> WellFormed(r.after)
  {
    if checked.errors != [] then Step(c, Err(ValidationFailed(checked.errors)))
    else if faults.writeFails then Step(c, Err(StoreError))
    else if id !in c.authors then Step(c, Err(NotFound))
    else Step(c.(authors := c.authors[id := checked.author]), Ok(id))
  }

  /** `author_delete_post` for `authorId`: refused, with nothing removed, as
      long as one book names that author; otherwise exactly that id is removed
      from the authors and everything else is left as it was. An author that
      is already gone is "removed" again without complaint. */
  function Delete(c: Catalog, authorId: Id, faults: Faults): (r: Step<()>)
    ensures r.outcome.Err? ==> r.after == c
    ensures && !faults.lookupFails && !faults.dependentsFail
            && (exists b :: b in c.books && c.books[b].author == authorId) ==>
              r.outcome == Err(Blocked(BooksByAuthor(c.books, authorId)))
    ensures r.outcome.Ok? <==> && !faults.lookupFails && !faults.dependentsFail && !faults.writeFails
                               && forall b :: b in c.books ==> c.books[b].author != authorId
    ensures r.outcome.Ok? ==> r.after == c.(authors := c.authors - {authorId})
    ensures r.outcome.Ok? && authorId in c.authors ==> |r.after.authors| == |c.authors| - 1
    ensures WellFormed(c) ==> WellFormed(r.after)
  {
    var dependents := BooksByAuthor(c.books, authorId);
    if faults.lookupFails || faults.dependentsFail then Step(c, Err(StoreError))
    else if dependents != map[] then Step(c, Err(Blocked(dependents)))
    else if faults.writeFails then Step(c, Err(StoreError))
    else Step(c.(authors := c.authors - {authorId}), Ok(()))
  }

  /** Deleting an author that is already gone, and has no books, succeeds
      and leaves every collection as it was. */
  lemma DeleteAbsentIsNoOp(c: Catalog, authorId: Id)
    requires authorId !in c.authors
    requires forall b :: b in c.books ==> c.books[b].author != authorId
    ensures Delete(c, authorId, NoFaults) == Step(c, Ok(()))
  {
    assert c.authors - {authorId} == c.authors;
  }

  /** A second delete of the same author succeeds and changes nothing more. */
  lemma DeleteIsIdempotent(c: Catalog, authorId: Id)
    requires Delete(c, authorId, NoFaults).outcome.Ok?
    ensures var once := Delete(c, authorId, NoFaults).after;
            Delete(once, authorId, NoFaults) == Step(once, Ok(()))
  {
    var once := Delete(c, authorId, NoFaults).after;
    DeleteAbsentIsNoOp(once, authorId);
  }

  /** One book by the author blocks the delete and is among the books
      returned; once the author's books are removed, the delete goes through
      and the author is gone. */
  lemma BlockedUntilBooksRemoved(c: Catalog, authorId: Id, book: Id)
    requires book in c.books && c.books[book].author == authorId
    ensures var r := Delete(c, authorId, NoFaults);
            r.outcome.Err? && r.outcome.failure.Blocked? && book in r.outcome.failure.dependents
    ensures var cleared := c.(books := c.books - BooksByAuthor(c.books, authorId).Keys);
            var r := Delete(cleared, authorId, NoFaults);
            r.outcome.Ok? && authorId !in r.after.authors
  {
    var cleared := c.(books := c.books - BooksByAuthor(c.books, authorId).Keys);
    forall b | b in cleared.books ensures cleared.books[b].author != authorId {
      assert b !in BooksByAuthor(c.books, authorId);
    }
  }

  /** No handler leaves a book pointing at a missing author: create and
      update keep every author id, and delete removes only authors no book
      names. */
  lemma HandlersKeepReferencesResolved(c: Catalog, id: Id, checked: Checked, faults: Faults)
    requires ReferencesResolve(c)
    ensures ReferencesResolve(Create(c, checked, faults).after)
    ensures ReferencesResolve(Update(c, id, checked, faults).after)
    ensures ReferencesResolve(Delete(c, id, faults).after)
  {
  }

  /** The author detail page: the author and its books. */
  datatype Details = Details(author: Author, books: map<Id, Book>)

  /** `author_detail`: a missing author is a 404 whatever books name it. */
  function Detail(c: Catalog, id: Id, faults: Faults): (r: Result<Details>)
    ensures faults.lookupFails || faults.dependentsFail ==> r == Err(StoreError)
    ensures !faults.lookupFails && !faults.dependentsFail && id !in c.authors ==> r == Err(NotFound)
    ensures r.Ok? <==> !faults.lookupFails && !faults.dependentsFail && id in c.authors
    ensures r.Ok? ==> r.value == Details(c.authors[id], BooksByAuthor(c.books, id))
  {
    var joined := Aggregate(c.authors, id, BooksByAuthor(c.books, id), faults);
    if joined.Err? then Err(joined.failure)
    else if joined.value.parent.None? then Err(NotFound)
    else Ok(Details(joined.value.parent.value, joined.value.dependents))
  }

  /** `author_list`: every author exactly once, ascending by family name. */
  ghost function List(c: Catalog, faults: Faults): (r: Result<seq<Id>>)
    ensures r.Err? <==> faults.lookupFails
    ensures r.Ok? ==> |r.value| == |c.authors| && forall id :: id in r.value <==> id in c.authors
    ensures r.Ok? ==> forall i, j :: 0 <= i < j < |r.value| ==> r.value[i] != r.value[j]
    ensures r.Ok? ==> forall i, j :: 0 <= i < j < |r.value| ==>
              Ordering.LexLe(c.authors[r.value[i]].familyName, c.authors[r.value[j]].familyName)
  {
    if faults.lookupFails then Err(StoreError)
    else Ok(ListSorted(c.authors, (a: Author) => a.familyName))
  }

  /** The create handler on the live collections. */
  method CreatePost(db: Collections, checked: Checked, faults: Faults)
    returns (out: Result<Id>)
    requires db.Valid()
    modifies db
    ensures db.Valid()
    ensures Step(db.Snapshot(), out) == Create(old(db.Snapshot()), checked, faults)
  {
    if checked.errors != [] {
      return Err(ValidationFailed(checked.errors));
    }
    if faults.writeFails {
      return Err(StoreError);
    }
    var id := db.FreshId();
    db.authors := db.authors[id := checked.author];
    return Ok(id);
  }

  /** The update handler on the live collections (`findByIdAndUpdate`). */
  method UpdatePost(db: Collections, id: Id, checked: Checked, faults: Faults)
    returns (out: Result<Id>)
    requires db.Valid()
    modifies db
    ensures db.Valid()
    ensures Step(db.Snapshot(), out) == Update(old(db.Snapshot()), id, checked, faults)
  {
    if checked.errors != [] {
      return Err(ValidationFailed(checked.errors));
    }
    if faults.writeFails {
      return Err(StoreError);
    }
    if id !in db.authors {
      return Err(NotFound);
    }
    db.authors := db.authors[id := checked.author];
    return Ok(id);
  }

  /** The delete handler on the live collections: both lookups and the
      removal use the one id the request confirmed. */
  method DeletePost(db: Collections, authorId: Id, faults: Faults) returns (out: Result<()>)
    requires db.Valid()
    modifies db
    ensures db.Valid()
    ensures Step(db.Snapshot(), out) == Delete(old(db.Snapshot()), authorId, faults)
  {
    var joined := Aggregate(db.authors, authorId, BooksByAuthor(db.books, authorId), faults);
    if joined.Err? {
      return Err(joined.failure);
    }
    if joined.value.dependents != map[] {
      return Err(Blocked(joined.value.dependents));
    }
    if faults.writeFails {
      return Err(StoreError);
    }
    db.authors := db.authors - {authorId};
    return Ok(());
  }
}
