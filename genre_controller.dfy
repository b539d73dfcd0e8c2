/** The Genre handlers: the name chain, find-or-create, update by id, the
    delete guarded by the genre's books, the detail page and the list
    ordered by name. */
module GenreController {
  import opened Text
  import opened Store
  import Ordering

  /** The `name` chain of `genre_create_post` and `genre_update_post`:
      `trim()`, `isLength({ min: 1 })` with the message "Genre name required",
      `escape()`. The length check counts no variation selector
      (`MeasuredLength`). Gives the errors and the sanitized name: one with
      nothing `isLength` counts exactly when the check failed, free of markup
      characters, and the trimmed name itself when that holds no special
      character. */
  function ValidateName(raw: string): (r: (seq<FieldError>, string))
    ensures r.0 == Reported(MeasuredLength(Trim(raw)) == 0, GenreNameRequired)
    ensures MeasuredLength(r.1) == 0 <==> r.0 != []
    ensures forall k :: 0 <= k < |r.1| ==> !IsMarkup(r.1[k])
    ensures (forall k :: 0 <= k < |Trim(raw)| ==> !NeedsEscape(Trim(raw)[k])) ==> r.1 == Trim(raw)
  {
    var trimmed := Trim(raw);
    var missing := if MeasuredLength(trimmed) >= 1 then [] else [GenreNameRequired];
    EscapeKeepsMeasuredZero(trimmed);
    (missing, Escape(trimmed))
  }

  /** A name made of a variation selector alone is not blank, yet `isLength`
      counts nothing in it, so it is refused and kept as sent. */
  lemma SelectorOnlyNameIsRejected()
    ensures ValidateName("\U{FE0F}") == ([GenreNameRequired], "\U{FE0F}")
  {
    var name := "\U{FE0F}";
    assert !IsSpace(name[0]);
    assert TrimStart(name) == name && TrimEnd(name) == name;
    assert Escape(name) == EscapeChar(name[0]) + Escape([]);
  }

  /** No two genres share a name. */
  predicate UniqueNames(genres: map<Id, Genre>) {
    forall i, j :: i in genres && j in genres && genres[i].name == genres[j].name ==> i == j
  }

  /** The genre a create request ends on, and whether it was made by it. */
  datatype Resolved = Resolved(id: Id, created: bool)

  /** `genre_create_post`, given what its chain left: with an error the form
      is shown again and the store is not consulted; otherwise the first genre
      already holding the name is reused, and only when there is none is a
      new genre saved under a new id. */
  function Create(c: Catalog, checked: (seq<FieldError>, string), faults: Faults): (r: Step<Resolved>)
    ensures r.outcome.Err? ==> r.after == c
    ensures checked.0 != [] ==> r.outcome == Err(ValidationFailed(checked.0))
    ensures checked.0 == [] && faults.lookupFails ==> r.outcome == Err(StoreError)
    ensures r.outcome.Ok? <==> && checked.0 == [] && !faults.lookupFails
                               && (!faults.writeFails || exists id :: id in c.genres && c.genres[id].name == checked.1)
    ensures r.outcome.Ok? ==> && r.outcome.value.id in r.after.genres
                              && r.after.genres[r.outcome.value.id].name == checked.1
    ensures r.outcome.Ok? && !r.outcome.value.created ==>
              && r.after == c
              && forall id :: id in c.genres && c.genres[id].name == checked.1 ==> r.outcome.value.id <= id
    ensures r.outcome.Ok? && r.outcome.value.created ==>
              && (forall id :: id in c.genres ==> c.genres[id].name != checked.1)
              && r.after == c.(genres := c.genres[r.outcome.value.id := Genre(checked.1)],
                               nextId := r.after.nextId)
    ensures WellFormed(c) ==> WellFormed(r.after)
    ensures WellFormed(c) && r.outcome.Ok? && r.outcome.value.created ==>
              r.outcome.value.id !in c.genres && |r.after.genres| == |c.genres| + 1
  {
    if checked.0 != [] then Step(c, Err(ValidationFailed(checked.0)))
    else if faults.lookupFails then Step(c, Err(StoreError))
    else
      match FindByName(c.genres, checked.1)
      case Some(id) => Step(c, Ok(Resolved(id, false)))
      case None =>
        if faults.writeFails then Step(c, Err(StoreError))
        else Step(c.(genres := c.genres[c.nextId := Genre(checked.1)], nextId := c.nextId + 1),
                  Ok(Resolved(c.nextId, true)))
  }

  /** A blank name is refused with the one message and the store is not
      consulted, whatever the store would have done. */
  lemma BlankNameIsRejected(c: Catalog, raw: string, faults: Faults)
    requires AllSpace(raw)
    ensures Create(c, ValidateName(raw), faults) == Step(c, Err(ValidationFailed([GenreNameRequired])))
  {
    assert Trim(raw) == [] && MeasuredLength(Trim(raw)) == 0;
  }

  /** Submitting the same name twice: the second request finds the genre the
      first one ended on and changes nothing. */
  lemma CreateTwice(c: Catalog, checked: (seq<FieldError>, string))
    requires WellFormed(c)
    requires Create(c, checked, NoFaults).outcome.Ok?
    ensures var first := Create(c, checked, NoFaults);
            Create(first.after, checked, NoFaults) == Step(first.after, Ok(Resolved(first.outcome.value.id, false)))
  {
    var first := Create(c, checked, NoFaults);
    var id := first.outcome.value.id;
    if first.outcome.value.created {
      var found := FindByName(first.after.genres, checked.1);
      assert found.Some? && found.value <= id;
      assert first.after.genres[found.value].name == checked.1;
    }
  }

  /** Create never makes a second genre of a name already stored. */
  lemma CreateKeepsNamesUnique(c: Catalog, checked: (seq<FieldError>, string), faults: Faults)
    requires WellFormed(c) && UniqueNames(c.genres)
    ensures UniqueNames(Create(c, checked, faults).after.genres)
  {
    var r := Create(c, checked, faults);
    if r.outcome.Ok? && r.outcome.value.created {
      var id := r.outcome.value.id;
      forall i, j | i in r.after.genres && j in r.after.genres && r.after.genres[i].name == r.after.genres[j].name
        ensures i == j
      {
        if i != id && j != id {
          assert c.genres[i].name == c.genres[j].name;
        }
      }
    }
  }

  /** With names unique beforehand, two creates of one name leave exactly one
      genre of that name: the one both requests return. */
  lemma CreateTwiceLeavesOneGenre(c: Catalog, checked: (seq<FieldError>, string))
    requires WellFormed(c) && UniqueNames(c.genres)
    requires Create(c, checked, NoFaults).outcome.Ok?
    ensures var first := Create(c, checked, NoFaults);
            var second := Create(first.after, checked, NoFaults);
            && second.outcome == first.outcome.(value := first.outcome.value.(created := false))
            && forall id :: (id in second.after.genres && second.after.genres[id].name == checked.1)
                            <==> id == first.outcome.value.id
  {
    var first := Create(c, checked, NoFaults);
    CreateTwice(c, checked);
    CreateKeepsNamesUnique(c, checked, NoFaults);
  }

  /** `genre_update_post` for the genre at `id`, given what its chain left:
      with an error nothing changes; otherwise that genre, and no other
      record, takes the sanitized name and keeps its id. An id with no genre
      changes nothing (the handler then fails on the missing result). */
  function Update(c: Catalog, id: Id, checked: (seq<FieldError>, string), faults: Faults): (r: Step<Id>)
    ensures r.outcome.Err? ==> r.after == c
    ensures checked.0 != [] ==> r.outcome == Err(ValidationFailed(checked.0))
    ensures checked.0 == [] && !faults.writeFails && id !in c.genres ==> r.outcome == Err(NotFound)
    ensures r.outcome.Ok? <==> checked.0 == [] && !faults.writeFails && id in c.genres
    ensures r.outcome.Ok? ==> && r.outcome.value == id
                              && r.after == c.(genres := c.genres[id := Genre(checked.1)])
    ensures r.after.genres.Keys == c.genres.Keys
    ensures WellFormed(c) ==> WellFormed(r.after)
  {
    if checked.0 != [] then Step(c, Err(ValidationFailed(checked.0)))
    else if faults.writeFails then Step(c, Err(StoreError))
    else if id !in c.genres then Step(c, Err(NotFound))
    else Step(c.(genres := c.genres[id := Genre(checked.1)]), Ok(id))
  }

  /** Unlike create, update does not look for a genre of the same name: it
      renames a genre to the name another one holds, and two genres then
      share that name. */
  lemma UpdateMayDuplicateName(c: Catalog, id: Id, other: Id, name: string)
    requires id != other && id in c.genres && other in c.genres && c.genres[other].name == name
    ensures var r := Update(c, id, ([], name), NoFaults);
            r.outcome.Ok? && !UniqueNames(r.after.genres)
  {
    var after := Update(c, id, ([], name), NoFaults).after;
    assert after.genres[id].name == after.genres[other].name;
  }

  /** `genre_delete_post` for `genreId`: refused, with nothing removed, as long
      as one book lists that genre; otherwise exactly that id is removed from
      the genres and everything else is left as it was. */
  function Delete(c: Catalog, genreId: Id, faults: Faults): (r: Step<()>)
    ensures r.outcome.Err? ==> r.after == c
    ensures && !faults.lookupFails && !faults.dependentsFail
            && (exists b :: b in c.books && genreId in c.books[b].genres) ==>
              r.outcome == Err(Blocked(BooksInGenre(c.books, genreId)))
    ensures r.outcome.Ok? <==> && !faults.lookupFails && !faults.dependentsFail && !faults.writeFails
                               && forall b :: b in c.books ==> genreId !in c.books[b].genres
    ensures r.outcome.Ok? ==> r.after == c.(genres := c.genres - {genreId})
    ensures r.outcome.Ok? && genreId in c.genres ==> |r.after.genres| == |c.genres| - 1
    ensures WellFormed(c) ==> WellFormed(r.after)
  {
    var dependents := BooksInGenre(c.books, genreId);
    if faults.lookupFails || faults.dependentsFail then Step(c, Err(StoreError))
    else if dependents != map[] then Step(c, Err(Blocked(dependents)))
    else if faults.writeFails then Step(c, Err(StoreError))
    else Step(c.(genres := c.genres - {genreId}), Ok(()))
  }

  /** A second delete of the same genre succeeds and changes nothing more. */
  lemma DeleteIsIdempotent(c: Catalog, genreId: Id)
    requires Delete(c, genreId, NoFaults).outcome.Ok?
    ensures var once := Delete(c, genreId, NoFaults).after;
            Delete(once, genreId, NoFaults) == Step(once, Ok(()))
  {
    var once := Delete(c, genreId, NoFaults).after;
    assert once.genres - {genreId} == once.genres;
  }

  /** One book listing the genre blocks the delete and is among the books
      returned; once those books are removed, the delete goes through and
      the genre is gone. */
  lemma BlockedUntilBooksRemoved(c: Catalog, genreId: Id, book: Id)
    requires book in c.books && genreId in c.books[book].genres
    ensures var r := Delete(c, genreId, NoFaults);
            r.outcome.Err? && r.outcome.failure.Blocked? && book in r.outcome.failure.dependents
    ensures var cleared := c.(books := c.books - BooksInGenre(c.books, genreId).Keys);
            var r := Delete(cleared, genreId, NoFaults);
            r.outcome.Ok? && genreId !in r.after.genres
  {
    var cleared := c.(books := c.books - BooksInGenre(c.books, genreId).Keys);
    forall b | b in cleared.books ensures genreId !in cleared.books[b].genres {
      assert b !in BooksInGenre(c.books, genreId);
    }
  }

  /** No handler leaves a book listing a missing genre: create and update
      keep every genre id, and delete removes only genres no book lists. */
  lemma HandlersKeepReferencesResolved(c: Catalog, id: Id, checked: (seq<FieldError>, string), faults: Faults)
    requires ReferencesResolve(c)
    ensures ReferencesResolve(Create(c, checked, faults).after)
    ensures ReferencesResolve(Update(c, id, checked, faults).after)
    ensures ReferencesResolve(Delete(c, id, faults).after)
  {
    var r := Delete(c, id, faults);
    if r.outcome.Ok? {
      forall b | b in r.after.books ensures r.after.books[b].genres <= r.after.genres.Keys {
        assert id !in c.books[b].genres;
      }
    }
  }

  /** The genre detail page: the genre and its books. */
  datatype Details = Details(genre: Genre, books: map<Id, Book>)

  /** `genre_detail`: a missing genre is a 404 whatever books list it. */
  function Detail(c: Catalog, id: Id, faults: Faults): (r: Result<Details>)
    ensures faults.lookupFails || faults.dependentsFail ==> r == Err(StoreError)
    ensures !faults.lookupFails && !faults.dependentsFail && id !in c.genres ==> r == Err(NotFound)
    ensures r.Ok? <==> !faults.lookupFails && !faults.dependentsFail && id in c.genres
    ensures r.Ok? ==> r.value == Details(c.genres[id], BooksInGenre(c.books, id))
  {
    var joined := Aggregate(c.genres, id, BooksInGenre(c.books, id), faults);
    if joined.Err? then Err(joined.failure)
    else if joined.value.parent.None? then Err(NotFound)
    else Ok(Details(joined.value.parent.value, joined.value.dependents))
  }

  /** `genre_list`: every genre exactly once, ascending by name. */
  ghost function List(c: Catalog, faults: Faults): (r: Result<seq<Id>>)
    ensures r.Err? <==> faults.lookupFails
    ensures r.Ok? ==> |r.value| == |c.genres| && forall id :: id in r.value <==> id in c.genres
    ensures r.Ok? ==> forall i, j :: 0 <= i < j < |r.value| ==> r.value[i] != r.value[j]
    ensures r.Ok? ==> forall i, j :: 0 <= i < j < |r.value| ==>
              Ordering.LexLe(c.genres[r.value[i]].name, c.genres[r.value[j]].name)
  {
    if faults.lookupFails then Err(StoreError)
    else Ok(ListSorted(c.genres, (g: Genre) => g.name))
  }

  /** The create handler on the live collections: `findOne` by name, then
      `save` only when nothing was found. */
  method CreatePost(db: Collections, checked: (seq<FieldError>, string), faults: Faults)
    returns (out: Result<Resolved>)
    requires db.Valid()
    modifies db
    ensures db.Valid()
    ensures Step(db.Snapshot(), out) == Create(old(db.Snapshot()), checked, faults)
  {
    if checked.0 != [] {
      return Err(ValidationFailed(checked.0));
    }
    if faults.lookupFails {
      return Err(StoreError);
    }
    var found := FindByName(db.genres, checked.1);
    if found.Some? {
      return Ok(Resolved(found.value, false));
    }
    if faults.writeFails {
      return Err(StoreError);
    }
    var id := db.FreshId();
    db.genres := db.genres[id := Genre(checked.1)];
    return Ok(Resolved(id, true));
  }

  /** The update handler on the live collections (`findByIdAndUpdate`). */
  method UpdatePost(db: Collections, id: Id, checked: (seq<FieldError>, string), faults: Faults)
    returns (out: Result<Id>)
    requires db.Valid()
    modifies db
    ensures db.Valid()
    ensures Step(db.Snapshot(), out) == Update(old(db.Snapshot()), id, checked, faults)
  {
    if checked.0 != [] {
      return Err(ValidationFailed(checked.0));
    }
    if faults.writeFails {
      return Err(StoreError);
    }
    if id !in db.genres {
      return Err(NotFound);
    }
    db.genres := db.genres[id := Genre(checked.1)];
    return Ok(id);
  }

  /** The delete handler on the live collections. */
  method DeletePost(db: Collections, genreId: Id, faults: Faults) returns (out: Result<()>)
    requires db.Valid()
    modifies db
    ensures db.Valid()
    ensures Step(db.Snapshot(), out) == Delete(old(db.Snapshot()), genreId, faults)
  {
    var joined := Aggregate(db.genres, genreId, BooksInGenre(db.books, genreId), faults);
    if joined.Err? {
      return Err(joined.failure);
    }
    if joined.value.dependents != map[] {
      return Err(Blocked(joined.value.dependents));
    }
    if faults.writeFails {
      return Err(StoreError);
    }
    db.genres := db.genres - {genreId};
    return Ok(());
  }
}
