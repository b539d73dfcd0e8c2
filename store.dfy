/** The catalogue's records and the document store the controllers work on:
    the Author, Genre and Book collections as maps keyed by id, the lookups
    the controllers issue, and the outcomes they report. */
module Store {
  import Ordering

  /** A record id (a MongoDB ObjectId); ids are handed out in increasing order. */
  type Id = nat

  datatype Option<T> = None | Some(value: T)

  /** An author; the dates are kept as the ISO-8601 text they were given in. */
  datatype Author = Author(firstName: string, familyName: string,
                           dateOfBirth: Option<string>, dateOfDeath: Option<string>)

  datatype Genre = Genre(name: string)

  /** A book refers to exactly one author and to any number of genres. */
  datatype Book = Book(title: string, author: Id, genres: set<Id>)

  /** One entry of `validationResult(req).array()`: the six messages the
      author and genre forms can show, each with its field and its text. */
  datatype FieldError =
    | FirstNameRequired | FirstNameNotAlphanumeric
    | FamilyNameRequired | FamilyNameNotAlphanumeric
    | InvalidDateOfBirth
    | GenreNameRequired
  {
    function Field(): string {
      match this
      case FirstNameRequired | FirstNameNotAlphanumeric => "first_name"
      case FamilyNameRequired | FamilyNameNotAlphanumeric => "family_name"
      case InvalidDateOfBirth => "date_of_birth"
      case GenreNameRequired => "name"
    }

    function Message(): string {
      match this
      case FirstNameRequired => "First name must be specified."
      case FirstNameNotAlphanumeric => "First name has non-alphanumeric characters."
      case FamilyNameRequired => "Family name must be specified."
      case FamilyNameNotAlphanumeric => "Family name has non-alphanumeric characters."
      case InvalidDateOfBirth => "Invalid date of birth"
      case GenreNameRequired => "Genre name required"
    }
  }

  /** What one check adds to `validationResult(req)`: its message when it fails. */
  function Reported(fails: bool, e: FieldError): seq<FieldError> {
    if fails then [e] else []
  }

  /** What a handler reports instead of its page: re-shown form, 404, the
      delete page listing the blocking books, or a store error passed to `next`. */
  datatype Failure =
    | ValidationFailed(errors: seq<FieldError>)
    | NotFound
    | Blocked(dependents: map<Id, Book>)
    | StoreError

  datatype Result<T> = Ok(value: T) | Err(failure: Failure)

  /** Which of a request's store calls fail: the lookup of the record itself
      (`findById`, `findOne`, `find`), the lookup of the books that refer to it,
      and the write (`save`, `findByIdAndUpdate`, `findByIdAndRemove`). */
  datatype Faults = Faults(lookupFails: bool, dependentsFail: bool, writeFails: bool)

  const NoFaults := Faults(false, false, false)

  /** The three collections and the next id the store will hand out. */
  datatype Catalog = Catalog(authors: map<Id, Author>, genres: map<Id, Genre>,
                             books: map<Id, Book>, nextId: Id)

  /** What a handler leaves behind: the new catalogue and its outcome. */
  datatype Step<T> = Step(after: Catalog, outcome: Result<T>)

  /** Every author and genre id is below the next id, so the next id is fresh. */
  predicate WellFormed(c: Catalog) {
    && (forall id :: id in c.authors ==> id < c.nextId)
    && (forall id :: id in c.genres ==> id < c.nextId)
  }

  /** Every book's author and genres are stored: what the delete guards protect. */
  predicate ReferencesResolve(c: Catalog) {
    forall b :: b in c.books ==> c.books[b].author in c.authors && c.books[b].genres <= c.genres.Keys
  }

  /** `Book.find({ author: id })`: the books written by `id`. */
  function BooksByAuthor(books: map<Id, Book>, id: Id): (r: map<Id, Book>)
    ensures forall b :: b in r <==> b in books && books[b].author == id
    ensures forall b :: b in r ==> r[b] == books[b]
  {
    map b | b in books && books[b].author == id :: books[b]
  }

  /** `Book.find({ genre: id })`: the books whose genres include `id`. */
  function BooksInGenre(books: map<Id, Book>, id: Id): (r: map<Id, Book>)
    ensures forall b :: b in r <==> b in books && id in books[b].genres
    ensures forall b :: b in r ==> r[b] == books[b]
  {
    map b | b in books && id in books[b].genres :: books[b]
  }

  /** A record together with the books that refer to it. */
  datatype Joined<T> = Joined(parent: Option<T>, dependents: map<Id, Book>)

  /** The two lookups a detail or delete handler runs in `async.parallel`,
      taken one after the other: a failing lookup makes the whole result that
      failure and nothing of the other is returned; a missing record is not a
      failure, it comes back as `None` beside its dependents. */
  function Aggregate<T>(records: map<Id, T>, id: Id, dependents: map<Id, Book>, faults: Faults)
    : (r: Result<Joined<T>>)
    ensures r.Err? <==> faults.lookupFails || faults.dependentsFail
    ensures r.Err? ==> r.failure == StoreError
    ensures r.Ok? ==> r.value.dependents == dependents
    ensures r.Ok? ==> (r.value.parent.Some? <==> id in records)
    ensures r.Ok? && id in records ==> r.value.parent == Some(records[id])
  {
    if faults.lookupFails then Err(StoreError)
    else if faults.dependentsFail then Err(StoreError)
    else Ok(Joined(if id in records then Some(records[id]) else None, dependents))
  }

  /** Below any member of a set of ids there is a least member. */
  lemma {:induction false} LeastExists(ids: set<Id>, x: Id)
    requires x in ids
    ensures exists k :: k in ids && k <= x && forall j :: j in ids ==> k <= j
    decreases x
  {
    if y :| y in ids && y < x {
      LeastExists(ids, y);
    } else {
      assert forall j :: j in ids ==> x <= j;
    }
  }

  /** `Genre.findOne({ name })`: the first genre of that name in the
      collection's natural order, i.e. the one with the least id; `None` when
      no genre has that name. */
  function FindByName(genres: map<Id, Genre>, name: string): (r: Option<Id>)
    ensures r.None? <==> forall id :: id in genres ==> genres[id].name != name
    ensures r.Some? ==> r.value in genres && genres[r.value].name == name
    ensures r.Some? ==> forall id :: id in genres && genres[id].name == name ==> r.value <= id
  {
    var named := set id | id in genres && genres[id].name == name;
    assert forall id :: id in genres && genres[id].name == name ==> id in named;
    if named == {} then None
    else
      var x :| x in named;
      LeastExists(named, x);
      var k :| k in named && forall j :: j in named ==> k <= j;
      Some(k)
  }

  /** `find().sort([[field, 'ascending']])`: every id of `records` exactly
      once, in ascending order of `field`. */
  ghost function ListSorted<T>(records: map<Id, T>, field: T -> string): (r: seq<Id>)
    ensures |r| == |records|
    ensures forall id :: id in r <==> id in records
    ensures forall i, j :: 0 <= i < j < |r| ==> r[i] != r[j]
    ensures forall i, j :: 0 <= i < j < |r| ==> Ordering.LexLe(field(records[r[i]]), field(records[r[j]]))
  {
    assert |records.Keys| == |records|;
    Ordering.SortedIds(records, field, records.Keys)
  }

  /** The collections of the running store, updated in place by the handlers. */
  class Collections {
    var authors: map<Id, Author>
    var genres: map<Id, Genre>
    var books: map<Id, Book>
    var nextId: Id

    function Snapshot(): Catalog
      reads this
    {
      Catalog(authors, genres, books, nextId)
    }

    ghost predicate Valid()
      reads this
    {
      WellFormed(Snapshot())
    }

    /** An empty author and genre collection beside the given books (books are
        created by handlers outside this model). */
    constructor (books: map<Id, Book>)
      ensures Valid()
      ensures Snapshot() == Catalog(map[], map[], books, 0)
    {
      this.authors := map[];
      this.genres := map[];
      this.books := books;
      this.nextId := 0;
    }

    /** Hands out a fresh id, as `new Author(...)` / `new Genre(...)` does. */
    method FreshId() returns (id: Id)
      requires Valid()
      modifies this`nextId
      ensures id == old(nextId) && nextId == id + 1
      ensures id !in authors && id !in genres
      ensures Valid()
    {
      id := nextId;
      nextId := nextId + 1;
    }
  }
}
