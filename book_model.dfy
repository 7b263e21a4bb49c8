/** The book record of the bookshelf service, the request payload it is built
    from, the outcomes of the handlers, and the lookup and merge steps shared
    by the handlers (index.js). */
module BookModel {

  datatype Option<T> = None | Some(value: T)

  /** The value of a client-supplied field the service does not interpret. The
      handlers only copy such values, never look inside them, so this stand-in
      for a JSON value does not spell out floats, arrays or objects. */
  datatype Value = Null | Bool(b: bool) | Number(n: int) | Text(s: string)

  /** The body of a POST or PUT request. A field the client leaves out (JavaScript
      `undefined`) is `None`. Fields the handlers never read are kept in `extra`,
      keyed by their names. A client-sent `finished` or `updatedAt` is always
      overwritten by both handlers, so the payload does not carry them. */
  datatype Payload = Payload(
    id: Option<string>,
    name: Option<string>,
    publisher: Option<string>,
    pageCount: Option<int>,
    readPage: Option<int>,
    insertedAt: Option<string>,
    extra: map<string, Value>)

  /** A stored book: the payload it was created from with the server-assigned
      `id`, `finished`, `insertedAt` and `updatedAt`. */
  datatype Book = Book(
    id: string,
    name: string,
    publisher: Option<string>,
    pageCount: Option<int>,
    readPage: Option<int>,
    finished: bool,
    insertedAt: string,
    updatedAt: string,
    extra: map<string, Value>)

  /** The names of the fields the handlers read or assign. */
  const FieldNames: set<string> :=
    {"id", "name", "publisher", "pageCount", "readPage", "finished", "insertedAt", "updatedAt"}

  /** A JavaScript object carries each field once: a field the handlers read is in
      its own slot, never also in `extra`. */
  predicate PayloadWellFormed(p: Payload) {
    p.extra.Keys !! FieldNames
  }

  predicate BookWellFormed(b: Book) {
    b.extra.Keys !! FieldNames
  }

  /** The three ways a handler rejects a request. */
  datatype Failure = MissingName | PageOverflow | NotFound

  datatype Result<T> = Ok(value: T) | Fail(failure: Failure)

  /** The HTTP status a rejection is answered with. */
  function FailureStatus(f: Failure): (code: int)
    ensures code == 404 <==> f == NotFound
    ensures code == 400 <==> f != NotFound
  {
    match f
    case MissingName => 400
    case PageOverflow => 400
    case NotFound => 404
  }

  /** JavaScript truthiness of the `name` field: `undefined` and the empty
      string are falsy, every other string is truthy. */
  predicate NameGiven(name: Option<string>)
    ensures NameGiven(name) <==> name != None && name != Some("")
  {
    name.Some? && name.value != ""
  }

  /** `readPage > pageCount` in JavaScript: a comparison with `undefined` is
      false, so only two present values can overflow. */
  predicate Overflows(readPage: Option<int>, pageCount: Option<int>)
    ensures readPage.None? || pageCount.None? ==> !Overflows(readPage, pageCount)
    ensures readPage.Some? && pageCount.Some? ==>
              (Overflows(readPage, pageCount) <==> readPage.value > pageCount.value)
  {
    readPage.Some? && pageCount.Some? && readPage.value > pageCount.value
  }

  /** `finished` agrees with the book's own page fields. */
  predicate Consistent(b: Book) {
    b.finished == (b.readPage == b.pageCount)
  }

  predicate UniqueIds(books: seq<Book>) {
    forall i, j :: 0 <= i < j < |books| ==> books[i].id != books[j].id
  }

  /** `books.findIndex(b => b.id === id)`: the first position holding `id`, or -1. */
  function FindIndex(books: seq<Book>, id: string): (r: int)
    ensures -1 <= r < |books|
    ensures r == -1 <==> forall i :: 0 <= i < |books| ==> books[i].id != id
    ensures r >= 0 ==> books[r].id == id && forall j :: 0 <= j < r ==> books[j].id != id
  {
    if books == [] then -1
    else if books[0].id == id then 0
    else
      var k := FindIndex(books[1..], id);
      if k == -1 then -1 else k + 1
  }

  /** GET /books/{bookId}: the first book with that id, or NotFound. */
  function Get(books: seq<Book>, id: string): (r: Result<Book>)
    ensures r.Fail? <==> forall i :: 0 <= i < |books| ==> books[i].id != id
    ensures r.Fail? ==> r.failure == NotFound
    ensures r.Ok? ==> exists k :: 0 <= k < |books| && books[k] == r.value && r.value.id == id
                                  && forall j :: 0 <= j < k ==> books[j].id != id
  {
    var k := FindIndex(books, id);
    if k == -1 then Fail(NotFound) else Ok(books[k])
  }

  /** The record POST /books stores: the payload with `finished` derived from
      its page fields and the fresh id and the two clock readings assigned
      over whatever the client sent for them. */
  function NewBook(p: Payload, id: string, insertedAt: string, updatedAt: string): (b: Book)
    requires NameGiven(p.name)
    ensures b.id == id && b.insertedAt == insertedAt && b.updatedAt == updatedAt
    ensures Consistent(b) && b.name != ""
    ensures Some(b.name) == p.name && b.publisher == p.publisher && b.extra == p.extra
    ensures b.readPage == p.readPage && b.pageCount == p.pageCount
  {
    Book(id, p.name.value, p.publisher, p.pageCount, p.readPage,
         p.readPage == p.pageCount, insertedAt, updatedAt, p.extra)
  }

  /** A field of `{...stored, ...payload}`: the payload's value when it has one. */
  function Spread<T>(stored: T, given: Option<T>): T {
    if given.Some? then given.value else stored
  }

  function SpreadOption<T>(stored: Option<T>, given: Option<T>): Option<T> {
    if given.Some? then given else stored
  }

  /** The record PUT /books/{bookId} stores: the payload spread over the stored
      record, so every field the payload has wins, `id` and `insertedAt`
      included; `finished` comes from the payload's page fields alone. */
  function Merge(stored: Book, p: Payload, updatedAt: string): (r: Book)
    requires NameGiven(p.name)
    ensures Some(r.name) == p.name
    ensures p.id.None? ==> r.id == stored.id
    ensures p.id.Some? ==> r.id == p.id.value
    ensures p.insertedAt.None? ==> r.insertedAt == stored.insertedAt
    ensures p.insertedAt.Some? ==> r.insertedAt == p.insertedAt.value
    ensures r.publisher == if p.publisher.Some? then p.publisher else stored.publisher
    ensures r.readPage == if p.readPage.Some? then p.readPage else stored.readPage
    ensures r.pageCount == if p.pageCount.Some? then p.pageCount else stored.pageCount
    ensures r.finished <==> p.readPage == p.pageCount
    ensures r.updatedAt == updatedAt
    ensures forall k :: k in r.extra <==> k in stored.extra || k in p.extra
    ensures forall k :: k in p.extra ==> r.extra[k] == p.extra[k]
    ensures forall k :: k in stored.extra && k !in p.extra ==> r.extra[k] == stored.extra[k]
  {
    Book(
      Spread(stored.id, p.id),
      p.name.value,
      SpreadOption(stored.publisher, p.publisher),
      SpreadOption(stored.pageCount, p.pageCount),
      SpreadOption(stored.readPage, p.readPage),
      p.readPage == p.pageCount,
      Spread(stored.insertedAt, p.insertedAt),
      updatedAt,
      stored.extra + p.extra)
  }
}
