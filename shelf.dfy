/** The module-level `books` array of index.js and the three handlers that
    change it in place: POST /books, PUT /books/{bookId}, DELETE /books/{bookId}.
    GET /books and GET /books/{bookId} only read it: they are `Listing.List`
    and `BookModel.Get` applied to `books`. */
module Shelf {
  import opened BookModel
  import Properties

  class BookShelf {
    /** The collection, in insertion order. */
    var books: seq<Book>

    /** Both writing handlers refuse a falsy name, so every stored name is
        non-empty; `Properties.ListedNamesNonEmpty` carries this to GET /books. */
    ghost predicate Valid()
      reads this
    {
      forall i :: 0 <= i < |books| ==> books[i].name != ""
    }

    /** `let books = []` at start-up. */
    constructor ()
      ensures Valid() && books == []
    {
      books := [];
    }

    /** POST /books. `freshId` stands for the `v4()` call and the two timestamps
        for the two clock readings; the generated id is assumed unused. */
    method Create(p: Payload, freshId: string, insertedAt: string, updatedAt: string)
      returns (r: Result<string>)
      requires Valid()
      requires forall i :: 0 <= i < |books| ==> books[i].id != freshId
      modifies this
      ensures Valid()
      ensures !NameGiven(p.name) ==> r == Fail(MissingName) && books == old(books)
      ensures NameGiven(p.name) && Overflows(p.readPage, p.pageCount) ==>
                r == Fail(PageOverflow) && books == old(books)
      ensures NameGiven(p.name) && !Overflows(p.readPage, p.pageCount) ==>
                r == Ok(freshId) && books == old(books) + [NewBook(p, freshId, insertedAt, updatedAt)]
      ensures r.Ok? ==> Get(books, freshId) == Ok(books[|books| - 1]) && Consistent(books[|books| - 1])
      ensures UniqueIds(old(books)) ==> UniqueIds(books)
    {
      if !NameGiven(p.name) {
        return Fail(MissingName);
      }
      if Overflows(p.readPage, p.pageCount) {
        return Fail(PageOverflow);
      }
      var book := NewBook(p, freshId, insertedAt, updatedAt);
      Properties.GetFindsAppended(books, book);
      if UniqueIds(books) {
        Properties.CreateKeepsIdsUnique(books, book);
      }
      books := books + [book];
      r := Ok(book.id);
    }

    /** PUT /books/{bookId}: the name is checked before the id is looked up,
        and the page check runs only for a known id. */
    method Update(id: string, p: Payload, updatedAt: string) returns (r: Result<()>)
      requires Valid()
      modifies this
      ensures Valid()
      ensures !NameGiven(p.name) ==> r == Fail(MissingName) && books == old(books)
      ensures NameGiven(p.name) && FindIndex(old(books), id) == -1 ==>
                r == Fail(NotFound) && books == old(books)
      ensures NameGiven(p.name) && FindIndex(old(books), id) != -1 && Overflows(p.readPage, p.pageCount) ==>
                r == Fail(PageOverflow) && books == old(books)
      ensures NameGiven(p.name) && FindIndex(old(books), id) != -1 && !Overflows(p.readPage, p.pageCount) ==>
                var k := FindIndex(old(books), id);
                r == Ok(()) && books == old(books)[k := Merge(old(books)[k], p, updatedAt)]
      ensures r.Ok? ==> |books| == |old(books)|
                        && forall i :: 0 <= i < |books| && old(books)[i].id != id ==> books[i] == old(books)[i]
      ensures r.Ok? && (p.id.None? || p.id == Some(id)) ==>
                Get(books, id) == Ok(Merge(old(books)[FindIndex(old(books), id)], p, updatedAt))
      ensures UniqueIds(old(books)) && (p.id.None? || p.id == Some(id)) ==> UniqueIds(books)
    {
      var index := FindIndex(books, id);
      if !NameGiven(p.name) {
        return Fail(MissingName);
      }
      if index != -1 {
        if Overflows(p.readPage, p.pageCount) {
          return Fail(PageOverflow);
        }
        if p.id.None? || p.id == Some(id) {
          Properties.GetAfterUpdate(books, id, p, updatedAt);
          if UniqueIds(books) {
            Properties.UpdateKeepsIdsUnique(books, index, p, updatedAt);
          }
        }
        books := books[index := Merge(books[index], p, updatedAt)];
        return Ok(());
      } else {
        return Fail(NotFound);
      }
    }

    /** DELETE /books/{bookId}: `splice` out the first book with that id. */
    method Delete(id: string) returns (r: Result<()>)
      requires Valid()
      modifies this
      ensures Valid()
      ensures FindIndex(old(books), id) == -1 ==> r == Fail(NotFound) && books == old(books)
      ensures FindIndex(old(books), id) != -1 ==>
                var k := FindIndex(old(books), id);
                r == Ok(()) && books == old(books)[..k] + old(books)[k + 1..]
      ensures r.Ok? ==> |books| == |old(books)| - 1
      ensures r.Ok? && UniqueIds(old(books)) ==> UniqueIds(books) && Get(books, id) == Fail(NotFound)
    {
      var index := FindIndex(books, id);
      if index != -1 {
        if UniqueIds(books) {
          Properties.DeleteKeepsIdsUnique(books, index);
          Properties.GetAfterDelete(books, id);
        }
        books := books[..index] + books[index + 1..];
        return Ok(());
      } else {
        return Fail(NotFound);
      }
    }
  }
}
