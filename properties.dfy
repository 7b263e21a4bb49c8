/** What the handlers of index.js do to one another's results: a book found
    after it is created, updated or deleted, what becomes of id uniqueness and
    of the derived `finished` field, and three concrete cases: a book read to
    the end is listed under `finished=1`, an update that sends only `name` and
    `readPage`, and a name query that ignores case. */
module Properties {
  import opened BookModel
  import opened Listing

  /** `findIndex` is pinned down by its contract: the first position with the id. */
  lemma FirstWithId(s: seq<Book>, id: string, m: int)
    requires 0 <= m < |s| && s[m].id == id
    requires forall i :: 0 <= i < m ==> s[i].id != id
    ensures FindIndex(s, id) == m
  {
  }

  /** After `push` of a book with an unused id, GET finds the pushed book. */
  lemma GetFindsAppended(books: seq<Book>, b: Book)
    requires forall i :: 0 <= i < |books| ==> books[i].id != b.id
    ensures FindIndex(books + [b], b.id) == |books|
    ensures Get(books + [b], b.id) == Ok(b)
  {
    var s := books + [b];
    assert forall i :: 0 <= i < |books| ==> s[i] == books[i];
    assert s[|books|].id == b.id;
  }

  /** POST /books with a fresh id keeps the ids unique. */
  lemma CreateKeepsIdsUnique(books: seq<Book>, b: Book)
    requires UniqueIds(books)
    requires forall i :: 0 <= i < |books| ==> books[i].id != b.id
    ensures UniqueIds(books + [b])
  {
  }

  /** PUT /books/{bookId} whose payload leaves `id` out (or repeats it) keeps
      the ids unique, and GET then returns the merged record. */
  lemma GetAfterUpdate(books: seq<Book>, id: string, p: Payload, updatedAt: string)
    requires NameGiven(p.name) && FindIndex(books, id) != -1
    requires p.id.None? || p.id == Some(id)
    ensures var k := FindIndex(books, id);
            Get(books[k := Merge(books[k], p, updatedAt)], id) == Ok(Merge(books[k], p, updatedAt))
  {
    var k := FindIndex(books, id);
    var s := books[k := Merge(books[k], p, updatedAt)];
    assert forall i :: 0 <= i < k ==> s[i] == books[i];
    FirstWithId(s, id, k);
  }

  lemma UpdateKeepsIdsUnique(books: seq<Book>, k: int, p: Payload, updatedAt: string)
    requires UniqueIds(books) && 0 <= k < |books| && NameGiven(p.name)
    requires p.id.None? || p.id == Some(books[k].id)
    ensures UniqueIds(books[k := Merge(books[k], p, updatedAt)])
  {
  }

  /** The id is not protected: a payload carrying another book's id makes two
      books share it. */
  lemma UpdateCanDuplicateId(books: seq<Book>, i: int, j: int, p: Payload, updatedAt: string)
    requires 0 <= i < |books| && 0 <= j < |books| && i != j && NameGiven(p.name)
    requires p.id == Some(books[j].id)
    ensures !UniqueIds(books[i := Merge(books[i], p, updatedAt)])
  {
    var s := books[i := Merge(books[i], p, updatedAt)];
    assert s[i].id == s[j].id;
    if j < i {
      assert !(s[j].id != s[i].id);
    } else {
      assert !(s[i].id != s[j].id);
    }
  }

  lemma DeleteKeepsIdsUnique(books: seq<Book>, k: int)
    requires UniqueIds(books) && 0 <= k < |books|
    ensures UniqueIds(books[..k] + books[k + 1..])
  {
  }

  /** With unique ids, GET after a successful DELETE answers NotFound. */
  lemma GetAfterDelete(books: seq<Book>, id: string)
    requires UniqueIds(books) && FindIndex(books, id) != -1
    ensures var k := FindIndex(books, id);
            Get(books[..k] + books[k + 1..], id) == Fail(NotFound)
  {
  }

  /** DELETE removes only the first book with the id: a later book with the
      same id is what GET finds next. */
  lemma DeleteRemovesFirstOnly(books: seq<Book>, id: string, j: int)
    requires FindIndex(books, id) != -1
    requires FindIndex(books, id) < j < |books| && books[j].id == id
    requires forall m :: FindIndex(books, id) < m < j ==> books[m].id != id
    ensures var k := FindIndex(books, id);
            Get(books[..k] + books[k + 1..], id) == Ok(books[j])
  {
    var k := FindIndex(books, id);
    var s := books[..k] + books[k + 1..];
    forall i | 0 <= i < j - 1 ensures s[i].id != id {
      if i < k {
        assert s[i] == books[i];
      } else {
        assert s[i] == books[i + 1];
      }
    }
    assert s[j - 1] == books[j];
    FirstWithId(s, id, j - 1);
  }

  lemma {:induction false} SubsequenceOfItself<T>(s: seq<T>)
    ensures IsSubsequence(s, s)
    decreases |s|
  {
    if s != [] {
      SubsequenceOfItself(s[1..]);
    }
  }

  /** `splice(k, 1)` keeps every other book, in order, and drops exactly one copy of the k-th. */
  lemma {:induction false} DeleteKeepsOrder<T>(s: seq<T>, k: int)
    requires 0 <= k < |s|
    ensures IsSubsequence(s[..k] + s[k + 1..], s)
    ensures multiset(s[..k] + s[k + 1..]) + multiset{s[k]} == multiset(s)
  {
    var rest := s[..k] + s[k + 1..];
    if k == 0 {
      assert rest == s[1..];
      SubsequenceOfItself(s[1..]);
    } else {
      DeleteKeepsOrder(s[1..], k - 1);
      assert rest[0] == s[0];
      assert rest[1..] == s[1..][..k - 1] + s[1..][k..];
    }
    calc {
      multiset(s);
      { assert s == s[..k] + [s[k]] + s[k + 1..]; }
      multiset(s[..k]) + multiset{s[k]} + multiset(s[k + 1..]);
    }
  }

  /** `finished` is taken from the payload alone: a payload without either page
      field marks the book finished, even when its stored pages say otherwise. */
  lemma PartialUpdateMarksFinished(stored: Book, p: Payload, updatedAt: string)
    requires NameGiven(p.name) && p.readPage.None? && p.pageCount.None?
    requires stored.readPage != stored.pageCount
    ensures Merge(stored, p, updatedAt).finished
    ensures !Consistent(Merge(stored, p, updatedAt))
  {
  }

  /** The page check sees only the payload: a payload with `readPage` alone is
      accepted even when it overflows the stored `pageCount`. */
  lemma PartialUpdateEscapesOverflowCheck(stored: Book, p: Payload, updatedAt: string)
    requires NameGiven(p.name) && p.readPage.Some? && p.pageCount.None?
    requires stored.pageCount.Some? && p.readPage.value > stored.pageCount.value
    ensures !Overflows(p.readPage, p.pageCount)
    ensures Overflows(Merge(stored, p, updatedAt).readPage, Merge(stored, p, updatedAt).pageCount)
  {
  }

  /** A payload carrying both page fields leaves the merged book consistent
      and within bounds. */
  lemma FullUpdateKeepsBookConsistent(stored: Book, p: Payload, updatedAt: string)
    requires NameGiven(p.name) && p.readPage.Some? && p.pageCount.Some?
    requires !Overflows(p.readPage, p.pageCount)
    ensures Consistent(Merge(stored, p, updatedAt))
    ensures !Overflows(Merge(stored, p, updatedAt).readPage, Merge(stored, p, updatedAt).pageCount)
  {
  }

  /** Create and update build records whose other fields never shadow a named one. */
  lemma RecordsStayWellFormed(p: Payload, stored: Book, id: string, insertedAt: string, updatedAt: string)
    requires NameGiven(p.name) && PayloadWellFormed(p) && BookWellFormed(stored)
    ensures BookWellFormed(NewBook(p, id, insertedAt, updatedAt))
    ensures BookWellFormed(Merge(stored, p, updatedAt))
  {
  }

  /** Since every stored name is non-empty, GET /books never lists an empty name. */
  lemma ListedNamesNonEmpty(books: seq<Book>, q: Query)
    requires forall i :: 0 <= i < |books| ==> books[i].name != ""
    ensures forall v :: v in List(books, q) ==> v.name != ""
  {
    forall v | v in List(books, q) ensures v.name != "" {
      var b :| b in books && Selected(q, b) && Summarize(b) == v;
    }
  }

  /** A book created with 100 of 100 pages read is listed under `finished=1`
      and not under `finished=0`. */
  lemma FinishedBookListed(id: string, insertedAt: string, updatedAt: string)
    ensures var b := NewBook(Payload(None, Some("Dicoding"), None, Some(100), Some(100), None, map[]),
                             id, insertedAt, updatedAt);
            && b.finished
            && List([b], Query(None, None, Some("1"))) == [Summarize(b)]
            && List([b], Query(None, None, Some("0"))) == []
  {
    var b := NewBook(Payload(None, Some("Dicoding"), None, Some(100), Some(100), None, map[]),
                     id, insertedAt, updatedAt);
    var yes, no := ByFinished("1"), ByFinished("0");
    assert StagesOf(Query(None, None, Some("1"))) == [yes];
    assert StagesOf(Query(None, None, Some("0"))) == [no];
    StagesFuse([b], [yes]);
    StagesFuse([b], [no]);
    assert no in [no] && !Passes(b, no);
    assert [b][1..] == [];
  }

  /** Updating with `name` and `readPage` only (readPage equal to the stored
      pageCount) keeps `insertedAt` but records the book as not finished,
      because the payload has no `pageCount`. */
  lemma UpdateWithoutPageCountIsUnfinished(stored: Book, updatedAt: string)
    requires stored.pageCount.Some?
    ensures var p := Payload(None, Some("New Name"), None, None, stored.pageCount, None, map[]);
            var r := Merge(stored, p, updatedAt);
            && r.name == "New Name" && r.id == stored.id && r.insertedAt == stored.insertedAt
            && r.readPage == r.pageCount && !r.finished
  {
  }

  /** The name query `go` matches both `Go` and `gopher`. */
  lemma NameQueryIgnoresCase(b1: Book, b2: Book)
    requires b1.name == "Go" && b2.name == "gopher"
    ensures NameMatches(b1, "go") && NameMatches(b2, "go")
  {
  }
}
