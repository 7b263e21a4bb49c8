/** GET /books (index.js:14-60): three filter stages over the collection,
    applied in turn, then a projection of each surviving book. */
module Listing {
  import opened BookModel

  /** The query string. A parameter that is not in the URL is `None`. */
  datatype Query = Query(name: Option<string>, reading: Option<string>, finished: Option<string>)

  /** The part of a book the list shows. */
  datatype Summary = Summary(id: string, name: string, publisher: Option<string>)

  /** One `filter` call of the handler, with the query value it tests against. */
  datatype Stage = ByName(text: string) | ByReading(flag: string) | ByFinished(flag: string)

  /** `toLowerCase` on one character; only ASCII letters are folded. */
  function LowerChar(c: char): (d: char)
    ensures 'A' <= c <= 'Z' ==> 'a' <= d <= 'z' && d as int - c as int == 'a' as int - 'A' as int
    ensures !('A' <= c <= 'Z') ==> d == c
  {
    if 'A' <= c <= 'Z' then (c as int - 'A' as int + 'a' as int) as char else c
  }

  function Lower(s: string): (r: string)
    ensures |r| == |s|
    ensures forall i :: 0 <= i < |s| ==> r[i] == LowerChar(s[i])
  {
    seq(|s|, i requires 0 <= i < |s| => LowerChar(s[i]))
  }

  predicate StartsWith(s: string, prefix: string) {
    |prefix| <= |s| && s[..|prefix|] == prefix
  }

  /** `sub` sits in `s` starting at position `i`. */
  predicate OccursAt(s: string, sub: string, i: int) {
    0 <= i <= |s| - |sub| && s[i..i + |sub|] == sub
  }

  /** `String.prototype.includes`: `sub` occurs somewhere in `s`. */
  predicate Contains(s: string, sub: string)
    ensures Contains(s, sub) <==> exists i :: OccursAt(s, sub, i)
    decreases |s|
  {
    OccurrenceShifts(s, sub);
    StartsWith(s, sub) || (s != [] && Contains(s[1..], sub))
  }

  /** An occurrence is either at the front or an occurrence in the tail. */
  lemma OccurrenceShifts(s: string, sub: string)
    ensures (exists i :: OccursAt(s, sub, i)) <==>
            StartsWith(s, sub) || (s != [] && exists j :: OccursAt(s[1..], sub, j))
  {
    if StartsWith(s, sub) {
      assert OccursAt(s, sub, 0);
    }
    if s != [] {
      forall j | OccursAt(s[1..], sub, j) ensures OccursAt(s, sub, j + 1) {
        assert s[1..][j..j + |sub|] == s[j + 1..j + 1 + |sub|];
      }
    }
    if i :| OccursAt(s, sub, i) {
      if i == 0 {
        assert StartsWith(s, sub);
      } else {
        assert s[1..][i - 1..i - 1 + |sub|] == s[i..i + |sub|];
        assert OccursAt(s[1..], sub, i - 1);
      }
    }
  }

  predicate IsYes(flag: string) { flag == "1" || flag == "true" }

  predicate IsNo(flag: string) { flag == "0" || flag == "false" }

  /** `readPage > 0 && readPage < pageCount`; false when either is absent. */
  predicate InProgress(b: Book)
    ensures InProgress(b) ==> !NotInProgress(b)
  {
    b.readPage.Some? && b.pageCount.Some? && 0 < b.readPage.value < b.pageCount.value
  }

  /** `readPage === 0 || readPage === pageCount`; two absent fields are equal. */
  predicate NotInProgress(b: Book) {
    b.readPage == Some(0) || b.readPage == b.pageCount
  }

  predicate NameMatches(b: Book, text: string) {
    Contains(Lower(b.name), Lower(text))
  }

  /** The reading stage: any flag other than the four recognised ones keeps nothing. */
  predicate ReadingMatches(b: Book, flag: string)
    ensures ReadingMatches(b, flag) ==> IsYes(flag) || IsNo(flag)
    ensures IsYes(flag) ==> (ReadingMatches(b, flag) <==>
              b.readPage.Some? && b.pageCount.Some? && 0 < b.readPage.value < b.pageCount.value)
    ensures IsNo(flag) ==> (ReadingMatches(b, flag) <==> b.readPage == Some(0) || b.readPage == b.pageCount)
  {
    if IsYes(flag) then InProgress(b) else if IsNo(flag) then NotInProgress(b) else false
  }

  /** The finished stage: `1`/`true` keeps the finished books, `0`/`false`
      the others, and any other flag keeps nothing. */
  predicate FinishedMatches(b: Book, flag: string)
    ensures FinishedMatches(b, flag) ==> IsYes(flag) || IsNo(flag)
    ensures IsYes(flag) ==> (FinishedMatches(b, flag) <==> b.finished)
    ensures IsNo(flag) ==> (FinishedMatches(b, flag) <==> !b.finished)
  {
    if IsYes(flag) then b.finished else if IsNo(flag) then !b.finished else false
  }

  predicate Passes(b: Book, st: Stage) {
    match st
    case ByName(text) => NameMatches(b, text)
    case ByReading(flag) => ReadingMatches(b, flag)
    case ByFinished(flag) => FinishedMatches(b, flag)
  }

  predicate PassesAll(b: Book, stages: seq<Stage>) {
    forall st :: st in stages ==> Passes(b, st)
  }

  /** The reference meaning of a query: the conjunction of the conditions of the
      parameters that take part. A blank `name` is falsy and takes no part; a
      `reading` or `finished` that is present takes part whatever its value. */
  predicate Selected(q: Query, b: Book)
    ensures !NameGiven(q.name) && q.reading.None? && q.finished.None? ==> Selected(q, b)
    ensures q.reading.Some? && !IsYes(q.reading.value) && !IsNo(q.reading.value) ==> !Selected(q, b)
    ensures q.finished.Some? && !IsYes(q.finished.value) && !IsNo(q.finished.value) ==> !Selected(q, b)
  {
    && (NameGiven(q.name) ==> NameMatches(b, q.name.value))
    && (q.reading.Some? ==> ReadingMatches(b, q.reading.value))
    && (q.finished.Some? ==> FinishedMatches(b, q.finished.value))
  }

  /** `r` is `s` with some elements left out and the rest in their order. */
  predicate IsSubsequence<T(==)>(r: seq<T>, s: seq<T>)
    decreases |s|
  {
    if s == [] then r == []
    else IsSubsequence(r, s[1..]) || (r != [] && r[0] == s[0] && IsSubsequence(r[1..], s[1..]))
  }

  /** One pass of `Array.prototype.filter` keeping the books that pass every stage. */
  function Select(s: seq<Book>, stages: seq<Stage>): (r: seq<Book>)
    ensures forall b :: b in r <==> b in s && PassesAll(b, stages)
    ensures forall b :: multiset(r)[b] == if PassesAll(b, stages) then multiset(s)[b] else 0
    ensures IsSubsequence(r, s)
  {
    assert s != [] ==> s == [s[0]] + s[1..];
    if s == [] then []
    else if PassesAll(s[0], stages) then [s[0]] + Select(s[1..], stages)
    else Select(s[1..], stages)
  }

  /** The stages the handler runs for a query, in the handler's order. */
  function StagesOf(q: Query): (r: seq<Stage>)
    ensures |r| <= 3
    ensures forall st :: st in r <==>
              || (NameGiven(q.name) && st == ByName(q.name.value))
              || (q.reading.Some? && st == ByReading(q.reading.value))
              || (q.finished.Some? && st == ByFinished(q.finished.value))
  {
    (if NameGiven(q.name) then [ByName(q.name.value)] else [])
    + (if q.reading.Some? then [ByReading(q.reading.value)] else [])
    + (if q.finished.Some? then [ByFinished(q.finished.value)] else [])
  }

  /** Running the stages one `filter` call after another. */
  function ApplyStages(s: seq<Book>, stages: seq<Stage>): (r: seq<Book>)
    ensures forall b :: b in r <==> b in s && PassesAll(b, stages)
    ensures forall b :: multiset(r)[b] == if PassesAll(b, stages) then multiset(s)[b] else 0
    decreases |stages|
  {
    if stages == [] then s else ApplyStages(Select(s, [stages[0]]), stages[1..])
  }

  function Filtered(books: seq<Book>, q: Query): seq<Book> {
    ApplyStages(books, StagesOf(q))
  }

  /** `({ id, name, publisher }) => ({ id, name, publisher })`: every other field is dropped. */
  function Summarize(b: Book): (v: Summary)
    ensures v.id == b.id && v.name == b.name && v.publisher == b.publisher
  {
    Summary(b.id, b.name, b.publisher)
  }

  function Summaries(s: seq<Book>): (r: seq<Summary>)
    ensures |r| == |s|
    ensures forall i :: 0 <= i < |s| ==> r[i] == Summarize(s[i])
  {
    seq(|s|, i requires 0 <= i < |s| => Summarize(s[i]))
  }

  /** GET /books: the summaries of the books the query selects, in collection
      order, each selected book listed as often as it is stored. */
  function List(books: seq<Book>, q: Query): (r: seq<Summary>)
    ensures |r| <= |books|
    ensures forall v :: v in r <==> exists b :: b in books && Selected(q, b) && Summarize(b) == v
    ensures exists kept :: IsSubsequence(kept, books) && r == Summaries(kept)
                           && forall b :: multiset(kept)[b] == if Selected(q, b) then multiset(books)[b] else 0
  {
    FilteredSpec(books, q);
    var kept := Filtered(books, q);
    SubsequenceLength(kept, books);
    SummariesMembers(kept);
    Summaries(kept)
  }

  /** A summary is listed exactly when some kept book projects to it. */
  lemma SummariesMembers(kept: seq<Book>)
    ensures forall v :: v in Summaries(kept) <==> exists b :: b in kept && Summarize(b) == v
  {
    var r := Summaries(kept);
    forall v | v in r ensures exists b :: b in kept && Summarize(b) == v {
      var i :| 0 <= i < |r| && r[i] == v;
      assert kept[i] in kept;
    }
    forall b | b in kept ensures Summarize(b) in r {
      var i :| 0 <= i < |kept| && kept[i] == b;
      assert r[i] == Summarize(b);
    }
  }

  lemma {:induction false} SubsequenceLength<T>(r: seq<T>, s: seq<T>)
    requires IsSubsequence(r, s)
    ensures |r| <= |s|
    decreases |s|
  {
    if s != [] {
      if IsSubsequence(r, s[1..]) {
        SubsequenceLength(r, s[1..]);
      } else {
        SubsequenceLength(r[1..], s[1..]);
      }
    }
  }

  lemma {:induction false} SelectNothing(s: seq<Book>)
    ensures Select(s, []) == s
  {
    if s != [] {
      SelectNothing(s[1..]);
    }
  }

  lemma {:induction false} SelectRejectsAll(s: seq<Book>, stages: seq<Stage>)
    requires forall b :: b in s ==> !PassesAll(b, stages)
    ensures Select(s, stages) == []
  {
    if s != [] {
      SelectRejectsAll(s[1..], stages);
    }
  }

  /** Filtering by `x` and then by `y` is filtering once by both. */
  lemma {:induction false} SelectTwice(s: seq<Book>, x: seq<Stage>, y: seq<Stage>)
    ensures Select(Select(s, x), y) == Select(s, x + y)
  {
    if s != [] {
      SelectTwice(s[1..], x, y);
      var t := Select(s[1..], x);
      assert PassesAll(s[0], x + y) <==> PassesAll(s[0], x) && PassesAll(s[0], y);
      if PassesAll(s[0], x) {
        assert Select(s, x) == [s[0]] + t;
        assert ([s[0]] + t)[0] == s[0] && ([s[0]] + t)[1..] == t;
      }
    }
  }

  /** The handler's stage-by-stage filtering equals one filter by all stages. */
  lemma {:induction false} StagesFuse(s: seq<Book>, stages: seq<Stage>)
    ensures ApplyStages(s, stages) == Select(s, stages)
    decreases |stages|
  {
    if stages == [] {
      SelectNothing(s);
    } else {
      StagesFuse(Select(s, [stages[0]]), stages[1..]);
      SelectTwice(s, [stages[0]], stages[1..]);
      assert [stages[0]] + stages[1..] == stages;
    }
  }

  /** A single filter depends only on which stages take part. */
  lemma {:induction false} SelectSameStages(s: seq<Book>, x: seq<Stage>, y: seq<Stage>)
    requires forall st :: st in x <==> st in y
    ensures Select(s, x) == Select(s, y)
  {
    if s != [] {
      SelectSameStages(s[1..], x, y);
      assert PassesAll(s[0], x) == PassesAll(s[0], y);
    }
  }

  /** Running the name, reading and finished filters in any order, or any of
      them more than once, gives the same list. */
  lemma FilterOrderIrrelevant(s: seq<Book>, x: seq<Stage>, y: seq<Stage>)
    requires forall st :: st in x <==> st in y
    ensures ApplyStages(s, x) == ApplyStages(s, y)
  {
    StagesFuse(s, x);
    StagesFuse(s, y);
    SelectSameStages(s, x, y);
  }

  /** Filtering a filtered list again with the same query changes nothing. */
  lemma FilterIdempotent(s: seq<Book>, stages: seq<Stage>)
    ensures ApplyStages(ApplyStages(s, stages), stages) == ApplyStages(s, stages)
  {
    StagesFuse(s, stages);
    StagesFuse(Select(s, stages), stages);
    SelectTwice(s, stages, stages);
    SelectSameStages(s, stages + stages, stages);
  }

  lemma PassesStagesOf(q: Query, b: Book)
    ensures PassesAll(b, StagesOf(q)) <==> Selected(q, b)
  {
    var stages := StagesOf(q);
    if NameGiven(q.name) {
      assert ByName(q.name.value) in stages;
    }
    if q.reading.Some? {
      assert ByReading(q.reading.value) in stages;
    }
    if q.finished.Some? {
      assert ByFinished(q.finished.value) in stages;
    }
  }

  /** The books that survive the handler's filters are an order-preserving
      subsequence of the collection, exactly those the query selects, each
      kept as often as it occurs. */
  lemma FilteredSpec(books: seq<Book>, q: Query)
    ensures IsSubsequence(Filtered(books, q), books)
    ensures forall b :: b in Filtered(books, q) <==> b in books && Selected(q, b)
    ensures forall b :: multiset(Filtered(books, q))[b] == if Selected(q, b) then multiset(books)[b] else 0
  {
    StagesFuse(books, StagesOf(q));
    forall b {
      PassesStagesOf(q, b);
    }
  }

  /** A present `reading` or `finished` outside "1", "true", "0", "false"
      (the empty string included) empties the list. */
  lemma InvalidFlagEmptiesList(books: seq<Book>, q: Query)
    requires (q.reading.Some? && !IsYes(q.reading.value) && !IsNo(q.reading.value))
          || (q.finished.Some? && !IsYes(q.finished.value) && !IsNo(q.finished.value))
    ensures List(books, q) == []
  {
    var stages := StagesOf(q);
    StagesFuse(books, stages);
    forall b | b in books ensures !PassesAll(b, stages) {
      PassesStagesOf(q, b);
    }
    SelectRejectsAll(books, stages);
  }

  /** `reading=1` or `reading=true` alone keeps exactly the books part-way through. */
  lemma ReadingYesKeepsInProgress(books: seq<Book>, flag: string)
    requires IsYes(flag)
    ensures forall b :: b in Filtered(books, Query(None, Some(flag), None)) <==>
                          b in books && b.readPage.Some? && b.pageCount.Some?
                          && 0 < b.readPage.value < b.pageCount.value
  {
    FilteredSpec(books, Query(None, Some(flag), None));
  }

  /** `reading=0` or `reading=false` alone keeps exactly the books untouched or
      read to the end (including those with neither page field). */
  lemma ReadingNoKeepsIdle(books: seq<Book>, flag: string)
    requires IsNo(flag)
    ensures forall b :: b in Filtered(books, Query(None, Some(flag), None)) <==>
                          b in books && (b.readPage == Some(0) || b.readPage == b.pageCount)
  {
    FilteredSpec(books, Query(None, Some(flag), None));
  }

  /** `finished=1` alone keeps exactly the finished books, `finished=0` the others. */
  lemma FinishedFlagKeepsFinished(books: seq<Book>, flag: string)
    requires IsYes(flag) || IsNo(flag)
    ensures forall b :: b in Filtered(books, Query(None, None, Some(flag))) <==>
                          b in books && b.finished == IsYes(flag)
  {
    FilteredSpec(books, Query(None, None, Some(flag)));
  }

  /** An empty `name` parameter is falsy and filters nothing. */
  lemma BlankNameSkipsFilter(books: seq<Book>, q: Query)
    requires q.name == Some("")
    ensures Filtered(books, q) == Filtered(books, q.(name := None))
  {
  }

  lemma {:induction false} LowerTwice(s: string)
    ensures Lower(Lower(s)) == Lower(s)
  {
  }

  /** The name filter ignores the case of the query. */
  lemma NameFilterIgnoresCase(b: Book, text: string)
    ensures NameMatches(b, text) == NameMatches(b, Lower(text))
  {
    LowerTwice(text);
  }
}
