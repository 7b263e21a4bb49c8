# Bookshelf API: a verified model of the book collection

The service keeps its books in one module-level array, `books` (index.js:9).
Five route handlers work on that array:

- `GET /books` filters the books by name, by reading state and by finished state, then shows `id`, `name` and `publisher` of each.
- `POST /books` validates a payload, derives `finished` and appends a new book.
- `GET /books/{bookId}` finds the first book with that id.
- `PUT /books/{bookId}` validates a payload and merges it over the stored book in place.
- `DELETE /books/{bookId}` splices the first book with that id out of the array.

The model has four modules:

- `BookModel` (book_model.dfy) holds the records. A payload field the client leaves out (`undefined`) is `None`. It also holds the validation predicates, `FindIndex` (`findIndex`), `Get`, the record built by create (`NewBook`) and the object spread done by update (`Merge`).
- `Listing` (listing.dfy) holds the list handler. Each `filter` call is a `Stage`. `ApplyStages` runs them one after another, as the handler does. `Selected` is the reference meaning: the conjunction of the conditions. `Select` is a single filtering pass.
- `Shelf` (shelf.dfy) holds the class `BookShelf`. Its field `books: seq<Book>` is reassigned by `Create` (`push`), `Update` (indexed assignment) and `Delete` (`splice`). Its invariant is that every stored name is non-empty. The two reading handlers are the functions `BookModel.Get` and `Listing.List` applied to `books`.
- `Properties` (properties.dfy) holds lemmas about how the handlers' results relate to one another.

The generated id and the clock readings are parameters. Create reads the clock twice, so it takes two timestamps, and `insertedAt == updatedAt` is not claimed.

## Behaviour of the code worth knowing

A reader might expect three rules of every stored book: its `id` and `insertedAt` never change after create, `finished == (readPage == pageCount)`, and `readPage <= pageCount`. Create keeps the first two, and it never stores a book that has both page fields with `readPage > pageCount`; it does accept `readPage` without `pageCount`, because the check at index.js:77 then compares with `undefined`. Update breaks each of the three rules, and the model follows the code:

- Update spreads the payload after the stored record (index.js:149-151), so a payload `id` or `insertedAt` replaces the stored one. `Merge` states this. `UpdateCanDuplicateId` shows that ids can then stop being unique. Because of that, `BookShelf.Valid` does not include id uniqueness. The methods only promise to keep ids unique when the payload carries no other id.
- Update computes `finished` from the payload's `readPage === pageCount` (index.js:152), not from the merged fields. A payload with neither field marks the book finished (`PartialUpdateMarksFinished`). A payload with only `readPage` equal to the stored `pageCount` marks it unfinished, although the merged book has `readPage == pageCount` (`UpdateWithoutPageCountIsUnfinished`).
- The overflow checks (index.js:77, index.js:142) compare with `undefined` when a field is missing, and such a comparison is false. So a partial update can store `readPage > pageCount` (`PartialUpdateEscapesOverflowCheck`). Neither "`finished` always equals `readPage == pageCount`" nor "`readPage <= pageCount`" holds for stored books.
- Update checks the name before the existence of the id, so an unknown id with a missing name gives MissingName.
- An empty `name` query skips the name filter. An empty `reading` or `finished` query empties the list, as does any value other than `1`, `true`, `0` or `false`.

## Model

| member | source | states |
|---|---|---|
| BookModel.FailureStatus | index.js:134-164 | the two validation failures answer 400; not-found answers 404, and only it does |
| BookModel.FindIndex | index.js:131 | -1 exactly when no book has the id; otherwise a position holding the id with no earlier position holding it |
| BookModel.Get | index.js:105-121 | NotFound exactly when no book has the id; otherwise the book at the first position holding the id |
| BookModel.NewBook | index.js:84-88 | the created book has the fresh id, the two timestamps, the payload's name, publisher, page fields and other fields, and a `finished` consistent with its page fields |
| BookModel.Merge | index.js:149-154 | every field the payload carries replaces the stored one, `id` and `insertedAt` included; absent fields keep the stored values; `finished` is the payload's `readPage == pageCount`; `updatedAt` is the new time; other fields merge with the payload winning |
| BookModel.NameGiven | index.js:18 | JavaScript truthiness of `name`, as tested at index.js:18, 70 and 134: `undefined` and the empty string are falsy, every other string is truthy |
| BookModel.Overflows | index.js:77 | `readPage > pageCount`, also at index.js:142: false whenever either field is missing, since a comparison with `undefined` is false; otherwise the numeric comparison |
| Listing.Contains | index.js:20 | `includes`: true exactly when the query occurs in the name at some position |
| Listing.InProgress | index.js:27 | a book being read is never also untouched or read to the end |
| Listing.ReadingMatches | index.js:25-32 | `1`/`true` keeps exactly the books with both page fields and `0 < readPage < pageCount`; `0`/`false` exactly those with `readPage === 0` or `readPage === pageCount`, two missing fields counting as equal; any other flag keeps nothing |
| Listing.FinishedMatches | index.js:36-43 | `1`/`true` keeps exactly the finished books, `0`/`false` exactly the unfinished ones, any other flag keeps nothing |
| Listing.Selected | index.js:17-44 | the reference meaning of a query: with no truthy `name`, no `reading` and no `finished` every book is selected; a present `reading` or `finished` outside the four recognised values selects none |
| Listing.StagesOf | index.js:18-44 | at most three filters run: the name filter exactly when `name` is truthy (`if (name)`), the reading and finished filters exactly when those parameters are not `undefined` |
| Listing.ApplyStages | index.js:17-44 | the successive `filter` calls keep exactly the books passing every stage, each as often as it is stored |
| Listing.Summarize | index.js:48-52 | the listed entry has the book's `id`, `name` and `publisher` and nothing else |
| Listing.SummariesMembers | index.js:48-52 | a summary is in the projection exactly when some kept book projects to it |
| Listing.Lower | index.js:20 | lower-casing keeps the length and folds each character on its own |
| Listing.Select | index.js:19-43 | one filtering pass keeps exactly the books passing every stage, each as many times as it occurs, as a subsequence of its input |
| Listing.Summaries | index.js:48-52 | the projection keeps length and order, mapping each book to its id, name and publisher |
| Listing.List | index.js:14-60 | the list is the projection of an order-preserving subsequence of the collection that holds each selected book as often as it is stored and no other book; a summary appears exactly when some selected book has it |
| Listing.SelectRejectsAll | index.js:31 | a filter that no book passes yields the empty list |
| Listing.SelectTwice | index.js:17-44 | filtering by one set of stages and then another is one filtering by both |
| Listing.StagesFuse | index.js:17-44 | running the filters one after another equals one pass with their conjunction |
| Listing.SelectSameStages | index.js:17-44 | one pass depends only on which stages take part, not on their order or repetition |
| Listing.FilterOrderIrrelevant | index.js:17-44 | the name, reading and finished filters give the same result in any order |
| Listing.FilterIdempotent | index.js:17-44 | filtering an already filtered list again with the same stages changes nothing |
| Listing.PassesStagesOf | index.js:18-44 | a book passes the handler's stages for a query exactly when the query selects it |
| Listing.FilteredSpec | index.js:17-44 | the surviving books are an order-preserving subsequence of the collection holding exactly the selected books, each as often as it is stored |
| Listing.InvalidFlagEmptiesList | index.js:24-44 | a present `reading` or `finished` other than `1`, `true`, `0`, `false` gives an empty list |
| Listing.ReadingYesKeepsInProgress | index.js:26-27 | `reading=1` or `true` keeps exactly the books with `0 < readPage < pageCount` |
| Listing.ReadingNoKeepsIdle | index.js:28-29 | `reading=0` or `false` keeps exactly the books with `readPage == 0` or `readPage == pageCount` |
| Listing.FinishedFlagKeepsFinished | index.js:37-40 | `finished=1` or `true` keeps exactly the finished books; `0` or `false` keeps exactly the unfinished ones |
| Listing.BlankNameSkipsFilter | index.js:18 | an empty `name` query filters the same as no `name` query |
| Listing.NameFilterIgnoresCase | index.js:20 | the name filter gives the same answer for a query and for its lower-cased form |
| Shelf.BookShelf.constructor | index.js:9 | the collection starts empty |
| Shelf.BookShelf.Create | index.js:67-98 | missing name gives MissingName, then overflow gives PageOverflow, each leaving the collection unchanged; otherwise the new book is appended at the end, its id returned, GET finds it, and unique ids stay unique |
| Shelf.BookShelf.Update | index.js:128-165 | MissingName before NotFound before PageOverflow, each leaving the collection unchanged; on success only the first slot with the id changes, to the merged record; the length is kept; unique ids stay unique and GET returns exactly the merged record when the payload keeps the id |
| Shelf.BookShelf.Delete | index.js:171-188 | NotFound leaves the collection unchanged; otherwise exactly the first book with the id is removed and the rest keep their order; with unique ids, GET then answers NotFound |
| Properties.FirstWithId | index.js:131 | the lookup result is the first position holding the id, whatever way that position is reached |
| Properties.GetFindsAppended | index.js:86-107 | after appending a book with an unused id, the lookup finds it at the end |
| Properties.CreateKeepsIdsUnique | index.js:86-90 | appending a book with a fresh id keeps ids unique |
| Properties.GetAfterUpdate | index.js:131-154 | after an update whose payload keeps the id, GET returns the merged record |
| Properties.UpdateKeepsIdsUnique | index.js:149-151 | an update whose payload carries no other id keeps ids unique |
| Properties.UpdateCanDuplicateId | index.js:149-151 | a payload carrying another book's id leaves two books with the same id |
| Properties.DeleteKeepsIdsUnique | index.js:173-176 | removing a book keeps ids unique |
| Properties.GetAfterDelete | index.js:173-176 | with unique ids, GET after a successful delete answers NotFound |
| Properties.DeleteRemovesFirstOnly | index.js:173-176 | when another book has the same id, GET after the delete finds the next one |
| Properties.DeleteKeepsOrder | index.js:176 | the spliced collection is an order-preserving subsequence holding every book but one copy of the removed one |
| Properties.PartialUpdateMarksFinished | index.js:152 | a payload without page fields marks the book finished, even when the stored pages differ |
| Properties.PartialUpdateEscapesOverflowCheck | index.js:142-151 | a payload with `readPage` alone passes the page check yet can leave `readPage > pageCount` stored |
| Properties.FullUpdateKeepsBookConsistent | index.js:142-152 | a payload with both page fields that passes the check leaves a consistent, in-bounds book |
| Properties.RecordsStayWellFormed | index.js:84-90 | when the payload carries each field once, the created and the merged record do too |
| Properties.ListedNamesNonEmpty | index.js:48-52 | when every stored name is non-empty, as the class invariant keeps it, no listed summary has an empty name |
| Properties.FinishedBookListed | index.js:37-40 | a book created with 100 of 100 pages is finished, listed under `finished=1` and absent under `finished=0` |
| Properties.UpdateWithoutPageCountIsUnfinished | index.js:149-153 | updating with a name and `readPage` only keeps id and `insertedAt` and records the book as unfinished |
| Properties.NameQueryIgnoresCase | index.js:18-21 | the name query `go` matches the names `Go` and `gopher` |

## Left out

- Server construction, route registration and response rendering (index.js:1-7 and the `h.response(...).code(...)` calls) belong to the web framework. Responses are `Result` values, and the status codes come from `FailureStatus`. The Indonesian message texts are not modelled.
- `v4()` is a foreign call. It becomes the `freshId` parameter of `Create`, with the precondition that no stored book uses it.
- `new Date().toISOString()` reads the clock. It becomes the timestamp parameters.
- `toLowerCase` does full Unicode lowering. `Listing.Lower` folds ASCII letters only.
- JavaScript loose typing is not modelled. `name`, `publisher`, `id` and `insertedAt` are strings and the page fields are integers. A `null`, a string page count or a non-string name are outside the model. So are the coercions the comparisons would apply to them, and a repeated query parameter that arrives as an array.
- A client-sent `finished` or `updatedAt` is always overwritten, so `Payload` does not carry them.
- Create stores the request's payload object itself and sets fields on it. The model builds a fresh record, so aliasing with the request object is not captured.
- `console.log` (index.js:46) and start-up (index.js:193-203) are I/O.
- Serialising concurrent requests is left to the runtime.
- A POST or PUT without a body gives `request.payload === null`. Reading `name` from it (index.js:70, index.js:134) then throws, and the framework answers 500. `Payload` always exists, so a missing body is outside the model.
