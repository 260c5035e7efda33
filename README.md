# Bookstore service model

A Dafny model of the in-memory bookstore service in `app.js`: a catalog of books, each
owning an ordered list of reviews, and a list of registered users, served by request
handlers. The model covers the local handlers: list the catalog, look a book up by ISBN,
filter by author (case-insensitive whole-string equality) or by title (case-insensitive
substring), read a book's reviews by id, register, log in, upsert a review keyed by
username, and delete a user's review.

Layout:

- `text.dfy` (module `Text`): ASCII lower-casing and `indexOf`/`includes` substring search.
- `seqs.dfy` (module `Seqs`): `findIndex`, `find` and `filter` over sequences, with `filter`
  related to an independent definition of "the elements satisfying a predicate, in order"
  (`Selects`, `IsSelection`).
- `catalog.dfy` (module `Catalog`): the records (`Book`, `User`, `Review`), the handler
  outcomes (`Result`: `Ok`, `NotFound`, `Conflict`, `InvalidCredentials`), the pure queries,
  the two review-list updates (`Upserted`, `Deleted`) and the store invariant.
- `laws.dfy` (module `CatalogLaws`): properties relating several calls or inputs.
- `store.dfy` (module `Store`): the seed data and the `BookStore` class holding
  `books: seq<Book>` and `users: seq<User>`, with one method per handler.

The seed reviews are bare strings (`"good"`, `"nice"`, app.js:10-12), while upsert and delete
compare `r.username`. A string has no `username`, so a seed review never matches. `Review`
therefore has two variants: `Legacy(text)` for a bare string and `ByUser(username, review)` for
the records that upsert adds. `WrittenBy` holds only for `ByUser`. As a consequence, on a book
that still holds only its seed reviews, an upsert appends and a delete answers NotFound
(`Store.SeedReviewsNeverMatch`). The "at most one review per username" invariant constrains
only `ByUser` reviews.

A user's `reviews` list is set to `[]` at registration (app.js:75), and no handler writes it
again. The model stores `[]` and never changes it either.

Read-only handlers (`ListBooks`, `GetByIsbn`, `GetByAuthor`, `GetByTitle`, `GetReviews`,
`Login`) are methods without a `modifies` clause, so Dafny guarantees they leave `books` and
`users` unchanged. The mutating handlers state the whole new state in terms of the old one.
They also ensure `old(Valid()) ==> Valid()`: unique ids, ISBNs and usernames, and at most one
review per username on each book. The constructor establishes that invariant from the seed.

## Model

| member | source | states |
|---|---|---|
| `Seqs.FindIndex` | app.js:117 | the result is -1 exactly when no element satisfies the predicate; otherwise it is the position of the first element that does |
| `Seqs.Find` | app.js:31 | no result exactly when no element satisfies the predicate; otherwise the result is the element at the first position that does |
| `Seqs.Filter` | app.js:41 | every kept element satisfies the predicate; the result is empty exactly when no element does |
| `Seqs.FilterSelects` | app.js:41 | `filter` returns the elements at a strictly increasing list of positions, and those positions are exactly the ones whose elements satisfy the predicate, so the result keeps catalog order |
| `Seqs.FilterAppend` | app.js:102-120 | `filter` distributes over concatenation, so earlier elements stay earlier |
| `Seqs.FilterCongruent` | app.js:41 | filters with predicates that agree everywhere return the same list |
| `Text.Lower` | app.js:41 | lower-casing keeps the length, maps each character independently and leaves no upper-case ASCII letter |
| `Text.LowerIdempotent` | app.js:41 | lower-casing an already lower-cased string changes nothing |
| `Text.IndexOf` | app.js:51 | -1 exactly when the fragment occurs nowhere; otherwise the first position where it occurs |
| `Text.Includes` | app.js:51 | true exactly when the fragment occurs somewhere in the string as a contiguous substring |
| `Text.LowerOccursAt` | app.js:51 | the occurrences found in the lower-cased strings are exactly the occurrences that match character by character ignoring ASCII case |
| `Text.IncludesEmpty` | app.js:51 | every string includes the empty fragment |
| `Catalog.WrittenBy` | app.js:102 | true exactly for a `ByUser` review with that exact username (the same test as at line 117); a bare-string review never matches |
| `Catalog.AuthorMatches` | app.js:41 | true exactly when the author and the query have the same length and agree character by character ignoring ASCII case |
| `Catalog.TitleMatches` | app.js:51 | true exactly when the fragment occurs somewhere in the title, character by character ignoring ASCII case |
| `Catalog.ByIsbn` | app.js:30-37 | NotFound exactly when no book has that exact ISBN; otherwise the first book with that ISBN |
| `Catalog.ByAuthor` | app.js:40-47 | NotFound exactly when no author equals the query ignoring case; otherwise a non-empty list of exactly the matching books, in catalog order |
| `Catalog.ByTitle` | app.js:50-57 | NotFound exactly when no lower-cased title includes the lower-cased fragment; otherwise exactly the matching books, in catalog order |
| `Catalog.BookIndex` | app.js:61 | -1 exactly when no book has the id; otherwise the position of the first book with it |
| `Catalog.ReviewsOf` | app.js:60-67 | NotFound exactly when no book has the id; otherwise the reviews of the first book with that id |
| `Catalog.HasUser` | app.js:72 | true exactly when some stored user has that exact username |
| `Catalog.Login` | app.js:80-88 | success exactly when some stored user matches both username and password, and it echoes the username; otherwise InvalidCredentials |
| `Catalog.ReviewIndex` | app.js:117 | -1 exactly when no review is by that username (bare-string reviews never are); otherwise the first such position |
| `Catalog.Upserted` | app.js:101-107 | with no review by the user, the new review is appended; otherwise only the first review by the user is replaced and the length is kept |
| `Catalog.Deleted` | app.js:117-120 | with no review by the user, the list is unchanged; otherwise exactly the first review by the user is spliced out and the length drops by one |
| `CatalogLaws.ByIsbnFindsTheBook` | app.js:31 | with unique ISBNs, looking up a stored book's ISBN returns exactly that book |
| `CatalogLaws.ByAuthorIgnoresCase` | app.js:41 | author queries equal up to letter case give identical answers |
| `CatalogLaws.ByAuthorLowerQuery` | app.js:41 | lower-casing an author query before sending it gives the same answer as the query itself |
| `CatalogLaws.ByTitleIgnoresCase` | app.js:51 | title queries equal up to letter case give identical answers |
| `CatalogLaws.ByTitleEmptyFragment` | app.js:51-53 | the empty fragment selects the whole non-empty catalog; this is a fact about `ByTitle` and `includes("")` only, since the route `/books/title/:title` never delivers an empty parameter |
| `CatalogLaws.UpsertKeepsOthers` | app.js:102-107 | upsert keeps every other user's review and every bare-string review, in the same relative order |
| `CatalogLaws.UpsertKeepsOneReviewPerUser` | app.js:102-107 | upsert preserves "at most one review per username" |
| `CatalogLaws.UpsertLeavesOneReview` | app.js:102-107 | after an upsert the user's review carries the new text and, under the invariant, every review by that user does |
| `CatalogLaws.UpsertTwice` | app.js:102-107 | a second upsert by the same user equals a single upsert with the latest text, and it does not change the length |
| `CatalogLaws.DeleteKeepsOthers` | app.js:117-120 | delete keeps every other user's review and every bare-string review, in the same relative order |
| `CatalogLaws.DeleteKeepsOneReviewPerUser` | app.js:117-120 | delete preserves "at most one review per username" |
| `CatalogLaws.DeleteRemovesAll` | app.js:117-120 | under the invariant, no review by the user remains after a delete |
| `CatalogLaws.DeleteUndoesNewUpsert` | app.js:102-120 | deleting the review that an upsert appended restores the original list |
| `CatalogLaws.UpsertKeepsInvariant` | app.js:95-107 | upserting on one book preserves the store invariant |
| `CatalogLaws.DeleteKeepsInvariant` | app.js:114-120 | deleting on one book preserves the store invariant |
| `CatalogLaws.RegisterKeepsInvariant` | app.js:72-75 | appending a user whose name is new preserves the store invariant |
| `Store.SeedInvariant` | app.js:9-17 | the seed books and users satisfy the store invariant |
| `Store.SeedReviewsNeverMatch` | app.js:10-12 | no seed review matches any username, so an upsert on a seed book appends and a delete leaves it unchanged |
| `Store.BookStore.constructor` | app.js:9-17 | the store starts with the seed books and users, and the invariant holds |
| `Store.BookStore.ListBooks` | app.js:25-27 | returns the whole catalog; nothing changes |
| `Store.BookStore.GetByIsbn` | app.js:30-37 | answers the ISBN lookup on the current catalog; nothing changes |
| `Store.BookStore.GetByAuthor` | app.js:40-47 | answers the author query on the current catalog; nothing changes |
| `Store.BookStore.GetByTitle` | app.js:50-57 | answers the title query on the current catalog; nothing changes |
| `Store.BookStore.GetReviews` | app.js:60-67 | answers the reviews of the book with that id; nothing changes |
| `Store.BookStore.Register` | app.js:70-77 | Conflict with users unchanged when the name is taken; otherwise the new user, with empty reviews, is appended after the earlier users; books unchanged; invariant kept |
| `Store.BookStore.Login` | app.js:80-88 | answers the credential check on the current users; nothing changes |
| `Store.BookStore.UpsertReview` | app.js:93-109 | NotFound(book) when no book has the id, otherwise NotFound(user) when the user is unknown, both with nothing changed; otherwise only that book's reviews are upserted and returned; users unchanged; invariant kept |
| `Store.BookStore.DeleteReview` | app.js:112-122 | NotFound(book) when no book has the id, NotFound(review) when it holds no review by the user, both with nothing changed; otherwise the first such review is spliced out of only that book and the rest returned; users unchanged; invariant kept |

## Left out

- HTTP plumbing is not modelled: Express routing, JSON body parsing, status codes, response
  text and `app.listen` (app.js:1-6, 20, 157-159). Outcomes are `Result` values. The
  `Missing` tag tells apart the 404 messages ("Book not found", "User not found", ...).
  The constant `message` strings of the login and delete replies are dropped.
- The four `/external-books` endpoints (app.js:127-155) are not modelled. They are network
  calls to a remote API through axios, which is foreign I/O.
- `parseInt` of the path id (app.js:61, 95, 114) is not modelled. Handlers take the id as an
  `int`, so a non-numeric id (NaN in JavaScript, which matches no book) has no counterpart.
- `toLowerCase` is modelled for ASCII letters only. Full Unicode case mapping is not.
- Request-body fields are assumed to be strings. A missing field is `undefined` in
  JavaScript, and `undefined === undefined`. Such a request would match a bare-string review,
  or a user registered without a name. That path is not modelled.
- JavaScript updates the review object and the `reviews` array in place, and the reply shares
  that array. The model replaces the book's review sequence by value, so aliasing between
  the stored array and a reply is not captured.
- Concurrency is not modelled. The service handles one request at a time on shared lists.
