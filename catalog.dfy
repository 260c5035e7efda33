/** The bookstore's records and the pure logic behind its handlers: the catalog and user
    lookups, and the two review-list updates (upsert by username, delete the first review by
    a username), each with the properties the service relies on. */
module Catalog {
  import opened Seqs
  import opened Text

  /** A review on a book. The seed catalog holds bare strings (`Legacy`); reviews added
      through the service are `{username, review}` records (`ByUser`). */
  datatype Review = Legacy(text: string) | ByUser(username: string, review: string)

  datatype Book = Book(id: int, title: string, author: string, isbn: string, reviews: seq<Review>)

  datatype User = User(username: string, password: string, reviews: seq<Review>)

  /** Which lookup failed; each is a distinct 404 message of the service. */
  datatype Missing = BookMissing | AuthorBooksMissing | TitleBooksMissing | UserMissing | ReviewMissing

  /** What a handler answers: a payload, or one of the service's failures. */
  datatype Result<T> = Ok(value: T) | NotFound(missing: Missing) | Conflict | InvalidCredentials

  /** `r.username === username`: a bare-string review has no username, so it never matches. */
  predicate WrittenBy(r: Review, username: string): (b: bool)
    ensures r.Legacy? ==> !b
    ensures b <==> r.ByUser? && r == ByUser(username, r.review)
  {
    r.ByUser? && r.username == username
  }

  // ---------------------------------------------------------------- catalog queries

  /** The first book whose ISBN is exactly `isbn` (GET /books/isbn/:isbn). */
  function ByIsbn(books: seq<Book>, isbn: string): (r: Result<Book>)
    ensures r.Ok? || r == NotFound(BookMissing)
    ensures r.NotFound? <==> forall i :: 0 <= i < |books| ==> books[i].isbn != isbn
    ensures r.Ok? ==> exists i :: 0 <= i < |books| && books[i] == r.value && r.value.isbn == isbn
                                  && forall j :: 0 <= j < i ==> books[j].isbn != isbn
  {
    match Find(books, (b: Book) => b.isbn == isbn)
    case Some(b) => Ok(b)
    case None => NotFound(BookMissing)
  }

  /** Case-insensitive, whole-string author equality. */
  predicate AuthorMatches(b: Book, author: string): (m: bool)
    ensures m <==> |b.author| == |author|
                   && forall i :: 0 <= i < |author| ==> LowerChar(b.author[i]) == LowerChar(author[i])
  {
    Lower(b.author) == Lower(author)
  }

  /** The books by `author`, ignoring case, in catalog order (GET /books/author/:author). */
  function ByAuthor(books: seq<Book>, author: string): (r: Result<seq<Book>>)
    ensures r.Ok? || r == NotFound(AuthorBooksMissing)
    ensures r.NotFound? <==> forall i :: 0 <= i < |books| ==> !AuthorMatches(books[i], author)
    ensures r.Ok? ==> r.value != [] && IsSelection(books, (b: Book) => AuthorMatches(b, author), r.value)
  {
    var found := Filter(books, (b: Book) => AuthorMatches(b, author));
    FilterIsSelection(books, (b: Book) => AuthorMatches(b, author));
    if |found| > 0 then Ok(found) else NotFound(AuthorBooksMissing)
  }

  /** Case-insensitive substring match of a title fragment. */
  predicate TitleMatches(b: Book, fragment: string): (m: bool)
    ensures m <==> exists i :: OccursIgnoringCase(b.title, fragment, i)
  {
    LowerOccursAt(b.title, fragment);
    Includes(Lower(b.title), Lower(fragment))
  }

  /** The books whose title contains `fragment`, ignoring case, in catalog order
      (GET /books/title/:title). */
  function ByTitle(books: seq<Book>, fragment: string): (r: Result<seq<Book>>)
    ensures r.Ok? || r == NotFound(TitleBooksMissing)
    ensures r.NotFound? <==> forall i :: 0 <= i < |books| ==> !TitleMatches(books[i], fragment)
    ensures r.Ok? ==> r.value != [] && IsSelection(books, (b: Book) => TitleMatches(b, fragment), r.value)
  {
    var found := Filter(books, (b: Book) => TitleMatches(b, fragment));
    FilterIsSelection(books, (b: Book) => TitleMatches(b, fragment));
    if |found| > 0 then Ok(found) else NotFound(TitleBooksMissing)
  }

  /** Position of the first book with id `id`, or -1. */
  function BookIndex(books: seq<Book>, id: int): (i: int)
    ensures -1 <= i < |books|
    ensures i == -1 <==> forall j :: 0 <= j < |books| ==> books[j].id != id
    ensures 0 <= i ==> books[i].id == id && forall j :: 0 <= j < i ==> books[j].id != id
  {
    FindIndex(books, (b: Book) => b.id == id)
  }

  /** The reviews of the first book with id `id` (GET /books/:id/reviews). */
  function ReviewsOf(books: seq<Book>, id: int): (r: Result<seq<Review>>)
    ensures r.Ok? || r == NotFound(BookMissing)
    ensures r.NotFound? <==> forall j :: 0 <= j < |books| ==> books[j].id != id
    ensures r.Ok? ==> exists i :: 0 <= i < |books| && books[i].id == id && r.value == books[i].reviews
                                  && forall j :: 0 <= j < i ==> books[j].id != id
  {
    var i := BookIndex(books, id);
    if i == -1 then NotFound(BookMissing) else Ok(books[i].reviews)
  }

  // ---------------------------------------------------------------- user queries

  /** Some stored user has this exact username. */
  function HasUser(users: seq<User>, username: string): (b: bool)
    ensures b <==> exists i :: 0 <= i < |users| && users[i].username == username
  {
    Find(users, (u: User) => u.username == username).Some?
  }

  /** Login: success, echoing the username, when some user has exactly this username and
      password (POST /users/login). */
  function Login(users: seq<User>, username: string, password: string): (r: Result<string>)
    ensures r.Ok? || r == InvalidCredentials
    ensures r.Ok? <==> exists i :: 0 <= i < |users| && users[i].username == username && users[i].password == password
    ensures r.Ok? ==> r.value == username
  {
    match Find(users, (u: User) => u.username == username && u.password == password)
    case Some(u) => Ok(u.username)
    case None => InvalidCredentials
  }

  // ---------------------------------------------------------------- review updates

  /** Position `k` holds the first review written by `username`. */
  predicate IsFirstBy(reviews: seq<Review>, username: string, k: int)
  {
    0 <= k < |reviews| && WrittenBy(reviews[k], username)
    && forall j :: 0 <= j < k ==> !WrittenBy(reviews[j], username)
  }

  /** Position of the first review written by `username`, or -1 (findIndex on the reviews). */
  function ReviewIndex(reviews: seq<Review>, username: string): (k: int)
    ensures -1 <= k < |reviews|
    ensures k == -1 <==> forall j :: 0 <= j < |reviews| ==> !WrittenBy(reviews[j], username)
    ensures 0 <= k ==> WrittenBy(reviews[k], username) && forall j :: 0 <= j < k ==> !WrittenBy(reviews[j], username)
  {
    FindIndex(reviews, (r: Review) => WrittenBy(r, username))
  }

  /** The reviews after an upsert by `username`: the first review by that user gets the new
      text, or a new review is appended when there is none. */
  function Upserted(reviews: seq<Review>, username: string, text: string): (r: seq<Review>)
    ensures (forall j :: 0 <= j < |reviews| ==> !WrittenBy(reviews[j], username))
              ==> r == reviews + [ByUser(username, text)]
    ensures forall k :: IsFirstBy(reviews, username, k) ==> r == reviews[k := ByUser(username, text)]
  {
    var k := ReviewIndex(reviews, username);
    if k == -1 then reviews + [ByUser(username, text)]
    else reviews[k := ByUser(username, text)]
  }

  /** The reviews after deleting the first review by `username`; unchanged when there is none. */
  function Deleted(reviews: seq<Review>, username: string): (r: seq<Review>)
    ensures (forall j :: 0 <= j < |reviews| ==> !WrittenBy(reviews[j], username)) ==> r == reviews
    ensures forall k :: IsFirstBy(reviews, username, k) ==> r == reviews[..k] + reviews[k + 1..] && |r| == |reviews| - 1
  {
    var k := ReviewIndex(reviews, username);
    if k == -1 then reviews else reviews[..k] + reviews[k + 1..]
  }

  /** No two reviews by the same username (bare-string reviews have no username). */
  predicate OneReviewPerUser(reviews: seq<Review>)
  {
    forall i, j :: 0 <= i < j < |reviews| && reviews[i].ByUser? && reviews[j].ByUser?
      ==> reviews[i].username != reviews[j].username
  }

  /** The reviews not written by `username`, in order. */
  function Others(reviews: seq<Review>, username: string): seq<Review>
  {
    Filter(reviews, (r: Review) => !WrittenBy(r, username))
  }

  // ---------------------------------------------------------------- store invariant

  predicate UniqueIds(books: seq<Book>)
  {
    forall i, j :: 0 <= i < j < |books| ==> books[i].id != books[j].id
  }

  predicate UniqueIsbns(books: seq<Book>)
  {
    forall i, j :: 0 <= i < j < |books| ==> books[i].isbn != books[j].isbn
  }

  predicate UniqueUsernames(users: seq<User>)
  {
    forall i, j :: 0 <= i < j < |users| ==> users[i].username != users[j].username
  }

  /** What every state of the store satisfies: ids, ISBNs and usernames are unique and each
      book holds at most one review per username. */
  predicate StoreInvariant(books: seq<Book>, users: seq<User>)
  {
    && UniqueIds(books)
    && UniqueIsbns(books)
    && UniqueUsernames(users)
    && forall i :: 0 <= i < |books| ==> OneReviewPerUser(books[i].reviews)
  }
}
