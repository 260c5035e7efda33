/** The service object: the two process-wide lists the handlers share, the seed data they
    start from, and one method per handler of the local API. Read-only handlers have no
    `modifies` clause, so they leave both lists as they were. */
module Store {
  import opened Catalog
  import CatalogLaws

  /** The three books the service starts with; their reviews are bare strings. */
  const SeedBooks: seq<Book> := [
    Book(1, "The Great Gatsby", "F. Scott Fitzgerald", "9780743273565", [Legacy("good"), Legacy("nice")]),
    Book(2, "To Kill a Mockingbird", "Harper Lee", "9780061120084", [Legacy("nice")]),
    Book(3, "1984", "George Orwell", "9780451524935", [Legacy("good")])
  ]

  /** The one user the service starts with. */
  const SeedUsers: seq<User> := [User("john_doe", "password123", [])]

  /** The seed data satisfies the store invariant. */
  lemma SeedInvariant()
    ensures StoreInvariant(SeedBooks, SeedUsers)
  {
    assert SeedBooks[0].isbn[4] != SeedBooks[1].isbn[4];
    assert SeedBooks[0].isbn[4] != SeedBooks[2].isbn[4];
    assert SeedBooks[1].isbn[4] != SeedBooks[2].isbn[4];
  }

  /** The seed reviews are bare strings, which never match a username: on a seed book an
      upsert always appends and a delete always finds nothing. */
  lemma SeedReviewsNeverMatch(username: string, text: string)
    ensures forall i :: 0 <= i < |SeedBooks| ==>
      && ReviewIndex(SeedBooks[i].reviews, username) == -1
      && Upserted(SeedBooks[i].reviews, username, text) == SeedBooks[i].reviews + [ByUser(username, text)]
      && Deleted(SeedBooks[i].reviews, username) == SeedBooks[i].reviews
  {
  }

  class BookStore {
    var books: seq<Book>
    var users: seq<User>

    ghost predicate Valid()
      reads this
    {
      StoreInvariant(books, users)
    }

    /** The store as the process starts: the seed books and users. */
    constructor ()
      ensures books == SeedBooks && users == SeedUsers
      ensures Valid()
    {
      books := SeedBooks;
      users := SeedUsers;
      SeedInvariant();
    }

    /** GET /books: the whole catalog. */
    method ListBooks() returns (r: seq<Book>)
      ensures r == books
    {
      r := books;
    }

    /** GET /books/isbn/:isbn. */
    method GetByIsbn(isbn: string) returns (r: Result<Book>)
      ensures r == ByIsbn(books, isbn)
    {
      r := ByIsbn(books, isbn);
    }

    /** GET /books/author/:author. */
    method GetByAuthor(author: string) returns (r: Result<seq<Book>>)
      ensures r == ByAuthor(books, author)
    {
      r := ByAuthor(books, author);
    }

    /** GET /books/title/:title. */
    method GetByTitle(fragment: string) returns (r: Result<seq<Book>>)
      ensures r == ByTitle(books, fragment)
    {
      r := ByTitle(books, fragment);
    }

    /** GET /books/:id/reviews. */
    method GetReviews(id: int) returns (r: Result<seq<Review>>)
      ensures r == ReviewsOf(books, id)
    {
      r := ReviewsOf(books, id);
    }

    /** POST /users/register: Conflict when the username is taken; otherwise the new user,
        with no reviews, is appended. */
    method Register(username: string, password: string) returns (r: Result<()>)
      modifies this
      ensures books == old(books)
      ensures old(HasUser(users, username)) ==> r == Conflict && users == old(users)
      ensures !old(HasUser(users, username)) ==> r == Ok(()) && users == old(users) + [User(username, password, [])]
      ensures old(Valid()) ==> Valid()
    {
      if HasUser(users, username) {
        return Conflict;
      }
      ghost var before := users;
      users := users + [User(username, password, [])];
      if StoreInvariant(books, before) {
        CatalogLaws.RegisterKeepsInvariant(books, before, username, password);
      }
      r := Ok(());
    }

    /** POST /users/login. */
    method Login(username: string, password: string) returns (r: Result<string>)
      ensures r == Catalog.Login(users, username, password)
    {
      r := Catalog.Login(users, username, password);
    }

    /** POST /books/:id/reviews: NotFound when the book, then the user, is missing;
        otherwise the book's reviews are upserted in place and returned. */
    method UpsertReview(id: int, username: string, text: string) returns (r: Result<seq<Review>>)
      modifies this
      ensures users == old(users)
      ensures var i := BookIndex(old(books), id);
        if i == -1 then r == NotFound(BookMissing) && books == old(books)
        else if !HasUser(users, username) then r == NotFound(UserMissing) && books == old(books)
        else
          var updated := Upserted(old(books)[i].reviews, username, text);
          r == Ok(updated) && books == old(books)[i := old(books)[i].(reviews := updated)]
      ensures old(Valid()) ==> Valid()
    {
      var i := BookIndex(books, id);
      if i == -1 {
        return NotFound(BookMissing);
      }
      if !HasUser(users, username) {
        return NotFound(UserMissing);
      }
      var reviews := books[i].reviews;
      var k := ReviewIndex(reviews, username);
      if k != -1 {
        reviews := reviews[k := ByUser(username, text)];
      } else {
        reviews := reviews + [ByUser(username, text)];
      }
      ghost var before := books;
      books := books[i := books[i].(reviews := reviews)];
      if StoreInvariant(before, users) {
        CatalogLaws.UpsertKeepsInvariant(before, users, i, username, text);
      }
      r := Ok(reviews);
    }

    /** DELETE /books/:id/reviews: NotFound when the book is missing or holds no review by
        `username`; otherwise that first review is spliced out and the rest returned. */
    method DeleteReview(id: int, username: string) returns (r: Result<seq<Review>>)
      modifies this
      ensures users == old(users)
      ensures var i := BookIndex(old(books), id);
        if i == -1 then r == NotFound(BookMissing) && books == old(books)
        else if ReviewIndex(old(books)[i].reviews, username) == -1 then r == NotFound(ReviewMissing) && books == old(books)
        else
          var remaining := Deleted(old(books)[i].reviews, username);
          r == Ok(remaining) && books == old(books)[i := old(books)[i].(reviews := remaining)]
      ensures old(Valid()) ==> Valid()
    {
      var i := BookIndex(books, id);
      if i == -1 {
        return NotFound(BookMissing);
      }
      var reviews := books[i].reviews;
      var k := ReviewIndex(reviews, username);
      if k == -1 {
        return NotFound(ReviewMissing);
      }
      reviews := reviews[..k] + reviews[k + 1..];
      ghost var before := books;
      books := books[i := books[i].(reviews := reviews)];
      if StoreInvariant(before, users) {
        CatalogLaws.DeleteKeepsInvariant(before, users, i, username);
      }
      r := Ok(reviews);
    }
  }
}
