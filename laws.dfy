/** Properties of the catalog queries and review updates that relate several calls or
    several inputs: case-insensitivity, ISBN uniqueness, what upsert and delete keep, the
    one-review-per-user invariant, and how upsert and delete undo or repeat each other. */
module CatalogLaws {
  import opened Seqs
  import opened Text
  import opened Catalog

  // ---------------------------------------------------------------- queries

  /** With unique ISBNs, looking up a stored book's ISBN returns exactly that book. */
  lemma ByIsbnFindsTheBook(books: seq<Book>, i: int)
    requires UniqueIsbns(books)
    requires 0 <= i < |books|
    ensures ByIsbn(books, books[i].isbn) == Ok(books[i])
  {
    var r := ByIsbn(books, books[i].isbn);
    var k :| 0 <= k < |books| && books[k] == r.value && r.value.isbn == books[i].isbn
             && forall j :: 0 <= j < k ==> books[j].isbn != books[i].isbn;
    assert k == i;
  }

  /** Author queries that differ only in letter case give the same answer. */
  lemma ByAuthorIgnoresCase(books: seq<Book>, a1: string, a2: string)
    requires Lower(a1) == Lower(a2)
    ensures ByAuthor(books, a1) == ByAuthor(books, a2)
  {
    FilterCongruent(books, (b: Book) => AuthorMatches(b, a1), (b: Book) => AuthorMatches(b, a2));
  }

  /** Lower-casing an author query beforehand changes nothing: the handler lower-cases it
      itself. */
  lemma ByAuthorLowerQuery(books: seq<Book>, author: string)
    ensures ByAuthor(books, Lower(author)) == ByAuthor(books, author)
  {
    LowerIdempotent(author);
    ByAuthorIgnoresCase(books, Lower(author), author);
  }

  /** Title queries that differ only in letter case give the same answer. */
  lemma ByTitleIgnoresCase(books: seq<Book>, f1: string, f2: string)
    requires Lower(f1) == Lower(f2)
    ensures ByTitle(books, f1) == ByTitle(books, f2)
  {
    FilterCongruent(books, (b: Book) => TitleMatches(b, f1), (b: Book) => TitleMatches(b, f2));
  }

  /** Every title includes the empty fragment, so it selects the whole (non-empty) catalog. */
  lemma ByTitleEmptyFragment(books: seq<Book>)
    requires books != []
    ensures ByTitle(books, "") == Ok(books)
  {
    forall j | 0 <= j < |books| ensures TitleMatches(books[j], "") {
      IncludesEmpty(Lower(books[j].title));
    }
    FilterAll(books, (b: Book) => TitleMatches(b, ""));
  }

  // ---------------------------------------------------------------- upsert

  /** Upsert leaves every review by another user, and every bare-string review, in place
      and in order. */
  lemma UpsertKeepsOthers(reviews: seq<Review>, username: string, text: string)
    ensures Others(Upserted(reviews, username, text), username) == Others(reviews, username)
  {
    var p := (r: Review) => !WrittenBy(r, username);
    var k := ReviewIndex(reviews, username);
    var n := ByUser(username, text);
    if k == -1 {
      FilterAppend(reviews, [n], p);
      assert Filter([n], p) == [];
    } else {
      var upd := reviews[k := n];
      assert reviews == reviews[..k] + [reviews[k]] + reviews[k + 1..];
      assert upd == reviews[..k] + [n] + reviews[k + 1..];
      FilterSkip(reviews[..k], reviews[k], reviews[k + 1..], p);
      FilterSkip(reviews[..k], n, reviews[k + 1..], p);
    }
  }

  /** Upsert keeps at most one review per username. */
  lemma UpsertKeepsOneReviewPerUser(reviews: seq<Review>, username: string, text: string)
    requires OneReviewPerUser(reviews)
    ensures OneReviewPerUser(Upserted(reviews, username, text))
  {
  }

  /** After an upsert, the user's review is present with the new text, and (given the
      invariant) it is their only one. */
  lemma UpsertLeavesOneReview(reviews: seq<Review>, username: string, text: string)
    requires OneReviewPerUser(reviews)
    ensures var r := Upserted(reviews, username, text);
      && (exists k :: 0 <= k < |r| && r[k] == ByUser(username, text))
      && forall j :: 0 <= j < |r| && WrittenBy(r[j], username) ==> r[j] == ByUser(username, text)
  {
    var r := Upserted(reviews, username, text);
    var k := ReviewIndex(reviews, username);
    if k == -1 {
      assert r[|reviews|] == ByUser(username, text);
    } else {
      assert r[k] == ByUser(username, text);
    }
  }

  /** A second upsert by the same user overwrites the first: the result is as if only the
      second had happened, and the second call does not change the length. */
  lemma UpsertTwice(reviews: seq<Review>, username: string, t1: string, t2: string)
    ensures Upserted(Upserted(reviews, username, t1), username, t2) == Upserted(reviews, username, t2)
    ensures |Upserted(Upserted(reviews, username, t1), username, t2)| == |Upserted(reviews, username, t1)|
  {
    var once := Upserted(reviews, username, t1);
    var k := ReviewIndex(reviews, username);
    if k == -1 {
      assert IsFirstBy(once, username, |reviews|);
    } else {
      assert IsFirstBy(once, username, k);
    }
  }

  // ---------------------------------------------------------------- delete

  /** Delete leaves every review by another user, and every bare-string review, in place
      and in order. */
  lemma DeleteKeepsOthers(reviews: seq<Review>, username: string)
    ensures Others(Deleted(reviews, username), username) == Others(reviews, username)
  {
    var p := (r: Review) => !WrittenBy(r, username);
    var k := ReviewIndex(reviews, username);
    if k != -1 {
      assert IsFirstBy(reviews, username, k);
      FilterSkipAt(reviews, k, p);
    }
  }

  /** Delete keeps at most one review per username. */
  lemma DeleteKeepsOneReviewPerUser(reviews: seq<Review>, username: string)
    requires OneReviewPerUser(reviews)
    ensures OneReviewPerUser(Deleted(reviews, username))
  {
    var k := ReviewIndex(reviews, username);
    if k != -1 {
      var r := Deleted(reviews, username);
      forall i, j | 0 <= i < j < |r| && r[i].ByUser? && r[j].ByUser?
        ensures r[i].username != r[j].username
      {
        var i' := if i < k then i else i + 1;
        var j' := if j < k then j else j + 1;
        assert r[i] == reviews[i'] && r[j] == reviews[j'];
      }
    }
  }

  /** Given the invariant, a delete removes the user's only review: none is left. */
  lemma DeleteRemovesAll(reviews: seq<Review>, username: string)
    requires OneReviewPerUser(reviews)
    ensures forall j :: 0 <= j < |Deleted(reviews, username)| ==> !WrittenBy(Deleted(reviews, username)[j], username)
  {
    var k := ReviewIndex(reviews, username);
    if k != -1 {
      assert IsFirstBy(reviews, username, k);
      var r := Deleted(reviews, username);
      assert r == reviews[..k] + reviews[k + 1..];
      forall j | 0 <= j < |r| ensures !WrittenBy(r[j], username) {
        var j' := if j < k then j else j + 1;
        assert r[j] == reviews[j'] && j' != k;
      }
    }
  }

  /** Deleting a review that an upsert added undoes the upsert. */
  lemma DeleteUndoesNewUpsert(reviews: seq<Review>, username: string, text: string)
    requires forall j :: 0 <= j < |reviews| ==> !WrittenBy(reviews[j], username)
    ensures Deleted(Upserted(reviews, username, text), username) == reviews
  {
    var added := Upserted(reviews, username, text);
    assert IsFirstBy(added, username, |reviews|);
    assert added[..|reviews|] == reviews;
  }

  // ---------------------------------------------------------------- store invariant

  /** Upserting on one book keeps the store invariant. */
  lemma UpsertKeepsInvariant(books: seq<Book>, users: seq<User>, i: int, username: string, text: string)
    requires StoreInvariant(books, users)
    requires 0 <= i < |books|
    ensures StoreInvariant(books[i := books[i].(reviews := Upserted(books[i].reviews, username, text))], users)
  {
    UpsertKeepsOneReviewPerUser(books[i].reviews, username, text);
  }

  /** Deleting on one book keeps the store invariant. */
  lemma DeleteKeepsInvariant(books: seq<Book>, users: seq<User>, i: int, username: string)
    requires StoreInvariant(books, users)
    requires 0 <= i < |books|
    ensures StoreInvariant(books[i := books[i].(reviews := Deleted(books[i].reviews, username))], users)
  {
    DeleteKeepsOneReviewPerUser(books[i].reviews, username);
  }

  /** Appending a user whose name is not yet taken keeps the store invariant. */
  lemma RegisterKeepsInvariant(books: seq<Book>, users: seq<User>, username: string, password: string)
    requires StoreInvariant(books, users)
    requires !HasUser(users, username)
    ensures StoreInvariant(books, users + [User(username, password, [])])
  {
  }
}
