/** The query resolvers (`Query.*` and the derived `Author.bookCount`): pure functions of the store. */
module Queries {
  import opened Records
  import opened Store

  /** `Query.me`: the current user's username, favourite genre and id, or null when the request has no user. */
  function Me(currentUser: Option<User>): (r: Option<User>)
    ensures r.None? <==> currentUser.None?
    ensures r.Some? ==> r.value.username == currentUser.value.username
    ensures r.Some? ==> r.value.favoriteGenre == currentUser.value.favoriteGenre
    ensures r.Some? ==> r.value.id == currentUser.value.id
  {
    match currentUser
    case None => None
    case Some(u) => Some(User(u.username, u.favoriteGenre, u.id))
  }

  /** `Query.bookCount`: the number of stored books. */
  function BookCount(s: State): nat {
    |s.books|
  }

  /** `Query.authorCount`: the number of stored authors. */
  function AuthorCount(s: State): nat {
    |s.authors|
  }

  /** `Query.allAuthors`: every stored author, in insertion order. */
  function AllAuthors(s: State): seq<Author> {
    s.authors
  }

  /** `Author.bookCount`: the length of the author's `books` list. */
  function AuthorBookCount(a: Author): nat {
    |a.books|
  }

  /**
   * `Query.allBooks`. Without an author filter: every book. With one: the books
   * that refer to the first author of that name; the resolver reads that
   * author's id without checking that it was found, so the author must exist.
   * The genre argument is not used.
   */
  function AllBooks(s: State, author: Option<string>, genre: Option<string>): (r: seq<Book>)
    requires author.Some? ==> FindAuthor(s.authors, author.value).Some?
    ensures author.None? ==> r == s.books
    ensures author.Some? ==>
              forall b :: b in r <==> b in s.books && b.author == s.authors[FindAuthor(s.authors, author.value).value].id
  {
    match author
    case None => s.books
    case Some(name) => BooksBy(s.books, s.authors[FindAuthor(s.authors, name).value].id)
  }

  /**
   * `allBooks` filtered by an author lists each book that refers to the first
   * author of that name as often as it is stored, and no other book, in store order.
   */
  lemma AllBooksByAuthorCounts(s: State, name: string, genre: Option<string>)
    requires FindAuthor(s.authors, name).Some?
    ensures var id := s.authors[FindAuthor(s.authors, name).value].id;
      && (forall b :: multiset(AllBooks(s, Some(name), genre))[b] == if b.author == id then multiset(s.books)[b] else 0)
      && (forall xs, ys :: s.books == xs + ys ==> AllBooks(s, Some(name), genre) == BooksBy(xs, id) + BooksBy(ys, id))
  {
    var id := s.authors[FindAuthor(s.authors, name).value].id;
    BooksByCounts(s.books, id);
    forall xs, ys | s.books == xs + ys
      ensures AllBooks(s, Some(name), genre) == BooksBy(xs, id) + BooksBy(ys, id)
    {
      BooksByConcat(xs, ys, id);
    }
  }

  /** `Author.bookCount` of a stored author is the number of books `allBooks` lists for it. */
  lemma AuthorBookCountMatchesAllBooks(s: State, name: string, genre: Option<string>)
    requires Wf(s) && FindAuthor(s.authors, name).Some?
    ensures AuthorBookCount(s.authors[FindAuthor(s.authors, name).value]) == |AllBooks(s, Some(name), genre)|
  {
  }

  /** The sum of `Author.bookCount` over a list of authors. */
  function TotalAuthorBookCount(authors: seq<Author>): nat {
    if authors == [] then 0
    else TotalAuthorBookCount(authors[..|authors| - 1]) + AuthorBookCount(authors[|authors| - 1])
  }

  /** The number of books that refer to each of the given authors, summed. */
  function CountFor(authors: seq<Author>, books: seq<Book>): nat {
    if authors == [] then 0
    else CountFor(authors[..|authors| - 1], books) + |BooksBy(books, authors[|authors| - 1].id)|
  }

  lemma {:induction false} TotalIsCountFor(authors: seq<Author>, books: seq<Book>)
    requires forall i :: 0 <= i < |authors| ==> authors[i].books == BookIds(BooksBy(books, authors[i].id))
    ensures TotalAuthorBookCount(authors) == CountFor(authors, books)
  {
    if authors != [] {
      TotalIsCountFor(authors[..|authors| - 1], books);
    }
  }

  lemma {:induction false} CountForNoBooks(authors: seq<Author>)
    ensures CountFor(authors, []) == 0
  {
    if authors != [] {
      CountForNoBooks(authors[..|authors| - 1]);
    }
  }

  /** The ids of a list of authors with one more author at the end, when ids are distinct. */
  lemma AuthorIdsSnoc(prefix: seq<Author>, last: Author, x: Id)
    requires forall i :: 0 <= i < |prefix| ==> prefix[i].id != last.id
    ensures x in AuthorIds(prefix + [last]) <==> x in AuthorIds(prefix) || x == last.id
    ensures x == last.id ==> x !in AuthorIds(prefix)
  {
    assert AuthorIds(prefix + [last]) == AuthorIds(prefix) + [last.id];
  }

  /** Adding one book adds one to the count of the author it refers to, if that author is listed, and to no other. */
  lemma {:induction false} CountForAppend(authors: seq<Author>, books: seq<Book>, b: Book)
    requires forall i, j :: 0 <= i < j < |authors| ==> authors[i].id != authors[j].id
    ensures CountFor(authors, books + [b]) == CountFor(authors, books) + if b.author in AuthorIds(authors) then 1 else 0
  {
    if authors != [] {
      var prefix, last := authors[..|authors| - 1], authors[|authors| - 1];
      assert authors == prefix + [last];
      CountForAppend(prefix, books, b);
      BooksByAppend(books, b, last.id);
      AuthorIdsSnoc(prefix, last, b.author);
    }
  }

  lemma {:induction false} CountForAllBooks(authors: seq<Author>, books: seq<Book>)
    requires forall i, j :: 0 <= i < j < |authors| ==> authors[i].id != authors[j].id
    requires forall i :: 0 <= i < |books| ==> books[i].author in AuthorIds(authors)
    ensures CountFor(authors, books) == |books|
  {
    if books == [] {
      CountForNoBooks(authors);
    } else {
      var prefix, last := books[..|books| - 1], books[|books| - 1];
      CountForAllBooks(authors, prefix);
      CountForAppend(authors, prefix, last);
      assert prefix + [last] == books;
    }
  }

  /** `bookCount` equals the sum of `Author.bookCount` over `allAuthors`: the stored lists do not drift from the books. */
  lemma {:induction false} BookCountIsTotalAuthorBookCount(s: State)
    requires Wf(s)
    ensures BookCount(s) == TotalAuthorBookCount(AllAuthors(s))
  {
    TotalIsCountFor(s.authors, s.books);
    CountForAllBooks(s.authors, s.books);
  }

  /** `findOne({ name })` only looks at names, so changing other fields of an author does not change its result. */
  lemma FindAuthorSameNames(a1: seq<Author>, a2: seq<Author>, name: string)
    requires |a1| == |a2| && forall i :: 0 <= i < |a1| ==> a1[i].name == a2[i].name
    ensures FindAuthor(a1, name) == FindAuthor(a2, name)
  {
  }

  /**
   * After `addBook` saves book `b` for the author at index `k` (the first author
   * with that name), `allBooks` lists `b` last, both unfiltered and filtered by
   * that author's name, and that author's `bookCount` has grown by exactly one.
   */
  lemma {:induction false} AttachedBookIsListed(s: State, k: nat, b: Book, genre: Option<string>)
    requires Wf(s) && k < |s.authors| && FindAuthor(s.authors, s.authors[k].name) == Some(k)
    requires b.author == s.authors[k].id && b.id == s.nextId
    ensures var s' := AttachBook(s, k, b); var name := s.authors[k].name;
      && FindAuthor(s'.authors, name) == Some(k)
      && AllBooks(s', None, genre) == AllBooks(s, None, genre) + [b]
      && AllBooks(s', Some(name), genre) == AllBooks(s, Some(name), genre) + [b]
      && AuthorBookCount(s'.authors[k]) == AuthorBookCount(s.authors[k]) + 1
      && BookCount(s') == BookCount(s) + 1 && AuthorCount(s') == AuthorCount(s)
  {
    var s' := AttachBook(s, k, b);
    FindAuthorSameNames(s.authors, s'.authors, s.authors[k].name);
    BooksByAppend(s.books, b, b.author);
  }

  /** A newly saved author is the first author with its name, and no book refers to it yet. */
  lemma SavedAuthorIsFound(s: State, name: string, genre: Option<string>)
    requires Wf(s) && FindAuthor(s.authors, name).None?
    ensures var s' := SaveAuthor(s, name);
      && FindAuthor(s'.authors, name) == Some(|s.authors|)
      && AllBooks(s', Some(name), genre) == []
      && AuthorCount(s') == AuthorCount(s) + 1 && BookCount(s') == BookCount(s)
  {
    var s' := SaveAuthor(s, name);
    assert s'.authors[|s.authors|] == Author(name, s.nextId, None, []);
    assert forall j :: 0 <= j < |s.authors| ==> s'.authors[j] == s.authors[j];
    assert FindAuthor(s'.authors, name) == Some(|s.authors|);
    assert s.nextId !in AuthorIds(s.authors);
    BooksByUnknownAuthor(s, s.nextId);
    assert AllBooks(s', Some(name), genre) == BooksBy(s.books, s.nextId);
  }
}
