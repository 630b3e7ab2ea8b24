/**
 * The document store behind the resolvers, as one value: the author, book and
 * user collections in insertion order, the log of messages published on the
 * `BOOK_ADDED` topic, and the next free document id.
 */
module Store {
  import opened Records

  datatype State = State(authors: seq<Author>, books: seq<Book>, users: seq<User>, events: seq<Event>, nextId: Id)

  /** The store before any document is saved. */
  const Empty := State([], [], [], [], 0)

  /** `findOne({ <key>: k })`: the index of the first document whose key is `k`, in insertion order. */
  function IndexOf<T>(xs: seq<T>, key: T -> string, k: string): (r: Option<nat>)
    ensures r.Some? ==> r.value < |xs| && key(xs[r.value]) == k
    ensures r.Some? ==> forall j :: 0 <= j < r.value ==> key(xs[j]) != k
    ensures r.None? ==> forall j :: 0 <= j < |xs| ==> key(xs[j]) != k
    decreases |xs|
  {
    if xs == [] then None
    else if key(xs[0]) == k then Some(0)
    else match IndexOf(xs[1..], key, k)
      case None => None
      case Some(i) => Some(i + 1)
  }

  /** `Author.findOne({ name })`. */
  function FindAuthor(authors: seq<Author>, name: string): (r: Option<nat>)
    ensures r.Some? ==> r.value < |authors| && authors[r.value].name == name
    ensures r.Some? ==> forall j :: 0 <= j < r.value ==> authors[j].name != name
    ensures r.None? <==> forall j :: 0 <= j < |authors| ==> authors[j].name != name
  {
    IndexOf(authors, (a: Author) => a.name, name)
  }

  /** `User.findOne({ username })`. */
  function FindUser(users: seq<User>, username: string): (r: Option<nat>)
    ensures r.Some? ==> r.value < |users| && users[r.value].username == username
    ensures r.Some? ==> forall j :: 0 <= j < r.value ==> users[j].username != username
    ensures r.None? <==> forall j :: 0 <= j < |users| ==> users[j].username != username
  {
    IndexOf(users, (u: User) => u.username, username)
  }

  /** `Book.find({ author })`: the books that refer to the author with that id, in insertion order. */
  function BooksBy(books: seq<Book>, author: Id): (r: seq<Book>)
    ensures |r| <= |books|
    ensures forall b :: b in r <==> b in books && b.author == author
    decreases |books|
  {
    if books == [] then []
    else
      var last := books[|books| - 1];
      var rest := BooksBy(books[..|books| - 1], author);
      assert books == books[..|books| - 1] + [last];
      if last.author == author then rest + [last] else rest
  }

  /** The ids of the given books, in the same order. */
  function BookIds(books: seq<Book>): (r: seq<Id>)
    ensures |r| == |books| && forall i :: 0 <= i < |books| ==> r[i] == books[i].id
  {
    seq(|books|, i requires 0 <= i < |books| => books[i].id)
  }

  /** The ids of the given authors, in the same order. */
  function AuthorIds(authors: seq<Author>): (r: seq<Id>)
    ensures |r| == |authors| && forall i :: 0 <= i < |authors| ==> r[i] == authors[i].id
  {
    seq(|authors|, i requires 0 <= i < |authors| => authors[i].id)
  }

  /** Every stored id was handed out before `nextId`. */
  ghost predicate IdsIssued(s: State) {
    (forall i :: 0 <= i < |s.authors| ==> s.authors[i].id < s.nextId) &&
    (forall i :: 0 <= i < |s.books| ==> s.books[i].id < s.nextId) &&
    (forall i :: 0 <= i < |s.users| ==> s.users[i].id < s.nextId)
  }

  /** No two documents of a collection share an id. */
  ghost predicate IdsDistinct(s: State) {
    (forall i, j :: 0 <= i < j < |s.authors| ==> s.authors[i].id != s.authors[j].id) &&
    (forall i, j :: 0 <= i < j < |s.books| ==> s.books[i].id != s.books[j].id) &&
    (forall i, j :: 0 <= i < j < |s.users| ==> s.users[i].id != s.users[j].id)
  }

  /** Every book refers to a stored author. */
  ghost predicate AuthorsResolve(s: State) {
    forall i :: 0 <= i < |s.books| ==> s.books[i].author in AuthorIds(s.authors)
  }

  /** Each author's `books` list holds exactly the ids of the books that refer to it, in the order they were added. */
  ghost predicate BackReferences(s: State) {
    forall i :: 0 <= i < |s.authors| ==> s.authors[i].books == BookIds(BooksBy(s.books, s.authors[i].id))
  }

  /** One `BOOK_ADDED` message was published per stored book, in the same order. */
  ghost predicate EventsMatchBooks(s: State) {
    |s.events| == |s.books| && forall i :: 0 <= i < |s.books| ==> s.events[i] == BookAdded(s.books[i])
  }

  /** The invariant every resolver keeps. */
  ghost predicate Wf(s: State) {
    IdsIssued(s) && IdsDistinct(s) && AuthorsResolve(s) && BackReferences(s) && EventsMatchBooks(s)
  }

  /** `new Author({ name }).save()`. */
  function SaveAuthor(s: State, name: string): State {
    s.(authors := s.authors + [NewAuthor(name, s.nextId)], nextId := s.nextId + 1)
  }

  /** `new User({ username, favoriteGenre }).save()`. */
  function SaveUser(s: State, username: string, favoriteGenre: string): State {
    s.(users := s.users + [User(username, favoriteGenre, s.nextId)], nextId := s.nextId + 1)
  }

  /** Save book `b`, publish it, and append its id to the books of the author at index `k`. */
  function AttachBook(s: State, k: nat, b: Book): State
    requires k < |s.authors|
  {
    s.(authors := s.authors[k := WithBook(s.authors[k], b.id)],
       books := s.books + [b],
       events := s.events + [BookAdded(b)],
       nextId := s.nextId + 1)
  }

  /** `author.born = year; author.save()` for the author at index `k`. */
  function SetBorn(s: State, k: nat, year: int): State
    requires k < |s.authors|
  {
    s.(authors := s.authors[k := s.authors[k].(born := Some(year))])
  }

  lemma EmptyIsWf()
    ensures Wf(Empty)
  {
  }

  /** Filtering after appending one book is filtering before, plus that book when it matches. */
  lemma {:induction false} BooksByAppend(books: seq<Book>, b: Book, author: Id)
    ensures BooksBy(books + [b], author) == if b.author == author then BooksBy(books, author) + [b] else BooksBy(books, author)
  {
    assert (books + [b])[..|books|] == books;
  }

  /** Filtering keeps store order: filtering a concatenation is concatenating the filtered parts. */
  lemma {:induction false} BooksByConcat(xs: seq<Book>, ys: seq<Book>, author: Id)
    ensures BooksBy(xs + ys, author) == BooksBy(xs, author) + BooksBy(ys, author)
    decreases |ys|
  {
    if ys != [] {
      var init, last := ys[..|ys| - 1], ys[|ys| - 1];
      assert ys == init + [last];
      assert xs + ys == (xs + init) + [last];
      BooksByConcat(xs, init, author);
      BooksByAppend(xs + init, last, author);
      BooksByAppend(init, last, author);
    } else {
      assert xs + ys == xs;
    }
  }

  /**
   * The filter neither drops nor duplicates: each book occurs in the result as
   * often as it is stored when it refers to the author, and not at all otherwise.
   */
  lemma {:induction false} BooksByCounts(books: seq<Book>, author: Id)
    ensures forall b :: multiset(BooksBy(books, author))[b] == if b.author == author then multiset(books)[b] else 0
    decreases |books|
  {
    if books != [] {
      var init, last := books[..|books| - 1], books[|books| - 1];
      assert books == init + [last];
      BooksByCounts(init, author);
      BooksByAppend(init, last, author);
    }
  }

  lemma {:induction false} BooksByNone(books: seq<Book>, author: Id)
    requires forall i :: 0 <= i < |books| ==> books[i].author != author
    ensures BooksBy(books, author) == []
  {
    if books != [] {
      BooksByNone(books[..|books| - 1], author);
    }
  }

  /** No book refers to an id that no stored author has. */
  lemma BooksByUnknownAuthor(s: State, author: Id)
    requires AuthorsResolve(s) && author !in AuthorIds(s.authors)
    ensures BooksBy(s.books, author) == []
  {
    BooksByNone(s.books, author);
  }

  lemma {:induction false} BookIdsAppend(bs: seq<Book>, b: Book)
    ensures BookIds(bs + [b]) == BookIds(bs) + [b.id]
  {
    assert forall i :: 0 <= i < |bs| ==> (bs + [b])[i] == bs[i];
  }

  lemma {:induction false} SaveAuthorKeepsWf(s: State, name: string)
    requires Wf(s)
    ensures Wf(SaveAuthor(s, name))
  {
    var s' := SaveAuthor(s, name);
    assert AuthorIds(s'.authors) == AuthorIds(s.authors) + [s.nextId];
    assert s.nextId !in AuthorIds(s.authors);
    BooksByUnknownAuthor(s, s.nextId);
    forall i | 0 <= i < |s'.authors|
      ensures s'.authors[i].books == BookIds(BooksBy(s'.books, s'.authors[i].id))
    {
      if i < |s.authors| {
        assert s'.authors[i] == s.authors[i];
      }
    }
  }

  lemma {:induction false} SaveUserKeepsWf(s: State, username: string, favoriteGenre: string)
    requires Wf(s)
    ensures Wf(SaveUser(s, username, favoriteGenre))
  {
  }

  /** Attaching a book to the author it refers to keeps every author's `books` list exactly the ids of its books, in order. */
  lemma {:induction false} AttachBookKeepsBackReferences(s: State, k: nat, b: Book)
    requires BackReferences(s) && k < |s.authors| && b.author == s.authors[k].id
    requires forall i, j :: 0 <= i < j < |s.authors| ==> s.authors[i].id != s.authors[j].id
    ensures BackReferences(AttachBook(s, k, b))
  {
    var s' := AttachBook(s, k, b);
    forall i | 0 <= i < |s'.authors|
      ensures s'.authors[i].books == BookIds(BooksBy(s'.books, s'.authors[i].id))
    {
      BooksByAppend(s.books, b, s.authors[i].id);
      if i == k {
        BookIdsAppend(BooksBy(s.books, b.author), b);
      }
    }
  }

  /** The new book takes the next free id. */
  lemma AttachBookKeepsIds(s: State, k: nat, b: Book)
    requires IdsIssued(s) && IdsDistinct(s) && k < |s.authors| && b.id == s.nextId
    ensures IdsIssued(AttachBook(s, k, b)) && IdsDistinct(AttachBook(s, k, b))
  {
  }

  /** The new book refers to a stored author, and no author's id changes. */
  lemma AttachBookKeepsAuthorsResolve(s: State, k: nat, b: Book)
    requires AuthorsResolve(s) && k < |s.authors| && b.author == s.authors[k].id
    ensures AuthorsResolve(AttachBook(s, k, b))
  {
    assert AuthorIds(AttachBook(s, k, b).authors) == AuthorIds(s.authors);
  }

  lemma AttachBookKeepsEvents(s: State, k: nat, b: Book)
    requires EventsMatchBooks(s) && k < |s.authors|
    ensures EventsMatchBooks(AttachBook(s, k, b))
  {
  }

  lemma {:induction false} AttachBookKeepsWf(s: State, k: nat, b: Book)
    requires Wf(s) && k < |s.authors|
    requires b.author == s.authors[k].id && b.id == s.nextId
    ensures Wf(AttachBook(s, k, b))
  {
    AttachBookKeepsIds(s, k, b);
    AttachBookKeepsAuthorsResolve(s, k, b);
    AttachBookKeepsBackReferences(s, k, b);
    AttachBookKeepsEvents(s, k, b);
  }

  lemma {:induction false} SetBornKeepsWf(s: State, k: nat, year: int)
    requires Wf(s) && k < |s.authors|
    ensures Wf(SetBorn(s, k, year))
  {
    var s' := SetBorn(s, k, year);
    assert AuthorIds(s'.authors) == AuthorIds(s.authors);
  }
}
