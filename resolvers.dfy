/**
 * The mutation resolvers of the library backend. The document store is the
 * `Library` object, whose collections the resolvers update in place; the
 * request's authenticated user is passed to each resolver as `currentUser`.
 */
module Resolvers {
  import opened Records
  import opened Store
  import Queries

  class Library {
    var authors: seq<Author>
    var books: seq<Book>
    var users: seq<User>
    /** What has been published on the `BOOK_ADDED` topic, oldest first. */
    var events: seq<Event>
    var nextId: Id
    /** The server's `JWT_SECRET`, which the environment may leave unset. */
    const secret: Option<string>

    /** The store as one value. */
    function Snapshot(): State
      reads this
    {
      State(authors, books, users, events, nextId)
    }

    ghost predicate Valid()
      reads this
    {
      Wf(Snapshot())
    }

    constructor (secret: Option<string>)
      ensures Valid() && Snapshot() == Empty && this.secret == secret
    {
      authors, books, users, events, nextId := [], [], [], [], 0;
      this.secret := secret;
      EmptyIsWf();
    }

    /** `Mutation.addAuthor`: saves a new author with that name, without any check. */
    method AddAuthor(name: string) returns (a: Author)
      requires Valid()
      modifies this
      ensures Valid()
      ensures a == NewAuthor(name, old(nextId))
      ensures authors == old(authors) + [a] && nextId == old(nextId) + 1
      ensures books == old(books) && users == old(users) && events == old(events)
    {
      SaveAuthorKeepsWf(Snapshot(), name);
      a := NewAuthor(name, nextId);
      authors := authors + [a];
      nextId := nextId + 1;
    }

    /** `Mutation.createUser`: saves a new user, without any check. */
    method CreateUser(username: string, favoriteGenre: string) returns (u: User)
      requires Valid()
      modifies this
      ensures Valid()
      ensures u == User(username, favoriteGenre, old(nextId))
      ensures users == old(users) + [u] && nextId == old(nextId) + 1
      ensures authors == old(authors) && books == old(books) && events == old(events)
    {
      SaveUserKeepsWf(Snapshot(), username, favoriteGenre);
      u := User(username, favoriteGenre, nextId);
      users := users + [u];
      nextId := nextId + 1;
    }

    /**
     * `Mutation.login`: fails with UNAUTHENTICATED unless a user has that
     * username and the password is the server's secret; otherwise returns the
     * claims the token is signed over. It changes nothing.
     */
    method Login(username: string, password: string) returns (r: Result<Claims>)
      ensures r.Err? <==> FindUser(users, username).None? || secret != Some(password)
      ensures r.Err? ==> r.code == UNAUTHENTICATED
      ensures r.Ok? ==> exists i :: 0 <= i < |users| && users[i].username == username &&
                          r.value == Claims(users[i].username, users[i].id, users[i].favoriteGenre)
      ensures r.Ok? ==> var u := users[FindUser(users, username).value];
                          r.value == Claims(u.username, u.id, u.favoriteGenre)
    {
      var found := FindUser(users, username);
      if found.None? || secret != Some(password) {
        return Err(UNAUTHENTICATED);
      }
      var user := users[found.value];
      r := Ok(Claims(user.username, user.id, user.favoriteGenre));
    }

    /**
     * `Mutation.addBook`. In order: the caller must be authenticated; the
     * author is looked up by name and, when there is none, the name must have
     * a JavaScript length of at least 4 and a new author is saved; only then
     * must the title have a JavaScript length of at least 5; then the book is
     * saved, published on `BOOK_ADDED`, and its id appended to the author's
     * `books`. Lengths are counted in UTF-16 code units, as `.length` does.
     */
    method AddBook(currentUser: Option<User>, title: string, authorName: string, published: int, genres: seq<string>)
      returns (r: Result<Book>)
      requires Valid()
      modifies this
      ensures Valid()
      ensures users == old(users)
      ensures r.Ok? <==>
                currentUser.Some? && (FindAuthor(old(authors), authorName).Some? || Utf16Length(authorName) >= 4) && Utf16Length(title) >= 5
      ensures r.Err? ==> books == old(books) && events == old(events)
      // no current user: nothing is looked up or saved
      ensures currentUser.None? ==> r == Err(UNAUTHENTICATED) && Snapshot() == old(Snapshot())
      // the name check applies to a new author only
      ensures currentUser.Some? && FindAuthor(old(authors), authorName).None? && Utf16Length(authorName) < 4 ==>
                r == Err(BAD_USER_INPUT) && Snapshot() == old(Snapshot())
      // the title check comes after a new author has been saved
      ensures currentUser.Some? && FindAuthor(old(authors), authorName).None? && Utf16Length(authorName) >= 4 && Utf16Length(title) < 5 ==>
                r == Err(BAD_USER_INPUT) && Snapshot() == SaveAuthor(old(Snapshot()), authorName)
      ensures currentUser.Some? && FindAuthor(old(authors), authorName).Some? && Utf16Length(title) < 5 ==>
                r == Err(BAD_USER_INPUT) && Snapshot() == old(Snapshot())
      // success: one book, one event, and the book's id at the end of its author's list
      ensures r.Ok? ==> books == old(books) + [r.value] && events == old(events) + [BookAdded(r.value)]
      ensures r.Ok? && FindAuthor(old(authors), authorName).Some? ==>
                var k := FindAuthor(old(authors), authorName).value;
                && r.value == Book(title, published, old(authors)[k].id, old(nextId), genres)
                && Snapshot() == AttachBook(old(Snapshot()), k, r.value)
      ensures r.Ok? && FindAuthor(old(authors), authorName).None? ==>
                && r.value == Book(title, published, old(nextId), old(nextId) + 1, genres)
                && Snapshot() == AttachBook(SaveAuthor(old(Snapshot()), authorName), |old(authors)|, r.value)
      // what the queries see afterwards: the book is listed under its author, whose bookCount grew by one
      ensures r.Ok? ==> (
                && FindAuthor(authors, authorName).Some?
                && var k := FindAuthor(authors, authorName).value;
                && r.value.author == authors[k].id
                && r.value in Queries.AllBooks(Snapshot(), Some(authorName), None)
                && Queries.AuthorBookCount(authors[k]) ==
                     1 + if FindAuthor(old(authors), authorName).Some? then Queries.AuthorBookCount(old(authors)[k]) else 0)
    {
      if currentUser.None? {
        return Err(UNAUTHENTICATED);
      }
      var author := FindOrCreateAuthor(authorName);
      if author.Err? {
        return Err(author.code);
      }
      var k := author.value;
      if Utf16Length(title) < 5 {
        return Err(BAD_USER_INPUT);
      }
      var book := SaveBook(k, title, published, genres);
      r := Ok(book);
    }

    /**
     * The author step of `addBook`: the first author with that name, or, when
     * there is none and the name has a JavaScript length (UTF-16 code units)
     * of at least 4, a newly saved one.
     */
    method FindOrCreateAuthor(name: string) returns (r: Result<nat>)
      requires Valid()
      modifies this
      ensures Valid()
      ensures books == old(books) && users == old(users) && events == old(events)
      ensures FindAuthor(old(authors), name).Some? ==>
                r == Ok(FindAuthor(old(authors), name).value) && Snapshot() == old(Snapshot())
      ensures FindAuthor(old(authors), name).None? && Utf16Length(name) < 4 ==>
                r == Err(BAD_USER_INPUT) && Snapshot() == old(Snapshot())
      ensures FindAuthor(old(authors), name).None? && Utf16Length(name) >= 4 ==>
                r == Ok(|old(authors)|) && Snapshot() == SaveAuthor(old(Snapshot()), name)
      ensures r.Ok? ==> r.value < |authors| && authors[r.value].name == name && FindAuthor(authors, name) == Some(r.value)
    {
      var found := FindAuthor(authors, name);
      if found.Some? {
        return Ok(found.value);
      }
      if Utf16Length(name) < 4 {
        return Err(BAD_USER_INPUT);
      }
      Queries.SavedAuthorIsFound(Snapshot(), name, None);
      var a := AddAuthor(name);
      r := Ok(|authors| - 1);
    }

    /**
     * The tail of `addBook`: saves a book by the author at index `k`,
     * publishes it on `BOOK_ADDED`, and appends its id to that author's
     * `books`. When that author is the first one with its name, `allBooks`
     * filtered by that name lists the book last and the author's `bookCount`
     * grows by one.
     */
    method SaveBook(k: nat, title: string, published: int, genres: seq<string>) returns (book: Book)
      requires Valid() && k < |authors|
      modifies this
      ensures Valid()
      ensures book == Book(title, published, old(authors)[k].id, old(nextId), genres)
      ensures Snapshot() == AttachBook(old(Snapshot()), k, book)
      ensures FindAuthor(old(authors), old(authors)[k].name) == Some(k) ==>
                var name := authors[k].name;
                && FindAuthor(authors, name) == Some(k)
                && Queries.AllBooks(Snapshot(), Some(name), None) == Queries.AllBooks(old(Snapshot()), Some(name), None) + [book]
                && Queries.AuthorBookCount(authors[k]) == Queries.AuthorBookCount(old(authors)[k]) + 1
    {
      book := Book(title, published, authors[k].id, nextId, genres);
      ghost var saved := Snapshot();
      nextId := nextId + 1;
      books := books + [book];
      events := events + [BookAdded(book)];
      authors := authors[k := WithBook(authors[k], book.id)];
      assert Snapshot() == AttachBook(saved, k, book);
      AttachBookKeepsWf(saved, k, book);
      if FindAuthor(saved.authors, saved.authors[k].name) == Some(k) {
        Queries.AttachedBookIsListed(saved, k, book, None);
      }
    }

    /**
     * `Mutation.editAuthor`: the caller must be authenticated; an unknown name
     * yields null and changes nothing; otherwise the first author with that
     * name gets `born` set, and is returned.
     */
    method EditAuthor(currentUser: Option<User>, name: string, setBornTo: int) returns (r: Result<Option<Author>>)
      requires Valid()
      modifies this
      ensures Valid()
      ensures currentUser.None? ==> r == Err(UNAUTHENTICATED) && Snapshot() == old(Snapshot())
      ensures currentUser.Some? && FindAuthor(old(authors), name).None? ==> r == Ok(None) && Snapshot() == old(Snapshot())
      ensures currentUser.Some? && FindAuthor(old(authors), name).Some? ==>
                var k := FindAuthor(old(authors), name).value;
                && r == Ok(Some(old(authors)[k].(born := Some(setBornTo))))
                && Snapshot() == SetBorn(old(Snapshot()), k, setBornTo)
      ensures books == old(books) && users == old(users) && events == old(events) && nextId == old(nextId)
      ensures |authors| == |old(authors)| && forall i :: 0 <= i < |authors| ==>
                authors[i].name == old(authors)[i].name && authors[i].id == old(authors)[i].id &&
                authors[i].books == old(authors)[i].books
    {
      if currentUser.None? {
        return Err(UNAUTHENTICATED);
      }
      var found := FindAuthor(authors, name);
      if found.None? {
        return Ok(None);
      }
      var k := found.value;
      SetBornKeepsWf(Snapshot(), k, setBornTo);
      authors := authors[k := authors[k].(born := Some(setBornTo))];
      r := Ok(Some(authors[k]));
    }
  }
}
