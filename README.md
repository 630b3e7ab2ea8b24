# Library catalogue resolvers, modelled in Dafny

This project models the resolver layer of a small GraphQL backend for a library
catalogue of authors, books and users. The GraphQL operations it covers are:

- the mutations `addAuthor`, `createUser`, `login`, `addBook` and `editAuthor`;
- the queries `me`, `bookCount`, `authorCount`, `allBooks` and `allAuthors`;
- the derived field `Author.bookCount`.

The document store becomes an in-memory value, `Store.State`. It holds the
author, book and user collections in insertion order, the log of messages
published on the `BOOK_ADDED` topic, and the next free document id. The
mutations are methods of the class `Resolvers.Library`. The class keeps those
collections in fields and updates them in place, step by step, as the resolvers
do. The queries are functions of the state, in module `Queries`. The request's
authenticated user reaches each resolver as an `Option<User>` parameter.

Files:

- `records.dfy` (module `Records`): the documents (`Author`, `Book`, `User`), the
  login claims, the `BOOK_ADDED` message, and the error codes `UNAUTHENTICATED`
  and `BAD_USER_INPUT`.
- `store.dfy` (module `Store`): the store value. It defines the `findOne` /
  `find` lookups, the store invariant `Wf`, the state transitions, and lemmas
  showing that each transition keeps `Wf`.
- `queries.dfy` (module `Queries`): the query resolvers, plus lemmas relating
  them to each other and to the transitions.
- `resolvers.dfy` (module `Resolvers`): the class `Library` with the mutation
  resolvers.

The invariant `Wf` says five things:

- every id was issued before `nextId`;
- ids are distinct within each collection;
- every book refers to a stored author;
- each author's `books` list is exactly the ids of the books that refer to it,
  in the order they were added;
- the event log holds one `BOOK_ADDED` message per book, in book order.

Every mutation keeps `Wf`. From `Wf` it follows that `bookCount` equals the sum
of `Author.bookCount` over `allAuthors`. It also follows that, for the first
author with a given name, that author's `Author.bookCount` equals the number of
books `allBooks` lists under that name. (Names need not be unique; `allBooks` filtered by a name
lists the books of the first author with that name only.)

The order of steps in `addBook` is part of its contract:

1. The caller must be authenticated.
2. The author is looked up by name. Only when no author has that name must the
   name have a length of at least 4. A new author is then saved at once.
3. Only after that must the title have a length of at least 5.

So a request with a new, valid author name and a short title fails with
`BAD_USER_INPUT`, but the new author stays saved. An existing author is accepted
whatever the length of its name.

Lengths are JavaScript string lengths: UTF-16 code units, so a character
outside the Basic Multilingual Plane counts twice (`Records.Utf16Length`).

The model follows the code, including these behaviours:

- `allBooks` ignores its `genre` argument.
- `allBooks` with an unknown author name reads the id of a missing author. The
  model makes this a precondition.
- `addAuthor` saves without checking that the name is unique.
- `login` compares the password with the server's secret, not with a per-user
  credential.

## Model

| member | source | states |
|---|---|---|
| Records.Utf16Length | resolvers.js:51-61 | JavaScript's `.length` of a string: between its number of characters and twice that; equal to the number of characters exactly when every character is in the Basic Multilingual Plane, and twice it exactly when none is |
| Records.AstralNameHasLengthFour | resolvers.js:51 | a name of two characters outside the Basic Multilingual Plane has `.length` 4, so it passes the name check |
| Store.FindAuthor | resolvers.js:48 | `Author.findOne({ name })`: the result is the first author with that name, and it is absent exactly when no author has that name |
| Store.FindUser | resolvers.js:23 | `User.findOne({ username })`: the result is the first user with that username, and it is absent exactly when no user has it |
| Store.BooksBy | resolvers.js:117 | `Book.find({ author })`: a book is in the result exactly when it is stored and refers to that author id |
| Store.BooksByCounts | resolvers.js:117 | `Book.find({ author })` neither drops nor duplicates: each book occurs in the result as often as it is stored when it refers to that author, and not at all otherwise |
| Store.BooksByConcat | resolvers.js:117 | `Book.find({ author })` keeps store order: filtering a concatenation of two book lists is concatenating the two filtered lists |
| Store.SaveAuthor | resolvers.js:14-15 | `new Author({ name }).save()`: the store with an author of that name, the next id, no birth year and no books appended, and `nextId` advanced; `SaveAuthorKeepsWf` and `SavedAuthorIsFound` state what it keeps and what the queries then see |
| Store.SaveUser | resolvers.js:19-20 | `new User({ username, favoriteGenre }).save()`: the store with that user and the next id appended, and `nextId` advanced; `SaveUserKeepsWf` states that it keeps the invariant |
| Store.AttachBook | resolvers.js:68-73 | the effect of `book.save()`, `pubsub.publish('BOOK_ADDED', …)` and `author.books = author.books.concat(book._id); author.save()`: one book and one event appended, the book's id appended to the author at index `k`, `nextId` advanced; `AttachBookKeepsWf` and `AttachedBookIsListed` state what it keeps and what the queries then see |
| Store.SetBorn | resolvers.js:91-92 | `author.born = setBornTo; author.save()` for the author at index `k`, nothing else changed; `SetBornKeepsWf` states that it keeps the invariant |
| Store.SaveAuthorKeepsWf | resolvers.js:13-16 | saving a new author with the next id and an empty `books` list keeps the store invariant, since no book can refer to a fresh id |
| Store.SaveUserKeepsWf | resolvers.js:18-20 | saving a new user with the next id keeps the store invariant |
| Store.AttachBookKeepsWf | resolvers.js:68-73 | saving a book with the next id, publishing it and appending its id to its author's `books` keeps the store invariant |
| Store.AttachBookKeepsBackReferences | resolvers.js:72-73 | saving a book that refers to the author at index `k` and appending its id to that author's `books` keeps every author's `books` list exactly the ids of the books that refer to it, in order |
| Store.SetBornKeepsWf | resolvers.js:91-92 | setting one author's `born` keeps the store invariant |
| Queries.Me | resolvers.js:102-111 | `me` is null exactly when there is no current user; otherwise it carries that user's username, favourite genre and id |
| Queries.BookCount | resolvers.js:112 | `bookCount`: the number of stored books; `BookCountIsTotalAuthorBookCount` ties it to the authors' `Author.bookCount` |
| Queries.AuthorCount | resolvers.js:113 | `authorCount`: the number of stored authors; `SavedAuthorIsFound` and `AttachedBookIsListed` state how the mutations change it |
| Queries.AllAuthors | resolvers.js:123 | `allAuthors`: every stored author in insertion order; `BookCountIsTotalAuthorBookCount` sums `Author.bookCount` over it |
| Queries.AuthorBookCount | resolvers.js:126-129 | `Author.bookCount`: the length of the author's `books` list; `AuthorBookCountMatchesAllBooks` equates it with the number of books `allBooks` lists under the author's name, for the first author with that name |
| Queries.AllBooks | resolvers.js:114-122 | with no author filter, every stored book; with one, exactly the stored books that refer to the first author of that name, who must exist; the genre argument plays no part |
| Queries.AllBooksByAuthorCounts | resolvers.js:116-118 | `allBooks` filtered by a name lists each stored book that refers to the first author of that name exactly as often as it is stored, no other book, and in store order (filtering splits over any split of the book list) |
| Queries.AuthorBookCountMatchesAllBooks | resolvers.js:126-128 | under the invariant, `Author.bookCount` (the length of the author's `books` list) equals the number of books `allBooks` lists for that author's name, when it is the first author with that name |
| Queries.BookCountIsTotalAuthorBookCount | resolvers.js:112-128 | under the invariant, `bookCount` equals the sum of `Author.bookCount` over `allAuthors`: the stored lists never drift from the books |
| Queries.AttachedBookIsListed | resolvers.js:68-74 | after a book is saved for the first author of a name, `allBooks` lists it last both unfiltered and filtered by that name; that author's `Author.bookCount` and the total `bookCount` each grow by one; `authorCount` is unchanged |
| Queries.SavedAuthorIsFound | resolvers.js:58-59 | a newly saved author is the one `findOne` returns for its name; `allBooks` lists no book for it; `authorCount` grows by one and `bookCount` does not change |
| Resolvers.Library.constructor | resolvers.js:9 | an empty store, which satisfies the invariant, with the server secret taken as given |
| Resolvers.Library.AddAuthor | resolvers.js:13-17 | appends and returns an author with the given name, the next id, no birth year and no books; the other collections are unchanged |
| Resolvers.Library.CreateUser | resolvers.js:18-21 | appends and returns a user with the given username and favourite genre and the next id; the other collections are unchanged |
| Resolvers.Library.Login | resolvers.js:22-37 | fails with UNAUTHENTICATED exactly when no user has that username or the password is not the secret; otherwise returns exactly that user's username, id and favourite genre; changes no state |
| Resolvers.Library.AddBook | resolvers.js:38-75 | no user: UNAUTHENTICATED, nothing changes. New author with a name of JavaScript length under 4: BAD_USER_INPUT, nothing changes. Title of JavaScript length under 5: BAD_USER_INPUT and no book or event, but a new, valid author stays saved. Otherwise: exactly one new book referring to the found or created author, one `BOOK_ADDED` event carrying it, and its id appended to that author's `books`. Afterwards `allBooks` lists the book under that author, and the author's `Author.bookCount` has grown by one |
| Resolvers.Library.FindOrCreateAuthor | resolvers.js:48-60 | returns the first author with that name, unchanged; or, for an unknown name of JavaScript length at least 4, a newly saved author; or BAD_USER_INPUT with nothing saved |
| Resolvers.Library.SaveBook | resolvers.js:68-73 | saves the book with the next id and that author's id, publishes it, and appends its id to that author's `books`; when that author is the first one with its name, `allBooks` filtered by that name then lists the book last and that author's `Author.bookCount` grows by one |
| Resolvers.Library.EditAuthor | resolvers.js:76-93 | no user: UNAUTHENTICATED, nothing changes. Unknown name: null, nothing changes. Otherwise only the first author with that name changes: `born` is set to the given year, and the updated author is returned |

## Left out

- Subscription `bookAdded` (resolvers.js:95-99): delivery to listeners is asynchronous fan-out. The model keeps only the log of published messages.
- `jwt.sign` and `jwt.verify`: the token is modelled as the claims it would be signed over. Token verification and the `bearer ` header parsing in library-backend.js:74-82 are not modelled. Their outcome is the optional current user each resolver receives.
- The document store's own behaviour is not modelled: storage failures, `populate`, and the schema validation in the `models/*.js` files. Those model files are not part of this model. So `AddAuthor` and `CreateUser` do not reject duplicate names.
- Concurrency: each resolver runs as one atomic step. Concurrent requests interleaving at their `await`s are not modelled. One example is two `addBook` calls creating the same new author.
- Resolvers.Library.Login: the failures of `jwt.sign` itself are not modelled. With an empty `JWT_SECRET` and an empty password the check at resolvers.js:24 passes and the model returns the claims, whereas the signing library refuses an empty key and that request fails.
- `console.log` calls: output only, with no effect on the state.
- GraphQL `Int` arguments (`published`, `setBornTo`) are unbounded integers here. The GraphQL layer checks their 32-bit range before a resolver runs.
- Queries.AllBooks: requires that the named author exists. The resolver reads `author._id` of a lookup that may return null, and that request then fails with a runtime error, which the model does not represent.
