/** The records the library backend stores and the values its resolvers return. */
module Records {

  /** A document id. The document store hands out ids that are unique across collections. */
  type Id = nat

  datatype Option<+T> = None | Some(value: T)

  /** The machine-readable code carried by every error a resolver raises. */
  datatype Code = UNAUTHENTICATED | BAD_USER_INPUT

  datatype Result<+T> = Ok(value: T) | Err(code: Code)

  /** An author document: `born` is optional and `books` holds the ids of the author's books, in the order they were added. */
  datatype Author = Author(name: string, id: Id, born: Option<int>, books: seq<Id>)

  /** A book document: `author` refers to an author document by id. */
  datatype Book = Book(title: string, published: int, author: Id, id: Id, genres: seq<string>)

  datatype User = User(username: string, favoriteGenre: string, id: Id)

  /** The claims a login token carries; signing them is not part of this model. */
  datatype Claims = Claims(username: string, id: Id, favoriteGenre: string)

  /** A message published on the `BOOK_ADDED` topic. */
  datatype Event = BookAdded(book: Book)

  /**
   * JavaScript's `String.prototype.length`: the number of UTF-16 code units.
   * A character outside the Basic Multilingual Plane takes two (a surrogate pair).
   */
  function Utf16Length(s: string): (n: nat)
    ensures |s| <= n <= 2 * |s|
    ensures n == |s| <==> forall i :: 0 <= i < |s| ==> s[i] < '\U{10000}'
    ensures n == 2 * |s| <==> forall i :: 0 <= i < |s| ==> s[i] >= '\U{10000}'
  {
    if s == [] then 0
    else (if s[0] < '\U{10000}' then 1 else 2) + Utf16Length(s[1..])
  }

  /** Two characters outside the Basic Multilingual Plane: two characters, but length 4 in JavaScript. */
  lemma AstralNameHasLengthFour()
    ensures |"\U{1D538}\U{1D539}"| == 2 && Utf16Length("\U{1D538}\U{1D539}") == 4
  {
  }

  /** The author document created for a name that is not yet stored: no birth year and no books. */
  function NewAuthor(name: string, id: Id): Author {
    Author(name, id, None, [])
  }

  /** `author.books = author.books.concat(bookId)`: the author with one more book id at the end of its list. */
  function WithBook(a: Author, bookId: Id): Author {
    a.(books := a.books + [bookId])
  }
}
