/**
 * The catalogue database (`ApplicationDbContext`): one map per table from
 * primary key to row, the `BookAuthors` link table as a set of key pairs,
 * and, per table, the last value its IDENTITY(1,1) column handed out.
 */
module Store {
  import opened Wrappers

  datatype User = User(
    id: int,
    email: string,
    passwordHash: string,
    isActive: bool,
    fullName: Option<string>,
    role: Option<string>,
    createdAt: Option<int>,
    username: string)

  datatype Category = Category(categoryId: int, name: string, slug: Option<string>)

  datatype Publisher = Publisher(publisherId: int, name: string)

  datatype Author = Author(authorId: int, name: string)

  /** `price` is the decimal(18,2) price in hundredths; `createdAt` a timestamp. */
  datatype Book = Book(
    bookId: int,
    title: string,
    price: int,
    stock: int,
    description: string,
    categoryId: Option<int>,
    publisherId: Option<int>,
    createdAt: Option<int>)

  /** A row of the link table; the pair is its composite primary key. */
  datatype BookAuthor = BookAuthor(bookId: int, authorId: int)

  /** What a controller action answers. */
  datatype ActionResult =
    | RedirectToIndex           // RedirectToAction(nameof(Index))
    | RedirectToIndexWithError  // TempData["Error"] set, then RedirectToAction(nameof(Index))
    | RedirectToLogin           // RedirectToAction("Login")
    | RedisplayForm             // return View(...) with the errors in ModelState
    | NotFound
    | BadRequest
    | DatabaseError             // SaveChanges throws; the request fails and nothing is stored

  /** The identity column starts from 0, and every key lies in 1..ident: it has issued it. */
  ghost predicate IssuedKeys<T>(table: map<int, T>, ident: int)
  {
    0 <= ident && forall id | id in table :: 1 <= id <= ident
  }

  /** A nullable foreign key is null or names a row of `table`. */
  predicate RefersTo<T>(fk: Option<int>, table: map<int, T>)
  {
    fk.None? || fk.value in table
  }

  /** `DBCC CHECKIDENT (..., RESEED, 0)` when the table is empty, so that the next row gets id 1. */
  function Reseeded<T>(table: map<int, T>, ident: int): (r: int)
    ensures table == map[] ==> r == 0
    ensures table != map[] ==> r == ident
  {
    if table == map[] then 0 else ident
  }

  class Database {
    var users: map<int, User>
    var categories: map<int, Category>
    var publishers: map<int, Publisher>
    var authors: map<int, Author>
    var books: map<int, Book>
    var bookAuthors: set<BookAuthor>

    var userIdent: int
    var categoryIdent: int
    var publisherIdent: int
    var authorIdent: int
    var bookIdent: int

    /** Keys match the rows, the identity columns issued them, and every foreign key resolves. */
    ghost predicate Valid()
      reads this
    {
      && (forall id | id in users :: users[id].id == id)
      && (forall id | id in categories :: categories[id].categoryId == id)
      && (forall id | id in publishers :: publishers[id].publisherId == id)
      && (forall id | id in authors :: authors[id].authorId == id)
      && (forall id | id in books :: books[id].bookId == id)
      && IssuedKeys(users, userIdent)
      && IssuedKeys(categories, categoryIdent)
      && IssuedKeys(publishers, publisherIdent)
      && IssuedKeys(authors, authorIdent)
      && IssuedKeys(books, bookIdent)
      && (forall ba | ba in bookAuthors :: ba.bookId in books && ba.authorId in authors)
      && (forall id | id in books :: RefersTo(books[id].categoryId, categories))
      && (forall id | id in books :: RefersTo(books[id].publisherId, publishers))
    }

    constructor ()
      ensures Valid()
      ensures users == map[] && categories == map[] && publishers == map[]
      ensures authors == map[] && books == map[] && bookAuthors == {}
      ensures userIdent == 0 && categoryIdent == 0 && publisherIdent == 0
      ensures authorIdent == 0 && bookIdent == 0
    {
      users, categories, publishers, authors, books := map[], map[], map[], map[], map[];
      bookAuthors := {};
      userIdent, categoryIdent, publisherIdent, authorIdent, bookIdent := 0, 0, 0, 0, 0;
    }
  }
}
