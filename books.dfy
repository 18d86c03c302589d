/** `BooksController`: list, create, edit and delete books. */
module Books {
  import opened Wrappers
  import opened Ordering
  import opened Store

  /**
   * `OrderByDescending(b => b.CreatedAt)`: later first; SQL Server puts
   * NULL after every value in a descending order.
   */
  predicate NewerOrSame(a: Book, b: Book)
  {
    match (a.createdAt, b.createdAt)
    case (Some(x), Some(y)) => x >= y
    case (Some(_), None) => true
    case (None, Some(_)) => false
    case (None, None) => true
  }

  lemma NewerOrSameTotal()
    ensures Total(NewerOrSame)
  {
  }

  /** GET /Books: every book, newest first. */
  function Index(books: map<int, Book>): (r: seq<Book>)
    ensures forall b :: b in r <==> b in books.Values
    ensures multiset(r) == multiset(Rows(books))
    ensures Sorted(r, NewerOrSame)
  {
    NewerOrSameTotal();
    SortBy(Rows(books), NewerOrSame)
  }

  /** The database accepts the book's foreign keys. */
  predicate ReferencesExist(db: Database, book: Book)
    reads db
  {
    RefersTo(book.categoryId, db.categories) && RefersTo(book.publisherId, db.publishers)
  }

  function CreateResult(db: Database, model: Book, modelValid: bool): ActionResult
    reads db
  {
    if !modelValid then RedisplayForm
    else if model.bookId != 0 then DatabaseError  // explicit value for an identity column
    else if !ReferencesExist(db, model) then DatabaseError  // foreign key violation
    else RedirectToIndex
  }

  /**
   * POST /Books/Create. An insert the foreign keys reject still uses up an
   * identity value, as SQL Server does not hand it back.
   */
  method Create(db: Database, model: Book, modelValid: bool) returns (r: ActionResult)
    requires db.Valid()
    modifies db`books, db`bookIdent
    ensures db.Valid()
    ensures r == old(CreateResult(db, model, modelValid))
    ensures r == RedirectToIndex ==>
      && db.bookIdent == old(db.bookIdent) + 1
      && db.books == old(db.books)[db.bookIdent := model.(bookId := db.bookIdent)]
    ensures r != RedirectToIndex ==> db.books == old(db.books)
    ensures db.bookIdent == (if modelValid && model.bookId == 0 then old(db.bookIdent) + 1 else old(db.bookIdent))
  {
    r := CreateResult(db, model, modelValid);
    if modelValid && model.bookId == 0 {
      db.bookIdent := db.bookIdent + 1;
      if r == RedirectToIndex {
        db.books := db.books[db.bookIdent := model.(bookId := db.bookIdent)];
      }
    }
  }

  /** The tracked book after Edit: the six form fields copied, BookID and CreatedAt kept. */
  function ApplyEdit(book: Book, form: Book): (r: Book)
    ensures r.bookId == book.bookId && r.createdAt == book.createdAt
    ensures r.(bookId := form.bookId, createdAt := form.createdAt) == form
  {
    book.(title := form.title, price := form.price, stock := form.stock,
          description := form.description, categoryId := form.categoryId,
          publisherId := form.publisherId)
  }

  function EditResult(db: Database, id: int, model: Book, modelValid: bool): ActionResult
    reads db
  {
    if id != model.bookId then BadRequest
    else if !modelValid then RedisplayForm
    else if id !in db.books then NotFound
    else if !ReferencesExist(db, model) then DatabaseError  // foreign key violation
    else RedirectToIndex
  }

  method Edit(db: Database, id: int, model: Book, modelValid: bool) returns (r: ActionResult)
    requires db.Valid()
    modifies db`books
    ensures db.Valid()
    ensures r == old(EditResult(db, id, model, modelValid))
    ensures r == RedirectToIndex ==> db.books == old(db.books)[id := ApplyEdit(old(db.books)[id], model)]
    ensures r != RedirectToIndex ==> db.books == old(db.books)
  {
    r := EditResult(db, id, model, modelValid);
    if r == RedirectToIndex {
      db.books := db.books[id := ApplyEdit(db.books[id], model)];
    }
  }

  /** POST /Books/Delete/id: the book's BookAuthors rows go first, then the book. */
  method DeleteConfirmed(db: Database, id: int) returns (r: ActionResult)
    requires db.Valid()
    modifies db`books, db`bookAuthors
    ensures db.Valid()
    ensures r == (if id in old(db.books) then RedirectToIndex else NotFound)
    ensures r == RedirectToIndex ==>
      && db.books == old(db.books) - {id}
      && db.bookAuthors == set ba | ba in old(db.bookAuthors) && ba.bookId != id
    ensures r == NotFound ==> db.books == old(db.books) && db.bookAuthors == old(db.bookAuthors)
  {
    if id !in db.books {
      return NotFound;
    }
    db.bookAuthors := set ba | ba in db.bookAuthors && ba.bookId != id;
    db.books := db.books - {id};
    r := RedirectToIndex;
  }
}
