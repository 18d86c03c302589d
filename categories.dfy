/** `CategoriesController`: list, create, edit and delete categories. */
module Categories {
  import opened Wrappers
  import opened Text
  import opened Ordering
  import IdList
  import opened Store

  /** `Books.Any(b => b.CategoryID == id)` */
  predicate HasBooks(books: map<int, Book>, id: int)
  {
    exists b | b in books :: books[b].categoryId == Some(id)
  }

  /** BulkDelete's `blocked` list is non-empty: some book's non-null CategoryID is listed. */
  predicate AnyHasBooks(books: map<int, Book>, ids: seq<int>)
  {
    exists b | b in books :: books[b].categoryId.Some? && books[b].categoryId.value in ids
  }

  predicate NameLe(a: Category, b: Category)
  {
    LexLe(a.name, b.name)
  }

  lemma NameLeTotal()
    ensures Total(NameLe)
  {
    forall a: Category, b: Category ensures NameLe(a, b) || NameLe(b, a) {
      LexLeTotal(a.name, b.name);
    }
  }

  /** GET /Categories: every category, ordered by name. */
  function Index(categories: map<int, Category>): (r: seq<Category>)
    ensures forall c :: c in r <==> c in categories.Values
    ensures multiset(r) == multiset(Rows(categories))
    ensures Sorted(r, NameLe)
  {
    NameLeTotal();
    SortBy(Rows(categories), NameLe)
  }

  /** POST /Categories/Create: no check on the name. */
  function CreateResult(model: Category, modelValid: bool): ActionResult
  {
    if !modelValid then RedisplayForm
    else if model.categoryId != 0 then DatabaseError  // explicit value for an identity column
    else RedirectToIndex
  }

  method Create(db: Database, model: Category, modelValid: bool) returns (r: ActionResult)
    requires db.Valid()
    modifies db`categories, db`categoryIdent
    ensures db.Valid()
    ensures r == CreateResult(model, modelValid)
    ensures r == RedirectToIndex ==>
      && db.categoryIdent == old(db.categoryIdent) + 1
      && db.categories == old(db.categories)[db.categoryIdent := model.(categoryId := db.categoryIdent)]
    ensures r != RedirectToIndex ==>
      db.categories == old(db.categories) && db.categoryIdent == old(db.categoryIdent)
  {
    r := CreateResult(model, modelValid);
    if r == RedirectToIndex {
      db.categoryIdent := db.categoryIdent + 1;
      db.categories := db.categories[db.categoryIdent := model.(categoryId := db.categoryIdent)];
    }
  }

  function EditResult(categories: map<int, Category>, id: int, model: Category, modelValid: bool): ActionResult
  {
    if id != model.categoryId then BadRequest
    else if !modelValid then RedisplayForm
    else if id !in categories then NotFound
    else RedirectToIndex
  }

  /** POST /Categories/Edit/id: copies Name and Slug, with no check on the name. */
  method Edit(db: Database, id: int, model: Category, modelValid: bool) returns (r: ActionResult)
    requires db.Valid()
    modifies db`categories
    ensures db.Valid()
    ensures r == EditResult(old(db.categories), id, model, modelValid)
    ensures r == RedirectToIndex ==>
      db.categories == old(db.categories)[id := old(db.categories)[id].(name := model.name, slug := model.slug)]
    ensures r != RedirectToIndex ==> db.categories == old(db.categories)
  {
    r := EditResult(db.categories, id, model, modelValid);
    if r == RedirectToIndex {
      db.categories := db.categories[id := db.categories[id].(name := model.name, slug := model.slug)];
    }
  }

  /**
   * `RemoveRange`, `SaveChanges`, then `DBCC CHECKIDENT (..., RESEED, 0)`
   * when no row is left. Nothing may still refer to a removed row.
   */
  method RemoveAndReseed(db: Database, removed: set<int>)
    requires db.Valid()
    requires forall b | b in db.books :: db.books[b].categoryId.None? || db.books[b].categoryId.value !in removed
    modifies db`categories, db`categoryIdent
    ensures db.Valid()
    ensures db.categories == old(db.categories) - removed
    ensures db.categoryIdent == Reseeded(db.categories, old(db.categoryIdent))
  {
    db.categories := db.categories - removed;
    db.categoryIdent := Reseeded(db.categories, db.categoryIdent);
  }

  /** POST /Categories/Delete/id: a category that has books is shown again with an error. */
  function DeleteConfirmedResult(db: Database, id: int): ActionResult
    reads db
  {
    if id !in db.categories then NotFound
    else if HasBooks(db.books, id) then RedisplayForm
    else RedirectToIndex
  }

  method DeleteConfirmed(db: Database, id: int) returns (r: ActionResult)
    requires db.Valid()
    modifies db`categories, db`categoryIdent
    ensures db.Valid()
    ensures r == old(DeleteConfirmedResult(db, id))
    ensures r == RedirectToIndex ==>
      && db.categories == old(db.categories) - {id}
      && db.categoryIdent == Reseeded(db.categories, old(db.categoryIdent))
    ensures r != RedirectToIndex ==>
      db.categories == old(db.categories) && db.categoryIdent == old(db.categoryIdent)
  {
    r := DeleteConfirmedResult(db, id);
    if r == RedirectToIndex {
      RemoveAndReseed(db, {id});
    }
  }

  function BulkDeleteResult(db: Database, ids: Option<string>): ActionResult
    reads db
  {
    var idList := IdList.BulkDeleteIds(ids);
    if idList == [] then RedirectToIndex
    else if AnyHasBooks(db.books, idList) then RedirectToIndexWithError
    else RedirectToIndex
  }

  method BulkDelete(db: Database, ids: Option<string>) returns (r: ActionResult)
    requires db.Valid()
    modifies db`categories, db`categoryIdent
    ensures db.Valid()
    ensures r == old(BulkDeleteResult(db, ids))
    ensures var idList := IdList.BulkDeleteIds(ids);
      if idList == [] || AnyHasBooks(db.books, idList) then
        db.categories == old(db.categories) && db.categoryIdent == old(db.categoryIdent)
      else
        && db.categories == old(db.categories) - IdList.IdSet(idList)
        && db.categoryIdent == Reseeded(db.categories, old(db.categoryIdent))
  {
    r := BulkDeleteResult(db, ids);
    var idList := IdList.BulkDeleteIds(ids);
    if idList != [] && !AnyHasBooks(db.books, idList) {
      RemoveAndReseed(db, IdList.IdSet(idList));
    }
  }
}
