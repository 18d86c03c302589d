/** `AuthorsController`: list, create, rename and delete authors. */
module Authors {
  import opened Wrappers
  import opened Text
  import opened Ordering
  import IdList
  import opened Store

  /** `Authors.Any(a => a.Name == name)` */
  predicate NameTaken(authors: map<int, Author>, name: string)
  {
    exists id | id in authors :: authors[id].name == name
  }

  /** `Authors.Any(a => a.AuthorID != id && a.Name == name)` */
  predicate NameTakenByOther(authors: map<int, Author>, id: int, name: string)
  {
    exists other | other in authors :: other != id && authors[other].name == name
  }

  ghost predicate NamesDistinct(authors: map<int, Author>)
  {
    forall i, j | i in authors && j in authors && i != j :: authors[i].name != authors[j].name
  }

  /** `BookAuthors.Any(ba => ba.AuthorID == id)` */
  predicate HasBooks(links: set<BookAuthor>, id: int)
  {
    exists ba | ba in links :: ba.authorId == id
  }

  /** BulkDelete's `blocked` list is non-empty. */
  predicate AnyHasBooks(links: set<BookAuthor>, ids: seq<int>)
  {
    exists ba | ba in links :: ba.authorId in ids
  }

  /** The Index filter: every author for a blank query, else those whose name contains the trimmed query. */
  predicate Matches(q: Option<string>, a: Author)
  {
    IsNullOrWhiteSpace(q) || Contains(a.name, Trim(q.value))
  }

  predicate NameLe(a: Author, b: Author)
  {
    LexLe(a.name, b.name)
  }

  lemma NameLeTotal()
    ensures Total(NameLe)
  {
    forall a: Author, b: Author ensures NameLe(a, b) || NameLe(b, a) {
      LexLeTotal(a.name, b.name);
    }
  }

  /** GET /Authors?q=: the matching authors, ordered by name. */
  function Index(authors: map<int, Author>, q: Option<string>): (r: seq<Author>)
    ensures forall a :: a in r <==> a in authors.Values && Matches(q, a)
    ensures forall a :: multiset(r)[a] == if Matches(q, a) then multiset(Rows(authors))[a] else 0
    ensures Sorted(r, NameLe)
  {
    NameLeTotal();
    var matching := Filter(Rows(authors), a => Matches(q, a));
    SortBy(matching, NameLe)
  }

  /** POST /Authors/Create: the response, from the state before the request. */
  function CreateResult(authors: map<int, Author>, model: Author, modelValid: bool): ActionResult
  {
    if !modelValid || NameTaken(authors, model.name) then RedisplayForm
    else if model.authorId != 0 then DatabaseError  // explicit value for an identity column
    else RedirectToIndex
  }

  method Create(db: Database, model: Author, modelValid: bool) returns (r: ActionResult)
    requires db.Valid()
    modifies db`authors, db`authorIdent
    ensures db.Valid()
    ensures r == CreateResult(old(db.authors), model, modelValid)
    ensures r == RedirectToIndex ==>
      && db.authorIdent == old(db.authorIdent) + 1
      && db.authors == old(db.authors)[db.authorIdent := model.(authorId := db.authorIdent)]
    ensures r != RedirectToIndex ==> db.authors == old(db.authors) && db.authorIdent == old(db.authorIdent)
    ensures NamesDistinct(old(db.authors)) ==> NamesDistinct(db.authors)
  {
    r := CreateResult(db.authors, model, modelValid);
    if r == RedirectToIndex {
      db.authorIdent := db.authorIdent + 1;
      db.authors := db.authors[db.authorIdent := model.(authorId := db.authorIdent)];
    }
  }

  /** POST /Authors/Edit/id: the response, from the state before the request. */
  function EditResult(authors: map<int, Author>, id: int, model: Author, modelValid: bool): ActionResult
  {
    if id != model.authorId then BadRequest
    else if !modelValid then RedisplayForm
    else if id !in authors then NotFound
    else if NameTakenByOther(authors, id, model.name) then RedisplayForm
    else RedirectToIndex
  }

  method Edit(db: Database, id: int, model: Author, modelValid: bool) returns (r: ActionResult)
    requires db.Valid()
    modifies db`authors
    ensures db.Valid()
    ensures r == EditResult(old(db.authors), id, model, modelValid)
    ensures r == RedirectToIndex ==> db.authors == old(db.authors)[id := old(db.authors)[id].(name := model.name)]
    ensures r != RedirectToIndex ==> db.authors == old(db.authors)
    ensures NamesDistinct(old(db.authors)) ==> NamesDistinct(db.authors)
  {
    r := EditResult(db.authors, id, model, modelValid);
    if r == RedirectToIndex {
      db.authors := db.authors[id := db.authors[id].(name := model.name)];
    }
  }

  /**
   * `RemoveRange`, `SaveChanges`, then `DBCC CHECKIDENT (..., RESEED, 0)`
   * when no row is left. Nothing may still refer to a removed row.
   */
  method RemoveAndReseed(db: Database, removed: set<int>)
    requires db.Valid()
    requires forall ba | ba in db.bookAuthors :: ba.authorId !in removed
    modifies db`authors, db`authorIdent
    ensures db.Valid()
    ensures db.authors == old(db.authors) - removed
    ensures db.authorIdent == Reseeded(db.authors, old(db.authorIdent))
  {
    db.authors := db.authors - removed;
    db.authorIdent := Reseeded(db.authors, db.authorIdent);
  }

  /** POST /Authors/Delete: the response, from the state before the request. */
  function DeleteResult(db: Database, id: int): ActionResult
    reads db
  {
    if id !in db.authors then NotFound
    else if HasBooks(db.bookAuthors, id) then RedirectToIndexWithError
    else RedirectToIndex
  }

  method Delete(db: Database, id: int) returns (r: ActionResult)
    requires db.Valid()
    modifies db`authors, db`authorIdent
    ensures db.Valid()
    ensures r == old(DeleteResult(db, id))
    ensures r == RedirectToIndex ==>
      && db.authors == old(db.authors) - {id}
      && db.authorIdent == Reseeded(db.authors, old(db.authorIdent))
    ensures r != RedirectToIndex ==> db.authors == old(db.authors) && db.authorIdent == old(db.authorIdent)
  {
    r := DeleteResult(db, id);
    if r == RedirectToIndex {
      RemoveAndReseed(db, {id});
    }
  }

  /** POST /Authors/BulkDelete: the response, from the state before the request. */
  function BulkDeleteResult(db: Database, ids: Option<string>): ActionResult
    reads db
  {
    var idList := IdList.BulkDeleteIds(ids);
    if idList == [] then RedirectToIndex
    else if AnyHasBooks(db.bookAuthors, idList) then RedirectToIndexWithError
    else RedirectToIndex
  }

  method BulkDelete(db: Database, ids: Option<string>) returns (r: ActionResult)
    requires db.Valid()
    modifies db`authors, db`authorIdent
    ensures db.Valid()
    ensures r == old(BulkDeleteResult(db, ids))
    ensures var idList := IdList.BulkDeleteIds(ids);
      if idList == [] || AnyHasBooks(db.bookAuthors, idList) then
        db.authors == old(db.authors) && db.authorIdent == old(db.authorIdent)
      else
        && db.authors == old(db.authors) - IdList.IdSet(idList)
        && db.authorIdent == Reseeded(db.authors, old(db.authorIdent))
  {
    r := BulkDeleteResult(db, ids);
    var idList := IdList.BulkDeleteIds(ids);
    if idList != [] && !AnyHasBooks(db.bookAuthors, idList) {
      RemoveAndReseed(db, IdList.IdSet(idList));
    }
  }
}
