/** `PublishersController`: list, create, rename and delete publishers. */
module Publishers {
  import opened Wrappers
  import opened Text
  import opened Ordering
  import IdList
  import opened Store

  /** `Publishers.Any(p => p.Name == name)` */
  predicate NameTaken(publishers: map<int, Publisher>, name: string)
  {
    exists id | id in publishers :: publishers[id].name == name
  }

  /** `Publishers.Any(p => p.PublisherID != id && p.Name == name)` */
  predicate NameTakenByOther(publishers: map<int, Publisher>, id: int, name: string)
  {
    exists other | other in publishers :: other != id && publishers[other].name == name
  }

  ghost predicate NamesDistinct(publishers: map<int, Publisher>)
  {
    forall i, j | i in publishers && j in publishers && i != j :: publishers[i].name != publishers[j].name
  }

  /** `Books.Any(b => b.PublisherID == id)` */
  predicate HasBooks(books: map<int, Book>, id: int)
  {
    exists b | b in books :: books[b].publisherId == Some(id)
  }

  /** BulkDelete's `blocked` list is non-empty: some book's non-null PublisherID is listed. */
  predicate AnyHasBooks(books: map<int, Book>, ids: seq<int>)
  {
    exists b | b in books :: books[b].publisherId.Some? && books[b].publisherId.value in ids
  }

  predicate Matches(q: Option<string>, p: Publisher)
  {
    IsNullOrWhiteSpace(q) || Contains(p.name, Trim(q.value))
  }

  predicate NameLe(a: Publisher, b: Publisher)
  {
    LexLe(a.name, b.name)
  }

  lemma NameLeTotal()
    ensures Total(NameLe)
  {
    forall a: Publisher, b: Publisher ensures NameLe(a, b) || NameLe(b, a) {
      LexLeTotal(a.name, b.name);
    }
  }

  /** GET /Publishers?q=: the matching publishers, ordered by name. */
  function Index(publishers: map<int, Publisher>, q: Option<string>): (r: seq<Publisher>)
    ensures forall p :: p in r <==> p in publishers.Values && Matches(q, p)
    ensures forall p :: multiset(r)[p] == if Matches(q, p) then multiset(Rows(publishers))[p] else 0
    ensures Sorted(r, NameLe)
  {
    NameLeTotal();
    var matching := Filter(Rows(publishers), p => Matches(q, p));
    SortBy(matching, NameLe)
  }

  function CreateResult(publishers: map<int, Publisher>, model: Publisher, modelValid: bool): ActionResult
  {
    if !modelValid || NameTaken(publishers, model.name) then RedisplayForm
    else if model.publisherId != 0 then DatabaseError  // explicit value for an identity column
    else RedirectToIndex
  }

  method Create(db: Database, model: Publisher, modelValid: bool) returns (r: ActionResult)
    requires db.Valid()
    modifies db`publishers, db`publisherIdent
    ensures db.Valid()
    ensures r == CreateResult(old(db.publishers), model, modelValid)
    ensures r == RedirectToIndex ==>
      && db.publisherIdent == old(db.publisherIdent) + 1
      && db.publishers == old(db.publishers)[db.publisherIdent := model.(publisherId := db.publisherIdent)]
    ensures r != RedirectToIndex ==>
      db.publishers == old(db.publishers) && db.publisherIdent == old(db.publisherIdent)
    ensures NamesDistinct(old(db.publishers)) ==> NamesDistinct(db.publishers)
  {
    r := CreateResult(db.publishers, model, modelValid);
    if r == RedirectToIndex {
      db.publisherIdent := db.publisherIdent + 1;
      db.publishers := db.publishers[db.publisherIdent := model.(publisherId := db.publisherIdent)];
    }
  }

  function EditResult(publishers: map<int, Publisher>, id: int, model: Publisher, modelValid: bool): ActionResult
  {
    if id != model.publisherId then BadRequest
    else if !modelValid then RedisplayForm
    else if id !in publishers then NotFound
    else if NameTakenByOther(publishers, id, model.name) then RedisplayForm
    else RedirectToIndex
  }

  method Edit(db: Database, id: int, model: Publisher, modelValid: bool) returns (r: ActionResult)
    requires db.Valid()
    modifies db`publishers
    ensures db.Valid()
    ensures r == EditResult(old(db.publishers), id, model, modelValid)
    ensures r == RedirectToIndex ==>
      db.publishers == old(db.publishers)[id := old(db.publishers)[id].(name := model.name)]
    ensures r != RedirectToIndex ==> db.publishers == old(db.publishers)
    ensures NamesDistinct(old(db.publishers)) ==> NamesDistinct(db.publishers)
  {
    r := EditResult(db.publishers, id, model, modelValid);
    if r == RedirectToIndex {
      db.publishers := db.publishers[id := db.publishers[id].(name := model.name)];
    }
  }

  /**
   * `RemoveRange`, `SaveChanges`, then `DBCC CHECKIDENT (..., RESEED, 0)`
   * when no row is left. Nothing may still refer to a removed row.
   */
  method RemoveAndReseed(db: Database, removed: set<int>)
    requires db.Valid()
    requires forall b | b in db.books :: db.books[b].publisherId.None? || db.books[b].publisherId.value !in removed
    modifies db`publishers, db`publisherIdent
    ensures db.Valid()
    ensures db.publishers == old(db.publishers) - removed
    ensures db.publisherIdent == Reseeded(db.publishers, old(db.publisherIdent))
  {
    db.publishers := db.publishers - removed;
    db.publisherIdent := Reseeded(db.publishers, db.publisherIdent);
  }

  function DeleteResult(db: Database, id: int): ActionResult
    reads db
  {
    if id !in db.publishers then NotFound
    else if HasBooks(db.books, id) then RedirectToIndexWithError
    else RedirectToIndex
  }

  method Delete(db: Database, id: int) returns (r: ActionResult)
    requires db.Valid()
    modifies db`publishers, db`publisherIdent
    ensures db.Valid()
    ensures r == old(DeleteResult(db, id))
    ensures r == RedirectToIndex ==>
      && db.publishers == old(db.publishers) - {id}
      && db.publisherIdent == Reseeded(db.publishers, old(db.publisherIdent))
    ensures r != RedirectToIndex ==>
      db.publishers == old(db.publishers) && db.publisherIdent == old(db.publisherIdent)
  {
    r := DeleteResult(db, id);
    if r == RedirectToIndex {
      RemoveAndReseed(db, {id});
    }
  }

  function BulkDeleteResult(db: Database, ids: Option<string>): ActionResult
    reads db
  {
    var idList := IdList.BulkDeleteIds(ids);
    if idList == [] then RedirectToIndex
    else if AnyHasBooks(db.books, idList) then RedirectToIndexWithError
    else RedirectToIndex
  }

  method BulkDelete(db: Database, ids: Option<string>) returns (r: ActionResult)
    requires db.Valid()
    modifies db`publishers, db`publisherIdent
    ensures db.Valid()
    ensures r == old(BulkDeleteResult(db, ids))
    ensures var idList := IdList.BulkDeleteIds(ids);
      if idList == [] || AnyHasBooks(db.books, idList) then
        db.publishers == old(db.publishers) && db.publisherIdent == old(db.publisherIdent)
      else
        && db.publishers == old(db.publishers) - IdList.IdSet(idList)
        && db.publisherIdent == Reseeded(db.publishers, old(db.publisherIdent))
  {
    r := BulkDeleteResult(db, ids);
    var idList := IdList.BulkDeleteIds(ids);
    if idList != [] && !AnyHasBooks(db.books, idList) {
      RemoveAndReseed(db, IdList.IdSet(idList));
    }
  }
}
