/** The soft-delete lifecycle and the cache-eviction policy of the catalogue,
    stated over the table transitions that ProductService's mutating methods
    are proved to perform. */
module ProductLifecycle {
  import opened Wrappers
  import opened Exceptions
  import opened ProductEntity
  import opened ProductRepository
  import opened ProductService

  lemma ResponsesAppend(ps: seq<Product>, p: Product)
    ensures Responses(ps + [p]) == Responses(ps) + [ToResponse(p)]
  {
    var l, r := Responses(ps + [p]), Responses(ps) + [ToResponse(p)];
    assert |l| == |r|;
    forall i | 0 <= i < |l| ensures l[i] == r[i] {
      if i < |ps| {
        assert (ps + [p])[i] == ps[i];
      }
    }
  }

  /** A created product is active, readable by its new id, and appended to
      the end of the active list; no existing id was reused. */
  lemma CreatedProductIsListedLast(t: Table, req: ProductRequest, now: Timestamp)
    requires WellFormed(t) && ValidRequest(req)
    ensures t.nextId !in t.rows
    ensures var x := ToResponse(AfterCreate(t, req, now).rows[t.nextId]);
            && x.isActive && x.id == t.nextId
            && x.name == req.name && x.description == req.description && x.price == req.price
            && ProductById(AfterCreate(t, req, now), t.nextId) == Success(x)
            && ActiveProducts(AfterCreate(t, req, now)) == ActiveProducts(t) + [x]
  {
    var p := Transient(req.name, req.description, req.price).(isActive := true);
    var t' := AfterCreate(t, req, now);
    InsertAppendsToActiveList(t, p, now);
    ResponsesAppend(FindByIsActiveTrue(t), t'.rows[t.nextId]);
  }

  /** Soft delete: the record stays in the table, unchanged but for isActive
      and updatedAt, yet the by-id read, a second delete and the list all stop
      seeing it; every other product stays visible. */
  lemma DeleteHidesProduct(t: Table, id: int, now: Timestamp)
    requires WellFormed(t) && FindByIdAndIsActiveTrue(t, id).Some?
    ensures var t' := AfterDelete(t, id, now);
            && id in t'.rows
            && t'.rows[id] == t.rows[id].(isActive := false, updatedAt := now)
            && ProductById(t', id) == Failure(ProductNotFound(id))
            && FindByIdAndIsActiveTrue(t', id) == None
            && (forall x :: x in ActiveProducts(t') <==> x in ActiveProducts(t) && x.id != id)
  {
  }

  /** Update: the by-id read returns the request's name, description and
      price under the same id, still active, with createdAt unchanged; the
      list's other entries are untouched. */
  lemma UpdateRevisesOnlyItsProduct(t: Table, id: int, req: ProductRequest, now: Timestamp)
    requires WellFormed(t) && ValidRequest(req) && FindByIdAndIsActiveTrue(t, id).Some?
    ensures var t' := AfterUpdate(t, id, req, now);
            && ProductById(t', id).Success?
            && var x := ProductById(t', id).value;
            && x.id == id && x.isActive && x.createdAt == t.rows[id].createdAt
            && x.name == req.name && x.description == req.description && x.price == req.price
            && (forall y: ProductResponse | y.id != id :: y in ActiveProducts(t') <==> y in ActiveProducts(t))
  {
  }

  /** Why createProduct must evict "products": keeping the cached list would
      serve a list without the new product. */
  lemma CreateStalesListCache(t: Table, req: ProductRequest, now: Timestamp)
    requires WellFormed(t) && ValidRequest(req)
    ensures !CachesCoherent(AfterCreate(t, req, now), Some(ActiveProducts(t)), map[])
  {
    CreatedProductIsListedLast(t, req, now);
  }

  /** Why deleteProduct must evict "product": a cached entry for the deleted
      id would keep serving it. */
  lemma DeleteStalesProductCache(t: Table, id: int, now: Timestamp, x: ProductResponse)
    requires WellFormed(t) && ProductById(t, id) == Success(x)
    ensures CachesCoherent(t, None, map[id := x])
    ensures !CachesCoherent(AfterDelete(t, id, now), None, map[id := x])
  {
    assert id in map[id := x];
    DeleteHidesProduct(t, id, now);
  }

  /** Why updateProduct must evict "product": unless the request repeats the
      stored fields, a cached entry would serve the old ones. */
  lemma UpdateStalesProductCache(t: Table, id: int, req: ProductRequest, now: Timestamp, x: ProductResponse)
    requires WellFormed(t) && ProductById(t, id) == Success(x) && ValidRequest(req)
    requires req.name != t.rows[id].name
    ensures CachesCoherent(t, None, map[id := x])
    ensures !CachesCoherent(AfterUpdate(t, id, req, now), None, map[id := x])
  {
    assert id in map[id := x];
    UpdateRevisesOnlyItsProduct(t, id, req, now);
  }

  lemma NoMembersIsEmpty(s: seq<ProductResponse>)
    ensures (forall x :: x !in s) ==> s == []
  {
    if s != [] {
      assert s[0] in s;
    }
  }

  /** The catalogue walk-through: create "Widget" at 9.99 in an empty table;
      it is readable and listed; after deleting it, reading it fails with
      NotFound and the list is empty again. */
  const Widget := ProductRequest("Widget", None, 9.99)

  lemma WidgetWalkthrough()
    ensures ValidRequest(Widget)
    ensures var req := Widget;
            var t1 := AfterCreate(EmptyTable, req, 1);
            var t2 := AfterDelete(t1, 1, 2);
            && ProductById(t1, 1).Success? && ProductById(t1, 1).value.isActive
            && ActiveProducts(t1) == [ProductById(t1, 1).value]
            && ProductById(t2, 1) == Failure(ProductNotFound(1))
            && ActiveProducts(t2) == []
  {
    var req := Widget;
    assert !Text.IsBlank(req.name) by { assert req.name[0] == 'W'; }
    var t1 := AfterCreate(EmptyTable, req, 1);
    CreatedProductIsListedLast(EmptyTable, req, 1);
    assert ActiveProducts(EmptyTable) == [] by {
      NoMembersIsEmpty(ActiveProducts(EmptyTable));
    }
    DeleteHidesProduct(t1, 1, 2);
    var t2 := AfterDelete(t1, 1, 2);
    NoMembersIsEmpty(ActiveProducts(t2));
  }
}
