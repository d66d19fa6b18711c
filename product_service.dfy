/** ProductService (service/ProductService.java): the catalogue operations over
    the products table, with the two caches that the @Cacheable and @CacheEvict
    annotations put around them written out as fields. */
module ProductService {
  import opened Wrappers
  import opened Exceptions
  import opened ProductEntity
  import opened ProductRepository

  /** The inverse of mapToResponse: the response carries every entity field. */
  ghost function FromResponse(x: ProductResponse): Product {
    Product(x.id, x.name, x.description, x.price, x.createdAt, x.updatedAt, x.isActive)
  }

  /** mapToResponse: a field-for-field copy, so nothing of the entity is lost. */
  function ToResponse(p: Product): (r: ProductResponse)
    ensures FromResponse(r) == p
  {
    ProductResponse(p.id, p.name, p.description, p.price, p.createdAt, p.updatedAt, p.isActive)
  }

  /** products.stream().map(this::mapToResponse) */
  function Responses(ps: seq<Product>): (r: seq<ProductResponse>)
    ensures |r| == |ps|
    ensures forall i | 0 <= i < |ps| :: FromResponse(r[i]) == ps[i]
  {
    seq(|ps|, i requires 0 <= i < |ps| => ToResponse(ps[i]))
  }

  /** Mapping the stored active rows gives exactly the responses of those
      rows, in the same order. */
  lemma ActiveResponses(t: Table)
    requires WellFormed(t)
    ensures var r := Responses(FindByIsActiveTrue(t));
            (forall x :: x in r <==> x.id in t.rows && t.rows[x.id].isActive && x == ToResponse(t.rows[x.id]))
            && forall i, j | 0 <= i < j < |r| :: r[i].id < r[j].id
  {
    var ps := FindByIsActiveTrue(t);
    var r := Responses(ps);
    forall i | 0 <= i < |r| ensures r[i] == ToResponse(ps[i]) && r[i].id == ps[i].id {
      assert FromResponse(r[i]) == ps[i];
    }
    forall x ensures x in r <==> x.id in t.rows && t.rows[x.id].isActive && x == ToResponse(t.rows[x.id]) {
      if x in r {
        var k :| 0 <= k < |r| && r[k] == x;
        assert ps[k] in ps;
      }
      if x.id in t.rows && t.rows[x.id].isActive && x == ToResponse(t.rows[x.id]) {
        assert t.rows[x.id] in ps;
        var k :| 0 <= k < |ps| && ps[k] == t.rows[x.id];
        assert r[k] == x;
      }
    }
  }

  /** What getAllProducts returns when it reads the table: every active
      product, mapped, by ascending id. */
  function ActiveProducts(t: Table): (r: seq<ProductResponse>)
    requires WellFormed(t)
    ensures forall x :: x in r <==> x.id in t.rows && t.rows[x.id].isActive && x == ToResponse(t.rows[x.id])
    ensures forall i, j | 0 <= i < j < |r| :: r[i].id < r[j].id
  {
    ActiveResponses(t);
    Responses(FindByIsActiveTrue(t))
  }

  /** What getProductById returns when it reads the table. */
  function ProductById(t: Table, id: int): (r: Result<ProductResponse, Error>)
    ensures r.Success? <==> id in t.rows && t.rows[id].isActive
    ensures r.Success? ==> FromResponse(r.value) == t.rows[id]
    ensures r.Failure? ==> r.error == ProductNotFound(id)
  {
    match FindByIdAndIsActiveTrue(t, id)
    case None => Failure(ProductNotFound(id))
    case Some(p) => Success(ToResponse(p))
  }

  /** The two read paths agree: the by-id read succeeds exactly for the
      entries of the list read. */
  lemma ByIdAgreesWithList(t: Table, id: int, x: ProductResponse)
    requires WellFormed(t)
    ensures ProductById(t, id) == Success(x) <==> x in ActiveProducts(t) && x.id == id
  {
  }

  /** Every entry of a mapped page is an entry of the list read. */
  lemma PageResponsesAreActive(t: Table, pg: Pageable)
    requires WellFormed(t) && ValidPageable(pg)
    ensures forall x :: x in Responses(FindByIsActiveTruePage(t, pg).content) ==> x in ActiveProducts(t)
  {
    var ps := FindByIsActiveTruePage(t, pg).content;
    var content := Responses(ps);
    forall x | x in content ensures x in ActiveProducts(t) {
      var k :| 0 <= k < |content| && content[k] == x;
      assert FromResponse(x) == ps[k];
      assert ps[k] in ps;
    }
  }

  /** The row updateProduct saves: name, description and price come from the
      request, everything else stays. */
  function Revised(p: Product, req: ProductRequest): (q: Product)
    ensures q.name == req.name && q.description == req.description && q.price == req.price
    ensures q.id == p.id && q.createdAt == p.createdAt && q.updatedAt == p.updatedAt && q.isActive == p.isActive
    ensures ValidRequest(req) ==> ValidProduct(q)
  {
    p.(name := req.name, description := req.description, price := req.price)
  }

  /** The row deleteProduct saves: the same record, marked inactive. */
  function Retired(p: Product): (q: Product)
    ensures !q.isActive && q.id == p.id && q.createdAt == p.createdAt
    ensures ValidProduct(p) ==> ValidProduct(q)
  {
    p.(isActive := false)
  }

  /** The table after createProduct(req) at time `now`. */
  function AfterCreate(t: Table, req: ProductRequest, now: Timestamp): (t': Table)
    requires WellFormed(t) && ValidRequest(req)
    ensures WellFormed(t')
  {
    Insert(t, Transient(req.name, req.description, req.price).(isActive := true), now)
  }

  /** The table after a successful updateProduct(id, req). */
  function AfterUpdate(t: Table, id: int, req: ProductRequest, now: Timestamp): (t': Table)
    requires WellFormed(t) && ValidRequest(req) && id in t.rows
    ensures WellFormed(t')
  {
    Merge(t, Revised(t.rows[id], req), now)
  }

  /** The table after a successful deleteProduct(id). */
  function AfterDelete(t: Table, id: int, now: Timestamp): (t': Table)
    requires WellFormed(t) && id in t.rows
    ensures WellFormed(t')
  {
    Merge(t, Retired(t.rows[id]), now)
  }

  /** Every cached value is what a fresh read of the table would return: the
      "products" entry is the active list, each "product" entry the by-id read. */
  ghost predicate CachesCoherent(t: Table, products: Option<seq<ProductResponse>>,
                                 product: map<int, ProductResponse>)
  {
    WellFormed(t) &&
    (products.Some? ==> products.value == ActiveProducts(t)) &&
    forall id | id in product :: ProductById(t, id) == Success(product[id])
  }

  class ProductService {
    /** The products table behind ProductRepository. */
    var store: Table
    /** Cache "products": getAllProducts takes no argument, so one entry. */
    var productsCache: Option<seq<ProductResponse>>
    /** Cache "product", keyed by id. */
    var productCache: map<int, ProductResponse>

    ghost predicate Valid()
      reads this
    {
      CachesCoherent(store, productsCache, productCache)
    }

    constructor (initial: Table)
      requires WellFormed(initial)
      ensures Valid()
      ensures store == initial && productsCache == None && productCache == map[]
    {
      store := initial;
      productsCache := None;
      productCache := map[];
    }

    /** getAllProducts: a hit returns the cached list, a miss reads the table
        and fills the cache. Either way the caller sees the current active list. */
    method GetAllProducts() returns (r: seq<ProductResponse>)
      requires Valid()
      modifies this
      ensures Valid()
      ensures r == ActiveProducts(store)
      ensures store == old(store) && productCache == old(productCache)
      ensures productsCache == Some(r)
    {
      match productsCache
      case Some(cached) =>
        r := cached;
      case None =>
        r := Responses(FindByIsActiveTrue(store));
        productsCache := Some(r);
    }

    /** getAllProductsPaginated: not cached; the repository's page of the
        active list, mapped. */
    method GetAllProductsPaginated(pg: Pageable) returns (r: Page<ProductResponse>)
      requires Valid() && ValidPageable(pg)
      ensures r.content == Responses(FindByIsActiveTruePage(store, pg).content)
      ensures forall x :: x in r.content ==> x in ActiveProducts(store)
      ensures |r.content| <= pg.size
      ensures r.totalElements == |ActiveProducts(store)|
      ensures r.number == pg.page && r.size == pg.size
    {
      var page := FindByIsActiveTruePage(store, pg);
      var content := Responses(page.content);
      PageResponsesAreActive(store, pg);
      r := Page(content, page.number, page.size, page.totalElements);
    }

    /** getProductById: a hit returns the cached entry; a miss reads the table,
        throws NotFound for a missing or inactive id and caches a found product.
        A thrown exception is not cached. */
    method GetProductById(id: int) returns (r: Result<ProductResponse, Error>)
      requires Valid()
      modifies this
      ensures Valid()
      ensures r == ProductById(store, id)
      ensures store == old(store) && productsCache == old(productsCache)
      ensures productCache == if r.Success? then old(productCache)[id := r.value] else old(productCache)
    {
      if id in productCache {
        r := Success(productCache[id]);
        assert productCache[id := r.value] == productCache;
      } else {
        match FindByIdAndIsActiveTrue(store, id)
        case None =>
          r := Failure(ProductNotFound(id));
        case Some(p) =>
          r := Success(ToResponse(p));
          productCache := productCache[id := r.value];
      }
    }

    /** createProduct: saves a new active record built from the request and
        clears both caches. */
    method CreateProduct(req: ProductRequest, now: Timestamp) returns (r: ProductResponse)
      requires Valid() && ValidRequest(req)
      modifies this
      ensures Valid()
      ensures store == AfterCreate(old(store), req, now)
      ensures r == ToResponse(store.rows[old(store).nextId])
      ensures r.isActive && r.name == req.name && r.description == req.description && r.price == req.price
      ensures productsCache == None && productCache == map[]
    {
      var product := Transient(req.name, req.description, req.price).(isActive := true);
      store := Insert(store, product, now);
      var saved := store.rows[store.nextId - 1];
      r := ToResponse(saved);
      productsCache, productCache := None, map[];
    }

    /** updateProduct: NotFound for a missing or inactive id, with nothing
        saved and the caches untouched; otherwise overwrites name, description
        and price, saves, and clears both caches. The class is @Transactional,
        so the update is flushed, and updatedAt stamped, only at commit: the
        response is mapped from the entity before the stamp and carries the
        previous updatedAt, while the table holds the new one. */
    method UpdateProduct(id: int, req: ProductRequest, now: Timestamp) returns (r: Result<ProductResponse, Error>)
      requires Valid() && ValidRequest(req)
      modifies this
      ensures Valid()
      ensures FindByIdAndIsActiveTrue(old(store), id).None? ==>
                r == Failure(ProductNotFound(id)) && store == old(store)
                && productsCache == old(productsCache) && productCache == old(productCache)
      ensures FindByIdAndIsActiveTrue(old(store), id).Some? ==>
                store == AfterUpdate(old(store), id, req, now)
                && r == Success(ToResponse(Revised(old(store).rows[id], req)))
                && FromResponse(r.value) == store.rows[id].(updatedAt := old(store).rows[id].updatedAt)
                && productsCache == None && productCache == map[]
    {
      match FindByIdAndIsActiveTrue(store, id)
      case None =>
        r := Failure(ProductNotFound(id));
      case Some(existing) =>
        var updated := Revised(existing, req);
        store := Merge(store, updated, now);
        r := Success(ToResponse(updated));
        productsCache, productCache := None, map[];
    }

    /** deleteProduct: NotFound for a missing or inactive id, with nothing
        saved and the caches untouched; otherwise a soft delete that keeps the
        record with isActive false, and both caches cleared. */
    method DeleteProduct(id: int, now: Timestamp) returns (r: Outcome<Error>)
      requires Valid()
      modifies this
      ensures Valid()
      ensures FindByIdAndIsActiveTrue(old(store), id).None? ==>
                r == Fail(ProductNotFound(id)) && store == old(store)
                && productsCache == old(productsCache) && productCache == old(productCache)
      ensures FindByIdAndIsActiveTrue(old(store), id).Some? ==>
                store == AfterDelete(old(store), id, now)
                && r == Pass && productsCache == None && productCache == map[]
    {
      match FindByIdAndIsActiveTrue(store, id)
      case None =>
        r := Fail(ProductNotFound(id));
      case Some(product) =>
        store := Merge(store, Retired(product), now);
        r := Pass;
        productsCache, productCache := None, map[];
    }
  }
}
