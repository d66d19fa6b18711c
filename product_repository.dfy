/** The products table and the queries ProductRepository declares
    (repository/ProductRepository.java), as pure functions over the table.
    The unpaged queries have no ORDER BY, so the database may return their rows
    in any order; the model fixes one order, ascending id, and the list-order
    statements below hold under that choice. */
module ProductRepository {
  import opened Wrappers
  import opened Text
  import opened ProductEntity

  /** The `products` table: rows keyed by id, and the next value the
      IDENTITY column will hand out. */
  datatype Table = Table(rows: map<int, Product>, nextId: int)

  /** An empty table; IDENTITY columns start at 1. */
  const EmptyTable := Table(map[], 1)

  /** Every row sits under its own id, ids lie below the generator, and every
      row passed the entity's bean validation when it was written. */
  ghost predicate WellFormed(t: Table) {
    1 <= t.nextId &&
    forall id | id in t.rows :: 1 <= id < t.nextId && t.rows[id].id == id && ValidProduct(t.rows[id])
  }

  /** `p` is the row stored under its id. */
  predicate Stored(t: Table, p: Product) {
    p.id in t.rows && t.rows[p.id] == p
  }

  predicate IsActive(p: Product) {
    p.isActive
  }

  /** The rows with an id in [lo, hi) that `keep` accepts, by ascending id. */
  function Scan(rows: map<int, Product>, keep: Product -> bool, lo: int, hi: int): (r: seq<Product>)
    requires forall id | id in rows :: rows[id].id == id
    ensures forall p :: p in r <==> p.id in rows && rows[p.id] == p && lo <= p.id < hi && keep(p)
    ensures forall i, j | 0 <= i < j < |r| :: r[i].id < r[j].id
    decreases hi - lo
  {
    if lo >= hi then []
    else (if lo in rows && keep(rows[lo]) then [rows[lo]] else []) + Scan(rows, keep, lo + 1, hi)
  }

  /** Scanning one id further appends that id's row, when it is kept. */
  lemma {:induction false} ScanExtend(rows: map<int, Product>, keep: Product -> bool, lo: int, hi: int)
    requires forall id | id in rows :: rows[id].id == id
    requires lo <= hi
    ensures Scan(rows, keep, lo, hi + 1)
         == Scan(rows, keep, lo, hi) + (if hi in rows && keep(rows[hi]) then [rows[hi]] else [])
    decreases hi - lo
  {
    if lo < hi {
      ScanExtend(rows, keep, lo + 1, hi);
    }
  }

  /** A scan sees only the rows in its range, and only through `keep`. */
  lemma {:induction false} ScanAgrees(rows: map<int, Product>, rows': map<int, Product>,
                                      keep: Product -> bool, keep': Product -> bool, lo: int, hi: int)
    requires forall id | id in rows :: rows[id].id == id
    requires forall id | id in rows' :: rows'[id].id == id
    requires forall id | lo <= id < hi :: (id in rows <==> id in rows')
    requires forall id | lo <= id < hi && id in rows :: rows[id] == rows'[id] && keep(rows[id]) == keep'(rows[id])
    ensures Scan(rows, keep, lo, hi) == Scan(rows', keep', lo, hi)
    decreases hi - lo
  {
    if lo < hi {
      ScanAgrees(rows, rows', keep, keep', lo + 1, hi);
    }
  }

  /** findByIsActiveTrue(): every active row and nothing else. */
  function FindByIsActiveTrue(t: Table): (r: seq<Product>)
    requires WellFormed(t)
    ensures forall p :: p in r <==> Stored(t, p) && p.isActive
    ensures forall i, j | 0 <= i < j < |r| :: r[i].id < r[j].id
  {
    Scan(t.rows, IsActive, 0, t.nextId)
  }

  /** findByIdAndIsActiveTrue(id) */
  function FindByIdAndIsActiveTrue(t: Table, id: int): (r: Option<Product>)
    ensures r.Some? <==> id in t.rows && t.rows[id].isActive
    ensures r.Some? ==> r.value == t.rows[id]
  {
    if id in t.rows && t.rows[id].isActive then Some(t.rows[id]) else None
  }

  /** Saving a new active row appends it to the active list: ids grow, so the
      newest row comes last. */
  lemma InsertAppendsToActiveList(t: Table, p: Product, now: Timestamp)
    requires WellFormed(t) && ValidProduct(p) && p.isActive
    ensures FindByIsActiveTrue(Insert(t, p, now))
         == FindByIsActiveTrue(t) + [Insert(t, p, now).rows[t.nextId]]
  {
    var t' := Insert(t, p, now);
    var n := t.nextId;
    assert forall id | id in t'.rows :: t'.rows[id].id == id;
    assert forall id | 0 <= id < n :: (id in t.rows <==> id in t'.rows);
    ScanAgrees(t.rows, t'.rows, IsActive, IsActive, 0, n);
    ScanExtend(t'.rows, IsActive, 0, n);
    assert FindByIsActiveTrue(t') == Scan(t'.rows, IsActive, 0, n + 1);
  }

  // ---- name search ----------------------------------------------------------

  /** The intended match of the name search: the lower-cased name contains the
      lower-cased needle. */
  predicate NameContains(p: Product, needle: string) {
    Contains(Lower(p.name), Lower(needle))
  }

  /** The match the query text performs:
      LOWER(name) LIKE LOWER(CONCAT('%', needle, '%')), the needle unescaped. */
  predicate NameLikeAsWritten(p: Product, needle: string) {
    Like(Lower(p.name), "%" + Lower(needle) + "%")
  }

  /** The filters of the two name queries, as values for Scan. */
  function ByName(needle: string): Product -> bool {
    (p: Product) => p.isActive && NameContains(p, needle)
  }

  function ByNameLike(needle: string): Product -> bool {
    (p: Product) => p.isActive && NameLikeAsWritten(p, needle)
  }

  /** findActiveProductsByNameContainingIgnoreCase, with substring semantics. */
  function FindActiveProductsByNameContainingIgnoreCase(t: Table, needle: string): (r: seq<Product>)
    requires WellFormed(t)
    ensures forall p :: p in r <==> Stored(t, p) && p.isActive && NameContains(p, needle)
    ensures forall i, j | 0 <= i < j < |r| :: r[i].id < r[j].id
  {
    Scan(t.rows, ByName(needle), 0, t.nextId)
  }

  /** The same query as written, where '%' and '_' in the needle act as
      LIKE wildcards. */
  function FindActiveProductsByNameAsWritten(t: Table, needle: string): (r: seq<Product>)
    requires WellFormed(t)
    ensures forall p :: p in r <==> Stored(t, p) && p.isActive && NameLikeAsWritten(p, needle)
  {
    Scan(t.rows, ByNameLike(needle), 0, t.nextId)
  }

  /** An empty needle matches every active product. */
  lemma EmptyNeedleFindsAllActive(t: Table)
    requires WellFormed(t)
    ensures FindActiveProductsByNameContainingIgnoreCase(t, "") == FindByIsActiveTrue(t)
  {
    forall id | 0 <= id < t.nextId && id in t.rows
      ensures (t.rows[id].isActive && NameContains(t.rows[id], "")) == IsActive(t.rows[id])
    {
      EmptyNeedleIsContained(Lower(t.rows[id].name));
    }
    ScanAgrees(t.rows, t.rows, ByName(""), IsActive, 0, t.nextId);
  }

  lemma LowerKeepsNoWildcard(s: string)
    requires NoWildcard(s)
    ensures NoWildcard(Lower(s))
  {
    forall i | 0 <= i < |s| ensures Lower(s)[i] != '%' && Lower(s)[i] != '_' {
      assert Lower(s)[i] == LowerChar(s[i]);
    }
  }

  /** When the needle holds no '%' or '_', the query as written is the
      substring search. */
  lemma NameQueryAgreesWithoutWildcards(t: Table, needle: string)
    requires WellFormed(t) && NoWildcard(needle)
    ensures FindActiveProductsByNameAsWritten(t, needle)
         == FindActiveProductsByNameContainingIgnoreCase(t, needle)
  {
    LowerKeepsNoWildcard(needle);
    forall id | 0 <= id < t.nextId && id in t.rows
      ensures NameLikeAsWritten(t.rows[id], needle) == NameContains(t.rows[id], needle)
    {
      LikeSurroundedIsContains(Lower(t.rows[id].name), Lower(needle));
    }
    ScanAgrees(t.rows, t.rows, ByNameLike(needle), ByName(needle), 0, t.nextId);
  }

  lemma LikeAnyCharSurrounded(s: string)
    requires s != []
    ensures Like(s, "%_%")
  {
    assert "%_%"[1..] == "_%" && "_%"[1..] == "%";
    LikePercentMatchesAll(s[1..]);
  }

  /** The needle "_" finds every active product whose name holds no
      underscore (such as the schema's own example name "iPhone 15"), though
      such a name does not contain "_". */
  lemma UnderscoreNeedleMatchesAnyName(t: Table, p: Product)
    requires WellFormed(t) && Stored(t, p) && p.isActive
    requires forall i | 0 <= i < |p.name| :: p.name[i] != '_'
    ensures p in FindActiveProductsByNameAsWritten(t, "_")
    ensures p !in FindActiveProductsByNameContainingIgnoreCase(t, "_")
  {
    assert Lower("_") == "_";
    assert "%" + Lower("_") + "%" == "%_%";
    assert p.name != [] by {
      assert ValidProduct(t.rows[p.id]);
    }
    LikeAnyCharSurrounded(Lower(p.name));
    var n := Lower(p.name);
    assert forall i | 0 <= i < |n| :: n[i] != '_' by {
      forall i | 0 <= i < |n| ensures n[i] != '_' {
        assert n[i] == LowerChar(p.name[i]);
      }
    }
    forall i: nat | i <= |n| ensures !OccursAt(n, "_", i) {
      if i + 1 <= |n| {
        assert n[i..i + 1][0] == n[i];
      }
    }
  }

  // ---- price range ----------------------------------------------------------

  function ByPrice(minPrice: real, maxPrice: real): Product -> bool {
    (p: Product) => p.isActive && minPrice <= p.price <= maxPrice
  }

  /** findActiveProductsByPriceRange(min, max): BETWEEN is inclusive at both ends. */
  function FindActiveProductsByPriceRange(t: Table, minPrice: real, maxPrice: real): (r: seq<Product>)
    requires WellFormed(t)
    ensures forall p :: p in r <==> Stored(t, p) && p.isActive && minPrice <= p.price <= maxPrice
    ensures forall i, j | 0 <= i < j < |r| :: r[i].id < r[j].id
  {
    Scan(t.rows, ByPrice(minPrice, maxPrice), 0, t.nextId)
  }

  // ---- paging ---------------------------------------------------------------

  /** PageRequest.of(page, size, Sort.by("id")) with a direction. */
  datatype Pageable = Pageable(page: int, size: int, descending: bool)

  /** PageRequest.of rejects a negative page index and a size below one. */
  predicate ValidPageable(pg: Pageable) {
    pg.page >= 0 && pg.size >= 1
  }

  /** The controller's direction rule: "DESC" in any letter case sorts
      descending, every other string ascending. */
  function IsDescending(sortDir: string): (r: bool)
    ensures r <==> Lower(sortDir) == "desc"
  {
    EqualsIgnoreCaseIsLowerEquality(sortDir, "DESC");
    assert Lower("DESC") == "desc";
    EqualsIgnoreCase(sortDir, "DESC")
  }

  /** The controller's PageRequest.of(page, size, sort): None where it throws
      IllegalArgumentException (a negative page or a size below one);
      otherwise a valid request sorted by id, descending exactly when the
      direction is "DESC" in any letter case. */
  function PageableOf(page: int, size: int, sortDir: string): (r: Option<Pageable>)
    ensures r.Some? <==> page >= 0 && size >= 1
    ensures r.Some? ==> ValidPageable(r.value) && r.value.page == page && r.value.size == size
    ensures r.Some? ==> (r.value.descending <==> Lower(sortDir) == "desc")
    ensures r.Some? && sortDir == "ASC" ==> !r.value.descending
  {
    assert Lower("ASC") == "asc";
    if page < 0 || size < 1 then None
    else Some(Pageable(page, size, IsDescending(sortDir)))
  }

  datatype Page<T> = Page(content: seq<T>, number: int, size: int, totalElements: int)

  /** The elements of `s` in the opposite order: a permutation of `s` whose
      i-th element is the i-th from the end. */
  function Reverse<T>(s: seq<T>): (r: seq<T>)
    ensures |r| == |s| && forall i | 0 <= i < |s| :: r[i] == s[|s| - 1 - i]
    ensures multiset(r) == multiset(s)
  {
    if s == [] then []
    else
      assert s == [s[0]] + s[1..];
      Reverse(s[1..]) + [s[0]]
  }

  /** Reversing twice gives back the sequence. */
  lemma ReverseIsInvolution<T>(s: seq<T>)
    ensures Reverse(Reverse(s)) == s
  {
  }

  /** The elements at offsets [page * size, page * size + size), cut at the end. */
  function Slice<T>(s: seq<T>, page: nat, size: nat): (r: seq<T>)
    ensures |r| == if page * size >= |s| then 0
                   else if page * size + size <= |s| then size
                   else |s| - page * size
    ensures forall k | 0 <= k < |r| :: r[k] == s[page * size + k]
    ensures forall x :: x in r ==> x in s
  {
    var from := page * size;
    if from >= |s| then [] else s[from..if from + size <= |s| then from + size else |s|]
  }

  /** Reversing a list in ascending id order keeps its members and puts them
      in descending id order. */
  lemma ReverseOfAscendingIsDescending(s: seq<Product>)
    requires forall i, j | 0 <= i < j < |s| :: s[i].id < s[j].id
    ensures forall p :: p in Reverse(s) <==> p in s
    ensures forall i, j | 0 <= i < j < |s| :: Reverse(s)[i].id > Reverse(s)[j].id
  {
    var r := Reverse(s);
    forall p ensures p in r <==> p in s {
      assert p in r <==> p in multiset(r);
    }
    forall i, j | 0 <= i < j < |s| ensures r[i].id > r[j].id {
      assert r[i] == s[|s| - 1 - i] && r[j] == s[|s| - 1 - j];
    }
  }

  /** The active rows sorted by id in the requested direction. */
  function SortedActive(t: Table, descending: bool): (r: seq<Product>)
    requires WellFormed(t)
    ensures forall p :: p in r <==> Stored(t, p) && p.isActive
    ensures |r| == |FindByIsActiveTrue(t)|
    ensures forall i, j | 0 <= i < j < |r| :: if descending then r[i].id > r[j].id else r[i].id < r[j].id
  {
    var all := FindByIsActiveTrue(t);
    if descending then
      ReverseOfAscendingIsDescending(all);
      Reverse(all)
    else all
  }

  /** A slice of a list strictly ordered by id keeps that order. */
  lemma SliceKeepsIdOrder(s: seq<Product>, page: nat, size: nat, descending: bool)
    requires forall i, j | 0 <= i < j < |s| :: if descending then s[i].id > s[j].id else s[i].id < s[j].id
    ensures var c := Slice(s, page, size);
            forall i, j | 0 <= i < j < |c| :: if descending then c[i].id > c[j].id else c[i].id < c[j].id
  {
    var c := Slice(s, page, size);
    forall i, j | 0 <= i < j < |c|
      ensures if descending then c[i].id > c[j].id else c[i].id < c[j].id
    {
      assert c[i] == s[page * size + i] && c[j] == s[page * size + j];
    }
  }

  /** findByIsActiveTrue(pageable): one page of active rows, sorted by id in
      the requested direction, and their total. The page is full except past
      the end of the list, where it holds what remains. */
  function FindByIsActiveTruePage(t: Table, pg: Pageable): (r: Page<Product>)
    requires WellFormed(t) && ValidPageable(pg)
    ensures forall p :: p in r.content ==> Stored(t, p) && p.isActive
    ensures forall i, j | 0 <= i < j < |r.content| ::
              if pg.descending then r.content[i].id > r.content[j].id else r.content[i].id < r.content[j].id
    ensures var n := |FindByIsActiveTrue(t)|;
            |r.content| == if pg.page * pg.size >= n then 0
                           else if pg.page * pg.size + pg.size <= n then pg.size
                           else n - pg.page * pg.size
    ensures r.totalElements == |FindByIsActiveTrue(t)|
    ensures r.number == pg.page && r.size == pg.size
  {
    SliceKeepsIdOrder(SortedActive(t, pg.descending), pg.page, pg.size, pg.descending);
    Page(Slice(SortedActive(t, pg.descending), pg.page, pg.size), pg.page, pg.size, |FindByIsActiveTrue(t)|)
  }

  lemma PageOfPosition(i: nat, size: nat)
    requires size >= 1
    ensures (i / size) * size <= i < (i / size) * size + size
  {
  }

  /** The element at position i lies on the slice of page i / size. */
  lemma SliceHoldsItsPosition<T>(s: seq<T>, i: nat, size: nat)
    requires size >= 1 && i < |s|
    ensures s[i] in Slice(s, i / size, size)
  {
    var k := i / size;
    PageOfPosition(i, size);
    assert Slice(s, k, size)[i - k * size] == s[i];
  }

  /** Every active row appears on some page: the one its position selects. */
  lemma EveryActiveRowIsOnItsPage(t: Table, pg: Pageable, i: int)
    requires WellFormed(t) && pg.size >= 1
    requires 0 <= i < |SortedActive(t, pg.descending)|
    ensures SortedActive(t, pg.descending)[i]
         in FindByIsActiveTruePage(t, pg.(page := i / pg.size)).content
  {
    SliceHoldsItsPosition(SortedActive(t, pg.descending), i, pg.size);
  }

  // ---- save -----------------------------------------------------------------

  /** save() of a transient entity: the IDENTITY column assigns the next id
      and auditing stamps both timestamps. */
  function Insert(t: Table, p: Product, now: Timestamp): (r: Table)
    requires WellFormed(t) && ValidProduct(p)
    ensures WellFormed(r)
    ensures t.nextId !in t.rows && r.nextId == t.nextId + 1
    ensures r.rows.Keys == t.rows.Keys + {t.nextId}
    ensures r.rows[t.nextId] == p.(id := t.nextId, createdAt := now, updatedAt := now)
    ensures forall id | id in t.rows :: r.rows[id] == t.rows[id]
  {
    Table(t.rows[t.nextId := p.(id := t.nextId, createdAt := now, updatedAt := now)], t.nextId + 1)
  }

  /** save() of an entity that has an id: its row is overwritten, except that
      created_at is not updatable, and auditing stamps updatedAt. */
  function Merge(t: Table, p: Product, now: Timestamp): (r: Table)
    requires WellFormed(t) && p.id in t.rows && ValidProduct(p)
    ensures WellFormed(r)
    ensures r.nextId == t.nextId && r.rows.Keys == t.rows.Keys
    ensures r.rows[p.id].createdAt == t.rows[p.id].createdAt
    ensures r.rows[p.id] == p.(createdAt := t.rows[p.id].createdAt, updatedAt := now)
    ensures forall id | id in t.rows && id != p.id :: r.rows[id] == t.rows[id]
  {
    Table(t.rows[p.id := p.(createdAt := t.rows[p.id].createdAt, updatedAt := now)], t.nextId)
  }
}
