/**
 * ProductService: the in-memory product catalogue. Each public method is one
 * atomic step on the object. `now` stands for the time.Now() reading.
 */
module ProductStore {
  import opened Wrappers
  import opened Records
  import opened AppErrors
  import Text
  import Decimal
  import Sorting
  import Pagination
  import Snapshot

  /** Every product is stored under its own identifier. */
  ghost predicate KeyedById(products: map<string, Product>) {
    forall k :: k in products ==> products[k].id == k
  }

  /** No stored product has a negative price or quantity. */
  ghost predicate NonNegative(products: map<string, Product>) {
    forall k :: k in products ==> products[k].price >= 0 && products[k].quantity >= 0
  }

  /** CreateProduct's first check: a required text field is empty. */
  predicate MissingField(req: CreateProductRequest) {
    req.name == "" || req.description == "" || req.category == ""
  }

  /** CreateProduct's second check: a numeric field is negative. */
  predicate NegativeValue(req: CreateProductRequest) {
    req.price < 0 || req.quantity < 0
  }

  /** The query filterProducts works with: lowercased, or "" when there is none. */
  function QueryKey(req: SearchProductsRequest): (q: string)
    ensures q == "" <==> req.query.None? || req.query.value == ""
  {
    if req.query.Some? then Text.Lower(req.query.value) else ""
  }

  /** The key is already in lowercase. */
  lemma QueryKeyIsLower(req: SearchProductsRequest)
    ensures Text.Lower(QueryKey(req)) == QueryKey(req)
  {
    if req.query.Some? {
      Text.LowerIdempotent(req.query.value);
    }
  }

  /**
   * matchesSearchCriteria, check by check: each supplied criterion can reject
   * the product; a product no check rejects matches. The criteria are thus
   * combined with AND.
   */
  predicate MatchesSearchCriteria(p: Product, query: string, req: SearchProductsRequest): (m: bool)
    ensures m <==> QueryHolds(p, query) && CategoryHolds(p, req.category) && PriceHolds(p, req.minPrice, req.maxPrice)
  {
    if query != "" && !Text.Contains(Text.Lower(p.name), query) && !Text.Contains(Text.Lower(p.description), query) then false
    else if req.category.Some? && !Text.EqualFold(p.category, req.category.value) then false
    else if req.minPrice.Some? && p.price < req.minPrice.value then false
    else if req.maxPrice.Some? && p.price > req.maxPrice.value then false
    else true
  }

  /** The query criterion: an empty query accepts everything. */
  predicate QueryHolds(p: Product, query: string) {
    query == "" || Text.Contains(Text.Lower(p.name), query) || Text.Contains(Text.Lower(p.description), query)
  }

  /** The category criterion: absent, or equal ignoring case. */
  predicate CategoryHolds(p: Product, category: Option<string>) {
    category.None? || Text.EqualFold(p.category, category.value)
  }

  /** The price criteria: each bound is inclusive, and an absent bound accepts every price. */
  predicate PriceHolds(p: Product, minPrice: Option<int>, maxPrice: Option<int>) {
    (minPrice.None? || minPrice.value <= p.price) && (maxPrice.None? || p.price <= maxPrice.value)
  }

  /** A search with no criteria at all matches every product. */
  lemma NoCriteriaMatchesAll(p: Product, req: SearchProductsRequest)
    requires req.category.None? && req.minPrice.None? && req.maxPrice.None?
    ensures MatchesSearchCriteria(p, "", req)
  {
  }

  /** A price equal to either bound is inside the range. */
  lemma PriceBoundsInclusive(p: Product, req: SearchProductsRequest)
    requires req.minPrice.Some? && req.maxPrice.Some?
    requires p.price == req.minPrice.value || p.price == req.maxPrice.value
    requires req.minPrice.value <= req.maxPrice.value
    ensures PriceHolds(p, req.minPrice, req.maxPrice)
  {
  }

  /** The category criterion does not care about letter case, on either side. */
  lemma CategoryIgnoresCase(p: Product, category: string)
    ensures CategoryHolds(p, Some(category)) <==> CategoryHolds(p, Some(Text.Lower(category)))
    ensures CategoryHolds(p, Some(category)) <==> CategoryHolds(p.(category := Text.Lower(p.category)), Some(category))
  {
    Text.LowerIdempotent(category);
    Text.LowerIdempotent(p.category);
  }

  /** filterProducts' test for a given request and its lowercased query. */
  function MatchesBy(query: string, req: SearchProductsRequest): Product -> bool {
    p => MatchesSearchCriteria(p, query, req)
  }

  /** The stored products a search matches. */
  ghost function MatchingProducts(products: map<string, Product>, req: SearchProductsRequest): set<Product> {
    Snapshot.Selection(products, products.Keys, MatchesBy(QueryKey(req), req))
  }

  predicate NameLess(a: Product, b: Product) {
    Text.Less(a.name, b.name)
  }

  /** SearchProducts' ordering: by name, as strings. */
  function ByName(): (Product, Product) -> bool {
    (a, b) => NameLess(a, b)
  }

  lemma ByNameIsStrictWeak()
    ensures Sorting.StrictWeakOrder(ByName())
  {
    forall a: Product, b: Product, c: Product
      ensures NameLess(a, b) ==> !NameLess(b, a)
      ensures NameLess(a, c) ==> NameLess(a, b) || NameLess(b, c)
    {
      if NameLess(a, b) {
        Text.LessAsymmetric(a.name, b.name);
      }
      if NameLess(a, c) && !NameLess(a, b) && a.name != b.name {
        Text.LessTotal(a.name, b.name);
        Text.LessTransitive(b.name, a.name, c.name);
      }
    }
  }

  class ProductService {
    var products: map<string, Product>
    var nextID: nat
    /** Every identifier this catalogue has ever handed out. */
    ghost var Issued: set<string>

    ghost predicate Valid()
      reads this
    {
      && nextID >= 1
      && products.Keys <= Issued
      && Decimal.IssuedBelow(Issued, nextID)
      && KeyedById(products)
      && NonNegative(products)
    }

    /** NewProductService: an empty catalogue whose counter starts at 1. */
    constructor ()
      ensures Valid()
      ensures products == map[] && nextID == 1 && Issued == {}
    {
      products := map[];
      nextID := 1;
      Issued := {};
    }

    /** generateID: the counter's current value in decimal; the counter moves on by one. */
    method GenerateID() returns (id: string)
      requires Decimal.IssuedBelow(Issued, nextID)
      modifies this`nextID, this`Issued
      ensures id == Decimal.DecimalString(old(nextID)) && id != ""
      ensures id !in old(Issued)
      ensures nextID == old(nextID) + 1 && Issued == old(Issued) + {id}
      ensures Decimal.IssuedBelow(Issued, nextID)
    {
      Decimal.FreshId(Issued, nextID);
      id := Decimal.DecimalString(nextID);
      nextID := nextID + 1;
      Issued := Issued + {id};
    }

    method CreateProduct(req: CreateProductRequest, now: nat) returns (r: Result<Product, AppError>)
      requires Valid()
      modifies this
      ensures Valid()
      ensures MissingField(req) ==>
        && r == Err(NewValidationError("fields", "name, description, and category are required"))
        && products == old(products) && nextID == old(nextID) && Issued == old(Issued)
      ensures !MissingField(req) && NegativeValue(req) ==>
        && r == Err(NewValidationError("value", "price and quantity cannot be negative"))
        && products == old(products) && nextID == old(nextID) && Issued == old(Issued)
      ensures !MissingField(req) && !NegativeValue(req) ==>
        && r == Ok(Product(Decimal.DecimalString(old(nextID)), req.name, req.description, req.price,
                           req.quantity, req.category, now, now))
        && r.value.id !in old(Issued)
        && products == old(products)[r.value.id := r.value]
        && nextID == old(nextID) + 1 && Issued == old(Issued) + {r.value.id}
    {
      if req.name == "" || req.description == "" || req.category == "" {
        return Err(NewValidationError("fields", "name, description, and category are required"));
      }
      if req.price < 0 || req.quantity < 0 {
        return Err(NewValidationError("value", "price and quantity cannot be negative"));
      }
      var id := GenerateID();
      var product := Product(id, req.name, req.description, req.price, req.quantity, req.category, now, now);
      products := products[id := product];
      return Ok(product);
    }

    method GetProduct(id: string) returns (r: Result<Product, AppError>)
      ensures id in products ==> r == Ok(products[id])
      ensures id !in products ==> r == Err(NewNotFoundError("product", id))
    {
      if id !in products {
        return Err(NewNotFoundError("product", id));
      }
      return Ok(products[id]);
    }

    /** filterProducts: every stored product the request matches, each once, in map order. */
    method FilterProducts(req: SearchProductsRequest) returns (result: seq<Product>)
      requires KeyedById(products)
      ensures multiset(result) == multiset(MatchingProducts(products, req))
    {
      var queryLower := QueryKey(req);
      result := [];
      var remaining := products.Keys;
      ghost var visited: set<string> := {};
      assert Snapshot.Injective(products);
      Snapshot.SelectionEmpty(products, MatchesBy(queryLower, req));
      while remaining != {}
        invariant remaining <= products.Keys && visited == products.Keys - remaining
        invariant multiset(result) == multiset(Snapshot.Selection(products, visited, MatchesBy(queryLower, req)))
        decreases remaining
      {
        var k :| k in remaining;
        Snapshot.SelectionStep(products, visited, k, MatchesBy(queryLower, req), result);
        if MatchesSearchCriteria(products[k], queryLower, req) {
          result := result + [products[k]];
        }
        visited := visited + {k};
        remaining := remaining - {k};
      }
    }

    /** SearchProducts: filter, sort by name, then cut the requested page. */
    method SearchProducts(req: SearchProductsRequest) returns (r: Pagination.Page<Product>, ghost ordered: seq<Product>)
      requires Valid()
      ensures multiset(ordered) == multiset(MatchingProducts(products, req))
      ensures Sorting.SortedBy(ordered, ByName())
      ensures r == Pagination.Paginate(ordered, req.page, req.pageSize)
      ensures r.total == |MatchingProducts(products, req)|
    {
      var filtered := FilterProducts(req);
      ByNameIsStrictWeak();
      var sorted := Sorting.SortSlice(filtered, ByName());
      ordered := sorted;
      r := Pagination.Paginate(sorted, req.page, req.pageSize);
      assert |multiset(sorted)| == |multiset(MatchingProducts(products, req))|;
    }
  }

  /** Searching a new, empty catalogue for page 1 of size 10 gives no products, total 0, page 1, size 10. */
  method SearchEmptyCatalogue(req: SearchProductsRequest) returns (r: Pagination.Page<Product>)
    requires req.page == 1 && req.pageSize == 10
    ensures r == Pagination.Page([], 0, 1, 10)
  {
    var s := new ProductService();
    ghost var ordered;
    r, ordered := s.SearchProducts(req);
    assert MatchingProducts(s.products, req) == {};
  }
}
