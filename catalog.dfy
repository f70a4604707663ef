/** The catalog listing (products/views.py, `ProductListView.get_queryset`): the products
    in default (id) order, narrowed by each filter the request switches on, one after the
    other. */
module Catalog {
  import opened Basics
  import opened Products
  import opened Paging

  /** `paginate_by`. */
  const ProductsPerPage: nat := 9

  /** ASCII case folding, the comparison `icontains` makes here. */
  function FoldChar(c: char): (d: char)
    ensures 'A' <= c <= 'Z' ==> d as int == c as int + 32
    ensures !('A' <= c <= 'Z') ==> d == c
  {
    if 'A' <= c <= 'Z' then (c as int + 32) as char else c
  }

  function Fold(s: string): (r: string)
    ensures |r| == |s|
    ensures forall i :: 0 <= i < |s| ==> r[i] == FoldChar(s[i])
  {
    if s == [] then [] else [FoldChar(s[0])] + Fold(s[1..])
  }

  /** `needle` occurs in `hay`, searched position by position. */
  function Occurs(hay: string, needle: string): bool
    decreases |hay|
  {
    if needle <= hay then true
    else if hay == [] then false
    else Occurs(hay[1..], needle)
  }

  /** `needle` sits in `hay` starting at position i. */
  predicate OccursAt(hay: string, needle: string, i: int)
  {
    0 <= i && i + |needle| <= |hay| && hay[i..i + |needle|] == needle
  }

  /** A match at the first position is a prefix. */
  lemma OccursAtStart(hay: string, needle: string)
    ensures OccursAt(hay, needle, 0) <==> needle <= hay
  {
  }

  /** A match past the first position is a match, one position earlier, in the rest. */
  lemma OccursAtShift(hay: string, needle: string, i: int)
    requires hay != [] && i >= 1
    ensures OccursAt(hay, needle, i) <==> OccursAt(hay[1..], needle, i - 1)
  {
    if i + |needle| <= |hay| {
      assert hay[1..][i - 1..i - 1 + |needle|] == hay[i..i + |needle|];
    }
  }

  /** The search finds `needle` exactly when it is a slice of `hay`. */
  lemma {:induction false} OccursIff(hay: string, needle: string)
    ensures Occurs(hay, needle) <==> exists i :: OccursAt(hay, needle, i)
    decreases |hay|
  {
    OccursAtStart(hay, needle);
    if needle <= hay {
    } else if hay == [] {
    } else {
      OccursIff(hay[1..], needle);
      if exists i :: OccursAt(hay, needle, i) {
        var i :| OccursAt(hay, needle, i);
        OccursAtShift(hay, needle, i);
      }
      if Occurs(hay[1..], needle) {
        var i :| OccursAt(hay[1..], needle, i);
        OccursAtShift(hay, needle, i + 1);
      }
    }
  }

  /** `field__icontains=q`: a NULL column never matches. */
  predicate IContains(field: Option<string>, q: string)
  {
    field.Some? && Occurs(Fold(field.value), Fold(q))
  }

  /** The request parameters the listing reads: `q`, `on_sale` and `order_by` from the
      query string, `category_slug` from the URL. */
  datatype Query = Query(q: Option<string>, categorySlug: Option<string>, onSale: Option<string>, orderBy: Option<string>)

  /** Python truthiness of an optional string. */
  predicate Given(s: Option<string>)
  {
    s.Some? && s.value != ""
  }

  predicate MatchesSearch(p: Product, q: string)
  {
    IContains(Some(p.name), q) || IContains(p.description, q)
  }

  predicate InCategory(p: Product, slug: string)
  {
    p.category.slug == Some(slug)
  }

  predicate OnSale(p: Product)
  {
    p.discount > 0
  }

  /** Everything the switched-on filters ask of a product. */
  predicate Selected(p: Product, query: Query)
  {
    && (Given(query.q) ==> MatchesSearch(p, query.q.value))
    && (Given(query.categorySlug) ==> InCategory(p, query.categorySlug.value))
    && (query.onSale == Some("on") ==> OnSale(p))
  }

  /** The query set `get_queryset` returns: the products, and the field name passed to
      `order_by` when one other than "default" was given. */
  datatype Listing = Listing(products: seq<Product>, orderBy: Option<string>)

  /** The search filter, then the category filter, then the sale filter, each applied only
      when its parameter is given; `order_by` is passed on. */
  function ProductList(base: seq<Product>, query: Query): (r: Listing)
    ensures forall p :: p in r.products <==> p in base && Selected(p, query)
    ensures |r.products| <= |base|
    ensures r.orderBy.Some? <==> Given(query.orderBy) && query.orderBy.value != "default"
    ensures r.orderBy.Some? ==> r.orderBy == query.orderBy
  {
    var searched := if Given(query.q) then Filter(base, (p: Product) => MatchesSearch(p, query.q.value)) else base;
    var inCategory := if Given(query.categorySlug)
      then Filter(searched, (p: Product) => InCategory(p, query.categorySlug.value)) else searched;
    var onSale := if query.onSale == Some("on") then Filter(inCategory, (p: Product) => OnSale(p)) else inCategory;
    var ordering := if Given(query.orderBy) && query.orderBy.value != "default" then query.orderBy else None;
    Listing(onSale, ordering)
  }

  /** Filtering twice is filtering once by both conditions. */
  lemma {:induction false} FilterTwice<T(!new)>(s: seq<T>, a: T -> bool, b: T -> bool, both: T -> bool)
    requires forall x :: both(x) == (a(x) && b(x))
    ensures Filter(Filter(s, a), b) == Filter(s, both)
  {
    if s != [] {
      FilterTwice(s[1..], a, b, both);
      if a(s[0]) {
        assert Filter(s, a) == [s[0]] + Filter(s[1..], a);
        assert Filter(s, a)[1..] == Filter(s[1..], a);
      }
    }
  }

  /** The filters are conjunctive: the listing is the base list filtered once by all the
      switched-on conditions together, so it keeps the base order and is a subsequence of
      it. */
  lemma ListingIsOneFilter(base: seq<Product>, query: Query)
    ensures ProductList(base, query).products == Filter(base, (p: Product) => Selected(p, query))
    ensures IsSubsequence(ProductList(base, query).products, base)
  {
    var q := query;
    var selected := (p: Product) => Selected(p, query);
    var search := (p: Product) => !Given(q.q) || MatchesSearch(p, q.q.value);
    var cat := (p: Product) => !Given(q.categorySlug) || InCategory(p, q.categorySlug.value);
    var sale := (p: Product) => q.onSale != Some("on") || OnSale(p);
    var searchCat := (p: Product) => search(p) && cat(p);
    var searched := Filter(base, search);
    var inCategory := Filter(searched, cat);
    if Given(q.q) {
      FilterSame(base, search, (p: Product) => MatchesSearch(p, q.q.value));
    } else {
      FilterAllKept(base, search);
    }
    if Given(q.categorySlug) {
      FilterSame(searched, cat, (p: Product) => InCategory(p, q.categorySlug.value));
    } else {
      FilterAllKept(searched, cat);
    }
    if q.onSale == Some("on") {
      FilterSame(inCategory, sale, (p: Product) => OnSale(p));
    } else {
      FilterAllKept(inCategory, sale);
    }
    assert ProductList(base, query).products == Filter(inCategory, sale);
    FilterTwice(base, search, cat, searchCat);
    FilterTwice(base, searchCat, sale, selected);
    FilterIsSubsequence(base, selected);
  }

  /** Filters with conditions that agree on the list are the same filter. */
  lemma {:induction false} FilterSame<T(!new)>(s: seq<T>, a: T -> bool, b: T -> bool)
    requires forall x :: x in s ==> a(x) == b(x)
    ensures Filter(s, a) == Filter(s, b)
  {
    if s != [] {
      assert forall x :: x in s[1..] ==> x in s;
      FilterSame(s[1..], a, b);
    }
  }

  /** Without q, category or `on_sale=on`, the listing is the whole base list. */
  lemma NoFilterListsEverything(base: seq<Product>, query: Query)
    requires !Given(query.q) && !Given(query.categorySlug) && query.onSale != Some("on")
    ensures ProductList(base, query).products == base
  {
  }

  /** The default order survives filtering: a listing of an id-ordered table is
      id-ordered. */
  lemma ListingKeepsIdOrder(base: seq<Product>, query: Query)
    requires IdOrdered(base)
    ensures IdOrdered(ProductList(base, query).products)
  {
    ListingIsOneFilter(base, query);
    FilterKeepsIncreasing(base, (p: Product) => Selected(p, query), (p: Product) => p.id as int);
  }

  /** The largest of a non-empty set of ids. */
  ghost function MaxId(ids: set<ProductId>): (m: ProductId)
    requires ids != {}
    ensures m in ids && forall k :: k in ids ==> k <= m
    decreases |ids|
  {
    var x :| x in ids;
    var others := ids - {x};
    if others == {} then
      forall k | k in ids ensures k == x {
        assert k == x || k in others;
      }
      x
    else
      var m := MaxId(others);
      assert forall k :: k in ids ==> k == x || k in others;
      if x > m then x else m
  }

  /** The product table in its default order (`ordering = ("id",)`): every product once,
      in increasing id. */
  ghost function TableOrder(products: map<ProductId, Product>): (r: seq<Product>)
    requires forall id :: id in products ==> products[id].id == id
    ensures IdOrdered(r)
    ensures forall p :: p in r <==> p in products.Values
    decreases |products.Keys|
  {
    if products.Keys == {} then
      assert forall p :: p !in products.Values;
      []
    else
      var m := MaxId(products.Keys);
      var rest := products - {m};
      assert rest.Keys == products.Keys - {m};
      var front := TableOrder(rest);
      RestBelowLargest(products, m);
      AppendLargest(front, products[m]);
      front + [products[m]]
  }

  /** Taking out the product with the largest id leaves products of smaller ids, and
      every product is either that one or one of the rest. */
  lemma RestBelowLargest(products: map<ProductId, Product>, m: ProductId)
    requires forall id :: id in products ==> products[id].id == id
    requires m in products && forall k :: k in products ==> k <= m
    ensures forall p :: p in (products - {m}).Values ==> p in products.Values && p.id < m
    ensures forall p :: p in products.Values ==> p == products[m] || p in (products - {m}).Values
    ensures products[m].id == m
  {
    var rest := products - {m};
    forall p | p in rest.Values ensures p in products.Values && p.id < m {
      var k :| k in rest && rest[k] == p;
      assert products[k] == p;
    }
    forall p | p in products.Values ensures p == products[m] || p in rest.Values {
      var k :| k in products && products[k] == p;
      if k != m {
        assert rest[k] == p;
      }
    }
  }

  /** A product with a larger id than any in an id-ordered list can follow it. */
  lemma AppendLargest(front: seq<Product>, last: Product)
    requires IdOrdered(front)
    requires forall p :: p in front ==> p.id < last.id
    ensures IdOrdered(front + [last])
  {
    var r := front + [last];
    forall i, j | 0 <= i < j < |r| ensures r[i].id < r[j].id {
      if j == |front| {
        assert r[i] in front;
      } else {
        assert r[i] == front[i] && r[j] == front[j];
      }
    }
  }

  /** One page of the catalog as the list view serves it, over the product table in its
      default order: at most nine products, all selected by the query and in increasing
      id; None (a 404) exactly for a page parameter that is not a number or an integer
      outside the listing's pages. */
  ghost function CatalogPage(products: map<ProductId, Product>, query: Query, page: PageRequest): (r: Option<seq<Product>>)
    requires forall id :: id in products ==> products[id].id == id
    ensures r.None? <==>
      (page.NotANumber? ||
       (page.PageInt? && !(1 <= page.k <= NumPages(|ProductList(TableOrder(products), query).products|, ProductsPerPage))))
    ensures r.Some? ==> |r.value| <= ProductsPerPage
    ensures r.Some? ==> forall p :: p in r.value ==> p in products.Values && Selected(p, query)
    ensures r.Some? ==> IdOrdered(r.value)
  {
    var base := TableOrder(products);
    var listing := ProductList(base, query).products;
    ListViewPageBounds(listing, page, ProductsPerPage);
    ListingKeepsIdOrder(base, query);
    ServedPageIdOrdered(listing, page, ProductsPerPage);
    ListViewPage(listing, page, ProductsPerPage)
  }

  /** A page the list view serves from an id-ordered listing is id-ordered. */
  lemma ServedPageIdOrdered(listing: seq<Product>, page: PageRequest, perPage: nat)
    requires perPage > 0 && IdOrdered(listing)
    ensures ListViewPage(listing, page, perPage).Some? ==> IdOrdered(ListViewPage(listing, page, perPage).value)
  {
    if ListViewPage(listing, page, perPage).Some? {
      var n := match page
        case PageInt(k) => k
        case LastPage => NumPages(|listing|, perPage)
        case _ => 1;
      PageKeepsIdOrder(listing, n, perPage);
    }
  }

  /** A page of an id-ordered listing is id-ordered. */
  lemma PageKeepsIdOrder(listing: seq<Product>, n: nat, perPage: nat)
    requires perPage > 0 && IdOrdered(listing) && 1 <= n <= NumPages(|listing|, perPage)
    ensures IdOrdered(PageSlice(listing, n, perPage))
  {
    var page := PageSlice(listing, n, perPage);
    var start := PageStart(n, perPage);
    forall i, j | 0 <= i < j < |page| ensures page[i].id < page[j].id {
      assert page[i] == listing[start + i] && page[j] == listing[start + j];
    }
  }
}
