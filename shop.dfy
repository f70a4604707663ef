/** The shop's database as one object: the product table, the cart table, orders and
    order items, with the id sequences and the clock that stamps new orders. Each method
    is one request handler's effect on it (carts/views.py, users/views.py,
    users/signals.py, orders/views.py) or one deletion rule (carts/models.py,
    orders/models.py), and is proved to compute the transition functions of modules
    CartEdits, Checkout and Orders while keeping the integrity constraints in `Valid`. */
module Shop {
  import opened Basics
  import opened Products
  import opened Carts
  import opened CartEdits
  import opened Orders
  import opened Checkout
  import opened Paging
  import opened Catalog

  /** Product keys are the product ids, and a slug names at most one product
      (`SlugField(unique=True, null=True)`: several products may have none). */
  predicate CatalogValid(products: map<ProductId, Product>)
  {
    && (forall id :: id in products ==> products[id].id == id)
    && (forall a, b :: a in products && b in products && a != b && products[a].slug.Some? ==>
          products[a].slug != products[b].slug)
  }

  /** Cart rows have increasing ids below the sequence and refer to existing products. */
  predicate CartsValid(carts: seq<CartRow>, nextCartId: nat, products: map<ProductId, Product>)
  {
    WellKeyed(carts, nextCartId) && References(carts, products)
  }

  /** Orders are kept in creation order: ids and timestamps increase, and both stay below
      the id sequence and the clock. */
  predicate OrdersValid(orders: seq<Order>, nextOrderId: nat, clock: nat)
  {
    && StrictlyIncreasing(orders, (o: Order) => o.id as int)
    && StrictlyIncreasing(orders, (o: Order) => o.created as int)
    && forall o :: o in orders ==> o.id < nextOrderId && o.created < clock
  }

  ghost function OrderIds(orders: seq<Order>): set<nat>
  {
    set o | o in orders :: o.id
  }

  /** Order items have increasing ids below the sequence, belong to an existing order, and
      refer to an existing product or to none. */
  ghost predicate ItemsValid(items: seq<OrderItem>, nextItemId: nat, orders: seq<Order>, products: map<ProductId, Product>)
  {
    && StrictlyIncreasing(items, (it: OrderItem) => it.id as int)
    && forall it :: it in items ==>
         && it.id < nextItemId
         && it.order in OrderIds(orders)
         && (it.product.Some? ==> it.product.value in products)
  }

  /** All the integrity constraints of the store at once. */
  ghost predicate StoreValid(products: map<ProductId, Product>, carts: seq<CartRow>, nextCartId: nat,
                             orders: seq<Order>, nextOrderId: nat, items: seq<OrderItem>, nextItemId: nat, clock: nat)
  {
    && CatalogValid(products)
    && CartsValid(carts, nextCartId, products)
    && OrdersValid(orders, nextOrderId, clock)
    && ItemsValid(items, nextItemId, orders, products)
  }

  /** The product a slug names, if any. */
  ghost function SlugLookup(products: map<ProductId, Product>, slug: string): (r: Option<ProductId>)
    ensures r.None? <==> forall id :: id in products ==> products[id].slug != Some(slug)
    ensures r.Some? ==> r.value in products && products[r.value].slug == Some(slug)
  {
    if exists id :: id in products && products[id].slug == Some(slug) then
      var id :| id in products && products[id].slug == Some(slug);
      Some(id)
    else None
  }

  /** The visitor after `cart_add` has made sure an anonymous session has a key. */
  function WithSession(v: Visitor, freshKey: string): (w: Visitor)
    requires freshKey != ""
    ensures w.user == v.user
    ensures w.user.Some? || HasKey(w.sessionKey)
    ensures HasKey(v.sessionKey) || v.user.Some? ==> w == v
    ensures v.user.None? && !HasKey(v.sessionKey) ==> w.sessionKey == Some(freshKey)
  {
    if v.user.None? && !HasKey(v.sessionKey) then Visitor(None, Some(freshKey)) else v
  }

  /** Whom `cart_add` adds for: the user when authenticated, else the session key. */
  function Owner(v: Visitor): (who: Identity)
    requires v.user.Some? || HasKey(v.sessionKey)
  {
    if v.user.Some? then ByUser(v.user.value) else BySession(v.sessionKey.value)
  }

  lemma AddOneKeepsCartsValid(rows: seq<CartRow>, nextId: nat, who: Identity, pid: ProductId, products: map<ProductId, Product>)
    requires CartsValid(rows, nextId, products) && pid in products
    ensures AddOne(rows, nextId, who, pid).Edited? ==>
      var e := AddOne(rows, nextId, who, pid);
      CartsValid(e.rows, e.nextId, products)
  {
    var e := AddOne(rows, nextId, who, pid);
    if e.Edited? {
      forall x | x in e.rows ensures x.product in products {
        var k :| 0 <= k < |e.rows| && e.rows[k] == x;
        if k < |rows| {
          assert rows[k] in rows;
        }
      }
    }
  }

  lemma MergeStepKeepsCartsValid(rows: seq<CartRow>, nextId: nat, u: UserId, a: CartRow, products: map<ProductId, Product>)
    requires CartsValid(rows, nextId, products) && a.product in products
    ensures MergeStep(rows, nextId, u, a).Edited? ==>
      var e := MergeStep(rows, nextId, u, a);
      CartsValid(e.rows, e.nextId, products)
  {
    var who := ByUser(u);
    match Find(rows, who, a.product)
    case ManyRows =>
    case NoRow =>
      AppendKeepsKeys(rows, nextId, NewRow(nextId, who, a.product, a.quantity));
    case OneRow(i) =>
      if rows[i].quantity + a.quantity <= MaxRowQuantity {
        var r := rows[i].(quantity := rows[i].quantity + a.quantity);
        UpdateKeepsKeys(rows, nextId, i, r);
        forall x | x in rows[i := r] ensures x.product in products {
          var k :| 0 <= k < |rows| && rows[i := r][k] == x;
          assert rows[k] in rows;
        }
      }
  }

  lemma HandOverKeepsCartsValid(rows: seq<CartRow>, nextId: nat, products: map<ProductId, Product>, k: string, u: UserId)
    requires CartsValid(rows, nextId, products)
    ensures CartsValid(HandOver(rows, k, u), nextId, products)
  {
    var r := HandOver(rows, k, u);
    forall x | x in r ensures x.id < nextId && x.product in products {
      var i :| 0 <= i < |r| && r[i] == x;
      assert rows[i] in rows;
    }
  }

  /** Appending the new order keeps orders valid and adds its id. */
  lemma AppendOrderKeepsValid(orders: seq<Order>, nextOrderId: nat, clock: nat, o: Order)
    requires OrdersValid(orders, nextOrderId, clock) && o.id == nextOrderId && o.created == clock
    ensures OrdersValid(orders + [o], nextOrderId + 1, clock + 1)
    ensures OrderIds(orders + [o]) == OrderIds(orders) + {o.id}
  {
    var s := orders + [o];
    forall i, j | 0 <= i < j < |s| ensures s[i].id < s[j].id && s[i].created < s[j].created {
      if j == |orders| {
        assert s[i] in orders;
      }
    }
  }

  /** Appending the items of the new order, with consecutive added ids, keeps items
      valid. */
  lemma AppendItemsKeepsValid(items: seq<OrderItem>, nextItemId: nat, orders: seq<Order>, products: map<ProductId, Product>,
                              added: seq<OrderItem>, orders': seq<Order>, products': map<ProductId, Product>)
    requires ItemsValid(items, nextItemId, orders, products)
    requires OrderIds(orders) <= OrderIds(orders') && products.Keys <= products'.Keys
    requires forall i :: 0 <= i < |added| ==>
      && added[i].id == nextItemId + i
      && added[i].order in OrderIds(orders')
      && (added[i].product.Some? ==> added[i].product.value in products')
    ensures ItemsValid(items + added, nextItemId + |added|, orders', products')
  {
    var s := items + added;
    forall i, j | 0 <= i < j < |s| ensures s[i].id < s[j].id {
      if i < |items| && j >= |items| {
        assert s[i] in items;
      }
    }
    forall x | x in s
      ensures x.id < nextItemId + |added| && x.order in OrderIds(orders') && (x.product.Some? ==> x.product.value in products')
    {
      var i :| 0 <= i < |s| && s[i] == x;
      if i < |items| {
        assert items[i] in items;
      }
    }
  }

  /** Clearing the owner keeps ids and timestamps in place. */
  lemma DetachUserKeepsValid(orders: seq<Order>, nextOrderId: nat, clock: nat, u: UserId)
    requires OrdersValid(orders, nextOrderId, clock)
    ensures OrdersValid(DetachUser(orders, u), nextOrderId, clock)
    ensures OrderIds(DetachUser(orders, u)) == OrderIds(orders)
  {
    var r := DetachUser(orders, u);
    DetachUserKeepsStamps(orders, u);
    assert StrictlyIncreasing(r, (o: Order) => o.id as int) by {
      forall i, j | 0 <= i < j < |r| ensures r[i].id < r[j].id {
        assert orders[i].id < orders[j].id;
      }
    }
    assert StrictlyIncreasing(r, (o: Order) => o.created as int) by {
      forall i, j | 0 <= i < j < |r| ensures r[i].created < r[j].created {
        assert orders[i].created < orders[j].created;
      }
    }
    forall x | x in r ensures x.id < nextOrderId && x.created < clock {
      var i :| 0 <= i < |r| && r[i] == x;
      assert orders[i] in orders;
    }
    DetachUserKeepsIds(orders, u);
  }

  /** Clearing the owner keeps every order's id and timestamp in place. */
  lemma DetachUserKeepsStamps(orders: seq<Order>, u: UserId)
    ensures |DetachUser(orders, u)| == |orders|
    ensures forall i :: 0 <= i < |orders| ==>
      DetachUser(orders, u)[i].id == orders[i].id && DetachUser(orders, u)[i].created == orders[i].created
  {
    var r := DetachUser(orders, u);
    forall i | 0 <= i < |r| ensures r[i].id == orders[i].id && r[i].created == orders[i].created {
      assert r[i].(user := None) == orders[i].(user := None);
    }
  }

  lemma DetachUserKeepsIds(orders: seq<Order>, u: UserId)
    ensures OrderIds(DetachUser(orders, u)) == OrderIds(orders)
  {
    var r := DetachUser(orders, u);
    DetachUserKeepsStamps(orders, u);
    forall x | x in r ensures x.id in OrderIds(orders) {
      var i :| 0 <= i < |r| && r[i] == x;
      assert orders[i] in orders;
    }
    forall x | x in orders ensures x.id in OrderIds(r) {
      var i :| 0 <= i < |orders| && orders[i] == x;
      assert r[i] in r;
    }
  }

  lemma DetachProductKeepsValid(items: seq<OrderItem>, nextItemId: nat, orders: seq<Order>, products: map<ProductId, Product>, pid: ProductId)
    requires ItemsValid(items, nextItemId, orders, products)
    ensures ItemsValid(DetachProduct(items, pid), nextItemId, orders, products - {pid})
  {
    var r := DetachProduct(items, pid);
    forall i | 0 <= i < |r|
      ensures r[i].id == items[i].id && r[i].order == items[i].order
      ensures r[i].product.Some? ==> r[i].product == items[i].product
    {
      DetachProductAt(items, pid, i);
    }
    assert StrictlyIncreasing(r, (it: OrderItem) => it.id as int);
    forall x | x in r
      ensures x.id < nextItemId && x.order in OrderIds(orders) && (x.product.Some? ==> x.product.value in products - {pid})
    {
      var i :| 0 <= i < |r| && r[i] == x;
      assert items[i] in items;
    }
  }

  lemma DetachProductAt(items: seq<OrderItem>, pid: ProductId, i: nat)
    requires i < |items|
    ensures var r := DetachProduct(items, pid);
      && r[i].id == items[i].id && r[i].order == items[i].order
      && (r[i].product.Some? ==> r[i].product == items[i].product)
  {
    var r := DetachProduct(items, pid);
    assert r[i].(product := None) == items[i].(product := None);
  }

  lemma RemoveOrderKeepsValid(orders: seq<Order>, nextOrderId: nat, clock: nat, items: seq<OrderItem>, nextItemId: nat,
                              products: map<ProductId, Product>, orderId: nat)
    requires OrdersValid(orders, nextOrderId, clock) && ItemsValid(items, nextItemId, orders, products)
    ensures OrdersValid(RemoveOrder(orders, orderId), nextOrderId, clock)
    ensures ItemsValid(DropItemsOf(items, orderId), nextItemId, RemoveOrder(orders, orderId), products)
  {
    FilterKeepsIncreasing(orders, (o: Order) => o.id != orderId, (o: Order) => o.id as int);
    FilterKeepsIncreasing(orders, (o: Order) => o.id != orderId, (o: Order) => o.created as int);
    FilterKeepsIncreasing(items, (it: OrderItem) => it.order != orderId, (it: OrderItem) => it.id as int);
    var r := RemoveOrder(orders, orderId);
    forall it | it in DropItemsOf(items, orderId) ensures it.order in OrderIds(r) {
      var o :| o in orders && o.id == it.order;
      assert o in r;
    }
  }

  /** The checkout loop over the user's cart rows (table order) against the catalog as
      it is now, for an order with id `orderId`: it succeeds exactly when the catalog
      covers the total the rows ask of each product. */
  function CheckoutRun(products: map<ProductId, Product>, carts: seq<CartRow>, nextCartId: nat,
                       nextItemId: nat, orderId: nat, u: UserId): (r: Option<Transfer>)
    requires CartsValid(carts, nextCartId, products)
    ensures r.Some? <==> Covers(products, Held(carts, ByUser(u)))
  {
    var rows := Held(carts, ByUser(u));
    assert References(rows, products);
    RunSucceedsIff(Transfer(products, [], [], nextItemId), orderId, rows);
    Run(Transfer(products, [], [], nextItemId), orderId, rows)
  }

  /** A successful checkout keeps every integrity constraint: the stock changes only in
      quantity, the new order comes last with the next id and the current time, and its
      items take consecutive fresh ids and refer to products that still exist. */
  lemma CheckoutKeepsValid(products: map<ProductId, Product>, carts: seq<CartRow>, nextCartId: nat,
                           orders: seq<Order>, nextOrderId: nat, items: seq<OrderItem>, nextItemId: nat,
                           clock: nat, u: UserId, contact: Contact, t: Transfer)
    requires CatalogValid(products) && CartsValid(carts, nextCartId, products)
    requires OrdersValid(orders, nextOrderId, clock) && ItemsValid(items, nextItemId, orders, products)
    requires References(Held(carts, ByUser(u)), products)
    requires Run(Transfer(products, [], [], nextItemId), nextOrderId, Held(carts, ByUser(u))) == Some(t)
    ensures CatalogValid(t.stock)
    ensures CartsValid(NotHeld(carts, ByUser(u)), nextCartId, t.stock)
    ensures OrdersValid(orders + [NewOrder(nextOrderId, u, contact, clock)], nextOrderId + 1, clock + 1)
    ensures ItemsValid(items + t.items, t.nextItemId, orders + [NewOrder(nextOrderId, u, contact, clock)], t.stock)
  {
    var rows := Held(carts, ByUser(u));
    var t0 := Transfer(products, [], [], nextItemId);
    var order := NewOrder(nextOrderId, u, contact, clock);
    RunStock(t0, nextOrderId, rows);
    RunItems(t0, nextOrderId, rows);
    assert CatalogValid(t.stock) by {
      forall a, b | a in t.stock && b in t.stock && a != b && t.stock[a].slug.Some?
        ensures t.stock[a].slug != t.stock[b].slug
      {
        assert t.stock[a].slug == products[a].slug && t.stock[b].slug == products[b].slug;
      }
    }
    NotHeldKeepsKeys(carts, nextCartId, ByUser(u));
    AppendOrderKeepsValid(orders, nextOrderId, clock, order);
    forall i | 0 <= i < |t.items|
      ensures t.items[i].id == nextItemId + i && t.items[i].order in OrderIds(orders + [order])
      ensures t.items[i].product.Some? ==> t.items[i].product.value in t.stock
    {
      assert rows[i] in rows;
    }
    AppendItemsKeepsValid(items, nextItemId, orders, products, t.items, orders + [order], t.stock);
  }

  /** The reply of `cart_add`: not found (404), an error from the store (500), or the
      visitor (with the session key it now has) and the count shown in the cart badge. */
  datatype AddOutcome = ProductNotFound | AddFailed | Added(visitor: Visitor, totalQuantity: int)

  /** The outcome of checkout: refused for an empty cart, rolled back for a stock
      shortfall, or placed, with the id recorded as `last_order_id` and the line items
      handed to the payment provider. */
  datatype CheckoutOutcome = EmptyCart | OutOfStock | Placed(orderId: nat, lines: seq<LineItem>)

  class Store {
    var products: map<ProductId, Product>
    var carts: seq<CartRow>
    var nextCartId: nat
    var orders: seq<Order>
    var nextOrderId: nat
    var items: seq<OrderItem>
    var nextItemId: nat
    var clock: nat

    ghost predicate Valid()
      reads this
    {
      StoreValid(products, carts, nextCartId, orders, nextOrderId, items, nextItemId, clock)
    }

    /** A store holding a catalog and nothing else. */
    constructor(catalog: map<ProductId, Product>)
      requires CatalogValid(catalog)
      ensures Valid()
      ensures products == catalog && carts == [] && orders == [] && items == []
    {
      products := catalog;
      carts := [];
      nextCartId := 1;
      orders := [];
      nextOrderId := 1;
      items := [];
      nextItemId := 1;
      clock := 0;
    }

    /** `ProductListView` on the store's product table: a page of at most nine products of
        the table, each selected by the query, in increasing id; None (a 404) for a page
        parameter that is not a number or an integer outside the listing's pages. */
    ghost function CatalogListing(query: Query, page: PageRequest): (r: Option<seq<Product>>)
      reads this
      requires CatalogValid(products)
      ensures r.None? <==>
        (page.NotANumber? ||
         (page.PageInt? && !(1 <= page.k <= NumPages(|ProductList(TableOrder(products), query).products|, ProductsPerPage))))
      ensures r.Some? ==> |r.value| <= ProductsPerPage && IdOrdered(r.value)
      ensures r.Some? ==> forall p :: p in r.value ==> p.id in products && products[p.id] == p && Selected(p, query)
    {
      var r := CatalogPage(products, query, page);
      if r.Some? then
        assert forall p :: p in r.value ==> p in products.Values;
        r
      else r
    }

    /** `get_object_or_404(Product, slug=...)`: the product with that slug, or none. */
    method ProductBySlug(slug: string) returns (r: Option<ProductId>)
      requires CatalogValid(products)
      ensures r == SlugLookup(products, slug)
    {
      var matches := set id | id in products && products[id].slug == Some(slug);
      if matches == {} {
        r := None;
        forall id | id in products ensures products[id].slug != Some(slug) {
          assert id !in matches;
        }
      } else {
        var id :| id in matches;
        r := Some(id);
        var s := SlugLookup(products, slug);
        assert s.Some? && s.value in matches;
        assert s.value == id;
      }
    }

    /** `cart_add`. The slug is looked up first: an unknown slug is a 404 and nothing
        changes, not even the session. Then an anonymous visitor without a session key
        gets `freshKey`, and the visitor's holding of the product grows by one (a new row
        of quantity 1 or the existing row incremented, module CartEdits). An error of the
        store leaves it unchanged. The reply counts the visitor's rows after the change:
        one more than before. */
    method CartAdd(v: Visitor, slug: string, freshKey: string) returns (out: AddOutcome)
      requires Valid() && freshKey != ""
      modifies this
      ensures Valid()
      ensures products == old(products) && orders == old(orders) && items == old(items)
      ensures nextOrderId == old(nextOrderId) && nextItemId == old(nextItemId) && clock == old(clock)
      ensures SlugLookup(products, slug).None? ==>
        out == ProductNotFound && carts == old(carts) && nextCartId == old(nextCartId)
      ensures SlugLookup(products, slug).Some? ==>
        var w := WithSession(v, freshKey);
        var e := AddOne(old(carts), old(nextCartId), Owner(w), SlugLookup(products, slug).value);
        && (e.Failed? ==> out == AddFailed && carts == old(carts) && nextCartId == old(nextCartId))
        && (e.Edited? ==>
              && carts == e.rows && nextCartId == e.nextId
              && out == Added(w, TotalQuantity(UserCarts(carts, w)))
              && out.totalQuantity == TotalQuantity(UserCarts(old(carts), w)) + 1)
    {
      var found := ProductBySlug(slug);
      if found.None? {
        return ProductNotFound;
      }
      var w := WithSession(v, freshKey);
      var saved := AddToRow(Owner(w), found.value);
      if saved {
        AddOneGrowsHolding(old(carts), old(nextCartId), Owner(w), found.value);
        assert UserCarts(old(carts), w) == Held(old(carts), Owner(w));
        assert UserCarts(carts, w) == Held(carts, Owner(w));
        out := Added(w, TotalQuantity(UserCarts(carts, w)));
      } else {
        out := AddFailed;
      }
    }

    /** `get_or_create(<who>, product=pid)`, then `quantity += 1; save()` for a row that
        existed; `saved` is false when the store raised an error, and then nothing
        changed. */
    method AddToRow(who: Identity, pid: ProductId) returns (saved: bool)
      requires Valid() && pid in products
      modifies this
      ensures Valid()
      ensures products == old(products) && orders == old(orders) && items == old(items)
      ensures nextOrderId == old(nextOrderId) && nextItemId == old(nextItemId) && clock == old(clock)
      ensures saved == AddOne(old(carts), old(nextCartId), who, pid).Edited?
      ensures saved ==>
        carts == AddOne(old(carts), old(nextCartId), who, pid).rows &&
        nextCartId == AddOne(old(carts), old(nextCartId), who, pid).nextId
      ensures !saved ==> carts == old(carts) && nextCartId == old(nextCartId)
    {
      AddOneKeepsCartsValid(carts, nextCartId, who, pid, products);
      saved := false;
      match Find(carts, who, pid)
      case ManyRows =>
      case NoRow =>
        var added := carts + [NewRow(nextCartId, who, pid, 1)];
        assert StoreValid(products, added, nextCartId + 1, orders, nextOrderId, items, nextItemId, clock);
        carts, nextCartId := added, nextCartId + 1;
        saved := true;
      case OneRow(i) =>
        if carts[i].quantity < MaxRowQuantity {
          var grown := carts[i := carts[i].(quantity := carts[i].quantity + 1)];
          assert StoreValid(products, grown, nextCartId, orders, nextOrderId, items, nextItemId, clock);
          carts := grown;
          saved := true;
        }
    }

    /** `cart_remove`: deletes the row with that id whoever owns it; an unknown id changes
        nothing. The reply counts the visitor's rows afterwards. */
    method CartRemove(v: Visitor, id: nat) returns (totalQuantity: int)
      requires Valid()
      modifies this
      ensures Valid()
      ensures carts == RemoveRow(old(carts), id) && nextCartId == old(nextCartId)
      ensures products == old(products) && orders == old(orders) && items == old(items)
      ensures nextOrderId == old(nextOrderId) && nextItemId == old(nextItemId) && clock == old(clock)
      ensures totalQuantity == TotalQuantity(UserCarts(carts, v))
    {
      RemoveRowDropsOne(carts, nextCartId, id);
      var kept := RemoveRow(carts, id);
      assert StoreValid(products, kept, nextCartId, orders, nextOrderId, items, nextItemId, clock);
      carts := kept;
      totalQuantity := TotalQuantity(UserCarts(carts, v));
    }
    /** The cart merge of `UserLoginView.form_valid`, for the session key read before
        `auth.login`. With a key and anonymous rows, each anonymous row (a snapshot taken
        before the loop) is added into the user's row for its product, created with the
        anonymous quantity when missing; the first error stops the loop and is swallowed,
        and only a completed loop deletes the rows carrying the key. */
    method LoginMerge(u: UserId, key: Option<string>)
      requires Valid()
      modifies this
      ensures Valid()
      ensures carts == AdditiveMerge(old(carts), old(nextCartId), u, key).rows
      ensures nextCartId == AdditiveMerge(old(carts), old(nextCartId), u, key).nextId
      ensures products == old(products) && orders == old(orders) && items == old(items)
      ensures nextOrderId == old(nextOrderId) && nextItemId == old(nextItemId) && clock == old(clock)
    {
      if !HasKey(key) {
        return;
      }
      var anon := Held(carts, BySession(key.value));
      if anon == [] {
        return;
      }
      ghost var goal := MergeLoop(carts, nextCartId, u, anon);
      var i := 0;
      var failed := false;
      while i < |anon| && !failed
        invariant 0 <= i <= |anon|
        invariant !failed ==> MergeLoop(carts, nextCartId, u, anon[i..]) == goal
        invariant failed ==> goal == Merge(carts, nextCartId, false)
        invariant CartsValid(carts, nextCartId, products)
        invariant forall x :: x in anon ==> x.product in products
        invariant products == old(products) && orders == old(orders) && items == old(items)
        invariant nextOrderId == old(nextOrderId) && nextItemId == old(nextItemId) && clock == old(clock)
      {
        assert anon[i..][1..] == anon[i + 1..];
        assert anon[i] in anon;
        var saved := MergeRow(u, anon[i]);
        failed := !saved;
        i := i + 1;
      }
      if !failed {
        NotHeldKeepsKeys(carts, nextCartId, BySession(key.value));
        var kept := NotHeld(carts, BySession(key.value));
        assert StoreValid(products, kept, nextCartId, orders, nextOrderId, items, nextItemId, clock);
        carts := kept;
      }
    }

    /** One pass of the login loop: `get_or_create(user=u, product=...)` with the
        anonymous quantity as default, then `quantity += anon quantity; save()` for a row
        that existed. `saved` is false when the store raised an error, and then nothing
        changed. */
    method MergeRow(u: UserId, a: CartRow) returns (saved: bool)
      requires Valid() && a.product in products
      modifies this
      ensures Valid()
      ensures products == old(products) && orders == old(orders) && items == old(items)
      ensures nextOrderId == old(nextOrderId) && nextItemId == old(nextItemId) && clock == old(clock)
      ensures saved == MergeStep(old(carts), old(nextCartId), u, a).Edited?
      ensures saved ==> MergeStep(old(carts), old(nextCartId), u, a) == Edited(carts, nextCartId)
      ensures !saved ==> carts == old(carts) && nextCartId == old(nextCartId)
    {
      MergeStepKeepsCartsValid(carts, nextCartId, u, a, products);
      saved := false;
      match Find(carts, ByUser(u), a.product)
      case ManyRows =>
      case NoRow =>
        var added := carts + [NewRow(nextCartId, ByUser(u), a.product, a.quantity)];
        assert StoreValid(products, added, nextCartId + 1, orders, nextOrderId, items, nextItemId, clock);
        carts, nextCartId := added, nextCartId + 1;
        saved := true;
      case OneRow(j) =>
        if carts[j].quantity + a.quantity <= MaxRowQuantity {
          var grown := carts[j := carts[j].(quantity := carts[j].quantity + a.quantity)];
          assert StoreValid(products, grown, nextCartId, orders, nextOrderId, items, nextItemId, clock);
          carts := grown;
          saved := true;
        }
    }

    /** The receiver `merge_anonymous_cart_with_user_cart`, for whichever session key it
        sees: with a key, all the user's rows are deleted, then every row carrying the key
        is handed to the user. */
    method ReceiverMerge(u: UserId, key: Option<string>)
      requires Valid()
      modifies this
      ensures Valid()
      ensures carts == ReplaceMerge(old(carts), u, key) && nextCartId == old(nextCartId)
      ensures products == old(products) && orders == old(orders) && items == old(items)
      ensures nextOrderId == old(nextOrderId) && nextItemId == old(nextItemId) && clock == old(clock)
    {
      if HasKey(key) {
        NotHeldKeepsKeys(carts, nextCartId, ByUser(u));
        var others := NotHeld(carts, ByUser(u));
        HandOverKeepsCartsValid(others, nextCartId, products, key.value, u);
        var merged := HandOver(others, key.value, u);
        assert StoreValid(products, merged, nextCartId, orders, nextOrderId, items, nextItemId, clock);
        carts := merged;
      }
    }

    /** `OrderCreateView`: `dispatch` refuses a user without cart rows; `form_valid` runs
        in one transaction. The new order is saved, then each of the user's rows is
        checked against the product's current stock, snapshotted as an order item, taken
        off the stock and turned into a line item. A shortfall rolls everything back;
        otherwise the order, items and stock are committed, the user's rows deleted and
        the order id returned as `last_order_id`. */
    method PlaceOrder(u: UserId, contact: Contact) returns (out: CheckoutOutcome)
      requires Valid()
      modifies this
      ensures Valid()
      ensures Held(old(carts), ByUser(u)) == [] ==> out == EmptyCart
      ensures (Held(old(carts), ByUser(u)) != [] &&
               CheckoutRun(old(products), old(carts), old(nextCartId), old(nextItemId), old(nextOrderId), u).None?) ==>
          out == OutOfStock
      ensures out.EmptyCart? || out.OutOfStock? ==>
        && products == old(products) && carts == old(carts) && orders == old(orders) && items == old(items)
        && nextCartId == old(nextCartId) && nextOrderId == old(nextOrderId) && nextItemId == old(nextItemId)
        && clock == old(clock)
      ensures (Held(old(carts), ByUser(u)) != [] &&
               CheckoutRun(old(products), old(carts), old(nextCartId), old(nextItemId), old(nextOrderId), u).Some?) ==>
          var t := CheckoutRun(old(products), old(carts), old(nextCartId), old(nextItemId), old(nextOrderId), u).value;
          && out == Placed(old(nextOrderId), t.lines)
          && products == t.stock
          && orders == old(orders) + [NewOrder(old(nextOrderId), u, contact, old(clock))]
          && items == old(items) + t.items
          && carts == NotHeld(old(carts), ByUser(u))
          && nextOrderId == old(nextOrderId) + 1 && nextItemId == t.nextItemId
          && clock == old(clock) + 1 && nextCartId == old(nextCartId)
    {
      var rows := Held(carts, ByUser(u));
      if rows == [] {
        return EmptyCart;
      }
      var order := NewOrder(nextOrderId, u, contact, clock);
      assert References(rows, products);
      var run := Reserve(products, nextItemId, order.id, rows);
      assert run == CheckoutRun(products, carts, nextCartId, nextItemId, order.id, u);
      if run.None? {
        return OutOfStock;
      }
      Commit(u, contact, run.value);
      out := Placed(order.id, run.value.lines);
    }

    /** The end of the transaction: the order (saved first, with the next id and the
        current time), the stock, and the items are committed; then the user's cart rows
        are deleted. */
    method Commit(u: UserId, contact: Contact, t: Transfer)
      requires Valid()
      requires CheckoutRun(products, carts, nextCartId, nextItemId, nextOrderId, u) == Some(t)
      modifies this
      ensures Valid()
      ensures products == t.stock
      ensures orders == old(orders) + [NewOrder(old(nextOrderId), u, contact, old(clock))]
      ensures items == old(items) + t.items
      ensures carts == NotHeld(old(carts), ByUser(u))
      ensures nextOrderId == old(nextOrderId) + 1 && nextItemId == t.nextItemId
      ensures clock == old(clock) + 1 && nextCartId == old(nextCartId)
    {
      assert References(Held(carts, ByUser(u)), products);
      CheckoutKeepsValid(products, carts, nextCartId, orders, nextOrderId, items, nextItemId, clock, u, contact, t);
      var placed := orders + [NewOrder(nextOrderId, u, contact, clock)];
      var remaining := NotHeld(carts, ByUser(u));
      assert StoreValid(t.stock, remaining, nextCartId, placed, nextOrderId + 1, items + t.items, t.nextItemId, clock + 1);
      products, carts, orders, items := t.stock, remaining, placed, items + t.items;
      nextOrderId, nextItemId, clock := nextOrderId + 1, t.nextItemId, clock + 1;
    }

    /** Deleting a user: their cart rows go (CASCADE) and their orders stay with no owner
        (SET_DEFAULT). */
    method DeleteUser(u: UserId)
      requires Valid()
      modifies this
      ensures Valid()
      ensures carts == NotHeld(old(carts), ByUser(u)) && orders == DetachUser(old(orders), u)
      ensures products == old(products) && items == old(items)
      ensures nextCartId == old(nextCartId) && nextOrderId == old(nextOrderId) && nextItemId == old(nextItemId)
      ensures clock == old(clock)
    {
      NotHeldKeepsKeys(carts, nextCartId, ByUser(u));
      DetachUserKeepsValid(orders, nextOrderId, clock, u);
      var keptCarts, keptOrders := NotHeld(carts, ByUser(u)), DetachUser(orders, u);
      assert StoreValid(products, keptCarts, nextCartId, keptOrders, nextOrderId, items, nextItemId, clock);
      carts, orders := keptCarts, keptOrders;
    }

    /** Deleting a product: its cart rows go (CASCADE) and order items keep their
        snapshot with the reference cleared (SET_DEFAULT). */
    method DeleteProduct(pid: ProductId)
      requires Valid()
      modifies this
      ensures Valid()
      ensures products == old(products) - {pid}
      ensures carts == DropProductRows(old(carts), pid) && items == DetachProduct(old(items), pid)
      ensures orders == old(orders)
      ensures nextCartId == old(nextCartId) && nextOrderId == old(nextOrderId) && nextItemId == old(nextItemId)
      ensures clock == old(clock)
    {
      DropProductRowsKeepsKeys(carts, nextCartId, pid);
      DetachProductKeepsValid(items, nextItemId, orders, products, pid);
      var catalog, keptCarts, keptItems := products - {pid}, DropProductRows(carts, pid), DetachProduct(items, pid);
      assert StoreValid(catalog, keptCarts, nextCartId, orders, nextOrderId, keptItems, nextItemId, clock);
      products, carts, items := catalog, keptCarts, keptItems;
    }

    /** Deleting an order: its items go with it (CASCADE). */
    method DeleteOrder(orderId: nat)
      requires Valid()
      modifies this
      ensures Valid()
      ensures orders == RemoveOrder(old(orders), orderId) && items == DropItemsOf(old(items), orderId)
      ensures products == old(products) && carts == old(carts)
      ensures nextCartId == old(nextCartId) && nextOrderId == old(nextOrderId) && nextItemId == old(nextItemId)
      ensures clock == old(clock)
    {
      RemoveOrderKeepsValid(orders, nextOrderId, clock, items, nextItemId, products, orderId);
      var keptOrders, keptItems := RemoveOrder(orders, orderId), DropItemsOf(items, orderId);
      assert StoreValid(products, carts, nextCartId, keptOrders, nextOrderId, keptItems, nextItemId, clock);
      orders, items := keptOrders, keptItems;
    }
  }
}
