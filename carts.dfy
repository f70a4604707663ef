/** Cart rows and their aggregates (carts/models.py) and the rule that picks the rows of
    the current visitor (carts/utils.py). */
module Carts {
  import opened Basics
  import opened Decimals
  import opened Products

  type UserId = nat

  /** Upper bound of a PositiveSmallIntegerField column. */
  const MaxRowQuantity: int := 32767

  type RowQuantity = q: int | 0 <= q <= MaxRowQuantity

  /** One row of the `cart` table. A row is created for a user or for a session key; a
      row handed over at login can carry both. */
  datatype CartRow = CartRow(
    id: nat,
    user: Option<UserId>,
    product: ProductId,
    quantity: RowQuantity,
    sessionKey: Option<string>)

  /** The lookup key of a query: `filter(user=...)` or `filter(session_key=...)`. */
  datatype Identity = ByUser(user: UserId) | BySession(key: string)

  /** The part of a request the cart code reads: the authenticated user, if any, and the
      session key, if the session has been saved. */
  datatype Visitor = Visitor(user: Option<UserId>, sessionKey: Option<string>)

  predicate HeldBy(r: CartRow, who: Identity)
  {
    match who
    case ByUser(u) => r.user == Some(u)
    case BySession(k) => r.sessionKey == Some(k)
  }

  /** Python truthiness of a session key: None and "" are both false. */
  predicate HasKey(k: Option<string>)
  {
    k.Some? && k.value != ""
  }

  /** `Cart.objects.filter(<who>)`, in table order. */
  function Held(rows: seq<CartRow>, who: Identity): (r: seq<CartRow>)
    ensures forall x :: x in r <==> x in rows && HeldBy(x, who)
  {
    Filter(rows, (x: CartRow) => HeldBy(x, who))
  }

  /** `Cart.objects.exclude(<who>)`: every row the filter above leaves out. */
  function NotHeld(rows: seq<CartRow>, who: Identity): (r: seq<CartRow>)
    ensures forall x :: x in r <==> x in rows && !HeldBy(x, who)
  {
    Filter(rows, (x: CartRow) => !HeldBy(x, who))
  }

  /** `get_user_carts`: an authenticated visitor gets exactly the rows of their user,
      whatever the session holds; an anonymous visitor without a session key gets nothing;
      otherwise exactly the rows carrying the session key. */
  function UserCarts(rows: seq<CartRow>, v: Visitor): (r: seq<CartRow>)
    ensures v.user.Some? ==> forall x :: x in r <==> x in rows && x.user == v.user
    ensures v.user.None? && !HasKey(v.sessionKey) ==> r == []
    ensures v.user.None? && HasKey(v.sessionKey) ==>
      forall x :: x in r <==> x in rows && x.sessionKey == v.sessionKey
    ensures IsSubsequence(r, rows)
  {
    if v.user.Some? then
      FilterIsSubsequence(rows, (x: CartRow) => HeldBy(x, ByUser(v.user.value)));
      Held(rows, ByUser(v.user.value))
    else if !HasKey(v.sessionKey) then
      []
    else
      FilterIsSubsequence(rows, (x: CartRow) => HeldBy(x, BySession(v.sessionKey.value)));
      Held(rows, BySession(v.sessionKey.value))
  }

  /** `CartQueryset.total_quantity`: 0 for an empty set, otherwise the sum of the row
      quantities; never negative and at most the column bound per row. */
  function TotalQuantity(rows: seq<CartRow>): (t: int)
    ensures rows == [] ==> t == 0
    ensures 0 <= t <= |rows| * MaxRowQuantity
  {
    if rows == [] then 0 else rows[0].quantity + TotalQuantity(rows[1..])
  }

  lemma {:induction false} TotalQuantityAppend(a: seq<CartRow>, b: seq<CartRow>)
    ensures TotalQuantity(a + b) == TotalQuantity(a) + TotalQuantity(b)
  {
    if a != [] {
      assert (a + b)[1..] == a[1..] + b;
      TotalQuantityAppend(a[1..], b);
    } else {
      assert a + b == b;
    }
  }

  /** `Cart.products_price`: round(sell_price * quantity, 2). The product of a two-place
      price and an integer already has two places, so the rounding changes nothing and
      the row price is exactly sell price times quantity. */
  function RowPrice(r: CartRow, p: Product): (d: Decimal)
    ensures d.scale == 2
    ensures d.units == SellPrice(p).units * r.quantity
  {
    var exact := Mul(SellPrice(p), FromInt(r.quantity));
    assert exact == Decimal(SellPrice(p).units * r.quantity, 2);
    RoundTo(exact, 2)
  }

  predicate References(rows: seq<CartRow>, catalog: map<ProductId, Product>)
  {
    forall x :: x in rows ==> x.product in catalog
  }

  /** `CartQueryset.total_price`: 0 for an empty set, otherwise the sum of
      sell_price * quantity over the rows, in kopecks. */
  function TotalPrice(rows: seq<CartRow>, catalog: map<ProductId, Product>): (t: int)
    requires References(rows, catalog)
    ensures rows == [] ==> t == 0
  {
    if rows == [] then 0
    else
      Mul(SellPrice(catalog[rows[0].product]), FromInt(rows[0].quantity)).units
        + TotalPrice(rows[1..], catalog)
  }

  /** The cart total is the sum of the row prices shown for each row. */
  lemma {:induction false} TotalPriceIsSumOfRowPrices(rows: seq<CartRow>, catalog: map<ProductId, Product>)
    requires References(rows, catalog)
    ensures TotalPrice(rows, catalog) == SumRowPrices(rows, catalog)
  {
    if rows != [] {
      assert rows[0] in rows;
      TotalPriceIsSumOfRowPrices(rows[1..], catalog);
    }
  }

  function SumRowPrices(rows: seq<CartRow>, catalog: map<ProductId, Product>): int
    requires References(rows, catalog)
  {
    if rows == [] then 0
    else RowPrice(rows[0], catalog[rows[0].product]).units + SumRowPrices(rows[1..], catalog)
  }

  /** With every product priced non-negatively, the cart total is non-negative. */
  lemma {:induction false} TotalPriceNonNegative(rows: seq<CartRow>, catalog: map<ProductId, Product>)
    requires References(rows, catalog)
    requires forall x :: x in rows ==> SellPrice(catalog[x.product]).units >= 0
    ensures TotalPrice(rows, catalog) >= 0
  {
    if rows != [] {
      assert rows[0] in rows;
      var s := SellPrice(catalog[rows[0].product]).units;
      assert s * rows[0].quantity >= 0 by { MulNonNegative(s, rows[0].quantity); }
      TotalPriceNonNegative(rows[1..], catalog);
    }
  }

  /** A row of `who` for product `pid`: what `get_or_create(<who>, product=pid)` looks for. */
  predicate Matches(r: CartRow, who: Identity, pid: ProductId)
  {
    HeldBy(r, who) && r.product == pid
  }

  /** Outcome of the `get` half of `get_or_create`. */
  datatype Lookup = NoRow | OneRow(index: nat) | ManyRows

  /** Finds the rows of `who` for `pid`: none, exactly one (and where), or several
      (`MultipleObjectsReturned`). */
  function Find(rows: seq<CartRow>, who: Identity, pid: ProductId): (f: Lookup)
    ensures f.NoRow? <==> forall i :: 0 <= i < |rows| ==> !Matches(rows[i], who, pid)
    ensures f.OneRow? ==>
      f.index < |rows| && Matches(rows[f.index], who, pid) &&
      forall i :: 0 <= i < |rows| && i != f.index ==> !Matches(rows[i], who, pid)
    ensures f.ManyRows? ==>
      exists i, j :: 0 <= i < j < |rows| && Matches(rows[i], who, pid) && Matches(rows[j], who, pid)
  {
    if rows == [] then NoRow
    else
      var rest := Find(rows[1..], who, pid);
      if Matches(rows[0], who, pid) then
        (match rest
         case NoRow => OneRow(0)
         case OneRow(i) => assert Matches(rows[i + 1], who, pid); ManyRows
         case ManyRows =>
           var i, j :| 0 <= i < j < |rows[1..]| && Matches(rows[1..][i], who, pid) && Matches(rows[1..][j], who, pid);
           assert Matches(rows[i + 1], who, pid);
           ManyRows)
      else
        match rest
        case NoRow => NoRow
        case OneRow(i) => OneRow(i + 1)
        case ManyRows =>
          var i, j :| 0 <= i < j < |rows[1..]| && Matches(rows[1..][i], who, pid) && Matches(rows[1..][j], who, pid);
          assert Matches(rows[i + 1], who, pid) && Matches(rows[j + 1], who, pid);
          ManyRows
  }

  /** How much of `pid` the rows of `who` hold. */
  function Qty(rows: seq<CartRow>, who: Identity, pid: ProductId): int
  {
    if rows == [] then 0
    else Share(rows[0], who, pid) + Qty(rows[1..], who, pid)
  }

  function Share(r: CartRow, who: Identity, pid: ProductId): int
  {
    if Matches(r, who, pid) then r.quantity else 0
  }

  /** The per-product quantity of the rows `who` holds, where the row exists. */
  lemma {:induction false} QtyOfLookup(rows: seq<CartRow>, who: Identity, pid: ProductId)
    ensures Find(rows, who, pid).NoRow? ==> Qty(rows, who, pid) == 0
    ensures Find(rows, who, pid).OneRow? ==> Qty(rows, who, pid) == rows[Find(rows, who, pid).index].quantity
    ensures Qty(rows, who, pid) >= 0
  {
    if rows != [] {
      QtyOfLookup(rows[1..], who, pid);
      var f := Find(rows[1..], who, pid);
      if f.OneRow? {
        assert rows[1..][f.index] == rows[f.index + 1];
      }
    }
  }

  lemma {:induction false} QtyAppend(rows: seq<CartRow>, r: CartRow, who: Identity, pid: ProductId)
    ensures Qty(rows + [r], who, pid) == Qty(rows, who, pid) + Share(r, who, pid)
  {
    if rows != [] {
      assert (rows + [r])[1..] == rows[1..] + [r];
      QtyAppend(rows[1..], r, who, pid);
    }
  }

  lemma {:induction false} QtyUpdate(rows: seq<CartRow>, i: nat, r: CartRow, who: Identity, pid: ProductId)
    requires i < |rows|
    ensures Qty(rows[i := r], who, pid) == Qty(rows, who, pid) - Share(rows[i], who, pid) + Share(r, who, pid)
  {
    if i > 0 {
      assert rows[i := r][1..] == rows[1..][i - 1 := r];
      QtyUpdate(rows[1..], i - 1, r, who, pid);
    } else {
      assert rows[i := r][1..] == rows[1..];
    }
  }

  /** Quantity of `pid` over a list of rows regardless of owner (a snapshot of a cart). */
  function SumFor(rows: seq<CartRow>, pid: ProductId): int
  {
    if rows == [] then 0
    else (if rows[0].product == pid then rows[0].quantity else 0) + SumFor(rows[1..], pid)
  }

  lemma {:induction false} SumForNonNegative(rows: seq<CartRow>, pid: ProductId)
    ensures SumFor(rows, pid) >= 0
  {
    if rows != [] {
      SumForNonNegative(rows[1..], pid);
    }
  }
}
