/** The body of the checkout transaction (orders/views.py, `OrderCreateView.form_valid`):
    for each cart row of the user, in table order, check the stock of the product as it
    is now, snapshot an order item, take the quantity off the stock and prepare a payment
    line item. A shortfall raises `ValidationError`, which rolls the whole transaction
    back. */
module Checkout {
  import opened Basics
  import opened Decimals
  import opened Products
  import opened Carts
  import opened Orders

  /** One entry of `line_items` for the payment provider (currency "rub"). */
  datatype LineItem = LineItem(name: string, unitAmount: int, quantity: nat)

  /** `int(sell_price * 100)`: the sell price has exactly two places, so multiplying by
      100 and dropping the fraction yields the sell price in kopecks, with nothing lost. */
  function UnitAmount(p: Product): (a: int)
    ensures a == SellPrice(p).units
  {
    var s := SellPrice(p);
    var hundredfold := Mul(s, FromInt(100));
    assert Pow10(2) == 100;
    assert hundredfold == Decimal(s.units * 100, 2);
    Truncate(hundredfold)
  }

  /** What the loop has produced so far: the product rows as now saved, the order items
      and line items created, and the next item id. */
  datatype Transfer = Transfer(
    stock: map<ProductId, Product>,
    items: seq<OrderItem>,
    lines: seq<LineItem>,
    nextItemId: nat)

  /** One pass of the loop for `row`, against the product as it is now; None is the
      `ValidationError` of a shortfall. The line item's unit amount is
      `int(sell_price * 100)`, which `UnitAmount` shows is the sell price in kopecks, so
      the kopeck count is used directly. */
  function Step(t: Transfer, orderId: nat, row: CartRow): (r: Option<Transfer>)
    requires row.product in t.stock
    ensures r.None? <==> t.stock[row.product].quantity < row.quantity
    ensures r.Some? ==> r.value.stock.Keys == t.stock.Keys
  {
    var p := t.stock[row.product];
    if p.quantity < row.quantity then None
    else
      Some(Transfer(
        t.stock[row.product := p.(quantity := p.quantity - row.quantity)],
        t.items + [OrderItem(t.nextItemId, orderId, Some(row.product), p.name, SellPrice(p).units, row.quantity)],
        t.lines + [LineItem(p.name, SellPrice(p).units, row.quantity)],
        t.nextItemId + 1))
  }

  /** The loop over the rows; the first shortfall abandons everything. */
  function Run(t: Transfer, orderId: nat, rows: seq<CartRow>): Option<Transfer>
    requires References(rows, t.stock)
    decreases |rows|
  {
    if rows == [] then Some(t)
    else
      match Step(t, orderId, rows[0])
      case None => None
      case Some(t') =>
        assert forall x :: x in rows[1..] ==> x in rows;
        Run(t', orderId, rows[1..])
  }

  /** The loop of `form_valid` on local copies of the touched products: each row is
      checked against the product as the loop has left it, snapshotted as an order
      item, taken off the stock and turned into a line item; the first shortfall stops
      it. The store itself is not touched until the whole loop has succeeded. */
  method Reserve(products: map<ProductId, Product>, nextItemId: nat, orderId: nat, rows: seq<CartRow>)
    returns (run: Option<Transfer>)
    requires References(rows, products)
    ensures run == Run(Transfer(products, [], [], nextItemId), orderId, rows)
  {
    var stock: map<ProductId, Product> := products;
    var added: seq<OrderItem> := [];
    var lines: seq<LineItem> := [];
    var itemId := nextItemId;
    var i := 0;
    while i < |rows|
      invariant 0 <= i <= |rows|
      invariant References(rows[i..], stock)
      invariant Run(Transfer(stock, added, lines, itemId), orderId, rows[i..]) ==
                Run(Transfer(products, [], [], nextItemId), orderId, rows)
    {
      var row := rows[i];
      assert rows[i..][1..] == rows[i + 1..];
      assert row in rows[i..];
      var p := stock[row.product];
      if p.quantity < row.quantity {
        return None;
      }
      StepTakes(Transfer(stock, added, lines, itemId), orderId, row);
      RunOneStep(Transfer(stock, added, lines, itemId), orderId, rows[i..]);
      added := added + [OrderItem(itemId, orderId, Some(row.product), p.name, SellPrice(p).units, row.quantity)];
      stock := stock[row.product := p.(quantity := p.quantity - row.quantity)];
      lines := lines + [LineItem(p.name, SellPrice(p).units, row.quantity)];
      itemId := itemId + 1;
      i := i + 1;
    }
    run := Some(Transfer(stock, added, lines, itemId));
  }

  /** A row the stock covers is snapshotted, taken off the stock and turned into a line
      item, with the next item id. */
  lemma StepTakes(t: Transfer, orderId: nat, row: CartRow)
    requires row.product in t.stock && row.quantity <= t.stock[row.product].quantity
    ensures var p := t.stock[row.product];
      Step(t, orderId, row) == Some(Transfer(
        t.stock[row.product := p.(quantity := p.quantity - row.quantity)],
        t.items + [OrderItem(t.nextItemId, orderId, Some(row.product), p.name, SellPrice(p).units, row.quantity)],
        t.lines + [LineItem(p.name, SellPrice(p).units, row.quantity)],
        t.nextItemId + 1))
  {
  }

  /** When the first row passes, the run continues from the transfer it left. */
  lemma RunOneStep(t: Transfer, orderId: nat, rows: seq<CartRow>)
    requires References(rows, t.stock) && rows != []
    requires Step(t, orderId, rows[0]).Some?
    ensures References(rows[1..], Step(t, orderId, rows[0]).value.stock)
    ensures Run(t, orderId, rows) == Run(Step(t, orderId, rows[0]).value, orderId, rows[1..])
  {
    assert forall x :: x in rows[1..] ==> x in rows;
  }

  /** Every product in stock covers what the rows ask of it in total. */
  ghost predicate Covers(stock: map<ProductId, Product>, rows: seq<CartRow>)
  {
    forall pid :: pid in stock ==> SumFor(rows, pid) <= stock[pid].quantity
  }

  /** All or nothing: the checkout goes through exactly when, for every product, the
      total quantity over the rows is at most the stock. A product asked for in two rows
      is checked against the stock left by the first. Stock equal to demand suffices. */
  lemma {:induction false} RunSucceedsIff(t: Transfer, orderId: nat, rows: seq<CartRow>)
    requires References(rows, t.stock)
    ensures Run(t, orderId, rows).Some? <==> Covers(t.stock, rows)
    decreases |rows|
  {
    if rows == [] {
    } else {
      var row := rows[0];
      SumForNonNegative(rows[1..], row.product);
      match Step(t, orderId, row)
      case None =>
        assert SumFor(rows, row.product) > t.stock[row.product].quantity;
      case Some(t') =>
        assert forall x :: x in rows[1..] ==> x in rows;
        RunSucceedsIff(t', orderId, rows[1..]);
        forall pid | pid in t.stock
          ensures SumFor(rows[1..], pid) <= t'.stock[pid].quantity <==> SumFor(rows, pid) <= t.stock[pid].quantity
        {
        }
        if Covers(t'.stock, rows[1..]) {
          assert Covers(t.stock, rows);
        } else {
          var pid :| pid in t'.stock && SumFor(rows[1..], pid) > t'.stock[pid].quantity;
          assert !Covers(t.stock, rows);
        }
    }
  }

  /** A successful run takes from every product exactly the total quantity the rows asked
      of it, and changes nothing else about the product. */
  lemma {:induction false} RunStock(t: Transfer, orderId: nat, rows: seq<CartRow>)
    requires References(rows, t.stock)
    requires Run(t, orderId, rows).Some?
    ensures var t' := Run(t, orderId, rows).value;
      && t'.stock.Keys == t.stock.Keys
      && forall pid :: pid in t.stock ==>
           && t'.stock[pid].quantity + SumFor(rows, pid) == t.stock[pid].quantity
           && t'.stock[pid] == t.stock[pid].(quantity := t'.stock[pid].quantity)
    decreases |rows|
  {
    if rows != [] {
      var t1 := Step(t, orderId, rows[0]).value;
      assert forall x :: x in rows[1..] ==> x in rows;
      assert Run(t, orderId, rows) == Run(t1, orderId, rows[1..]);
      RunStock(t1, orderId, rows[1..]);
    }
  }

  /** A successful run appends one order item and one line item per row, keeping what
      came before, and uses one item id per row. */
  lemma {:induction false} RunShape(t: Transfer, orderId: nat, rows: seq<CartRow>)
    requires References(rows, t.stock)
    requires Run(t, orderId, rows).Some?
    ensures var t' := Run(t, orderId, rows).value;
      && |t'.items| == |t.items| + |rows| && t'.items[..|t.items|] == t.items
      && |t'.lines| == |t.lines| + |rows| && t'.lines[..|t.lines|] == t.lines
      && t'.nextItemId == t.nextItemId + |rows|
    decreases |rows|
  {
    if rows != [] {
      var t1 := Step(t, orderId, rows[0]).value;
      assert forall x :: x in rows[1..] ==> x in rows;
      assert Run(t, orderId, rows) == Run(t1, orderId, rows[1..]);
      RunShape(t1, orderId, rows[1..]);
      var t' := Run(t, orderId, rows).value;
      assert t'.items[..|t.items|] == t1.items[..|t.items|];
      assert t'.lines[..|t.lines|] == t1.lines[..|t.lines|];
    }
  }

  /** One successful step adds one item and one line item, uses one item id, and leaves
      every product's name and sell price as they were. */
  lemma StepShape(t: Transfer, orderId: nat, row: CartRow, pid: ProductId)
    requires row.product in t.stock && pid in t.stock
    requires Step(t, orderId, row).Some?
    ensures var t1 := Step(t, orderId, row).value;
      && |t1.items| == |t.items| + 1 && |t1.lines| == |t.lines| + 1
      && t1.nextItemId == t.nextItemId + 1
      && pid in t1.stock && t1.stock[pid].name == t.stock[pid].name
      && SellPrice(t1.stock[pid]) == SellPrice(t.stock[pid])
  {
    var p := t.stock[pid];
    var p1 := Step(t, orderId, row).value.stock[pid];
    assert p1 == p.(quantity := p1.quantity);
    assert SellPrice(p1) == SellPrice(p);
  }

  /** In a successful run the first row passes, and the rest run from what it left. */
  lemma RunUnfold(t: Transfer, orderId: nat, rows: seq<CartRow>)
    requires References(rows, t.stock)
    requires Run(t, orderId, rows).Some? && rows != []
    ensures Step(t, orderId, rows[0]).Some?
    ensures References(rows[1..], Step(t, orderId, rows[0]).value.stock)
    ensures Run(t, orderId, rows) == Run(Step(t, orderId, rows[0]).value, orderId, rows[1..])
  {
    assert rows[0] in rows;
    RunOneStep(t, orderId, rows);
  }

  /** The first row of a successful run yields the first new item and line item. */
  lemma RunFirstItem(t: Transfer, orderId: nat, rows: seq<CartRow>)
    requires References(rows, t.stock)
    requires Run(t, orderId, rows).Some? && rows != []
    ensures var t' := Run(t, orderId, rows).value;
      var p := t.stock[rows[0].product];
      && |t.items| < |t'.items| && |t.lines| < |t'.lines|
      && t'.items[|t.items|] ==
           OrderItem(t.nextItemId, orderId, Some(rows[0].product), p.name, SellPrice(p).units, rows[0].quantity)
      && t'.lines[|t.lines|] == LineItem(p.name, SellPrice(p).units, rows[0].quantity)
  {
    RunUnfold(t, orderId, rows);
    var t1 := Step(t, orderId, rows[0]).value;
    RunShape(t1, orderId, rows[1..]);
    var t' := Run(t, orderId, rows).value;
    assert t1.items[|t.items|] == t'.items[..|t1.items|][|t.items|];
    assert t1.lines[|t.lines|] == t'.lines[..|t1.lines|][|t.lines|];
  }

  /** Row i of a successful run yields item i and line item i, priced from the product
      as it was before the run. */
  lemma {:induction false} RunItemAt(t: Transfer, orderId: nat, rows: seq<CartRow>, i: nat)
    requires References(rows, t.stock)
    requires Run(t, orderId, rows).Some?
    requires i < |rows|
    ensures var t' := Run(t, orderId, rows).value;
      var p := t.stock[rows[i].product];
      && |t.items| + i < |t'.items| && |t.lines| + i < |t'.lines|
      && t'.items[|t.items| + i] ==
           OrderItem(t.nextItemId + i, orderId, Some(rows[i].product), p.name, SellPrice(p).units, rows[i].quantity)
      && t'.lines[|t.lines| + i] == LineItem(p.name, SellPrice(p).units, rows[i].quantity)
    decreases |rows|, 1
  {
    if i == 0 {
      RunFirstItem(t, orderId, rows);
    } else {
      RunLaterItem(t, orderId, rows, i);
    }
  }

  /** A later row's items come from the rest of the run, which starts one item further
      on and sees the same names and sell prices. */
  lemma {:induction false} RunLaterItem(t: Transfer, orderId: nat, rows: seq<CartRow>, i: nat)
    requires References(rows, t.stock)
    requires Run(t, orderId, rows).Some?
    requires 1 <= i < |rows|
    ensures var t' := Run(t, orderId, rows).value;
      var p := t.stock[rows[i].product];
      && |t.items| + i < |t'.items| && |t.lines| + i < |t'.lines|
      && t'.items[|t.items| + i] ==
           OrderItem(t.nextItemId + i, orderId, Some(rows[i].product), p.name, SellPrice(p).units, rows[i].quantity)
      && t'.lines[|t.lines| + i] == LineItem(p.name, SellPrice(p).units, rows[i].quantity)
    decreases |rows|, 0
  {
    RunUnfold(t, orderId, rows);
    var t1 := Step(t, orderId, rows[0]).value;
    StepShape(t, orderId, rows[0], rows[i].product);
    RunItemAt(t1, orderId, rows[1..], i - 1);
    assert rows[i] == rows[1..][i - 1];
  }

  /** Each row of a successful run yields, in order, one order item with the next id,
      copying the product name, its sell price in kopecks and the row quantity, and one
      line item with the same name, the unit amount in kopecks and the row quantity. */
  lemma RunItems(t: Transfer, orderId: nat, rows: seq<CartRow>)
    requires References(rows, t.stock)
    requires Run(t, orderId, rows).Some?
    ensures var t' := Run(t, orderId, rows).value;
      && |t'.items| == |t.items| + |rows| && t'.items[..|t.items|] == t.items
      && |t'.lines| == |t.lines| + |rows| && t'.lines[..|t.lines|] == t.lines
      && t'.nextItemId == t.nextItemId + |rows|
      && forall i :: 0 <= i < |rows| ==>
           var p := t.stock[rows[i].product];
           && t'.items[|t.items| + i] ==
                OrderItem(t.nextItemId + i, orderId, Some(rows[i].product), p.name, SellPrice(p).units, rows[i].quantity)
           && t'.lines[|t.lines| + i] == LineItem(p.name, SellPrice(p).units, rows[i].quantity)
  {
    RunShape(t, orderId, rows);
    forall i | 0 <= i < |rows|
      ensures var t' := Run(t, orderId, rows).value;
        var p := t.stock[rows[i].product];
        && t'.items[|t.items| + i] ==
             OrderItem(t.nextItemId + i, orderId, Some(rows[i].product), p.name, SellPrice(p).units, rows[i].quantity)
        && t'.lines[|t.lines| + i] == LineItem(p.name, SellPrice(p).units, rows[i].quantity)
    {
      RunItemAt(t, orderId, rows, i);
    }
  }
}
