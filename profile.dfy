/** The order history of the profile page (users/views.py, `UserProfileView
    .get_context_data`): the user's orders, newest first, each annotated with
    `Sum(quantity * price)` over its items, shown five to a page. */
module Profile {
  import opened Basics
  import opened Orders
  import opened Paging

  const OrdersPerPage: nat := 5

  /** One order as listed, with its `total_sum` annotation (kopecks). */
  datatype HistoryEntry = HistoryEntry(order: Order, totalSum: Option<int>)

  /** `Sum(F('orderitem__quantity') * F('orderitem__price'))`: SQL's SUM over the order's
      items, NULL when it has none. */
  function TotalSum(items: seq<OrderItem>, orderId: nat): (r: Option<int>)
    ensures r.None? <==> forall it :: it in items ==> it.order != orderId
  {
    var mine := ItemsOf(items, orderId);
    if mine == [] then None
    else
      assert mine[0] in items;
      Some(ItemsTotal(mine))
  }

  /** Annotates each order with its total. */
  function Annotate(orders: seq<Order>, items: seq<OrderItem>): (r: seq<HistoryEntry>)
    ensures |r| == |orders|
    ensures forall i :: 0 <= i < |r| ==> r[i].order == orders[i] && r[i].totalSum == TotalSum(items, orders[i].id)
  {
    if orders == [] then []
    else [HistoryEntry(orders[0], TotalSum(items, orders[0].id))] + Annotate(orders[1..], items)
  }

  /** `Order.objects.filter(user=u)....order_by("-created_timestamp")`, annotated: exactly
      the orders of `u`, newest first, each with the total of its own items. */
  function History(orders: seq<Order>, items: seq<OrderItem>, u: nat): (h: seq<HistoryEntry>)
    ensures forall e :: e in h ==> e.order.user == Some(u) && e.totalSum == TotalSum(items, e.order.id)
    ensures forall o :: o in orders && o.user == Some(u) <==> exists e :: e in h && e.order == o
  {
    var mine := Filter(orders, (o: Order) => o.user == Some(u));
    var h := Annotate(NewestFirst(mine), items);
    forall o | o in orders && o.user == Some(u) ensures exists e :: e in h && e.order == o {
      var i :| 0 <= i < |mine| && mine[i] == o;
      var k := |mine| - 1 - i;
      assert NewestFirst(mine)[k] == o;
      assert h[k] in h;
    }
    forall e | e in h ensures e.order in mine {
      var k :| 0 <= k < |h| && h[k] == e;
      assert NewestFirst(mine)[k] == mine[|mine| - 1 - k];
    }
    h
  }

  /** With creation timestamps increasing along the table, the history is strictly newest
      first. */
  lemma HistoryNewestFirst(orders: seq<Order>, items: seq<OrderItem>, u: nat)
    requires StrictlyIncreasing(orders, (o: Order) => o.created as int)
    ensures var h := History(orders, items, u);
      forall i, j :: 0 <= i < j < |h| ==> h[i].order.created > h[j].order.created
  {
    var mine := Filter(orders, (o: Order) => o.user == Some(u));
    FilterKeepsIncreasing(orders, (o: Order) => o.user == Some(u), (o: Order) => o.created as int);
    NewestFirstIsDescending(mine);
  }

  /** The page the profile shows: at most five entries, all from the history. */
  function HistoryPage(orders: seq<Order>, items: seq<OrderItem>, u: nat, page: Option<int>): (r: seq<HistoryEntry>)
    ensures |r| <= OrdersPerPage
    ensures forall e :: e in r ==> e in History(orders, items, u)
    ensures History(orders, items, u) != [] ==> r != []
  {
    GetPage(History(orders, items, u), page, OrdersPerPage)
  }

  /** A total is the sum, over the order's items, of quantity times the snapshot price; it
      does not depend on the products, and so survives the products' deletion. */
  lemma TotalSumSurvivesProductDeletion(items: seq<OrderItem>, pid: nat, orderId: nat)
    ensures TotalSum(DetachProduct(items, pid), orderId) == TotalSum(items, orderId)
  {
    DetachProductKeepsTotals(items, pid, orderId);
  }
}
