/** Orders and their items (orders/models.py): the status enumeration, the owner and
    contact columns, the item snapshot, and what deleting a user, a product or an order
    does to them. */
module Orders {
  import opened Basics
  import opened Products
  import opened Carts

  /** The `status` choices. A value of this type is always one of the four. */
  datatype Status = Created | Paid | OnWay | Delivered

  /** The code stored in the `status` column. */
  function StatusCode(s: Status): string
  {
    match s
    case Created => "CREATED"
    case Paid => "PAID"
    case OnWay => "ON_WAY"
    case Delivered => "DELIVERED"
  }

  /** Reads a stored code back: exactly the four codes are accepted, each as the status
      stored under it. */
  function ParseStatus(c: string): (s: Option<Status>)
    ensures s.Some? <==> c in {"CREATED", "PAID", "ON_WAY", "DELIVERED"}
    ensures s.Some? ==> StatusCode(s.value) == c
    ensures forall st :: StatusCode(st) == c ==> s == Some(st)
  {
    if c == "CREATED" then Some(Created)
    else if c == "PAID" then Some(Paid)
    else if c == "ON_WAY" then Some(OnWay)
    else if c == "DELIVERED" then Some(Delivered)
    else None
  }

  /** The delivery details the checkout form fills in. */
  datatype Contact = Contact(
    firstName: string,
    lastName: string,
    email: string,
    phoneNumber: string,
    address: string)

  /** One row of the `order` table. `created` is the creation timestamp, taken from a
      clock that only moves forward. */
  datatype Order = Order(
    id: nat,
    user: Option<UserId>,
    contact: Contact,
    created: nat,
    status: Status)

  /** One row of the `order_item` table: a snapshot of the product's name and sell price
      (kopecks) at the time of the order, and a product reference that may be cleared. */
  datatype OrderItem = OrderItem(
    id: nat,
    order: nat,
    product: Option<ProductId>,
    name: string,
    price: int,
    quantity: nat)

  /** A freshly saved order: owned by the given user, status CREATED. */
  function NewOrder(id: nat, user: UserId, contact: Contact, now: nat): (o: Order)
    ensures o.status == Created && o.user == Some(user)
    ensures o.id == id && o.contact == contact && o.created == now
  {
    Order(id, Some(user), contact, now, Created)
  }

  /** Deleting a user (`on_delete=SET_DEFAULT`, default None): the user's orders stay,
      with the owner cleared; no order refers to the user afterwards, and nothing else in
      any order changes. */
  function DetachUser(orders: seq<Order>, u: UserId): (r: seq<Order>)
    ensures |r| == |orders|
    ensures forall o :: o in r ==> o.user != Some(u)
    ensures forall i :: 0 <= i < |r| ==>
      r[i].(user := None) == orders[i].(user := None) &&
      (orders[i].user != Some(u) ==> r[i] == orders[i]) &&
      (orders[i].user == Some(u) ==> r[i].user.None?)
  {
    if orders == [] then []
    else
      [if orders[0].user == Some(u) then orders[0].(user := None) else orders[0]]
        + DetachUser(orders[1..], u)
  }

  /** Deleting a product (`on_delete=SET_DEFAULT`, default None): every item keeps its
      name, price and quantity; references to the product are cleared and no other
      field or item changes. */
  function DetachProduct(items: seq<OrderItem>, pid: ProductId): (r: seq<OrderItem>)
    ensures |r| == |items|
    ensures forall it :: it in r ==> it.product != Some(pid)
    ensures forall i :: 0 <= i < |r| ==>
      r[i].(product := None) == items[i].(product := None) &&
      (items[i].product != Some(pid) ==> r[i] == items[i]) &&
      (items[i].product == Some(pid) ==> r[i].product.None?)
  {
    if items == [] then []
    else
      [if items[0].product == Some(pid) then items[0].(product := None) else items[0]]
        + DetachProduct(items[1..], pid)
  }

  /** Deleting an order (`on_delete=CASCADE` on the item's order): its items go with it,
      every other item stays in order. */
  function DropItemsOf(items: seq<OrderItem>, orderId: nat): (r: seq<OrderItem>)
    ensures forall it :: it in r <==> it in items && it.order != orderId
    ensures IsSubsequence(r, items)
  {
    FilterIsSubsequence(items, (it: OrderItem) => it.order != orderId);
    Filter(items, (it: OrderItem) => it.order != orderId)
  }

  /** Deleting one order: every other order stays, in order. */
  function RemoveOrder(orders: seq<Order>, orderId: nat): (r: seq<Order>)
    ensures forall o :: o in r <==> o in orders && o.id != orderId
    ensures IsSubsequence(r, orders)
  {
    FilterIsSubsequence(orders, (o: Order) => o.id != orderId);
    Filter(orders, (o: Order) => o.id != orderId)
  }

  /** The items of one order, in table order. */
  function ItemsOf(items: seq<OrderItem>, orderId: nat): (r: seq<OrderItem>)
    ensures forall it :: it in r <==> it in items && it.order == orderId
  {
    Filter(items, (it: OrderItem) => it.order == orderId)
  }

  /** Detaching a product leaves every order's total unchanged: the snapshot price and
      quantity, not the product, determine what was paid. */
  lemma {:induction false} DetachProductKeepsTotals(items: seq<OrderItem>, pid: ProductId, orderId: nat)
    ensures ItemsTotal(ItemsOf(DetachProduct(items, pid), orderId)) == ItemsTotal(ItemsOf(items, orderId))
    ensures |ItemsOf(DetachProduct(items, pid), orderId)| == |ItemsOf(items, orderId)|
  {
    if items != [] {
      DetachProductKeepsTotals(items[1..], pid, orderId);
      var r := DetachProduct(items, pid);
      assert r[1..] == DetachProduct(items[1..], pid);
      assert r[0].(product := None) == items[0].(product := None);
      assert r[0].order == items[0].order && r[0].price == items[0].price && r[0].quantity == items[0].quantity;
    }
  }

  /** Σ quantity · price over items, in kopecks. */
  function ItemsTotal(items: seq<OrderItem>): int
  {
    if items == [] then 0 else items[0].quantity * items[0].price + ItemsTotal(items[1..])
  }

  /** The order listing of `ordering = ('-created_timestamp',)`: newest first. Orders are
      kept in creation order, so this is the reverse. */
  function NewestFirst(orders: seq<Order>): (r: seq<Order>)
    ensures |r| == |orders|
    ensures forall i :: 0 <= i < |r| ==> r[i] == orders[|orders| - 1 - i]
  {
    if orders == [] then [] else NewestFirst(orders[1..]) + [orders[0]]
  }

  /** With creation timestamps that increase, the listing is strictly newest first and
      holds exactly the same orders. */
  lemma NewestFirstIsDescending(orders: seq<Order>)
    requires StrictlyIncreasing(orders, (o: Order) => o.created as int)
    ensures forall i, j :: 0 <= i < j < |orders| ==> NewestFirst(orders)[i].created > NewestFirst(orders)[j].created
    ensures multiset(NewestFirst(orders)) == multiset(orders)
  {
    ReverseSameMultiset(orders);
  }

  lemma {:induction false} ReverseSameMultiset(orders: seq<Order>)
    ensures multiset(NewestFirst(orders)) == multiset(orders)
  {
    if orders != [] {
      ReverseSameMultiset(orders[1..]);
      assert orders == [orders[0]] + orders[1..];
    }
  }
}
