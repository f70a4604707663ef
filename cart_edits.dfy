/** The changes the views make to the cart table, as functions from the old rows to the
    new ones: `cart_add` and `cart_remove` (carts/views.py), the additive merge of
    `UserLoginView.form_valid` (users/views.py) and the hand-over receiver
    `merge_anonymous_cart_with_user_cart` (users/signals.py). The store methods in
    module Shop are proved to compute exactly these. */
module CartEdits {
  import opened Basics
  import opened Products
  import opened Carts

  /** Row ids increase in creation order and stay below the next id to hand out. */
  predicate WellKeyed(rows: seq<CartRow>, nextId: nat)
  {
    && StrictlyIncreasing(rows, (r: CartRow) => r.id as int)
    && forall r :: r in rows ==> r.id < nextId
  }

  /** The row `get_or_create` inserts for `who`: the other owner column stays NULL. */
  function NewRow(id: nat, who: Identity, pid: ProductId, q: RowQuantity): (r: CartRow)
    ensures Matches(r, who, pid) && r.id == id && r.quantity == q
  {
    match who
    case ByUser(u) => CartRow(id, Some(u), pid, q, None)
    case BySession(k) => CartRow(id, None, pid, q, Some(k))
  }

  /** A change to the cart table, or an exception that leaves it as it was. */
  datatype Edit = Edited(rows: seq<CartRow>, nextId: nat) | Failed

  // ---------------------------------------------------------------- cart_add

  /** `get_or_create(<who>, product=pid)`, then `quantity += 1; save()` on a row that
      already existed. Several matching rows raise `MultipleObjectsReturned`; a quantity
      pushed past the column bound makes the save fail; both leave the table alone.
      Otherwise the holding of `who` in `pid` grows by exactly one: by a new row of
      quantity 1 when there was none, else by incrementing the one row, and every other
      row keeps its place and value. */
  function AddOne(rows: seq<CartRow>, nextId: nat, who: Identity, pid: ProductId): (e: Edit)
    requires WellKeyed(rows, nextId)
    ensures e.Failed? <==>
      Find(rows, who, pid).ManyRows? ||
      (Find(rows, who, pid).OneRow? && rows[Find(rows, who, pid).index].quantity == MaxRowQuantity)
    ensures e.Edited? ==> WellKeyed(e.rows, e.nextId)
    ensures e.Edited? ==> e.nextId == if Find(rows, who, pid).NoRow? then nextId + 1 else nextId
    ensures e.Edited? ==> Qty(e.rows, who, pid) == Qty(rows, who, pid) + 1
    ensures e.Edited? && Find(rows, who, pid).NoRow? ==>
      |e.rows| == |rows| + 1 && e.rows[..|rows|] == rows &&
      e.rows[|rows|] == NewRow(nextId, who, pid, 1)
    ensures e.Edited? && Find(rows, who, pid).OneRow? ==>
      |e.rows| == |rows| &&
      forall j :: 0 <= j < |rows| ==>
        if j == Find(rows, who, pid).index
        then e.rows[j] == rows[j].(quantity := rows[j].quantity + 1)
        else e.rows[j] == rows[j]
  {
    QtyOfLookup(rows, who, pid);
    match Find(rows, who, pid)
    case ManyRows => Failed
    case NoRow =>
      var r := NewRow(nextId, who, pid, 1);
      QtyAppend(rows, r, who, pid);
      AppendKeepsKeys(rows, nextId, r);
      Edited(rows + [r], nextId + 1)
    case OneRow(i) =>
      if rows[i].quantity == MaxRowQuantity then Failed
      else
        var r := rows[i].(quantity := rows[i].quantity + 1);
        QtyUpdate(rows, i, r, who, pid);
        UpdateKeepsKeys(rows, nextId, i, r);
        Edited(rows[i := r], nextId)
  }

  lemma AppendKeepsKeys(rows: seq<CartRow>, nextId: nat, r: CartRow)
    requires WellKeyed(rows, nextId) && r.id == nextId
    ensures WellKeyed(rows + [r], nextId + 1)
  {
    var s := rows + [r];
    forall i, j | 0 <= i < j < |s| ensures s[i].id < s[j].id {
      if j == |rows| {
        assert s[i] in rows;
      }
    }
  }

  lemma UpdateKeepsKeys(rows: seq<CartRow>, nextId: nat, i: nat, r: CartRow)
    requires WellKeyed(rows, nextId) && i < |rows| && r.id == rows[i].id
    ensures WellKeyed(rows[i := r], nextId)
  {
    var s := rows[i := r];
    forall x | x in s ensures x.id < nextId {
      var k :| 0 <= k < |s| && s[k] == x;
      assert k != i ==> rows[k] in rows;
    }
  }

  /** The count the AJAX reply of cart_add shows grows by one. */
  lemma AddOneGrowsHolding(rows: seq<CartRow>, nextId: nat, who: Identity, pid: ProductId)
    requires WellKeyed(rows, nextId)
    requires AddOne(rows, nextId, who, pid).Edited?
    ensures TotalQuantity(Held(AddOne(rows, nextId, who, pid).rows, who)) == TotalQuantity(Held(rows, who)) + 1
  {
    var e := AddOne(rows, nextId, who, pid);
    var f := Find(rows, who, pid);
    if f.NoRow? {
      var r := NewRow(nextId, who, pid, 1);
      assert e.rows == rows + [r];
      AppendGrowsHolding(rows, r, who);
    } else {
      var i := f.index;
      var r := rows[i].(quantity := rows[i].quantity + 1);
      assert e.rows == rows[i := r];
      UpdateGrowsHolding(rows, i, r, who);
    }
  }

  /** A new row of the owner adds its quantity to the owner's total. */
  lemma AppendGrowsHolding(rows: seq<CartRow>, r: CartRow, who: Identity)
    requires HeldBy(r, who)
    ensures TotalQuantity(Held(rows + [r], who)) == TotalQuantity(Held(rows, who)) + r.quantity
  {
    HeldTotalIsQtySum(rows, who);
    HeldTotalIsQtySum(rows + [r], who);
    HeldTotalAppend(rows, r, who);
  }

  /** Replacing one of the owner's rows changes the owner's total by the difference. */
  lemma UpdateGrowsHolding(rows: seq<CartRow>, i: nat, r: CartRow, who: Identity)
    requires i < |rows| && HeldBy(rows[i], who) && HeldBy(r, who)
    ensures TotalQuantity(Held(rows[i := r], who)) == TotalQuantity(Held(rows, who)) - rows[i].quantity + r.quantity
  {
    HeldTotalIsQtySum(rows, who);
    HeldTotalIsQtySum(rows[i := r], who);
    HeldTotalUpdate(rows, i, r, who);
  }

  /** Total quantity of the rows `who` holds. */
  function HeldTotal(rows: seq<CartRow>, who: Identity): int
  {
    if rows == [] then 0
    else (if HeldBy(rows[0], who) then rows[0].quantity else 0) + HeldTotal(rows[1..], who)
  }

  lemma {:induction false} HeldTotalIsQtySum(rows: seq<CartRow>, who: Identity)
    ensures TotalQuantity(Held(rows, who)) == HeldTotal(rows, who)
  {
    if rows != [] {
      HeldTotalIsQtySum(rows[1..], who);
    }
  }

  lemma {:induction false} HeldTotalAppend(rows: seq<CartRow>, r: CartRow, who: Identity)
    requires HeldBy(r, who)
    ensures HeldTotal(rows + [r], who) == HeldTotal(rows, who) + r.quantity
  {
    if rows != [] {
      assert (rows + [r])[1..] == rows[1..] + [r];
      HeldTotalAppend(rows[1..], r, who);
    }
  }

  lemma {:induction false} HeldTotalUpdate(rows: seq<CartRow>, i: nat, r: CartRow, who: Identity)
    requires i < |rows| && HeldBy(rows[i], who) && HeldBy(r, who)
    ensures HeldTotal(rows[i := r], who) == HeldTotal(rows, who) - rows[i].quantity + r.quantity
  {
    if i > 0 {
      assert rows[i := r][1..] == rows[1..][i - 1 := r];
      HeldTotalUpdate(rows[1..], i - 1, r, who);
    } else {
      assert rows[i := r][1..] == rows[1..];
    }
  }

  // ---------------------------------------------------------------- cart_remove

  /** `Cart.objects.filter(id=cart_id).first()` then `delete()`: the row with that id goes,
      whoever owns it, every other row stays in order, and an unknown id changes nothing. */
  function RemoveRow(rows: seq<CartRow>, id: nat): (r: seq<CartRow>)
    ensures forall x :: x in r <==> x in rows && x.id != id
    ensures (forall x :: x in rows ==> x.id != id) ==> r == rows
    ensures IsSubsequence(r, rows)
  {
    FilterIsSubsequence(rows, (x: CartRow) => x.id != id);
    FilterAllKept(rows, (x: CartRow) => x.id != id);
    Filter(rows, (x: CartRow) => x.id != id)
  }

  /** With unique ids, removing a present id drops exactly one row. */
  lemma RemoveRowDropsOne(rows: seq<CartRow>, nextId: nat, id: nat)
    requires WellKeyed(rows, nextId)
    ensures WellKeyed(RemoveRow(rows, id), nextId)
    ensures |RemoveRow(rows, id)| == |rows| - (if exists x :: x in rows && x.id == id then 1 else 0)
  {
    FilterKeepsIncreasing(rows, (x: CartRow) => x.id != id, (r: CartRow) => r.id as int);
    RemoveRowCount(rows, id);
  }

  /** The count behind `RemoveRowDropsOne`, by induction over the rows. */
  lemma {:induction false} RemoveRowCount(rows: seq<CartRow>, id: nat)
    requires StrictlyIncreasing(rows, (r: CartRow) => r.id as int)
    ensures |RemoveRow(rows, id)| == |rows| - (if exists x :: x in rows && x.id == id then 1 else 0)
  {
    if rows != [] {
      var tail := rows[1..];
      assert StrictlyIncreasing(tail, (r: CartRow) => r.id as int) by {
        forall i, j | 0 <= i < j < |tail| ensures tail[i].id < tail[j].id {
          assert tail[i] == rows[i + 1] && tail[j] == rows[j + 1];
        }
      }
      RemoveRowCount(tail, id);
      assert RemoveRow(rows, id) == if rows[0].id != id then [rows[0]] + RemoveRow(tail, id) else RemoveRow(tail, id);
      if rows[0].id == id {
        forall x | x in tail ensures x.id != id {
          var k :| 0 <= k < |tail| && tail[k] == x;
          assert rows[k + 1] == x;
        }
      } else {
        assert forall x :: x in rows ==> x == rows[0] || x in tail;
      }
    }
  }

  /** The cascade of a product deletion on the cart (`on_delete=CASCADE`): the rows of
      the product go, every other row stays in order. */
  function DropProductRows(rows: seq<CartRow>, pid: ProductId): (r: seq<CartRow>)
    ensures forall x :: x in r <==> x in rows && x.product != pid
    ensures IsSubsequence(r, rows)
  {
    FilterIsSubsequence(rows, (x: CartRow) => x.product != pid);
    Filter(rows, (x: CartRow) => x.product != pid)
  }

  lemma DropProductRowsKeepsKeys(rows: seq<CartRow>, nextId: nat, pid: ProductId)
    requires WellKeyed(rows, nextId)
    ensures WellKeyed(DropProductRows(rows, pid), nextId)
  {
    FilterKeepsIncreasing(rows, (x: CartRow) => x.product != pid, (r: CartRow) => r.id as int);
  }

  lemma NotHeldKeepsKeys(rows: seq<CartRow>, nextId: nat, who: Identity)
    requires WellKeyed(rows, nextId)
    ensures WellKeyed(NotHeld(rows, who), nextId)
  {
    FilterKeepsIncreasing(rows, (x: CartRow) => !HeldBy(x, who), (r: CartRow) => r.id as int);
  }

  // ---------------------------------------------------------------- login merge (form_valid)

  /** The user holds at most one row per product. */
  predicate OneRowPerProduct(rows: seq<CartRow>, who: Identity)
  {
    forall i, j :: 0 <= i < j < |rows| && HeldBy(rows[i], who) && HeldBy(rows[j], who) ==>
      rows[i].product != rows[j].product
  }

  /** One pass of the form_valid loop for the anonymous row `a`: `get_or_create` the
      user's row for the product; a new row gets the anonymous quantity, an existing one
      adds it; the save fails past the column bound. */
  function MergeStep(rows: seq<CartRow>, nextId: nat, u: UserId, a: CartRow): Edit
  {
    match Find(rows, ByUser(u), a.product)
    case ManyRows => Failed
    case NoRow => Edited(rows + [NewRow(nextId, ByUser(u), a.product, a.quantity)], nextId + 1)
    case OneRow(i) =>
      if rows[i].quantity + a.quantity > MaxRowQuantity then Failed
      else Edited(rows[i := rows[i].(quantity := rows[i].quantity + a.quantity)], nextId)
  }

  /** The result of the form_valid merge: the new rows, the next id, and whether the loop
      ran to the end (an exception stops it; it is caught and login goes on). */
  datatype Merge = Merge(rows: seq<CartRow>, nextId: nat, completed: bool)

  /** The `for anon_item in anonymous_cart_items` loop over a snapshot of the anonymous
      rows; the first failure ends it, keeping what earlier passes saved. */
  function MergeLoop(rows: seq<CartRow>, nextId: nat, u: UserId, anon: seq<CartRow>): Merge
    decreases |anon|
  {
    if anon == [] then Merge(rows, nextId, true)
    else
      match MergeStep(rows, nextId, u, anon[0])
      case Failed => Merge(rows, nextId, false)
      case Edited(rows', nextId') => MergeLoop(rows', nextId', u, anon[1..])
  }

  /** `UserLoginView.form_valid` on the cart table, for the session key read before login:
      nothing without a key or without anonymous rows; otherwise the loop, and the
      anonymous rows are deleted only if the loop completed. */
  function AdditiveMerge(rows: seq<CartRow>, nextId: nat, u: UserId, key: Option<string>): (r: Merge)
    ensures !HasKey(key) ==> r.completed && r.rows == rows && r.nextId == nextId
    ensures HasKey(key) && r.completed ==> forall x :: x in r.rows ==> !HeldBy(x, BySession(key.value))
  {
    if !HasKey(key) then Merge(rows, nextId, true)
    else
      var anon := Held(rows, BySession(key.value));
      if anon == [] then Merge(rows, nextId, true)
      else
        var m := MergeLoop(rows, nextId, u, anon);
        if m.completed then Merge(NotHeld(m.rows, BySession(key.value)), m.nextId, true)
        else m
  }

  lemma UniqueHasNoDuplicates(rows: seq<CartRow>, u: UserId, pid: ProductId)
    requires OneRowPerProduct(rows, ByUser(u))
    ensures !Find(rows, ByUser(u), pid).ManyRows?
    ensures Qty(rows, ByUser(u), pid) <= MaxRowQuantity
  {
    QtyOfLookup(rows, ByUser(u), pid);
  }

  /** One pass succeeds exactly when the sum fits the column, adds the anonymous quantity
      to the user's holding of that product only, and keeps one row per product. */
  lemma MergeStepFacts(rows: seq<CartRow>, nextId: nat, u: UserId, a: CartRow)
    requires OneRowPerProduct(rows, ByUser(u))
    ensures MergeStep(rows, nextId, u, a).Edited? <==>
      Qty(rows, ByUser(u), a.product) + a.quantity <= MaxRowQuantity
    ensures MergeStep(rows, nextId, u, a).Edited? ==>
      var rows' := MergeStep(rows, nextId, u, a).rows;
      && OneRowPerProduct(rows', ByUser(u))
      && forall p: ProductId :: Qty(rows', ByUser(u), p) ==
           Qty(rows, ByUser(u), p) + (if p == a.product then a.quantity else 0)
  {
    var who := ByUser(u);
    UniqueHasNoDuplicates(rows, u, a.product);
    QtyOfLookup(rows, who, a.product);
    match Find(rows, who, a.product)
    case NoRow =>
      var r := NewRow(nextId, who, a.product, a.quantity);
      var rows' := rows + [r];
      forall p: ProductId ensures Qty(rows', who, p) == Qty(rows, who, p) + (if p == a.product then a.quantity else 0) {
        QtyAppend(rows, r, who, p);
      }
      forall i, j | 0 <= i < j < |rows'| && HeldBy(rows'[i], who) && HeldBy(rows'[j], who)
        ensures rows'[i].product != rows'[j].product
      {
        if j == |rows| {
          assert !Matches(rows[i], who, a.product);
        }
      }
    case OneRow(i) =>
      if rows[i].quantity + a.quantity <= MaxRowQuantity {
        var r := rows[i].(quantity := rows[i].quantity + a.quantity);
        var rows' := rows[i := r];
        forall p: ProductId ensures Qty(rows', who, p) == Qty(rows, who, p) + (if p == a.product then a.quantity else 0) {
          QtyUpdate(rows, i, r, who, p);
        }
        assert OneRowPerProduct(rows', who) by {
          forall k, l | 0 <= k < l < |rows'| && HeldBy(rows'[k], who) && HeldBy(rows'[l], who)
            ensures rows'[k].product != rows'[l].product
          {
            assert HeldBy(rows[k], who) && HeldBy(rows[l], who);
          }
        }
      }
  }

  /** For every product, the user's quantity plus the quantity in `anon` fits the column. */
  ghost predicate Fits(rows: seq<CartRow>, u: UserId, anon: seq<CartRow>)
  {
    forall p: ProductId :: Qty(rows, ByUser(u), p) + SumFor(anon, p) <= MaxRowQuantity
  }

  /** Conservation of quantity in the merge loop. If the user holds at most one row per
      product, the loop completes exactly when, for every product, the user's quantity plus
      the anonymous quantity fits the column; and when it completes the user's holding of
      every product has grown by exactly the anonymous quantity. */
  lemma {:induction false} MergeLoopConserves(rows: seq<CartRow>, nextId: nat, u: UserId, anon: seq<CartRow>)
    requires OneRowPerProduct(rows, ByUser(u))
    ensures MergeLoop(rows, nextId, u, anon).completed <==> Fits(rows, u, anon)
    ensures var m := MergeLoop(rows, nextId, u, anon);
      m.completed ==> forall p: ProductId :: Qty(m.rows, ByUser(u), p) == Qty(rows, ByUser(u), p) + SumFor(anon, p)
    decreases |anon|
  {
    var who := ByUser(u);
    if anon == [] {
      forall p: ProductId ensures Qty(rows, who, p) + SumFor(anon, p) <= MaxRowQuantity {
        UniqueHasNoDuplicates(rows, u, p);
      }
    } else {
      var a := anon[0];
      MergeStepFacts(rows, nextId, u, a);
      SumForNonNegative(anon[1..], a.product);
      match MergeStep(rows, nextId, u, a)
      case Failed =>
        assert Qty(rows, who, a.product) + SumFor(anon, a.product) > MaxRowQuantity;
      case Edited(rows', nextId') =>
        MergeLoopConserves(rows', nextId', u, anon[1..]);
        assert MergeLoop(rows, nextId, u, anon) == MergeLoop(rows', nextId', u, anon[1..]);
        forall p: ProductId ensures Qty(rows', who, p) + SumFor(anon[1..], p) == Qty(rows, who, p) + SumFor(anon, p) {
        }
        if MergeLoop(rows', nextId', u, anon[1..]).completed {
          forall p: ProductId ensures Qty(rows, who, p) + SumFor(anon, p) <= MaxRowQuantity {
            assert Qty(rows', who, p) + SumFor(anon[1..], p) <= MaxRowQuantity;
          }
        } else {
          var p: ProductId :| Qty(rows', who, p) + SumFor(anon[1..], p) > MaxRowQuantity;
          assert Qty(rows, who, p) + SumFor(anon, p) > MaxRowQuantity;
        }
    }
  }

  /** The case the hypothesis of `MergeLoopConserves` leaves out: when the user already
      holds two rows of a product some anonymous row carries, the loop never completes,
      since `get_or_create` for that product raises `MultipleObjectsReturned`. */
  lemma {:induction false} MergeLoopStopsAtDuplicate(rows: seq<CartRow>, nextId: nat, u: UserId, anon: seq<CartRow>, i: nat, j: nat)
    requires i < j < |rows|
    requires Matches(rows[i], ByUser(u), rows[i].product) && Matches(rows[j], ByUser(u), rows[i].product)
    requires exists a :: a in anon && a.product == rows[i].product
    ensures !MergeLoop(rows, nextId, u, anon).completed
    decreases |anon|
  {
    var p := rows[i].product;
    var a := anon[0];
    if a.product == p {
      assert Find(rows, ByUser(u), p).ManyRows?;
    } else {
      match MergeStep(rows, nextId, u, a)
      case Failed =>
      case Edited(rows', nextId') =>
        MergeStepKeepsPlaces(rows, nextId, u, a);
        assert rows'[i].product == p && rows'[i].user == rows[i].user;
        assert rows'[j].product == p && rows'[j].user == rows[j].user;
        var b :| b in anon && b.product == p;
        assert b in anon[1..] by {
          var n :| 0 <= n < |anon| && anon[n] == b;
          assert n != 0;
          assert anon[1..][n - 1] == b;
        }
        MergeLoopStopsAtDuplicate(rows', nextId', u, anon[1..], i, j);
    }
  }

  /** The merge loop touches only the user's rows: every other row survives, every row it
      writes belongs to the user, and it never gives a user's row the session key `k`. */
  lemma {:induction false} MergeLoopFrame(rows: seq<CartRow>, nextId: nat, u: UserId, anon: seq<CartRow>, k: string)
    ensures var m := MergeLoop(rows, nextId, u, anon);
      forall x :: x in rows && !HeldBy(x, ByUser(u)) ==> x in m.rows
    ensures var m := MergeLoop(rows, nextId, u, anon);
      forall x :: x in m.rows && x !in rows ==> HeldBy(x, ByUser(u))
    ensures Disjoint(rows, u, k) ==> Disjoint(MergeLoop(rows, nextId, u, anon).rows, u, k)
    decreases |anon|
  {
    if anon != [] {
      var a := anon[0];
      match MergeStep(rows, nextId, u, a)
      case Failed =>
      case Edited(rows', nextId') =>
        MergeLoopFrame(rows', nextId', u, anon[1..], k);
        var who := ByUser(u);
        match Find(rows, who, a.product)
        case NoRow =>
          assert rows' == rows + [NewRow(nextId, who, a.product, a.quantity)];
        case OneRow(i) =>
          assert rows' == rows[i := rows[i].(quantity := rows[i].quantity + a.quantity)];
          forall x | x in rows && !HeldBy(x, who) ensures x in rows' {
            var j :| 0 <= j < |rows| && rows[j] == x;
            assert rows'[j] == x;
          }
          forall x | x in rows' && x !in rows ensures HeldBy(x, who) {
            var j :| 0 <= j < |rows'| && rows'[j] == x;
            assert j == i;
          }
          if Disjoint(rows, u, k) {
            forall x | x in rows' ensures !(HeldBy(x, who) && HeldBy(x, BySession(k))) {
              var j :| 0 <= j < |rows'| && rows'[j] == x;
              assert rows[j] in rows;
            }
          }
      }
  }

  /** The quantities in a filtered snapshot are the quantities held. */
  lemma {:induction false} SumForHeld(rows: seq<CartRow>, who: Identity, pid: ProductId)
    ensures SumFor(Held(rows, who), pid) == Qty(rows, who, pid)
  {
    if rows != [] {
      SumForHeld(rows[1..], who, pid);
      if HeldBy(rows[0], who) {
        assert Held(rows, who) == [rows[0]] + Held(rows[1..], who);
      }
    }
  }

  /** Deleting the rows of one identity does not change the holding of another identity
      whose rows are disjoint from them. */
  lemma {:induction false} QtyAfterDelete(rows: seq<CartRow>, gone: Identity, who: Identity, pid: ProductId)
    requires forall x :: x in rows && HeldBy(x, who) && x.product == pid ==> !HeldBy(x, gone)
    ensures Qty(NotHeld(rows, gone), who, pid) == Qty(rows, who, pid)
  {
    if rows != [] {
      assert forall x :: x in rows[1..] ==> x in rows;
      QtyAfterDelete(rows[1..], gone, who, pid);
      if !HeldBy(rows[0], gone) {
        assert NotHeld(rows, gone) == [rows[0]] + NotHeld(rows[1..], gone);
      } else {
        assert rows[0] in rows;
      }
    }
  }

  /** No row belongs both to user `u` and to session `k`. */
  predicate Disjoint(rows: seq<CartRow>, u: UserId, k: string)
  {
    forall x :: x in rows ==> !(HeldBy(x, ByUser(u)) && HeldBy(x, BySession(k)))
  }

  /** The additive merge at login, for a user with one row per product whose rows do not
      carry the session key: when it completes, the user's quantity of every product is
      the old one plus the anonymous one and no row carries the key any more; every row of
      other users and sessions is kept. */
  lemma AdditiveMergeAddsUp(rows: seq<CartRow>, nextId: nat, u: UserId, k: string)
    requires OneRowPerProduct(rows, ByUser(u)) && Disjoint(rows, u, k) && k != ""
    ensures var m := AdditiveMerge(rows, nextId, u, Some(k));
      m.completed ==>
        && (forall p: ProductId :: Qty(m.rows, ByUser(u), p) == Qty(rows, ByUser(u), p) + Qty(rows, BySession(k), p))
        && (forall x :: x in m.rows ==> !HeldBy(x, BySession(k)))
    ensures var m := AdditiveMerge(rows, nextId, u, Some(k));
      forall x :: x in rows && !HeldBy(x, ByUser(u)) && !HeldBy(x, BySession(k)) ==> x in m.rows
  {
    var who, sess := ByUser(u), BySession(k);
    var anon := Held(rows, sess);
    var m := AdditiveMerge(rows, nextId, u, Some(k));
    if anon == [] {
      forall p: ProductId ensures Qty(rows, sess, p) == 0 {
        SumForHeld(rows, sess, p);
      }
    } else {
      var l := MergeLoop(rows, nextId, u, anon);
      MergeLoopConserves(rows, nextId, u, anon);
      MergeLoopFrame(rows, nextId, u, anon, k);
      if l.completed {
        assert m.rows == NotHeld(l.rows, sess);
        forall p: ProductId ensures Qty(m.rows, who, p) == Qty(rows, who, p) + Qty(rows, sess, p) {
          SumForHeld(rows, sess, p);
          QtyAfterDelete(l.rows, sess, who, p);
        }
      }
    }
  }

  /** An interrupted merge deletes nothing: every row of the table is still in its place,
      with at most its quantity changed, and new rows come after them. When no row carried
      both the user and the key, every anonymous row is kept exactly as it was. */
  lemma MergeFailureKeepsAnonymousRows(rows: seq<CartRow>, nextId: nat, u: UserId, k: string)
    requires !AdditiveMerge(rows, nextId, u, Some(k)).completed
    ensures var r := AdditiveMerge(rows, nextId, u, Some(k)).rows;
      |rows| <= |r| && forall i :: 0 <= i < |rows| ==> r[i] == rows[i].(quantity := r[i].quantity)
    ensures Disjoint(rows, u, k) ==>
      forall x :: x in rows && HeldBy(x, BySession(k)) ==> x in AdditiveMerge(rows, nextId, u, Some(k)).rows
    ensures exists i :: StoppedAt(rows, nextId, u, Held(rows, BySession(k)), i)
    ensures forall i :: StoppedAt(rows, nextId, u, Held(rows, BySession(k)), i) ==>
      OneRowPerProduct(rows, ByUser(u)) ==>
        forall p: ProductId ::
          Qty(AdditiveMerge(rows, nextId, u, Some(k)).rows, ByUser(u), p)
            == Qty(rows, ByUser(u), p) + SumFor(Held(rows, BySession(k))[..i], p)
  {
    var anon := Held(rows, BySession(k));
    MergeLoopKeepsPlaces(rows, nextId, u, anon);
    MergeLoopFrame(rows, nextId, u, anon, k);
    MergeLoopStopsAt(rows, nextId, u, anon);
    forall i | StoppedAt(rows, nextId, u, anon, i) && OneRowPerProduct(rows, ByUser(u))
      ensures forall p: ProductId ::
        Qty(AdditiveMerge(rows, nextId, u, Some(k)).rows, ByUser(u), p) == Qty(rows, ByUser(u), p) + SumFor(anon[..i], p)
    {
      MergeLoopConserves(rows, nextId, u, anon[..i]);
    }
  }

  /** Pass `i` of the merge loop over `anon` is the one that failed: the passes before it
      all saved, and the loop ends with exactly what they left. */
  predicate StoppedAt(rows: seq<CartRow>, nextId: nat, u: UserId, anon: seq<CartRow>, i: int)
  {
    && 0 <= i < |anon|
    && var m := MergeLoop(rows, nextId, u, anon[..i]);
      && m.completed
      && MergeStep(m.rows, m.nextId, u, anon[i]).Failed?
      && MergeLoop(rows, nextId, u, anon) == Merge(m.rows, m.nextId, false)
  }

  /** A loop that does not complete stopped at some pass, keeping the passes before it. */
  lemma {:induction false} MergeLoopStopsAt(rows: seq<CartRow>, nextId: nat, u: UserId, anon: seq<CartRow>)
    requires !MergeLoop(rows, nextId, u, anon).completed
    ensures exists i :: StoppedAt(rows, nextId, u, anon, i)
    decreases |anon|
  {
    assert anon != [];
    match MergeStep(rows, nextId, u, anon[0])
    case Failed =>
      assert anon[..0] == [];
      assert StoppedAt(rows, nextId, u, anon, 0);
    case Edited(rows', nextId') =>
      MergeLoopStopsAt(rows', nextId', u, anon[1..]);
      var j :| StoppedAt(rows', nextId', u, anon[1..], j);
      var pre := anon[..j + 1];
      assert pre[0] == anon[0] && pre[1..] == anon[1..][..j];
      assert anon[j + 1] == anon[1..][j];
      assert StoppedAt(rows, nextId, u, anon, j + 1);
  }

  /** The merge loop only edits quantities in place and appends: every row keeps its
      position and all but its quantity. */
  lemma {:induction false} MergeLoopKeepsPlaces(rows: seq<CartRow>, nextId: nat, u: UserId, anon: seq<CartRow>)
    ensures var m := MergeLoop(rows, nextId, u, anon);
      |rows| <= |m.rows| && forall i :: 0 <= i < |rows| ==> m.rows[i] == rows[i].(quantity := m.rows[i].quantity)
    decreases |anon|
  {
    if anon != [] {
      match MergeStep(rows, nextId, u, anon[0])
      case Failed =>
      case Edited(rows', nextId') =>
        MergeStepKeepsPlaces(rows, nextId, u, anon[0]);
        MergeLoopKeepsPlaces(rows', nextId', u, anon[1..]);
    }
  }

  lemma MergeStepKeepsPlaces(rows: seq<CartRow>, nextId: nat, u: UserId, a: CartRow)
    requires MergeStep(rows, nextId, u, a).Edited?
    ensures var rows' := MergeStep(rows, nextId, u, a).rows;
      |rows| <= |rows'| && forall i :: 0 <= i < |rows| ==> rows'[i] == rows[i].(quantity := rows'[i].quantity)
  {
  }

  // ---------------------------------------------------------------- login receiver (signals)

  /** `filter(session_key=k).update(user=u)`: every row carrying the key now belongs to
      `u`, keeping its id, product, quantity and key. */
  function HandOver(rows: seq<CartRow>, k: string, u: UserId): (r: seq<CartRow>)
    ensures |r| == |rows|
    ensures forall i :: 0 <= i < |rows| ==>
      r[i] == if HeldBy(rows[i], BySession(k)) then rows[i].(user := Some(u)) else rows[i]
  {
    if rows == [] then []
    else
      [if HeldBy(rows[0], BySession(k)) then rows[0].(user := Some(u)) else rows[0]]
        + HandOver(rows[1..], k, u)
  }

  /** `merge_anonymous_cart_with_user_cart`: without a session key nothing happens;
      otherwise all of the user's rows are deleted, whatever their product, and the rows of
      the session are handed to the user. */
  function ReplaceMerge(rows: seq<CartRow>, u: UserId, key: Option<string>): (r: seq<CartRow>)
    ensures !HasKey(key) ==> r == rows
    ensures HasKey(key) ==>
      forall x :: x in r && HeldBy(x, ByUser(u)) ==> x.sessionKey == key
    ensures HasKey(key) ==>
      forall x :: x in rows && !HeldBy(x, ByUser(u)) && HeldBy(x, BySession(key.value)) ==>
        x.(user := Some(u)) in r
    ensures HasKey(key) ==>
      forall x :: x in rows && !HeldBy(x, ByUser(u)) && !HeldBy(x, BySession(key.value)) ==> x in r
    ensures HasKey(key) ==>
      forall x :: x in r ==> exists y :: y in rows && !HeldBy(y, ByUser(u)) && (x == y || x == y.(user := Some(u)))
    ensures HasKey(key) ==> |r| == |NotHeld(rows, ByUser(u))|
    ensures HasKey(key) ==> forall x :: x in r && HeldBy(x, BySession(key.value)) ==> HeldBy(x, ByUser(u))
  {
    if !HasKey(key) then rows
    else
      var kept := NotHeld(rows, ByUser(u));
      var r := HandOver(kept, key.value, u);
      forall x | x in rows && !HeldBy(x, ByUser(u))
        ensures x in kept
      {
      }
      forall x | x in kept ensures (if HeldBy(x, BySession(key.value)) then x.(user := Some(u)) else x) in r {
        var i :| 0 <= i < |kept| && kept[i] == x;
        assert r[i] == if HeldBy(kept[i], BySession(key.value)) then kept[i].(user := Some(u)) else kept[i];
      }
      forall x | x in r
        ensures exists y :: y in rows && !HeldBy(y, ByUser(u)) && (x == y || x == y.(user := Some(u)))
        ensures HeldBy(x, ByUser(u)) ==> x.sessionKey == key
        ensures HeldBy(x, BySession(key.value)) ==> HeldBy(x, ByUser(u))
      {
        var i :| 0 <= i < |r| && r[i] == x;
        assert kept[i] in kept;
      }
      r
  }

  /** After the receiver, the user's holding of each product is exactly what the session
      held in the rows the delete left, that is, in rows not already the user's. When no
      row carried both the user and the key, that is everything the session held: the
      earlier cart is replaced, not added to. */
  lemma {:induction false} ReplaceMergeHolding(rows: seq<CartRow>, u: UserId, k: string, pid: ProductId)
    requires k != ""
    ensures Qty(ReplaceMerge(rows, u, Some(k)), ByUser(u), pid) ==
      Qty(NotHeld(rows, ByUser(u)), BySession(k), pid)
    ensures Disjoint(rows, u, k) ==>
      Qty(ReplaceMerge(rows, u, Some(k)), ByUser(u), pid) == Qty(rows, BySession(k), pid)
  {
    var kept := NotHeld(rows, ByUser(u));
    assert ReplaceMerge(rows, u, Some(k)) == HandOver(kept, k, u);
    HandOverHolding(kept, u, k, pid);
    if Disjoint(rows, u, k) {
      QtyAfterDelete(rows, ByUser(u), BySession(k), pid);
    }
  }

  lemma {:induction false} HandOverHolding(rows: seq<CartRow>, u: UserId, k: string, pid: ProductId)
    requires forall x :: x in rows ==> !HeldBy(x, ByUser(u))
    ensures Qty(HandOver(rows, k, u), ByUser(u), pid) == Qty(rows, BySession(k), pid)
  {
    if rows != [] {
      assert forall x :: x in rows[1..] ==> x in rows;
      HandOverHolding(rows[1..], u, k, pid);
      assert rows[0] in rows;
      assert HandOver(rows, k, u)[1..] == HandOver(rows[1..], k, u);
    }
  }

  /** Order of events when the receiver is connected: `auth.login` rotates the session key
      and fires the receiver with the new key, which holds no rows, and only then does
      form_valid merge the rows of the old key. The receiver deletes the user's earlier
      rows, so the merged quantity is the anonymous one alone, not the sum. */
  lemma ReceiverThenMergeLosesUserCart(rows: seq<CartRow>, nextId: nat, u: UserId, oldKey: string, newKey: string, pid: ProductId)
    requires oldKey != "" && newKey != ""
    requires Held(rows, BySession(newKey)) == []
    requires Disjoint(rows, u, oldKey)
    ensures var afterReceiver := ReplaceMerge(rows, u, Some(newKey));
      var m := AdditiveMerge(afterReceiver, nextId, u, Some(oldKey));
      m.completed ==> Qty(m.rows, ByUser(u), pid) == Qty(rows, BySession(oldKey), pid)
  {
    var r := ReplaceMerge(rows, u, Some(newKey));
    assert forall x :: x in r ==> !HeldBy(x, ByUser(u)) by {
      forall x | x in r ensures !HeldBy(x, ByUser(u)) {
      }
    }
    assert OneRowPerProduct(r, ByUser(u));
    assert Disjoint(r, u, oldKey) by {
      forall x | x in r ensures !(HeldBy(x, ByUser(u)) && HeldBy(x, BySession(oldKey))) {
        assert x in r;
      }
    }
    AdditiveMergeAddsUp(r, nextId, u, oldKey);
    QtyNoneHeld(r, u, pid);
    QtyUntouchedByReceiver(rows, u, newKey, oldKey, pid);
  }

  lemma {:induction false} QtyNoneHeld(rows: seq<CartRow>, u: UserId, pid: ProductId)
    requires forall x :: x in rows ==> !HeldBy(x, ByUser(u))
    ensures Qty(rows, ByUser(u), pid) == 0
  {
    if rows != [] {
      assert rows[0] in rows;
      assert forall x :: x in rows[1..] ==> x in rows;
      QtyNoneHeld(rows[1..], u, pid);
    }
  }

  /** The receiver with a key that holds no rows leaves the holding of any other session
      as it was, for rows not owned by the user. */
  lemma QtyUntouchedByReceiver(rows: seq<CartRow>, u: UserId, newKey: string, oldKey: string, pid: ProductId)
    requires newKey != "" && Held(rows, BySession(newKey)) == []
    requires Disjoint(rows, u, oldKey)
    ensures Qty(ReplaceMerge(rows, u, Some(newKey)), BySession(oldKey), pid) == Qty(rows, BySession(oldKey), pid)
  {
    var kept := NotHeld(rows, ByUser(u));
    HandOverNoop(kept, newKey, u);
    QtyAfterDelete(rows, ByUser(u), BySession(oldKey), pid);
  }

  lemma {:induction false} HandOverNoop(rows: seq<CartRow>, k: string, u: UserId)
    requires forall x :: x in rows ==> !HeldBy(x, BySession(k))
    ensures HandOver(rows, k, u) == rows
  {
    if rows != [] {
      assert rows[0] in rows;
      assert forall x :: x in rows[1..] ==> x in rows;
      HandOverNoop(rows[1..], k, u);
    }
  }
}
