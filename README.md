# A verified model of the shop's cart, checkout and catalog core

The shop is a Django site that sells products from a catalog. Visitors fill a cart. An anonymous
visitor's cart is keyed by the session. A logged-in visitor's cart is keyed by the user. Logging
in merges the anonymous cart into the user's. Checkout turns the user's cart into an order: the
stock is decremented, each cart row is copied into an order item, and a list of payment line
items is built. This project models that core in Dafny and proves what it does.

The model is made of these modules:

- **Decimals** (`decimals.dfy`): Python `Decimal` values as exact (coefficient, scale) pairs.
  It holds the operations `sell_price` uses. `round(x, 2)` rounds half to even. `int(x)`
  truncates.
- **Products** (`products.dfy`): the product record. A price is held in kopecks and a discount
  in hundredths of a percent. `sell_price` is built from the same Decimal steps as the source.
  It is proved equal to the half-even rounding of `price * (10000 - discount) / 10000`.
- **Carts** (`carts.dfy`): cart rows and `get_user_carts`. It also holds the queryset totals,
  the row price and the lookup half of `get_or_create`. That lookup finds no row, one row, or
  several rows; several rows is `MultipleObjectsReturned`.
- **CartEdits** (`cart_edits.dfy`): the cart table transitions as functions:
  - `cart_add`'s find-or-create-then-increment;
  - `cart_remove`;
  - the additive login merge loop of `UserLoginView.form_valid`;
  - the replace-and-reassign receiver in users/signals.py.

  Their conservation laws are lemmas.
- **Orders** (`orders.dfy`): orders, order items, the status codes, the deletion rules and the
  newest-first ordering.
- **Checkout** (`checkout.dfy`): the body of the checkout transaction. It includes a loop
  (`Reserve`) proved against the function `Run`. A checkout succeeds exactly when, for every
  product, the quantity the cart asks for in total is at most the stock. A product that appears
  in two rows is checked against the stock the first row left.
- **Shop** (`shop.dfy`): a class `Store` holding these fields:
  - the product table;
  - the cart table;
  - orders and order items;
  - the id sequences;
  - a clock that stamps new orders.

  Each request handler is a method on it. Each method's postcondition ties the new state to the
  transition functions above and keeps the integrity constraints in `Valid()`:
  - rows refer to existing products and orders;
  - ids increase along each table;
  - slugs are unique.
- **Paging** (`paging.dfy`): Django's `Paginator` with the defaults in use. The profile's order
  history uses `get_page`, which clamps a bad page number. The catalog is a `ListView`: a page
  parameter that is not a number, or an integer outside the pages, is a 404, and `last` is the
  last page.
- **Profile** (`profile.dfy`): the order history on the profile page.
- **Catalog** (`catalog.dfy`): the product listing filters.
- **Cookies** (`cookies.dfy`): the `getCookie` parser of the cart script.

Money is exact throughout. The sell price always has two places. So the row price
(`round(sell_price * quantity, 2)`) and the payment unit amount (`int(sell_price * 100)`) lose
nothing; both facts are proved.

Some behaviour follows from the code and is proved:

- `cart_remove` deletes the row with the given id whoever owns it. The comment at
  carts/views.py:59-60 speaks of an ownership check, but the code makes none, and the model
  follows the code.
- A negative discount is not rejected. It moves the price away from zero: a non-negative price
  never drops and rises once the increase exceeds half a kopeck, and a negative price mirrors
  this.
- `get_or_create` raises an error when the owner already has several rows for the product. In
  `cart_add` that error leaves the table unchanged. In the login merge it is swallowed and ends
  the loop early. In that case no row is deleted: every row stays in its place with at most
  its quantity changed. The loop stopped at one anonymous row, and the table is exactly what
  the passes before that row saved; for a user with at most one row per product, each
  quantity is the old one plus what those passes added. A user who holds two rows of a
  product the session also holds always hits this error.
- Suppose the signal receiver is connected and sees the key the session has after login. That
  key holds no rows. The receiver then deletes the user's earlier cart before the additive merge
  runs. Afterwards the user's quantity of each product is the anonymous quantity alone, not the
  sum (`CartEdits.ReceiverThenMergeLosesUserCart`).

## Model

| member | source | states |
|---|---|---|
| Decimals.Sub | products/models.py:36 | `1 - discount / 100` is computed exactly; the scale is the larger of the two |
| Decimals.Mul | products/models.py:36 | the product of two decimals is exact, with the scales added |
| Decimals.DivBy100 | products/models.py:36 | `discount / 100` is exact; as with Python's ideal exponent, it keeps the places of the discount when they suffice, and otherwise takes one or two more |
| Decimals.RoundHalfEven | products/models.py:36 | within half a unit of n/d, and an exact tie goes to the even neighbour |
| Decimals.RoundHalfEvenExact | products/models.py:33-37 | rounding a value that is already whole changes nothing; `SellPriceFormula` uses it for the zero-discount shortcut |
| Decimals.RoundHalfEvenUnique | products/models.py:36 | any whole number within half a unit that is even on a tie is the half-even rounding |
| Decimals.RoundHalfEvenScaled | products/models.py:36 | scaling numerator and denominator alike leaves the rounding unchanged, so the scale `discount / 100` ends at does not matter |
| Decimals.RoundTo | products/models.py:36 | `round(x, 2)` has scale 2; with fewer places the value is unchanged; otherwise the result is within half a unit, and an exact tie goes to the even neighbour |
| Decimals.Truncate | orders/views.py:64 | `int(x)` truncates toward zero: the largest whole number not above a non-negative x, the smallest not below a negative one |
| Products.SellPrice | products/models.py:33-37 | two places; equals the price when the discount is zero; within half a kopeck of price·(1 − d/100); the half-even rounding of P(10000 − D)/10000 for a non-zero discount |
| Products.SellPriceFormula | products/models.py:33-37 | the zero-discount shortcut agrees with the formula, so the sell price is the half-even rounding of P(10000 − D)/10000 for every discount |
| Products.SellPriceUnits | products/models.py:36 | the Decimal steps of `sell_price` land exactly on the half-even kopeck formula, whatever scale `discount / 100` takes |
| Products.SellPriceWithinPrice | products/models.py:33-37 | for a discount of 0 to 100 % and a non-negative price, 0 ≤ sell price ≤ price |
| Products.FullDiscountIsFree | products/models.py:36 | a 100 % discount sells for 0 |
| Products.NegativeDiscountRaisesPrice | products/models.py:33-37 | a negative discount (not rejected by the field) moves the price away from zero: a non-negative price never drops and rises once the change exceeds half a kopeck; a negative price never rises and drops once the change exceeds half a kopeck |
| Carts.UserCarts | carts/utils.py:4-15 | an authenticated visitor gets exactly their user's rows whatever the session holds; an anonymous one without a key gets none; with a key, exactly the rows carrying it; always a subsequence of the table |
| Carts.Held | carts/utils.py:10 | `filter(user=…)` / `filter(session_key=…)` keeps exactly the rows of that owner |
| Carts.NotHeld | users/views.py:57 | a bulk delete by owner keeps exactly the other rows |
| Carts.TotalQuantity | carts/models.py:10-14 | 0 for an empty set; otherwise the sum of the quantities, non-negative and at most 32767 per row |
| Carts.TotalQuantityAppend | carts/models.py:10-14 | the total of two sets of rows is the sum of their totals |
| Carts.RowPrice | carts/models.py:43-45 | `products_price` has two places and equals sell price × quantity exactly: the rounding is a no-op |
| Carts.TotalPrice | carts/models.py:16-20 | 0 for an empty set |
| Carts.TotalPriceIsSumOfRowPrices | carts/models.py:16-20 | the cart total equals the sum of the row prices |
| Carts.TotalPriceNonNegative | carts/models.py:16-20 | with non-negative sell prices the total is non-negative |
| Carts.Find | carts/views.py:20 | the lookup of `get_or_create`: no matching row, exactly one (and where), or several |
| Carts.QtyOfLookup | carts/views.py:20-23 | the quantity an owner holds of a product is 0 with no row, and that row's quantity with one |
| CartEdits.AddOne | carts/views.py:18-33 | fails exactly on several rows or a row already at 32767; otherwise the owner's quantity of the product grows by 1, by appending one new row of quantity 1 when none existed or by incrementing the one row, with every other row unchanged, ids kept increasing, and the id counter advanced only by the new row |
| CartEdits.AddOneGrowsHolding | carts/views.py:20-33 | after a successful add, the owner's total quantity is one more than before |
| CartEdits.RemoveRow | carts/views.py:61-63 | deletes exactly the rows with that id, whoever owns them; an unknown id changes nothing; the rest keep their order |
| CartEdits.RemoveRowDropsOne | carts/views.py:61-63 | at most one row goes (ids are unique), and exactly one when the id exists |
| CartEdits.DropProductRows | carts/models.py:28 | deleting a product removes exactly the cart rows referring to it |
| CartEdits.MergeLoopConserves | users/views.py:40-54 | for a user holding at most one row per product: the loop over the anonymous rows completes exactly when no product would exceed 32767, and then the user's quantity of each product is the old quantity plus the anonymous quantity |
| CartEdits.MergeLoopStopsAtDuplicate | users/views.py:42-45 | a user holding two rows of a product that an anonymous row carries makes the loop stop: `get_or_create` raises and the loop never completes |
| CartEdits.MergeLoopKeepsPlaces | users/views.py:40-54 | the loop only edits quantities in place and appends: every row keeps its position and everything but its quantity |
| CartEdits.MergeLoopFrame | users/views.py:40-54 | the loop never touches rows of other owners, and every row it creates belongs to the user |
| CartEdits.AdditiveMergeAddsUp | users/views.py:33-61 | a completed merge leaves user quantity = old user quantity + anonymous quantity for every product, deletes every row with the key, and keeps every row of other users and sessions |
| CartEdits.MergeFailureKeepsAnonymousRows | users/views.py:33-61 | an error mid-merge is swallowed and no row is deleted: every row stays in its place with at most its quantity changed; the loop stopped at some anonymous row and the table keeps exactly what the earlier passes saved (with one row per product, old quantity plus the earlier rows' quantities); when no row carried both the user and the key, every anonymous row is kept exactly |
| CartEdits.MergeLoopStopsAt | users/views.py:40-61 | a loop that did not complete failed at one pass, every pass before it saved, and its result is what those passes left |
| CartEdits.AdditiveMerge | users/views.py:33-61 | without a session key the table is untouched; a completed merge leaves no row with the key |
| CartEdits.HandOver | users/signals.py:18 | `update(user=u)` gives every row carrying the key to the user, changing nothing else in any row; rows keep their key |
| CartEdits.ReplaceMerge | users/signals.py:13-18 | without a key nothing changes; otherwise the user's earlier rows are all gone, the session's rows now belong to the user, all other rows stay, and no row is created |
| CartEdits.ReplaceMergeHolding | users/signals.py:13-18 | for a non-empty key: after the receiver the user holds of each product exactly what the session held in the rows that were not already the user's; when no row carried both, exactly what the session held |
| CartEdits.ReceiverThenMergeLosesUserCart | users/views.py:27-57 | with the receiver fired on a fresh key before the form_valid merge, the user's final quantity is the anonymous quantity alone |
| Orders.ParseStatus | orders/models.py:6-15 | exactly the four codes are accepted, each read back as the status stored under it |
| Orders.NewOrder | orders/views.py:41-43 | a new order belongs to the user, has status CREATED and the given contact and time |
| Orders.DetachUser | orders/models.py:17-18 | deleting a user keeps every order and clears the owner of theirs; nothing else changes |
| Orders.DetachProduct | orders/models.py:40-41 | deleting a product keeps every item with its name, price and quantity, and clears exactly the references to it |
| Orders.DropItemsOf | orders/models.py:39 | deleting an order deletes exactly its items; the rest keep their order |
| Orders.RemoveOrder | orders/models.py:39 | deleting an order removes exactly that order |
| Orders.DetachProductKeepsTotals | orders/models.py:40-44 | clearing product references leaves every order's item count and total unchanged |
| Orders.NewestFirst | orders/models.py:32 | the listing is the table reversed |
| Orders.NewestFirstIsDescending | orders/models.py:32 | with timestamps increasing along the table, the listing is strictly newest first and holds the same orders |
| Checkout.UnitAmount | orders/views.py:64 | `int(sell_price * 100)` is the sell price in kopecks exactly |
| Checkout.Step | orders/views.py:48-68 | one row fails exactly when the product's current stock is below the row quantity |
| Checkout.Reserve | orders/views.py:48-68 | the loop over the user's rows computes `Run`: the first shortfall abandons everything |
| Checkout.RunSucceedsIff | orders/views.py:48-51 | the checkout succeeds exactly when every product's stock covers the total quantity its rows ask for; stock equal to demand suffices |
| Checkout.RunStock | orders/views.py:58-59 | on success each product's stock drops by exactly the total quantity asked of it, and nothing else about it changes |
| Checkout.RunItems | orders/views.py:53-68 | on success row i yields order item i with the next id, the product's name, its sell price in kopecks and the row quantity, and line item i with the same name, unit amount and quantity |
| Shop.SlugLookup | carts/views.py:16 | the product a slug names, or none when no product carries it |
| Shop.WithSession | carts/views.py:26-29 | an anonymous visitor without a key gets the fresh key; any other visitor is unchanged |
| Shop.CheckoutRun | orders/views.py:46-68 | the loop over the user's rows against the catalog succeeds exactly when the catalog covers the cart |
| Shop.CheckoutKeepsValid | orders/views.py:39-72 | a committed checkout keeps every integrity constraint of the store |
| Shop.Store.CatalogListing | products/views.py:6-10 | the catalog page of the store's own products: at most nine, each the table's product of that id and selected by the query, in increasing id; a 404 exactly for a bad page parameter |
| Shop.Store.ProductBySlug | carts/views.py:16 | returns the product with that slug, or none |
| Shop.Store.CartAdd | carts/views.py:10-47 | an unknown slug changes nothing; otherwise the table becomes `AddOne`'s result, or stays unchanged on error; the reply's total is the visitor's new total, one more than before |
| Shop.Store.AddToRow | carts/views.py:20-33 | performs `AddOne` on the table, and reports whether it was saved |
| Shop.Store.CartRemove | carts/views.py:53-79 | the table becomes `RemoveRow`'s result; the reply counts the visitor's rows after the delete |
| Shop.Store.LoginMerge | users/views.py:26-61 | the table becomes `AdditiveMerge` of the table, for the key read before login |
| Shop.Store.MergeRow | users/views.py:42-54 | one pass of the merge loop: the table becomes `MergeStep`'s result, or stays unchanged on error |
| Shop.Store.ReceiverMerge | users/signals.py:13-18 | the table becomes `ReplaceMerge` of the table; nothing else changes |
| Shop.Store.PlaceOrder | orders/views.py:25-85 | an empty cart is refused and changes nothing; a shortfall changes nothing; otherwise one new CREATED order of the user, its items and the decremented stock are committed, the user's rows are deleted and the new order id is returned with the line items |
| Shop.Store.Commit | orders/views.py:41-72 | the order, items and stock of a successful run are written and the user's cart rows deleted |
| Shop.Store.DeleteUser | carts/models.py:27 | the user's cart rows go and their orders stay with no owner |
| Shop.Store.DeleteProduct | carts/models.py:28 | the product and its cart rows go; order items keep their snapshot with the reference cleared |
| Shop.Store.DeleteOrder | orders/models.py:39 | the order and its items go |
| Paging.NumPages | users/views.py:120 | at least one page, and just enough pages to hold every item |
| Paging.PageStartIsProduct | users/views.py:122 | page n starts after (n − 1)·per items |
| Paging.PageNumber | users/views.py:121-122 | no integer gives page 1; an integer out of range gives the last page; otherwise that page |
| Paging.PageSlice | users/views.py:122 | page n holds items (n − 1)·per onwards, at most `per` of them, full before the last page, never empty for a non-empty list |
| Paging.GetPage | users/views.py:120-122 | a page holds at most `per` items, all from the list, and is non-empty for a non-empty list |
| Paging.PagesPartitionItems | users/views.py:120-122 | the pages one after another are exactly the list |
| Paging.ListViewPage | products/views.py:6-10 | the list view serves page 1 without a parameter, the last page for `last`, and an integer page in range; it gives a 404 exactly for a non-number or an integer out of range |
| Paging.ListViewPageAgreesWithGetPage | products/views.py:6-10 | wherever the list view serves a page, `get_page` serves the same one; an integer the list view rejects is one `get_page` turns into the last page |
| Paging.ListViewPageBounds | products/views.py:6-10 | a served page holds at most `per` items, all from the list, and is non-empty for a non-empty list |
| Profile.TotalSum | users/views.py:116-118 | the order's total is None exactly when it has no items |
| Profile.History | users/views.py:114-118 | exactly the user's orders, each annotated with its own total |
| Profile.HistoryNewestFirst | users/views.py:118 | the history is strictly newest first |
| Profile.HistoryPage | users/views.py:120-122 | at most five entries per page, all from the history |
| Profile.TotalSumSurvivesProductDeletion | orders/models.py:40-44 | an order's total does not change when a product is deleted |
| Catalog.Fold | products/views.py:29 | case folding keeps the length and folds each letter A–Z to lower case |
| Catalog.OccursIff | products/views.py:29 | the substring search succeeds exactly when the needle is a slice of the text |
| Catalog.ProductList | products/views.py:12-54 | a product is listed exactly when it is in the table and passes every filter the request switches on; `order_by` is passed on only when given and not "default" |
| Catalog.ListingIsOneFilter | products/views.py:28-48 | the successive filters equal one conjunctive filter, so the listing is an order-preserving subsequence of the table |
| Catalog.NoFilterListsEverything | products/views.py:20-48 | without q, category or `on_sale=on`, every product is listed |
| Catalog.ListingKeepsIdOrder | products/views.py:20 | a listing of the id-ordered table is id-ordered |
| Catalog.TableOrder | products/models.py:28 | the product table in its default order: every product exactly once, in increasing id |
| Catalog.CatalogPage | products/views.py:6-10 | a catalog page of the product table holds at most nine products, all from the table and selected by the query, in increasing id; it is a 404 exactly for a non-number page or an integer outside the listing's pages |
| Cookies.Split | static/js/cart.js:16 | at least one piece, and no piece contains the separator |
| Cookies.JoinSplit | static/js/cart.js:16 | the pieces joined back with ";" give the cookie string |
| Cookies.TrimStrips | static/js/cart.js:18 | trimming removes white space at both ends and nothing else |
| Cookies.NamesIff | static/js/cart.js:20 | a piece matches exactly when it is the name followed at once by "=", so `csrftokenX=` does not match `csrftoken` |
| Cookies.FirstNamed | static/js/cart.js:17-24 | the first piece that matches, or none when no piece matches |
| Cookies.Lookup | static/js/cart.js:14-15 | an empty cookie string gives null |
| Cookies.LookupFindsFirst | static/js/cart.js:13-27 | null for an empty string; otherwise the decoded rest of the first matching piece, later "=" included, or null when none matches |
| Cookies.GetCookie | static/js/cart.js:13-27 | the loop with `break` returns exactly `Lookup` |

## Left out

- The payment provider call and its redirect (orders/views.py:75-81). The model ends at the
  commit. A payment failure after the commit is not modelled.
- Sessions and authentication. This covers `auth.login`, session creation, key rotation,
  `login_required`, CSRF, messages and `next` handling. The session key `cart_add` creates is a
  parameter (`freshKey`). Which key each login merge sees is a parameter too.
- Rendering: templates, `render_to_string`, JSON and redirect responses, and message texts.
- The DOM code of the cart script (static/js/cart.js:34 onwards).
- Forms, admin, URL configuration, pages/views.py, the context processor, and the
  carts_tags template tag.
- `cart_change_quantity` (carts/views.py:82-88). It is an empty stub.
- Registration (users/views.py:87-94). It saves the user and logs in, and has no cart step of
  its own. User creation is not modelled.
- The order success page (orders/views.py:110-123). `PlaceOrder` returns the order id it stores
  as `last_order_id`.
- Categories and their deletion cascade. Product creation and editing are admin operations.
  Slug uniqueness is kept as an invariant of the store.
- Order status changes. Only the admin makes them.
- Catalog.ProductList: sorting by a user-supplied `order_by` field is not modelled. The listing
  reports the field name, and `CatalogPage` covers the default id ordering.
- Catalog.IContains: `icontains` is modelled with ASCII case folding. The database collation's
  folding of other letters is not modelled.
- Paging.PageNumber: the conversion of the `page` query string to an integer is not modelled.
  The number arrives converted, with None for "missing or not an integer".
- Paging.ListViewPage: `int()` on the `page` string and the test for `last` are not modelled. The
  request arrives already sorted into missing or empty, integer, `last`, or other.
- Cookies.GetCookie: `decodeURIComponent` is a function parameter. Its error on a malformed
  escape is not modelled.
- Concurrency. Two checkouts racing for the same stock are not modelled. Each request is one
  sequential step, and timestamps are a clock that only moves forward.
- The database's row order. Iteration over an unordered queryset is modelled as id order.
- The id sequence on rollback. An order rolled back for lack of stock does not consume an id in
  the model, whereas a database sequence would skip one.
- The width of decimal columns (`max_digits`). Integers are unbounded. The cart quantity column
  is bounded at 32767, as on a backend that enforces the column range.
- The cart row's `created_timestamp`. Nothing in the core reads it.
- CartEdits.AdditiveMergeAddsUp: the conservation law is proved for a user with at most one row
  per product. It also assumes no row carries both the user and the key. Outside that case the
  merge's behaviour is still modelled exactly by `AdditiveMerge`.
- MergeLoopConserves: the completion iff and the conservation law are proved only for a user
  holding at most one row per product. The store does not keep that as an invariant: the
  source handles duplicate rows (they arise from concurrent `get_or_create` calls, which the
  model does not interleave), so the model keeps them possible. For the excluded case,
  `MergeLoopStopsAtDuplicate` proves the loop stops whenever a duplicated product is among the
  anonymous rows.
