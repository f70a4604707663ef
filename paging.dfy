/** Django's `Paginator(object_list, per_page)` with its defaults (no orphans, an empty
    first page allowed) and the two ways the shop asks it for a page. The order history
    (users/views.py, 5 per page) calls `get_page`, which never fails: its page number
    arrives already converted, None standing for a missing or non-integer `page`
    parameter. The catalog (products/views.py, `paginate_by = 9`) is a `ListView`, whose
    `paginate_queryset` calls `page()` instead and answers 404 for a page it cannot
    serve. */
module Paging {
  import opened Basics

  /** How many items come before page n: a page's worth for each earlier page. */
  function PageStart(n: nat, perPage: nat): nat
    requires n >= 1
    decreases n
  {
    if n == 1 then 0 else PageStart(n - 1, perPage) + perPage
  }

  /** Page n starts after `(n - 1) * perPage` items. */
  lemma {:induction false} PageStartIsProduct(n: nat, perPage: nat)
    requires n >= 1
    ensures PageStart(n, perPage) == (n - 1) * perPage
    decreases n
  {
    if n > 1 {
      PageStartIsProduct(n - 1, perPage);
      assert (n - 2) * perPage + perPage == (n - 1) * perPage;
    }
  }

  /** A later page starts at least a whole page later. */
  lemma {:induction false} PageStartGrows(m: nat, n: nat, perPage: nat)
    requires 1 <= m < n
    ensures PageStart(m, perPage) + perPage <= PageStart(n, perPage)
    decreases n
  {
    if m < n - 1 {
      PageStartGrows(m, n - 1, perPage);
    }
  }

  /** `num_pages`: the count rounded up to whole pages, and at least one page even for an
      empty list. Every item fits on the pages, and the last page is not empty unless the
      list is. */
  function NumPages(count: nat, perPage: nat): (n: nat)
    requires perPage > 0
    ensures n >= 1
    ensures count <= PageStart(n + 1, perPage)
    ensures count == 0 || PageStart(n, perPage) < count
  {
    if count == 0 then 1
    else
      var q := (count + perPage - 1) / perPage;
      assert q * perPage + (count + perPage - 1) % perPage == count + perPage - 1;
      assert 0 <= (count + perPage - 1) % perPage < perPage;
      assert (q - 1) * perPage == q * perPage - perPage;
      PageStartIsProduct(q, perPage);
      PageStartIsProduct(q + 1, perPage);
      q
  }

  /** `get_page`'s choice of page: a number that is not an integer gives the first page,
      a number out of range (below 1 or past the end) gives the last page, and any other
      number is that page. */
  function PageNumber(number: Option<int>, count: nat, perPage: nat): (n: nat)
    requires perPage > 0
    ensures 1 <= n <= NumPages(count, perPage)
    ensures number.None? ==> n == 1
    ensures number.Some? && 1 <= number.value <= NumPages(count, perPage) ==> n == number.value
    ensures number.Some? && !(1 <= number.value <= NumPages(count, perPage)) ==> n == NumPages(count, perPage)
  {
    match number
    case None => 1
    case Some(k) => if 1 <= k <= NumPages(count, perPage) then k else NumPages(count, perPage)
  }

  /** Where page n starts and ends: inside the list; a page before the last is followed
      by a whole page's worth of items; the last page reaches the end. */
  lemma PageBounds(count: nat, perPage: nat, n: nat)
    requires perPage > 0 && 1 <= n <= NumPages(count, perPage)
    ensures PageStart(n, perPage) <= count
    ensures n < NumPages(count, perPage) ==> PageStart(n, perPage) + perPage < count
    ensures n == NumPages(count, perPage) ==> count <= PageStart(n, perPage) + perPage
    ensures count > 0 ==> PageStart(n, perPage) < count
  {
    var last := NumPages(count, perPage);
    if n < last {
      PageStartGrows(n, last, perPage);
    }
  }

  /** `page(n)`: the items from `(n - 1) * perPage` up to `n * perPage`, cut at the end of
      the list. Every page but the last is full, and a non-empty list has no empty
      page. */
  function PageSlice<T>(items: seq<T>, n: nat, perPage: nat): (page: seq<T>)
    requires perPage > 0 && 1 <= n <= NumPages(|items|, perPage)
    ensures |page| <= perPage
    ensures PageStart(n, perPage) + |page| <= |items|
    ensures forall j :: 0 <= j < |page| ==> page[j] == items[PageStart(n, perPage) + j]
    ensures n < NumPages(|items|, perPage) ==> |page| == perPage
    ensures n == NumPages(|items|, perPage) ==> PageStart(n, perPage) + |page| == |items|
    ensures items != [] ==> page != []
  {
    PageBounds(|items|, perPage, n);
    var bottom := PageStart(n, perPage);
    var top := if bottom + perPage >= |items| then |items| else bottom + perPage;
    items[bottom..top]
  }

  /** `Paginator(items, perPage).get_page(number).object_list`. */
  function GetPage<T>(items: seq<T>, number: Option<int>, perPage: nat): (page: seq<T>)
    requires perPage > 0
    ensures |page| <= perPage
    ensures items != [] ==> page != []
    ensures forall x :: x in page ==> x in items
  {
    var n := PageNumber(number, |items|, perPage);
    var page := PageSlice(items, n, perPage);
    forall x | x in page ensures x in items {
      var j :| 0 <= j < |page| && page[j] == x;
      assert items[PageStart(n, perPage) + j] == x;
    }
    page
  }

  /** Pages 1 to k, one after the other. */
  function FirstPages<T>(items: seq<T>, perPage: nat, k: nat): seq<T>
    requires perPage > 0 && k <= NumPages(|items|, perPage)
  {
    if k == 0 then [] else FirstPages(items, perPage, k - 1) + PageSlice(items, k, perPage)
  }

  /** The first k pages are exactly the items before page k + 1, or all of them once k
      is the last page. */
  lemma {:induction false} FirstPagesArePrefix<T>(items: seq<T>, perPage: nat, k: nat)
    requires perPage > 0 && k <= NumPages(|items|, perPage)
    ensures k < NumPages(|items|, perPage) ==>
      PageStart(k + 1, perPage) <= |items| && FirstPages(items, perPage, k) == items[..PageStart(k + 1, perPage)]
    ensures k == NumPages(|items|, perPage) ==> FirstPages(items, perPage, k) == items
  {
    if k > 0 {
      FirstPagesArePrefix(items, perPage, k - 1);
      var bottom := PageStart(k, perPage);
      var page := PageSlice(items, k, perPage);
      var top := bottom + |page|;
      assert FirstPages(items, perPage, k - 1) == items[..bottom];
      assert page == items[bottom..top];
      PrefixThenSlice(items, bottom, top);
      assert PageStart(k + 1, perPage) == bottom + perPage;
    }
  }

  lemma PrefixThenSlice<T>(items: seq<T>, bottom: nat, top: nat)
    requires bottom <= top <= |items|
    ensures items[..bottom] + items[bottom..top] == items[..top]
  {
  }

  /** Walking through every page lists every item exactly once, in order. */
  lemma PagesPartitionItems<T>(items: seq<T>, perPage: nat)
    requires perPage > 0
    ensures FirstPages(items, perPage, NumPages(|items|, perPage)) == items
  {
    FirstPagesArePrefix(items, perPage, NumPages(|items|, perPage));
  }

  /** The `page` parameter of a list view once `int()` has been tried on it: missing or
      empty (both mean page 1), an integer, the word "last", or anything else. */
  datatype PageRequest = NoPage | PageInt(k: int) | LastPage | NotANumber

  /** `MultipleObjectMixin.paginate_queryset`: no page means the first, "last" means the
      last, an integer in range is that page, and anything else (an integer out of range,
      or text that is not a number) is None, the view's Http404. */
  function ListViewPage<T>(items: seq<T>, request: PageRequest, perPage: nat): (r: Option<seq<T>>)
    requires perPage > 0
    ensures r.None? <==>
      request.NotANumber? || (request.PageInt? && !(1 <= request.k <= NumPages(|items|, perPage)))
    ensures request.NoPage? ==> r == Some(PageSlice(items, 1, perPage))
    ensures request.LastPage? ==> r == Some(PageSlice(items, NumPages(|items|, perPage), perPage))
    ensures request.PageInt? && r.Some? ==> r.value == PageSlice(items, request.k, perPage)
  {
    match request
    case NoPage => Some(PageSlice(items, 1, perPage))
    case LastPage => Some(PageSlice(items, NumPages(|items|, perPage), perPage))
    case NotANumber => None
    case PageInt(k) => if 1 <= k <= NumPages(|items|, perPage) then Some(PageSlice(items, k, perPage)) else None
  }

  /** The two entry points differ only where the list view gives up: whenever it serves a
      page, `get_page` with the same number serves the same one, while an integer it
      rejects is one `get_page` would turn into the last page. */
  lemma ListViewPageAgreesWithGetPage<T>(items: seq<T>, request: PageRequest, perPage: nat)
    requires perPage > 0
    ensures request.NoPage? ==> ListViewPage(items, request, perPage) == Some(GetPage(items, None, perPage))
    ensures request.LastPage? ==>
      ListViewPage(items, request, perPage) == Some(GetPage(items, Some(NumPages(|items|, perPage)), perPage))
    ensures request.PageInt? && ListViewPage(items, request, perPage).Some? ==>
      ListViewPage(items, request, perPage) == Some(GetPage(items, Some(request.k), perPage))
    ensures request.PageInt? && ListViewPage(items, request, perPage).None? ==>
      GetPage(items, Some(request.k), perPage) == PageSlice(items, NumPages(|items|, perPage), perPage)
  {
  }

  /** A page the list view serves holds at most `perPage` items, all from the list, and
      none is empty unless the list is. */
  lemma ListViewPageBounds<T>(items: seq<T>, request: PageRequest, perPage: nat)
    requires perPage > 0
    ensures ListViewPage(items, request, perPage).Some? ==>
      var page := ListViewPage(items, request, perPage).value;
      |page| <= perPage && (items != [] ==> page != []) && forall x :: x in page ==> x in items
  {
    var r := ListViewPage(items, request, perPage);
    if r.Some? {
      var n := match request
        case PageInt(k) => k
        case LastPage => NumPages(|items|, perPage)
        case _ => 1;
      assert r.value == PageSlice(items, n, perPage);
      forall x | x in r.value ensures x in items {
        var j :| 0 <= j < |r.value| && r.value[j] == x;
        assert items[PageStart(n, perPage) + j] == x;
      }
    }
  }
}
