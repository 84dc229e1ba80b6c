/** Pages of a list by cursor (weasyl/pagination.py, `paginate`), with the queries that feed it
    (weasyl/search.py, `_find_without_media`).

    The whole list is `all`, in descending order of its keys. */
module Pagination {
  import opened Options
  import opened Lists

  datatype Filter = FirstPage | PrevFilter(backid: int) | NextFilter(nextid: int)

  datatype Page<T> = Page(items: seq<T>, prev: Option<Filter>, next: Option<Filter>)

  function Take<T>(s: seq<T>, n: nat): seq<T> {
    if |s| <= n then s else s[..n]
  }

  function Below<T>(all: seq<T>, key: T -> int, bound: int): seq<T> {
    if all == [] then [] else (if key(all[0]) < bound then [all[0]] else []) + Below(all[1..], key, bound)
  }

  function Above<T>(all: seq<T>, key: T -> int, bound: int): seq<T> {
    if all == [] then [] else (if key(all[0]) > bound then [all[0]] else []) + Above(all[1..], key, bound)
  }

  /** What the query returns: one more item than the page may have, in the direction of the page. */
  function Query<T>(all: seq<T>, key: T -> int, limit: nat, page: Filter): seq<T> {
    match page
    case FirstPage => Take(all, limit + 1)
    case NextFilter(nextid) => Take(Below(all, key, nextid), limit + 1)
    case PrevFilter(backid) => Take(Reverse(Above(all, key, backid)), limit + 1)
  }

  /** `paginate` on the items that a query returned. */
  function Paginated<T>(items: seq<T>, key: T -> int, limit: nat, page: Filter): Page<T> {
    var more := |items| == limit + 1;
    var kept := if more then items[..limit] else items;
    var shown := if page.PrevFilter? then Reverse(kept) else kept;
    Page(shown,
         if page.FirstPage? || (!more && page.PrevFilter?) || shown == [] then None
         else Some(PrevFilter(key(shown[0]))),
         if (!more && !page.PrevFilter?) || shown == [] then None
         else Some(NextFilter(key(shown[|shown| - 1]))))
  }

  class List<T> {
    var items: seq<T>

    constructor (items: seq<T>)
      ensures this.items == items
    {
      this.items := items;
    }

    method DeleteLast()
      requires items != []
      modifies this
      ensures items == old(items)[..|old(items)| - 1]
    {
      items := items[..|items| - 1];
    }

    method ReverseInPlace()
      modifies this
      ensures items == Reverse(old(items))
    {
      var i, n := 0, |items|;
      while i < n / 2
        invariant 0 <= i <= n / 2 && |items| == n
        invariant forall k :: 0 <= k < i ==> items[k] == old(items)[n - 1 - k] && items[n - 1 - k] == old(items)[k]
        invariant forall k :: i <= k < n - i ==> items[k] == old(items)[k]
      {
        items := items[i := items[n - 1 - i]][n - 1 - i := items[i]];
        i := i + 1;
      }
      assert forall k :: 0 <= k < n ==> items[k] == Reverse(old(items))[k];
    }
  }

  /** `paginate`: trims and turns the list it is given, and returns the filters around it. */
  method Paginate<T>(list: List<T>, key: T -> int, limit: nat, page: Filter)
      returns (prev: Option<Filter>, next: Option<Filter>)
    modifies list
    ensures Page(list.items, prev, next) == Paginated(old(list.items), key, limit, page)
  {
    var more := |list.items| == limit + 1;
    if more {
      list.DeleteLast();
    }
    if page.PrevFilter? {
      list.ReverseInPlace();
    }
    var items := list.items;
    prev := if page.FirstPage? || (!more && page.PrevFilter?) || items == [] then None
            else Some(PrevFilter(key(items[0])));
    next := if (!more && !page.PrevFilter?) || items == [] then None else Some(NextFilter(key(items[|items| - 1])));
  }

  // ---------- Which items a page shows ----------

  function View<T>(all: seq<T>, key: T -> int, limit: nat, page: Filter): Page<T> {
    Paginated(Query(all, key, limit, page), key, limit, page)
  }

  ghost predicate Descending<T>(all: seq<T>, key: T -> int) {
    forall i, j :: 0 <= i < j < |all| ==> key(all[i]) > key(all[j])
  }

  /** The number of items before those below the bound, and of those above it. */
  function NotBelow<T>(all: seq<T>, key: T -> int, bound: int): (n: nat)
    ensures n <= |all|
  {
    if all == [] || key(all[0]) < bound then 0 else 1 + NotBelow(all[1..], key, bound)
  }

  lemma {:induction false} BelowIsSuffix<T>(all: seq<T>, key: T -> int, bound: int)
    requires Descending(all, key)
    ensures Below(all, key, bound) == all[NotBelow(all, key, bound)..]
    ensures Above(all, key, bound - 1) == all[..NotBelow(all, key, bound)]
  {
    if all != [] {
      BelowIsSuffix(all[1..], key, bound);
      if key(all[0]) < bound {
        assert NotBelow(all[1..], key, bound) == 0 by {
          if |all| > 1 { assert all[1..][0] == all[1]; }
        }
      }
    }
  }

  lemma {:induction false} NotBelowItem<T>(all: seq<T>, key: T -> int, i: nat)
    requires Descending(all, key) && i < |all|
    ensures NotBelow(all, key, key(all[i])) == i + 1 && NotBelow(all, key, key(all[i]) + 1) == i
  {
    if i > 0 {
      NotBelowItem(all[1..], key, i - 1);
    } else if |all| > 1 {
      assert all[1..][0] == all[1];
    }
  }

  function Lo<T>(all: seq<T>, key: T -> int, limit: nat, page: Filter): (n: nat)
    ensures n <= |all|
  {
    match page
    case FirstPage => 0
    case NextFilter(nextid) => NotBelow(all, key, nextid)
    case PrevFilter(backid) =>
      var n := NotBelow(all, key, backid + 1);
      if n > limit then n - limit else 0
  }

  function Hi<T>(all: seq<T>, key: T -> int, limit: nat, page: Filter): (n: nat)
    ensures Lo(all, key, limit, page) <= n <= |all|
  {
    match page
    case PrevFilter(backid) => NotBelow(all, key, backid + 1)
    case _ =>
      var lo := Lo(all, key, limit, page);
      if |all| - lo > limit then lo + limit else |all|
  }

  lemma TakenReversed<T>(s: seq<T>, n: nat)
    ensures Take(Reverse(s), n) == Reverse(if |s| > n then s[|s| - n..] else s)
  {}

  lemma ReversedTwice<T>(s: seq<T>)
    ensures Reverse(Reverse(s)) == s
  {}

  lemma QueryForward<T>(all: seq<T>, key: T -> int, limit: nat, page: Filter)
    requires Descending(all, key) && limit > 0 && !page.PrevFilter?
    ensures var lo := Lo(all, key, limit, page);
            Query(all, key, limit, page) == all[lo..if |all| - lo > limit then lo + limit + 1 else |all|]
  {
    hide NotBelow, Below;
    if page.NextFilter? {
      BelowIsSuffix(all, key, page.nextid);
    }
  }

  lemma QueryBack<T>(all: seq<T>, key: T -> int, limit: nat, page: Filter)
    requires Descending(all, key) && limit > 0 && page.PrevFilter?
    ensures var hi := Hi(all, key, limit, page);
            Query(all, key, limit, page) == Reverse(all[if hi > limit then hi - limit - 1 else 0..hi])
  {
    hide NotBelow, Above, Take, Reverse, Descending;
    BelowIsSuffix(all, key, page.backid + 1);
    var hi := Hi(all, key, limit, page);
    var found := all[..hi];
    TakenReversed(found, limit + 1);
    var back := if hi > limit then all[hi - limit - 1..hi] else all[0..hi];
    assert back == if |found| > limit + 1 then found[|found| - (limit + 1)..] else found;
  }

  lemma PaginatedForward<T>(all: seq<T>, key: T -> int, limit: nat, page: Filter, lo: nat)
    requires limit > 0 && !page.PrevFilter? && lo <= |all|
    ensures var more := |all| - lo > limit;
            var hi := if more then lo + limit else |all|;
            Paginated(all[lo..if more then hi + 1 else hi], key, limit, page) == Page(all[lo..hi],
              if lo < hi && page.NextFilter? then Some(PrevFilter(key(all[lo]))) else None,
              if lo < hi < |all| then Some(NextFilter(key(all[hi - 1]))) else None)
  {}

  lemma PaginatedItems<T>(items: seq<T>, shown: seq<T>, key: T -> int, limit: nat, page: Filter)
    requires page.PrevFilter? && Reverse(if |items| == limit + 1 then items[..limit] else items) == shown
    ensures Paginated(items, key, limit, page) ==
            Page(shown, if |items| != limit + 1 || shown == [] then None else Some(PrevFilter(key(shown[0]))),
                 if shown == [] then None else Some(NextFilter(key(shown[|shown| - 1]))))
  {}

  lemma BackReversed<T>(all: seq<T>, limit: nat, hi: nat)
    requires limit < hi <= |all|
    ensures Reverse(Reverse(all[hi - limit - 1..hi])[..limit]) == all[hi - limit..hi]
  {
    var back := all[hi - limit - 1..hi];
    var a, b := Reverse(Reverse(back)[..limit]), all[hi - limit..hi];
    forall i | 0 <= i < limit ensures a[i] == b[i] {
      assert a[i] == Reverse(back)[limit - 1 - i] == back[i + 1];
    }
  }

  lemma PaginatedBack<T>(all: seq<T>, key: T -> int, limit: nat, page: Filter, hi: nat)
    requires limit > 0 && page.PrevFilter? && hi <= |all|
    ensures var more := hi > limit;
            var lo := if more then hi - limit else 0;
            Paginated(Reverse(all[if more then lo - 1 else 0..hi]), key, limit, page) == Page(all[lo..hi],
              if lo < hi && lo > 0 then Some(PrevFilter(key(all[lo]))) else None,
              if lo < hi then Some(NextFilter(key(all[hi - 1]))) else None)
  {
    hide *;
    if hi > limit {
      BackReversed(all, limit, hi);
      PaginatedItems(Reverse(all[hi - limit - 1..hi]), all[hi - limit..hi], key, limit, page);
    } else {
      ReversedTwice(all[0..hi]);
      PaginatedItems(Reverse(all[0..hi]), all[0..hi], key, limit, page);
    }
  }

  /** For every cursor, genuine or not: the page is a piece of the list, and these are its neighbours. */
  lemma ViewIsPiece<T>(all: seq<T>, key: T -> int, limit: nat, page: Filter)
    requires Descending(all, key) && limit > 0
    ensures var lo, hi := Lo(all, key, limit, page), Hi(all, key, limit, page);
            View(all, key, limit, page) == Page(all[lo..hi],
              if lo < hi && (page.NextFilter? || (page.PrevFilter? && lo > 0)) then Some(PrevFilter(key(all[lo])))
                else None,
              if lo < hi && (page.PrevFilter? || hi < |all|) then Some(NextFilter(key(all[hi - 1]))) else None)
  {
    hide Query, Paginated, Reverse, NotBelow, Descending;
    if page.PrevFilter? {
      QueryBack(all, key, limit, page);
      PaginatedBack(all, key, limit, page, Hi(all, key, limit, page));
    } else {
      QueryForward(all, key, limit, page);
      PaginatedForward(all, key, limit, page, Lo(all, key, limit, page));
    }
  }

  lemma {:induction false} NotBelowPlace<T>(all: seq<T>, key: T -> int, bound: int, i: nat)
    requires Descending(all, key) && i < |all|
    ensures i < NotBelow(all, key, bound) <==> key(all[i]) >= bound
  {
    if i > 0 && key(all[0]) >= bound {
      NotBelowPlace(all[1..], key, bound, i - 1);
    }
  }

  /** The first `limit` items, the next `limit` below the cursor, or the last `limit` above it. */
  ghost predicate OnPage<T>(all: seq<T>, key: T -> int, limit: nat, page: Filter, i: nat)
    requires i < |all|
  {
    match page
    case FirstPage => i < limit
    case NextFilter(nextid) => key(all[i]) < nextid && (i < limit || key(all[i - limit]) >= nextid)
    case PrevFilter(backid) => key(all[i]) > backid && (i + limit >= |all| || key(all[i + limit]) <= backid)
  }

  lemma PlaceOnPage<T>(all: seq<T>, key: T -> int, limit: nat, page: Filter, i: nat)
    requires Descending(all, key) && limit > 0 && i < |all|
    ensures Lo(all, key, limit, page) <= i < Hi(all, key, limit, page) <==> OnPage(all, key, limit, page, i)
  {
    hide NotBelow, Descending;
    match page
    case FirstPage =>
    case NextFilter(nextid) =>
      NotBelowPlace(all, key, nextid, i);
      if i >= limit {
        NotBelowPlace(all, key, nextid, i - limit);
      }
    case PrevFilter(backid) =>
      NotBelowPlace(all, key, backid + 1, i);
      if i + limit < |all| {
        NotBelowPlace(all, key, backid + 1, i + limit);
      }
  }

  /** Every page holds exactly the items that are on it. */
  lemma PageExactly<T>(all: seq<T>, key: T -> int, limit: nat, page: Filter, i: nat)
    requires Descending(all, key) && limit > 0 && i < |all|
    ensures all[i] in View(all, key, limit, page).items <==> OnPage(all, key, limit, page, i)
  {
    hide *;
    ViewIsPiece(all, key, limit, page);
    PieceHas(all, key, Lo(all, key, limit, page), Hi(all, key, limit, page), i);
    PlaceOnPage(all, key, limit, page, i);
  }

  lemma PieceHas<T>(all: seq<T>, key: T -> int, lo: nat, hi: nat, i: nat)
    requires Descending(all, key) && lo <= hi <= |all| && i < |all|
    ensures all[i] in all[lo..hi] <==> lo <= i < hi
  {
    if lo <= i < hi {
      assert all[lo..hi][i - lo] == all[i];
    }
  }

  /** A cursor that was taken from an item of the list, and not after its end. */
  ghost predicate Genuine<T>(all: seq<T>, key: T -> int, page: Filter) {
    match page
    case FirstPage => true
    case NextFilter(nextid) => exists i :: 0 <= i < |all| - 1 && key(all[i]) == nextid
    case PrevFilter(backid) => exists i :: 0 < i < |all| && key(all[i]) == backid
  }

  lemma GenuinePlace<T>(all: seq<T>, key: T -> int, limit: nat, page: Filter)
    requires Descending(all, key) && limit > 0 && Genuine(all, key, page)
    ensures var lo, hi := Lo(all, key, limit, page), Hi(all, key, limit, page);
            && (all != [] ==> lo < hi)
            && (page.NextFilter? ==> lo > 0) && (page.PrevFilter? ==> hi < |all|)
  {
    match page
    case FirstPage =>
    case NextFilter(nextid) =>
      var i :| 0 <= i < |all| - 1 && key(all[i]) == nextid;
      NotBelowItem(all, key, i);
    case PrevFilter(backid) =>
      var i :| 0 < i < |all| && key(all[i]) == backid;
      NotBelowItem(all, key, i);
  }

  /** A piece of the list with a neighbour on each side where there are more items. */
  function Between<T>(all: seq<T>, key: T -> int, lo: nat, hi: nat): Page<T>
    requires lo <= hi <= |all|
  {
    Page(all[lo..hi],
         if 0 < lo < hi then Some(PrevFilter(key(all[lo]))) else None,
         if lo < hi < |all| then Some(NextFilter(key(all[hi - 1]))) else None)
  }

  lemma GenuineView<T>(all: seq<T>, key: T -> int, limit: nat, page: Filter)
    requires Descending(all, key) && limit > 0 && Genuine(all, key, page)
    ensures View(all, key, limit, page) == Between(all, key, Lo(all, key, limit, page), Hi(all, key, limit, page))
  {
    hide View, Lo, Hi, Genuine, Descending;
    ViewIsPiece(all, key, limit, page);
    GenuinePlace(all, key, limit, page);
    assert page.FirstPage? ==> Lo(all, key, limit, page) == 0 by { FirstPlace(all, key, limit); }
  }

  lemma FirstPlace<T>(all: seq<T>, key: T -> int, limit: nat)
    ensures Lo(all, key, limit, FirstPage) == 0
  {}

  /** A neighbour is offered exactly where there are more items, and it is genuine again. */
  lemma EndsAreTrue<T>(all: seq<T>, key: T -> int, limit: nat, page: Filter)
    requires Descending(all, key) && limit > 0 && Genuine(all, key, page)
    ensures var view := View(all, key, limit, page);
            && (view.prev.None? <==> view.items <= all)
            && (view.next.None? <==> exists i :: 0 <= i <= |all| && view.items == all[i..])
            && (view.prev.Some? ==> Genuine(all, key, view.prev.value))
            && (view.next.Some? ==> Genuine(all, key, view.next.value))
  {
    GenuineView(all, key, limit, page);
    GenuinePlace(all, key, limit, page);
    var lo, hi := Lo(all, key, limit, page), Hi(all, key, limit, page);
    hide View, Lo, Hi;
    PieceAtEnds(all, key, lo, hi);
  }

  lemma PieceAtEnds<T>(all: seq<T>, key: T -> int, lo: nat, hi: nat)
    requires Descending(all, key) && lo <= hi <= |all| && (all != [] ==> lo < hi)
    ensures all[lo..hi] <= all <==> lo == 0
    ensures (exists i :: 0 <= i <= |all| && all[lo..hi] == all[i..]) <==> hi == |all|
  {
    var items := all[lo..hi];
    if items <= all && all != [] {
      assert items[0] == all[0] == all[lo];
    }
    if hi == |all| {
      assert items == all[lo..];
    }
    if i: int :| 0 <= i <= |all| && items == all[i..] {
      if i == |all| {
        assert lo == hi;
      } else {
        assert items[|items| - 1] == all[hi - 1] && all[i..][|all| - i - 1] == all[|all| - 1];
      }
    }
  }

  /** Items on both sides of the bound, or no items at all. */
  ghost predicate FallsBetween<T>(all: seq<T>, key: T -> int, bound: int) {
    (exists x <- all :: key(x) >= bound) <==> (exists x <- all :: key(x) < bound)
  }

  /** For any cursor, made up or out of date, the ends are right exactly when it falls between two items. */
  lemma EndsAreTrueExactly<T>(all: seq<T>, key: T -> int, limit: nat, page: Filter)
    requires Descending(all, key) && limit > 0
    ensures var view, lo, hi := View(all, key, limit, page), Lo(all, key, limit, page), Hi(all, key, limit, page);
            ((view.prev.None? <==> lo == 0) && (view.next.None? <==> hi == |all|)) <==>
              match page
              case FirstPage => true
              case NextFilter(nextid) => FallsBetween(all, key, nextid)
              case PrevFilter(backid) => FallsBetween(all, key, backid + 1)
  {
    hide View, Descending, FallsBetween, NotBelow;
    ViewIsPiece(all, key, limit, page);
    match page
    case FirstPage =>
    case NextFilter(nextid) => BetweenCounts(all, key, nextid);
    case PrevFilter(backid) => BetweenCounts(all, key, backid + 1);
  }

  /** A cursor above all keys: the first page is shown, with a filter for a page before it. */
  lemma CursorAboveAll()
    ensures View([5], (x: int) => x, 1, NextFilter(10)) == Page([5], Some(PrevFilter(5)), None)
    ensures View([5], (x: int) => x, 1, PrevFilter(5)) == Page([], None, None)
  {
    var key := (x: int) => x;
    assert [5][1..] == [];
    assert Below([5], key, 10) == [5] && Above([5], key, 5) == [];
  }

  lemma BetweenCounts<T>(all: seq<T>, key: T -> int, bound: int)
    requires Descending(all, key)
    ensures FallsBetween(all, key, bound) <==> (NotBelow(all, key, bound) > 0 <==> NotBelow(all, key, bound) < |all|)
  {}

  // ---------- Walking ----------

  /** Following a filter leads to the piece that ends, or starts, where this one starts, or ends. */
  lemma PrevPlace<T>(all: seq<T>, key: T -> int, limit: nat, i: nat)
    requires Descending(all, key) && limit > 0 && i < |all|
    ensures var page := PrevFilter(key(all[i]));
            Hi(all, key, limit, page) == i && Lo(all, key, limit, page) == if i > limit then i - limit else 0
  {
    NotBelowItem(all, key, i);
  }

  lemma NextPlace<T>(all: seq<T>, key: T -> int, limit: nat, i: nat)
    requires Descending(all, key) && limit > 0 && i < |all|
    ensures var page := NextFilter(key(all[i]));
            Lo(all, key, limit, page) == i + 1 && Hi(all, key, limit, page)
              == if |all| - (i + 1) > limit then i + 1 + limit else |all|
  {
    NotBelowItem(all, key, i);
  }

  /** The items of this page and all after it, collected by following `next`. */
  ghost function Forward<T>(all: seq<T>, key: T -> int, limit: nat, page: Filter): seq<T>
    requires Descending(all, key) && limit > 0 && !page.PrevFilter?
    decreases |all| - Lo(all, key, limit, page)
  {
    var view := View(all, key, limit, page);
    if view.next.None? then view.items
    else
      NextIsFurther(all, key, limit, page);
      view.items + Forward(all, key, limit, view.next.value)
  }

  lemma NextIsFurther<T>(all: seq<T>, key: T -> int, limit: nat, page: Filter)
    requires Descending(all, key) && limit > 0 && View(all, key, limit, page).next.Some?
    ensures var next := View(all, key, limit, page).next.value;
            next.NextFilter? && Lo(all, key, limit, next) == Hi(all, key, limit, page) > Lo(all, key, limit, page)
  {
    ViewIsPiece(all, key, limit, page);
    hide View;
    NextPlace(all, key, limit, Hi(all, key, limit, page) - 1);
  }

  lemma {:induction false} ForwardIsRest<T>(all: seq<T>, key: T -> int, limit: nat, page: Filter)
    requires Descending(all, key) && limit > 0 && !page.PrevFilter?
    ensures Forward(all, key, limit, page) == all[Lo(all, key, limit, page)..]
    decreases |all| - Lo(all, key, limit, page)
  {
    hide View, Lo, Hi;
    ViewIsPiece(all, key, limit, page);
    var view := View(all, key, limit, page);
    var lo, hi := Lo(all, key, limit, page), Hi(all, key, limit, page);
    if view.next.Some? {
      NextIsFurther(all, key, limit, page);
      ForwardIsRest(all, key, limit, view.next.value);
      assert all[lo..hi] + all[hi..] == all[lo..];
    } else {
      ForwardEnds(all, key, limit, page);
    }
  }

  lemma ForwardEnds<T>(all: seq<T>, key: T -> int, limit: nat, page: Filter)
    requires Descending(all, key) && limit > 0 && !page.PrevFilter? && View(all, key, limit, page).next.None?
    ensures Hi(all, key, limit, page) == |all|
  {
    ViewIsPiece(all, key, limit, page);
    hide View;
  }

  /** From the first page on, `next` leads once through every item, in order, and stops. */
  lemma WalkVisitsAll<T>(all: seq<T>, key: T -> int, limit: nat)
    requires Descending(all, key) && limit > 0
    ensures Forward(all, key, limit, FirstPage) == all
  {
    ForwardIsRest(all, key, limit, FirstPage);
  }

  /** Whether going to a neighbour and back shows the same page. */
  ghost predicate Returns<T>(all: seq<T>, key: T -> int, limit: nat, view: Page<T>) {
    && (view.next.Some? ==>
          var there := View(all, key, limit, view.next.value);
          there.prev.Some? && View(all, key, limit, there.prev.value) == view)
    && (view.prev.Some? ==>
          var there := View(all, key, limit, view.prev.value);
          there.next.Some? && View(all, key, limit, there.next.value) == view)
  }

  lemma BetweenReturns<T>(all: seq<T>, key: T -> int, limit: nat, lo: nat, hi: nat)
    requires Descending(all, key) && limit > 0 && lo <= hi <= |all|
    requires lo < hi < |all| ==> lo == if hi > limit then hi - limit else 0
    requires 0 < lo < hi ==> hi == if |all| - lo > limit then lo + limit else |all|
    ensures Returns(all, key, limit, Between(all, key, lo, hi))
  {
    hide View, Between, Descending;
    BetweenNeighbours(all, key, lo, hi);
    if lo < hi < |all| {
      StepForward(all, key, limit, hi);
      StepBack(all, key, limit, hi);
    }
    if 0 < lo < hi {
      StepBack(all, key, limit, lo);
      StepForward(all, key, limit, lo);
    }
  }

  /** Going forth and back, or back and forth, leads to the page that was left. */
  lemma ThereAndBack<T>(all: seq<T>, key: T -> int, limit: nat, page: Filter)
    requires Descending(all, key) && limit > 0 && Genuine(all, key, page)
    ensures Returns(all, key, limit, View(all, key, limit, page))
  {
    GenuineView(all, key, limit, page);
    PlaceOfGenuine(all, key, limit, page);
    hide *;
    BetweenReturns(all, key, limit, Lo(all, key, limit, page), Hi(all, key, limit, page));
  }

  lemma PlaceOfGenuine<T>(all: seq<T>, key: T -> int, limit: nat, page: Filter)
    requires Descending(all, key) && limit > 0 && Genuine(all, key, page)
    ensures var lo, hi := Lo(all, key, limit, page), Hi(all, key, limit, page);
            && (lo < hi < |all| ==> lo == if hi > limit then hi - limit else 0)
            && (0 < lo < hi ==> hi == if |all| - lo > limit then lo + limit else |all|)
  {}

  lemma BetweenNeighbours<T>(all: seq<T>, key: T -> int, lo: nat, hi: nat)
    requires lo <= hi <= |all|
    ensures var view := Between(all, key, lo, hi);
            && view.prev == (if 0 < lo < hi then Some(PrevFilter(key(all[lo]))) else None)
            && view.next == (if lo < hi < |all| then Some(NextFilter(key(all[hi - 1]))) else None)
  {}

  /** The page after the item before `i`, and a way back from it. */
  lemma StepForward<T>(all: seq<T>, key: T -> int, limit: nat, i: nat)
    requires Descending(all, key) && limit > 0 && 0 < i < |all|
    ensures var there := View(all, key, limit, NextFilter(key(all[i - 1])));
            && there.prev == Some(PrevFilter(key(all[i])))
            && there == Between(all, key, i, if |all| - i > limit then i + limit else |all|)
  {
    NextPlace(all, key, limit, i - 1);
    GenuineView(all, key, limit, NextFilter(key(all[i - 1])));
  }

  /** The page before item `i`, and a way back from it. */
  lemma StepBack<T>(all: seq<T>, key: T -> int, limit: nat, i: nat)
    requires Descending(all, key) && limit > 0 && 0 < i < |all|
    ensures var there := View(all, key, limit, PrevFilter(key(all[i])));
            && there.next == Some(NextFilter(key(all[i - 1])))
            && there == Between(all, key, if i > limit then i - limit else 0, i)
  {
    PrevPlace(all, key, limit, i);
    GenuineView(all, key, limit, PrevFilter(key(all[i])));
  }
}
