/** The list of product types (`ProductTypesPage`): the column sort and the one-based
    pager with its five-page window and "showing x to y" range, and the debounced
    search that sends the list back to page 1. */
module ProductTypesList {
  import opened Common
  import SortHeader

  /** The page size the list requests. */
  const PageSize: nat := 10

  /** The sort state; the page starts sorted ascending by name. */
  datatype SortState = SortState(sortBy: string, sortOrder: Order)

  const InitialSort := SortState("name", Asc)

  /** `handleSort`: a click on the sorted column flips the order; any other column
      becomes the sorted one, ascending. */
  function HandleSort(s: SortState, field: string): (r: SortState)
    ensures r.sortBy == field
    ensures s.sortBy == field ==> r.sortOrder != s.sortOrder
    ensures s.sortBy != field ==> r.sortOrder == Asc
  {
    if s.sortBy == field then
      SortState(field, if s.sortOrder == Asc then Desc else Asc)
    else
      SortState(field, Asc)
  }

  /** Two clicks on the same column give back the state the first one started from,
      when that column was already the sorted one. */
  lemma HandleSortTwice(s: SortState)
    ensures HandleSort(HandleSort(s, s.sortBy), s.sortBy) == s
  {
  }

  /** The page's own toggle asks for what the shared header component asks for, given
      the page's (always defined) field and order. */
  lemma HandleSortAgreesWithHeader(s: SortState, field: string)
    ensures var (f, o) := SortHeader.Click(SortHeader.SortView(Some(s.sortBy), Some(s.sortOrder)), field);
      HandleSort(s, field) == SortState(f, o)
  {
  }

  /** The "previous" button: one page back, never below page 1. */
  function Prev(current: int): (p: int)
    ensures p >= 1
    ensures current > 1 ==> p == current - 1
    ensures current <= 1 ==> p == 1
  {
    MaxInt(1, current - 1)
  }

  /** The "next" button: one page on, never past the last page. */
  function Next(current: int, totalPages: int): (p: int)
    ensures p <= totalPages
    ensures current < totalPages ==> p == current + 1
    ensures current >= totalPages ==> p == totalPages
  {
    MinInt(totalPages, current + 1)
  }

  /** "Previous" is disabled on page 1: for a page from 1 on, exactly where it would
      not move. */
  predicate PrevDisabled(current: int)
    ensures current >= 1 ==> (PrevDisabled(current) <==> Prev(current) == current)
  {
    current == 1
  }

  /** "Next" is disabled on the last page: for a page up to the last, exactly where it
      would not move. */
  predicate NextDisabled(current: int, totalPages: int)
    ensures current <= totalPages ==> (NextDisabled(current, totalPages) <==> Next(current, totalPages) == current)
  {
    current == totalPages
  }

  /** The pager is drawn only when there is more than one page: when there is a page at
      all, exactly when "next" is enabled on the first one. */
  predicate PagerShown(totalPages: int)
    ensures totalPages >= 1 ==> (PagerShown(totalPages) <==> !NextDisabled(1, totalPages))
  {
    totalPages > 1
  }

  /** From any page in range, both buttons land on a page in range, an enabled button
      moves by exactly one page, and going one way and back returns to the start. */
  lemma PrevNextStayInRange(current: int, totalPages: int)
    requires 1 <= current <= totalPages
    ensures 1 <= Prev(current) <= totalPages && 1 <= Next(current, totalPages) <= totalPages
    ensures !PrevDisabled(current) ==> Prev(current) == current - 1 && Next(Prev(current), totalPages) == current
    ensures !NextDisabled(current, totalPages) ==> Next(current, totalPages) == current + 1 && Prev(Next(current, totalPages)) == current
  {
  }

  /** The first page of the numbered window. */
  function WindowStart(current: int, totalPages: int): int {
    MaxInt(1, MinInt(totalPages - 4, current - 2))
  }

  /** The numbered buttons: `min(5, totalPages)` consecutive pages from `WindowStart`. */
  function Window(current: int, totalPages: int): (w: seq<int>)
    ensures |w| == if totalPages < 0 then 0 else MinInt(5, totalPages)
    ensures forall i :: 0 <= i < |w| ==> w[i] == WindowStart(current, totalPages) + i
  {
    var n := if totalPages < 0 then 0 else MinInt(5, totalPages);
    seq(n, i => WindowStart(current, totalPages) + i)
  }

  /** For a current page in range, the window holds only real pages, holds the current
      one, and is as long as it can be. */
  lemma {:induction false} WindowInRange(current: int, totalPages: int)
    requires 1 <= current <= totalPages
    ensures var w := Window(current, totalPages);
      (forall i :: 0 <= i < |w| ==> 1 <= w[i] <= totalPages) &&
      current in w &&
      |w| == MinInt(5, totalPages)
  {
    var w := Window(current, totalPages);
    var start := WindowStart(current, totalPages);
    assert start <= current && current - start < |w|;
    assert w[current - start] == current;
  }

  /** Away from both ends the current page sits in the middle of a full window. */
  lemma WindowCentred(current: int, totalPages: int)
    requires 3 <= current <= totalPages - 2
    ensures Window(current, totalPages) == [current - 2, current - 1, current, current + 1, current + 2]
  {
  }

  /** The first item number of the "showing" line. */
  function RangeFirst(current: int): int {
    (current - 1) * PageSize + 1
  }

  /** The last item number of the "showing" line. */
  function RangeLast(current: int, totalItems: int): int {
    MinInt(current * PageSize, totalItems)
  }

  /** The pages hold `totalItems` items ten at a time. */
  predicate PagesFit(totalPages: int, totalItems: int) {
    (totalPages - 1) * PageSize < totalItems <= totalPages * PageSize
  }

  /** With the page count the server reports, every page shows between one and ten
      items, and consecutive pages continue where the previous one stopped, so the
      ranges of pages 1 to totalPages cover items 1 to totalItems. */
  lemma RangeTiles(current: int, totalPages: int, totalItems: int)
    requires PagesFit(totalPages, totalItems) && 1 <= current <= totalPages
    ensures 1 <= RangeFirst(current) <= RangeLast(current, totalItems) <= totalItems
    ensures RangeLast(current, totalItems) - RangeFirst(current) < PageSize
    ensures current < totalPages ==> RangeFirst(current + 1) == RangeLast(current, totalItems) + 1
    ensures current == totalPages ==> RangeLast(current, totalItems) == totalItems
    ensures current == 1 ==> RangeFirst(current) == 1
  {
  }

  /** The search box and the page the list shows. */
  datatype SearchState = SearchState(term: string, page: int)

  /** Typing into the search box: only the term changes; the page stays until the
      debounced effect fires. */
  function TypeSearch(s: SearchState, term: string): (r: SearchState)
    ensures r.term == term && r.page == s.page
  {
    s.(term := term)
  }

  /** The debounced effect, once the term has settled for 500 ms: back to page 1,
      reloading with the current term. */
  function SearchSettled(s: SearchState): (r: SearchState)
    ensures r.term == s.term && r.page == 1
  {
    SearchState(s.term, 1)
  }

  /** Keystrokes typed before the debounce fires are coalesced: only the last term
      counts, the list lands on its first page, where "previous" is disabled, and a
      second firing changes nothing. */
  lemma SearchSettledKeepsLastTerm(s: SearchState, a: string, b: string, totalPages: int)
    requires totalPages >= 1
    ensures SearchSettled(TypeSearch(TypeSearch(s, a), b)) == SearchSettled(TypeSearch(s, b))
    ensures var r := SearchSettled(TypeSearch(s, b)); r.term == b && PrevDisabled(r.page) && 1 <= r.page <= totalPages
    ensures SearchSettled(SearchSettled(s)) == SearchSettled(s)
  {
  }
}
