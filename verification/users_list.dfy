/** The list of users (`UsersPage`): the query parameters it keeps, the handlers that
    change them, and the zero-based pager. */
module UsersList {
  import opened Common
  import SortHeader
  import ProductTypesList

  /** The request parameters of the list (`FindUsersRequest`); pages count from 0. */
  datatype Params = Params(search: Option<string>, page: int, size: int, sortBy: string, sortOrder: Order)

  /** The page opens on page 0 of 10, newest first. */
  const Initial := Params(None, 0, 10, "created_at", Desc)

  /** `handleSearch`: the new term, back to the first page; size and sort are kept. */
  function HandleSearch(p: Params, search: string): (r: Params)
    ensures r.search == Some(search) && r.page == 0
    ensures r.size == p.size && r.sortBy == p.sortBy && r.sortOrder == p.sortOrder
  {
    p.(search := Some(search), page := 0)
  }

  /** `handlePageChange`: only the page changes. */
  function HandlePageChange(p: Params, page: int): (r: Params)
    ensures r.page == page
    ensures r.search == p.search && r.size == p.size && r.sortBy == p.sortBy && r.sortOrder == p.sortOrder
  {
    p.(page := page)
  }

  /** `handleSort`: the clicked field; descending exactly when the same field was
      sorted ascending. The page is kept. */
  function HandleSort(p: Params, sortBy: string): (r: Params)
    ensures r.sortBy == sortBy
    ensures r.sortOrder == Desc <==> p.sortBy == sortBy && p.sortOrder == Asc
    ensures r.search == p.search && r.page == p.page && r.size == p.size
  {
    p.(sortBy := sortBy, sortOrder := if p.sortBy == sortBy && p.sortOrder == Asc then Desc else Asc)
  }

  /** Searching again with the same term changes nothing, and a page change after a
      search keeps the term. */
  lemma SearchSettles(p: Params, search: string, page: int)
    ensures HandleSearch(HandleSearch(p, search), search) == HandleSearch(p, search)
    ensures HandlePageChange(HandleSearch(p, search), page).search == Some(search)
    ensures HandleSearch(HandlePageChange(p, page), search) == HandleSearch(p, search)
  {
  }

  /** The users page toggles the sort the same way as the shared header component and
      as the product-types page. */
  lemma HandleSortAgrees(p: Params, field: string)
    ensures var (f, o) := SortHeader.Click(SortHeader.SortView(Some(p.sortBy), Some(p.sortOrder)), field);
      HandleSort(p, field).sortBy == f && HandleSort(p, field).sortOrder == o
    ensures var s := ProductTypesList.HandleSort(ProductTypesList.SortState(p.sortBy, p.sortOrder), field);
      HandleSort(p, field).sortBy == s.sortBy && HandleSort(p, field).sortOrder == s.sortOrder
  {
  }

  /** The pager is drawn only when there is more than one page: when there is a page at
      all, exactly when "next" is enabled on the first one. */
  predicate PagerShown(totalPages: int)
    ensures totalPages >= 1 ==> (PagerShown(totalPages) <==> !NextDisabled(0, totalPages))
  {
    totalPages > 1
  }

  /** "Previous" asks for `page - 1` and is disabled on the first page: for a real page,
      exactly where `page - 1` would not be one. */
  predicate PrevDisabled(page: int)
    ensures page >= 0 ==> (PrevDisabled(page) <==> page - 1 < 0)
  {
    page == 0
  }

  /** "Next" asks for `page + 1` and is disabled on the last page: for a real page,
      exactly where `page + 1` would not be one. */
  predicate NextDisabled(page: int, totalPages: int)
    ensures 0 <= page < totalPages ==> (NextDisabled(page, totalPages) <==> page + 1 >= totalPages)
  {
    page == totalPages - 1
  }

  /** The buttons are not clamped: they stay on real pages only because a button is
      disabled at the end it would step over. */
  lemma EnabledButtonsStayInRange(page: int, totalPages: int)
    requires 0 <= page < totalPages
    ensures !PrevDisabled(page) ==> 0 <= page - 1 < totalPages
    ensures !NextDisabled(page, totalPages) ==> 0 <= page + 1 < totalPages
  {
  }

  /** The first item number of the "showing" line. */
  function RangeFirst(page: int, size: int): int {
    page * size + 1
  }

  /** The last item number of the "showing" line. */
  function RangeLast(page: int, size: int, totalItems: int): int {
    MinInt((page + 1) * size, totalItems)
  }

  /** For page `page` of a server count that fits `size` items a page, the page shows
      between one and `size` items and the next page continues where it stops. */
  lemma {:induction false} RangeTiles(page: int, size: int, totalPages: int, totalItems: int)
    requires size >= 1 && 0 <= page < totalPages
    requires (totalPages - 1) * size < totalItems <= totalPages * size
    ensures 1 <= RangeFirst(page, size) <= RangeLast(page, size, totalItems) <= totalItems
    ensures RangeLast(page, size, totalItems) - RangeFirst(page, size) < size
    ensures page + 1 < totalPages ==> RangeFirst(page + 1, size) == RangeLast(page, size, totalItems) + 1
    ensures page == totalPages - 1 ==> RangeLast(page, size, totalItems) == totalItems
  {
    assert page * size <= (totalPages - 1) * size by {
      MulMonotone(page, totalPages - 1, size);
    }
    if page + 1 < totalPages {
      MulMonotone(page + 1, totalPages - 1, size);
    }
  }

  lemma MulMonotone(a: int, b: int, size: int)
    requires a <= b && size >= 0
    ensures a * size <= b * size
  {
  }

  /** The zero-based range at page size 10 is the product-types page's one-based range
      one page later. */
  lemma RangeMatchesOneBased(page: int, totalItems: int)
    ensures RangeFirst(page, ProductTypesList.PageSize) == ProductTypesList.RangeFirst(page + 1)
    ensures RangeLast(page, ProductTypesList.PageSize, totalItems) == ProductTypesList.RangeLast(page + 1, totalItems)
  {
  }
}
