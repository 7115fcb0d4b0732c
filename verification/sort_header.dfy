/** The clickable column header of the list pages (`SortableTableHeader`): what a click
    asks for and which chevron is lit. */
module SortHeader {
  import opened Common

  /** The header's view of the list's sort: the sorted field and its order, either of
      which the parent may leave undefined. */
  datatype SortView = SortView(currentSort: Option<string>, currentOrder: Option<Order>)

  predicate IsCurrentField(v: SortView, field: string) {
    v.currentSort == Some(field)
  }

  /** The order that follows `order` when the same column is clicked again: only an
      ascending sort turns descending; a descending or missing one starts ascending. */
  function NextOrder(order: Option<Order>): (r: Order)
    ensures r == Desc <==> order == Some(Asc)
  {
    if order == Some(Asc) then Desc else Asc
  }

  /** `handleClick`: the field and order handed to `onSortChange`. */
  function Click(v: SortView, field: string): (r: (string, Order))
    ensures r.0 == field
    ensures r.1 == Desc <==> IsCurrentField(v, field) && v.currentOrder == Some(Asc)
    ensures !IsCurrentField(v, field) ==> r.1 == Asc
  {
    if IsCurrentField(v, field) then (field, NextOrder(v.currentOrder)) else (field, Asc)
  }

  /** The up chevron is highlighted; exactly then a click asks for a descending sort. */
  predicate UpLit(v: SortView, field: string)
    ensures UpLit(v, field) <==> Click(v, field).1 == Desc
  {
    IsCurrentField(v, field) && v.currentOrder == Some(Asc)
  }

  /** The down chevron is highlighted; a click then asks for an ascending sort. */
  predicate DownLit(v: SortView, field: string)
    ensures DownLit(v, field) ==> Click(v, field) == (field, Asc)
  {
    IsCurrentField(v, field) && v.currentOrder == Some(Desc)
  }

  /** After the parent applies a click, the clicked header lights exactly the chevron of
      the order it asked for, and clicking it again asks for the other order. */
  lemma ClickThenHighlight(v: SortView, field: string)
    ensures var (f, o) := Click(v, field);
      var after := SortView(Some(f), Some(o));
      (UpLit(after, field) <==> o == Asc) && (DownLit(after, field) <==> o == Desc) &&
      Click(after, field).1 != o
  {
  }

  /** At most one chevron of a header is lit. */
  lemma AtMostOneLit(v: SortView, field: string)
    ensures !(UpLit(v, field) && DownLit(v, field))
  {
  }
}
