/** The pieces both sale forms share: payment rows, the per-method coverage formula,
    sums over the rows, the subtotal of the product rows, the positional mapping
    used when every row but one is rewritten, and the submit rules. */
module SaleCommon {
  import opened Common

  /** One payment row of a sale form: `{payment_method_id, discount, amount}`.
      `amount` is what the customer is charged through the method, after its discount. */
  datatype Entry = Entry(methodId: int, discount: real, amount: real)

  /** One product row: `{product_id, quantity}`. */
  datatype SaleItem = SaleItem(productId: int, quantity: int)

  /** `1 - d/100`: the fraction of the pre-discount value a customer pays. */
  function Factor(d: real): real {
    1.0 - d / 100.0
  }

  /** The create page's `calculateMethodCoverage` (also the `originalAmount` of both
      pages' `calculateTotalDiscounts`): the pre-discount value an amount stands for.
      At a discount of exactly 100 the source divides by zero. */
  function CreateCoverage(amount: real, d: real): real
    requires d != 100.0
  {
    if d > 0.0 then amount / Factor(d) else amount
  }

  /** For a discount in the valid range, coverage undoes the discount exactly:
      charging `share * (1 - d/100)` covers `share`. */
  lemma CoverageUndoesDiscount(share: real, d: real)
    requires 0.0 <= d && d != 100.0
    ensures CreateCoverage(share * Factor(d), d) == share
  {
    if d > 0.0 {
      assert Factor(d) != 0.0;
      calc {
        CreateCoverage(share * Factor(d), d);
        share * Factor(d) / Factor(d);
        share;
      }
    }
  }

  /** A negative discount breaks that: the row is charged more than it covers. */
  lemma NegativeDiscountOvercharges()
    ensures CreateCoverage(1.0 * Factor(-10.0), -10.0) == 1.1
  {
  }

  function Sum(xs: seq<real>): real {
    if |xs| == 0 then 0.0 else xs[0] + Sum(xs[1..])
  }

  lemma {:induction false} SumAppend(a: seq<real>, b: seq<real>)
    ensures Sum(a + b) == Sum(a) + Sum(b)
    decreases |a|
  {
    if |a| == 0 {
      assert a + b == b;
    } else {
      assert (a + b)[1..] == a[1..] + b;
      SumAppend(a[1..], b);
    }
  }

  lemma {:induction false} SumNonNegative(xs: seq<real>)
    requires forall i :: 0 <= i < |xs| ==> xs[i] >= 0.0
    ensures Sum(xs) >= 0.0
    decreases |xs|
  {
    if |xs| > 0 {
      SumNonNegative(xs[1..]);
    }
  }

  function Amounts(es: seq<Entry>): (r: seq<real>)
    ensures |r| == |es| && forall i :: 0 <= i < |es| ==> r[i] == es[i].amount
  {
    seq(|es|, i requires 0 <= i < |es| => es[i].amount)
  }

  function Discounts(es: seq<Entry>): (r: seq<real>)
    ensures |r| == |es| && forall i :: 0 <= i < |es| ==> r[i] == es[i].discount
  {
    seq(|es|, i requires 0 <= i < |es| => es[i].discount)
  }

  /** No row has the degenerate discount 100 at which `CreateCoverage` divides by zero. */
  predicate NoFullDiscount(es: seq<Entry>) {
    forall i :: 0 <= i < |es| ==> es[i].discount != 100.0
  }

  /** Σ coverage over the rows, with the create page's coverage formula. */
  function SumCoverage(es: seq<Entry>): real
    requires NoFullDiscount(es)
  {
    if |es| == 0 then 0.0 else CreateCoverage(es[0].amount, es[0].discount) + SumCoverage(es[1..])
  }

  /** `calculateTotalPaymentMethods`: Σ amount over all rows. */
  function TotalPaid(es: seq<Entry>): real {
    Sum(Amounts(es))
  }

  /** The amounts of two lists of rows add up separately, and no row charged a negative
      amount means a total that is not negative. */
  lemma TotalPaidAppend(a: seq<Entry>, b: seq<Entry>)
    ensures TotalPaid(a + b) == TotalPaid(a) + TotalPaid(b)
    ensures (forall i :: 0 <= i < |a| ==> a[i].amount >= 0.0) ==> TotalPaid(a) >= 0.0
  {
    if forall i :: 0 <= i < |a| ==> a[i].amount >= 0.0 {
      SumNonNegative(Amounts(a));
    }
    assert Amounts(a + b) == Amounts(a) + Amounts(b);
    SumAppend(Amounts(a), Amounts(b));
  }

  /** A row covers at least what it is charged when its amount is non-negative and its
      discount is below 100. */
  lemma CoverageAtLeastAmount(amount: real, d: real)
    requires d != 100.0
    ensures amount >= 0.0 && d < 100.0 ==> CreateCoverage(amount, d) >= amount
  {
    if amount >= 0.0 && 0.0 < d < 100.0 {
      var f := Factor(d);
      assert 0.0 < f <= 1.0;
      assert amount / f * f == amount;
    }
  }

  /** `calculateTotalDiscounts`: Σ (coverage − amount), the money the discounts take off.
      Rows without a positive discount take nothing off, and with non-negative amounts
      and discounts below 100 the total is never negative. */
  function TotalDiscounts(es: seq<Entry>): (r: real)
    requires NoFullDiscount(es)
    ensures (forall i :: 0 <= i < |es| ==> es[i].discount <= 0.0) ==> r == 0.0
    ensures (forall i :: 0 <= i < |es| ==> es[i].amount >= 0.0 && es[i].discount < 100.0) ==> r >= 0.0
  {
    if |es| == 0 then 0.0
    else
      CoverageAtLeastAmount(es[0].amount, es[0].discount);
      (CreateCoverage(es[0].amount, es[0].discount) - es[0].amount) + TotalDiscounts(es[1..])
  }

  /** The discounts total is exactly what the rows cover minus what they charge. */
  lemma {:induction false} TotalDiscountsIsCoverageMinusPaid(es: seq<Entry>)
    requires NoFullDiscount(es)
    ensures TotalDiscounts(es) == SumCoverage(es) - TotalPaid(es)
    decreases |es|
  {
    if |es| > 0 {
      TotalDiscountsIsCoverageMinusPaid(es[1..]);
      assert Amounts(es)[1..] == Amounts(es[1..]);
    }
  }

  /** `calculateTotalPrice`: Σ price × quantity over the product rows that have a selected
      product (`prices` maps a row index to that product's `current_price`) and a
      non-zero quantity. */
  function Subtotal(items: seq<SaleItem>, prices: map<nat, real>): (r: real)
    ensures (forall i :: 0 <= i < |items| ==> i !in prices || items[i].quantity == 0) ==> r == 0.0
    ensures (forall i :: i in prices ==> prices[i] >= 0.0) && (forall i :: 0 <= i < |items| ==> items[i].quantity >= 0) ==>
      r >= 0.0
  {
    SubtotalWithoutLines(items, prices, 0);
    if (forall i :: i in prices ==> prices[i] >= 0.0) && (forall i :: 0 <= i < |items| ==> items[i].quantity >= 0) then
      SubtotalNonNegative(items, prices, 0);
      SubtotalFrom(items, prices, 0)
    else SubtotalFrom(items, prices, 0)
  }

  /** Rows without a selected product or without a quantity add nothing. */
  lemma {:induction false} SubtotalWithoutLines(items: seq<SaleItem>, prices: map<nat, real>, k: nat)
    requires k <= |items|
    ensures (forall i :: k <= i < |items| ==> i !in prices || items[i].quantity == 0) ==> SubtotalFrom(items, prices, k) == 0.0
    decreases |items| - k
  {
    if k < |items| {
      SubtotalWithoutLines(items, prices, k + 1);
    }
  }

  function SubtotalFrom(items: seq<SaleItem>, prices: map<nat, real>, k: nat): real
    requires k <= |items|
    decreases |items| - k
  {
    if k == |items| then 0.0
    else
      var line := if k in prices && items[k].quantity != 0 then prices[k] * items[k].quantity as real else 0.0;
      line + SubtotalFrom(items, prices, k + 1)
  }

  /** With non-negative prices and quantities the subtotal is never negative. */
  lemma {:induction false} SubtotalNonNegative(items: seq<SaleItem>, prices: map<nat, real>, k: nat)
    requires k <= |items|
    requires forall i :: i in prices ==> prices[i] >= 0.0
    requires forall i :: 0 <= i < |items| ==> items[i].quantity >= 0
    ensures SubtotalFrom(items, prices, k) >= 0.0
    decreases |items| - k
  {
    if k < |items| {
      SubtotalNonNegative(items, prices, k + 1);
      if k in prices && items[k].quantity != 0 {
        assert prices[k] * items[k].quantity as real >= 0.0;
      }
    }
  }

  /** The inverse of `ActualIndex`: the rank of a non-modified position among the others. */
  function OtherIndex(j: nat, modified: nat): nat
    requires j != modified
  {
    if j < modified then j else j - 1
  }

  /** `ActualIndex` is strictly increasing and is a bijection from the ranks
      `[0, n-1)` onto the positions `[0, n)` other than `modified`. */
  lemma ActualIndexBijective(n: nat, modified: nat)
    requires modified < n
    ensures forall k :: 0 <= k < n - 1 ==> ActualIndex(k, modified) < n
    ensures forall k :: 0 <= k < n - 1 ==> OtherIndex(ActualIndex(k, modified), modified) == k
    ensures forall j :: 0 <= j < n && j != modified ==> OtherIndex(j, modified) < n - 1
    ensures forall j :: 0 <= j < n && j != modified ==> ActualIndex(OtherIndex(j, modified), modified) == j
    ensures forall k1, k2 :: 0 <= k1 < k2 ==> ActualIndex(k1, modified) < ActualIndex(k2, modified)
  {
  }

  /** The rows with their amounts replaced, position by position. */
  function WithAmounts(es: seq<Entry>, amounts: seq<real>): (r: seq<Entry>)
    requires |amounts| == |es|
    ensures |r| == |es|
    ensures forall i :: 0 <= i < |es| ==> r[i] == es[i].(amount := amounts[i])
  {
    seq(|es|, i requires 0 <= i < |es| => es[i].(amount := amounts[i]))
  }

  /** Writes the `k`-th of `amounts` into the row at `ActualIndex(k, modified)`:
      every row except `modified` is rewritten, in order. */
  function WriteBack(es: seq<Entry>, modified: nat, amounts: seq<real>): (r: seq<Entry>)
    requires modified < |es| && |amounts| == |es| - 1
    ensures |r| == |es|
    ensures r[modified] == es[modified]
    ensures forall k :: 0 <= k < |amounts| ==>
      r[ActualIndex(k, modified)] == es[ActualIndex(k, modified)].(amount := amounts[k])
    ensures RemoveAt(r, modified) == WithAmounts(RemoveAt(es, modified), amounts)
  {
    var r := seq(|es|, j requires 0 <= j < |es| =>
      if j == modified then es[j] else es[j].(amount := amounts[OtherIndex(j, modified)]));
    ActualIndexBijective(|es|, modified);
    r
  }

  /** Position by position: after `WriteBack` every row keeps its method and discount,
      and a row other than `modified` carries the amount of its rank among the others. */
  lemma WriteBackAt(es: seq<Entry>, modified: nat, amounts: seq<real>)
    requires modified < |es| && |amounts| == |es| - 1
    ensures forall j :: 0 <= j < |es| ==>
      WriteBack(es, modified, amounts)[j].methodId == es[j].methodId &&
      WriteBack(es, modified, amounts)[j].discount == es[j].discount
    ensures forall j :: 0 <= j < |es| && j != modified ==>
      OtherIndex(j, modified) < |amounts| &&
      WriteBack(es, modified, amounts)[j].amount == amounts[OtherIndex(j, modified)]
  {
    ActualIndexBijective(|es|, modified);
  }

  datatype SubmitError = NoProductSelected | NoPaymentMethodSelected

  /** What a sale form hands to the persistence layer: the kept rows and the total. */
  datatype Submission = Submission(items: seq<SaleItem>, payments: seq<Entry>, total: real)

  /** A product row with a selected product. */
  predicate HasProduct(it: SaleItem) {
    it.productId > 0
  }

  /** A payment row with a selected method. */
  predicate HasMethod(e: Entry) {
    e.methodId > 0
  }

  /** The submit rules both sale forms apply: rows without a product or without a method
      are dropped, the rest kept in order; with no product left, or no method left,
      nothing is submitted; the total is `max(0, Σ amount)` over ALL payment rows
      (dropped ones included). */
  function CheckSubmission(items: seq<SaleItem>, es: seq<Entry>): (r: Result<Submission, SubmitError>)
    ensures r == Err(NoProductSelected) <==> forall i :: 0 <= i < |items| ==> items[i].productId <= 0
    ensures r == Err(NoPaymentMethodSelected) <==>
      (exists i :: 0 <= i < |items| && items[i].productId > 0) &&
      (forall i :: 0 <= i < |es| ==> es[i].methodId <= 0)
    ensures r.Ok? ==> r.value.total == Max0(TotalPaid(es))
    ensures r.Ok? ==> r.value.total >= 0.0 && r.value.total >= TotalPaid(es)
    ensures r.Ok? ==> r.value.items == Filter(items, HasProduct) && r.value.payments == Filter(es, HasMethod)
    ensures r.Ok? ==> forall i :: 0 <= i < |r.value.items| ==> r.value.items[i] in items && r.value.items[i].productId > 0
    ensures r.Ok? ==> forall i :: 0 <= i < |items| && items[i].productId > 0 ==> items[i] in r.value.items
    ensures r.Ok? ==> forall i :: 0 <= i < |r.value.payments| ==> r.value.payments[i] in es && r.value.payments[i].methodId > 0
    ensures r.Ok? ==> forall i :: 0 <= i < |es| && es[i].methodId > 0 ==> es[i] in r.value.payments
  {
    var keptItems := Filter(items, HasProduct);
    var keptPayments := Filter(es, HasMethod);
    if |keptItems| == 0 then Err(NoProductSelected)
    else if |keptPayments| == 0 then Err(NoPaymentMethodSelected)
    else Ok(Submission(keptItems, keptPayments, Max0(TotalPaid(es))))
  }

  /** The kept rows are those of the form, in the form's order and each as often as it
      occurs there: a row added after the others is kept (or dropped) after them, and
      every kept row has the multiplicity it has in the form. */
  lemma SubmissionKeepsRows(items: seq<SaleItem>, more: seq<SaleItem>, es: seq<Entry>, moreEs: seq<Entry>,
                            it: SaleItem, e: Entry)
    requires CheckSubmission(items, es).Ok?
    ensures CheckSubmission(items + more, es + moreEs).Ok?
    ensures CheckSubmission(items + more, es + moreEs).value.items
         == CheckSubmission(items, es).value.items + Filter(more, HasProduct)
    ensures CheckSubmission(items + more, es + moreEs).value.payments
         == CheckSubmission(items, es).value.payments + Filter(moreEs, HasMethod)
    ensures multiset(CheckSubmission(items, es).value.items)[it] == if it.productId > 0 then multiset(items)[it] else 0
    ensures multiset(CheckSubmission(items, es).value.payments)[e] == if e.methodId > 0 then multiset(es)[e] else 0
  {
    FilterAppend(items, more, HasProduct);
    FilterAppend(es, moreEs, HasMethod);
    FilterMultiset(items, HasProduct, it);
    FilterMultiset(es, HasMethod, e);
  }

  /** The form state the handlers act on: product rows, the selected product price per
      row index, and the payment rows. */
  datatype SaleForm = SaleForm(items: seq<SaleItem>, prices: map<nat, real>, entries: seq<Entry>)

  function FormSubtotal(f: SaleForm): real {
    Subtotal(f.items, f.prices)
  }

  /** `parseFloat(text) || 0`, with `None` standing for NaN. */
  function ParsedOrZero(parsed: Option<real>): real {
    parsed.GetOr(0.0)
  }

  /** The row update of the method selector: store the id, and adopt the catalog
      discount only when it is truthy (present and non-zero). */
  function AdoptMethod(es: seq<Entry>, index: nat, methodId: int, catalogDiscount: Option<real>): (r: seq<Entry>)
    requires index < |es|
    ensures |r| == |es| && r[index].methodId == methodId && r[index].amount == es[index].amount
    ensures r[index].discount == (if catalogDiscount.Some? && catalogDiscount.value != 0.0 then catalogDiscount.value else es[index].discount)
    ensures forall i :: 0 <= i < |es| && i != index ==> r[i] == es[i]
  {
    var d := if catalogDiscount.Some? && catalogDiscount.value != 0.0 then catalogDiscount.value else es[index].discount;
    es[index := es[index].(methodId := methodId, discount := d)]
  }

  /** The "Agregar" button of the payment section: a fresh row `{0, 0, 0}` at the end. */
  function AddRow(f: SaleForm): (r: SaleForm)
    ensures |r.entries| == |f.entries| + 1 && r.entries[..|f.entries|] == f.entries
    ensures r.entries[|f.entries|] == Entry(0, 0.0, 0.0)
    ensures r.items == f.items && r.prices == f.prices
  {
    f.(entries := f.entries + [Entry(0, 0.0, 0.0)])
  }

  /** The delete button of row `index`, shown only while there is more than one row. */
  function RemoveRow(f: SaleForm, index: nat): (r: SaleForm)
    requires index < |f.entries| && |f.entries| > 1
    ensures |r.entries| == |f.entries| - 1 && |r.entries| >= 1
    ensures forall k :: 0 <= k < |r.entries| ==> r.entries[k] == f.entries[ActualIndex(k, index)]
  {
    f.(entries := RemoveAt(f.entries, index))
  }

  /** Deleting the row just added gives the form back, and an added row never changes
      what the form charges for. */
  lemma RemoveUndoesAddRow(f: SaleForm)
    requires |f.entries| >= 1
    ensures RemoveRow(AddRow(f), |f.entries|) == f
    ensures TotalPaid(AddRow(f).entries) == TotalPaid(f.entries)
  {
    var added := AddRow(f).entries;
    assert added[..|f.entries|] == f.entries;
    assert RemoveAt(added, |f.entries|) == f.entries;
    SumAppend(Amounts(f.entries), [0.0]);
    assert Amounts(added) == Amounts(f.entries) + [0.0];
  }
}
