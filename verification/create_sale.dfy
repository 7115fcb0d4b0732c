/** The create-sale form (`CreateSalePage`): the ordered-sequential split of the
    subtotal over the payment rows, the redistribution after one amount is typed,
    the payment-row event handlers and the submit step. */
module CreateSale {
  import opened Common
  import opened SaleCommon

  /** The sequential split divides by `1 - d/100` for every row but the last. */
  predicate SequentialSafe(ds: seq<real>) {
    forall i :: 0 <= i < |ds| - 1 ==> ds[i] != 100.0
  }

  /** Every discount lies in `[0, 100)`, the range the conservation properties need. */
  predicate ValidDiscounts(es: seq<Entry>) {
    forall i :: 0 <= i < |es| ==> 0.0 <= es[i].discount < 100.0
  }

  /** The `forEach` loop of `distributePaymentMethods` (and of
      `redistributeRemainingAmounts` over the other rows) for `n = |ds| >= 1` rows:
      every row but the last is charged an equal share of what is still uncovered,
      after its discount; what it covers is taken off; the last row is charged the
      rest, after its discount. Every amount goes through `max(0, ·)`. */
  function SplitSequential(ds: seq<real>, remaining: real): (amounts: seq<real>)
    requires |ds| >= 1 && SequentialSafe(ds)
    ensures |amounts| == |ds|
    ensures forall i :: 0 <= i < |amounts| ==> amounts[i] >= 0.0
    decreases |ds|
  {
    if |ds| == 1 then [Max0(remaining * Factor(ds[0]))]
    else [Max0(StepAmount(ds[0], remaining, |ds|))] + SplitSequential(ds[1..], StepRest(ds[0], remaining, |ds|))
  }

  /** What a row with discount `d` is charged when `remaining` is still uncovered
      and `n` rows are left: an equal share, after the discount. */
  function StepAmount(d: real, remaining: real, n: nat): real
    requires n >= 1
  {
    remaining / (n as real) * Factor(d)
  }

  /** What is still uncovered after that row is charged. */
  function StepRest(d: real, remaining: real, n: nat): real
    requires n >= 1 && d != 100.0
  {
    remaining - CreateCoverage(StepAmount(d, remaining, n), d)
  }

  /** `distributePaymentMethods`: resets every amount from the subtotal and the
      discounts. No rows: nothing changes. One row: the subtotal after that row's
      discount, without the `max(0, ·)` of the general case. */
  function Distribute(es: seq<Entry>, subtotal: real): (r: seq<Entry>)
    requires SequentialSafe(Discounts(es))
    ensures |r| == |es|
    ensures forall i :: 0 <= i < |es| ==> r[i].methodId == es[i].methodId && r[i].discount == es[i].discount
    ensures |es| > 1 ==> forall i :: 0 <= i < |r| ==> r[i].amount >= 0.0
  {
    if |es| == 0 then es
    else if |es| == 1 then [es[0].(amount := subtotal * Factor(es[0].discount))]
    else WithAmounts(es, SplitSequential(Discounts(es), subtotal))
  }

  /** One step of the split for a row with a valid discount: it is charged a
      non-negative amount that covers exactly `remaining / n`, and what is left to
      cover stays non-negative. */
  lemma StepCovers(d: real, remaining: real, n: nat)
    requires n >= 2 && remaining >= 0.0 && 0.0 <= d < 100.0
    ensures StepAmount(d, remaining, n) >= 0.0
    ensures CreateCoverage(StepAmount(d, remaining, n), d) == remaining / (n as real)
    ensures StepRest(d, remaining, n) == remaining - remaining / (n as real) >= 0.0
  {
    var share := remaining / (n as real);
    ShareBounds(remaining, n as real);
    DiscountedNonNegative(share, d);
    CoverageUndoesDiscount(share, d);
  }

  lemma DiscountedNonNegative(x: real, d: real)
    requires x >= 0.0 && d < 100.0
    ensures x * Factor(d) >= 0.0
  {
  }

  lemma ShareBounds(remaining: real, n: real)
    requires remaining >= 0.0 && n >= 2.0
    ensures 0.0 <= remaining / n <= remaining
  {
  }

  /** The coverage sum splits into the first row and the rest. */
  lemma SumCoverageWithAmountsCons(es: seq<Entry>, amounts: seq<real>)
    requires |es| >= 1 && |amounts| == |es| && NoFullDiscount(es)
    ensures NoFullDiscount(WithAmounts(es, amounts))
    ensures SumCoverage(WithAmounts(es, amounts))
         == CreateCoverage(amounts[0], es[0].discount) + SumCoverage(WithAmounts(es[1..], amounts[1..]))
  {
    assert WithAmounts(es, amounts)[1..] == WithAmounts(es[1..], amounts[1..]);
  }

  /** The sequential split over rows with valid discounts covers exactly its target. */
  lemma {:induction false} SplitConserves(es: seq<Entry>, remaining: real)
    requires |es| >= 1 && remaining >= 0.0
    requires ValidDiscounts(es)
    ensures SumCoverage(WithAmounts(es, SplitSequential(Discounts(es), remaining))) == remaining
    decreases |es|
  {
    var ds := Discounts(es);
    var amounts := SplitSequential(ds, remaining);
    SumCoverageWithAmountsCons(es, amounts);
    var first := CreateCoverage(amounts[0], es[0].discount);
    var others := SumCoverage(WithAmounts(es[1..], amounts[1..]));
    if |es| == 1 {
      assert first == remaining by {
        assert Factor(ds[0]) > 0.0;
        assert remaining * Factor(ds[0]) >= 0.0;
        CoverageUndoesDiscount(remaining, ds[0]);
        assert amounts[0] == remaining * Factor(ds[0]);
      }
      assert others == 0.0 by {
        assert WithAmounts(es[1..], amounts[1..]) == [];
      }
    } else {
      var share := remaining / (|ds| as real);
      var rest := StepRest(ds[0], remaining, |ds|);
      StepCovers(ds[0], remaining, |ds|);
      SplitSequentialCons(ds, remaining);
      assert Discounts(es[1..]) == ds[1..];
      SplitConserves(es[1..], rest);
      assert first == share;
      assert others == rest;
    }
  }

  /** The sequential split of two or more rows is the first step followed by the split
      of the rest. */
  lemma SplitSequentialCons(ds: seq<real>, remaining: real)
    requires |ds| >= 2 && SequentialSafe(ds)
    ensures SequentialSafe(ds[1..])
    ensures SplitSequential(ds, remaining)[0] == Max0(StepAmount(ds[0], remaining, |ds|))
    ensures SplitSequential(ds, remaining)[1..] == SplitSequential(ds[1..], StepRest(ds[0], remaining, |ds|))
  {
  }

  /** Coverage conservation: with a non-negative subtotal and every discount in
      `[0, 100)`, the rows cover exactly the subtotal after distribution. */
  lemma DistributeConserves(es: seq<Entry>, subtotal: real)
    requires |es| >= 1 && subtotal >= 0.0
    requires ValidDiscounts(es)
    ensures NoFullDiscount(Distribute(es, subtotal))
    ensures SumCoverage(Distribute(es, subtotal)) == subtotal
  {
    if |es| == 1 {
      assert Distribute(es, subtotal) == [es[0].(amount := subtotal * Factor(es[0].discount))];
      SingleRowCovers(es[0], subtotal);
    } else {
      SplitConserves(es, subtotal);
    }
  }

  /** A single row charged the subtotal after its discount covers exactly the subtotal. */
  lemma SingleRowCovers(e: Entry, subtotal: real)
    requires 0.0 <= e.discount < 100.0
    ensures NoFullDiscount([e.(amount := subtotal * Factor(e.discount))])
    ensures SumCoverage([e.(amount := subtotal * Factor(e.discount))]) == subtotal
  {
    var row := e.(amount := subtotal * Factor(e.discount));
    assert [row][1..] == [];
    assert SumCoverage([row]) == CreateCoverage(row.amount, row.discount) + SumCoverage([]);
    CoverageUndoesDiscount(subtotal, e.discount);
  }

  /** A single row is charged exactly the subtotal after its discount ... */
  lemma SingleEntryExact(es: seq<Entry>, subtotal: real)
    requires |es| == 1
    ensures SequentialSafe(Discounts(es))
    ensures Distribute(es, subtotal) == [Entry(es[0].methodId, es[0].discount, subtotal * Factor(es[0].discount))]
  {
  }

  /** ... which is negative for a discount above 100, since that branch has no clamp ... */
  lemma SingleEntryCanGoNegative()
    ensures Distribute([Entry(1, 150.0, 0.0)], 100.0)[0].amount == -50.0
  {
  }

  /** ... and zero, not a division by zero, for a discount of exactly 100. */
  lemma SingleEntryFullDiscount(methodId: int, subtotal: real)
    ensures Distribute([Entry(methodId, 100.0, 0.0)], subtotal)[0].amount == 0.0
  {
  }

  /** Distribution reads only the discounts, so running it twice changes nothing more. */
  lemma DistributeIdempotent(es: seq<Entry>, subtotal: real)
    requires SequentialSafe(Discounts(es))
    ensures SequentialSafe(Discounts(Distribute(es, subtotal)))
    ensures Distribute(Distribute(es, subtotal), subtotal) == Distribute(es, subtotal)
  {
    var r := Distribute(es, subtotal);
    assert Discounts(r) == Discounts(es);
    assert SequentialSafe(Discounts(r));
    if |es| == 1 {
      SingleEntryExact(es, subtotal);
      SingleEntryExact(r, subtotal);
      var r2 := Distribute(r, subtotal);
      assert r2[0] == r[0];
      assert r2 == r;
    } else if |es| > 1 {
      var a := SplitSequential(Discounts(es), subtotal);
      assert forall i :: 0 <= i < |es| ==> r[i].(amount := a[i]) == es[i].(amount := a[i]);
    }
  }

  /** Two rows without discount split 100 evenly. */
  lemma ScenarioEvenSplit()
    ensures Distribute([Entry(1, 0.0, 0.0), Entry(2, 0.0, 0.0)], 100.0) == [Entry(1, 0.0, 50.0), Entry(2, 0.0, 50.0)]
  {
    var es := [Entry(1, 0.0, 0.0), Entry(2, 0.0, 0.0)];
    assert Discounts(es) == [0.0, 0.0];
    assert SplitSequential([0.0, 0.0], 100.0) == [50.0, 50.0];
  }

  /** A 10% discount on the second row: it covers the remaining 50 by paying 45. */
  lemma ScenarioOrderMatters()
    ensures Distribute([Entry(1, 0.0, 0.0), Entry(2, 10.0, 0.0)], 100.0) == [Entry(1, 0.0, 50.0), Entry(2, 10.0, 45.0)]
  {
    var es := [Entry(1, 0.0, 0.0), Entry(2, 10.0, 0.0)];
    assert Discounts(es) == [0.0, 10.0];
    assert SplitSequential([10.0], 50.0) == [45.0];
    assert SplitSequential([0.0, 10.0], 100.0) == [50.0, 45.0];
  }

  /** What the other rows must still cover after the modified row is charged
      `newAmount`: `max(0, subtotal − coverage)`. */
  function RemainingToCover(es: seq<Entry>, subtotal: real, modified: nat, newAmount: real): (t: real)
    requires modified < |es| && es[modified].discount != 100.0
    ensures t >= 0.0
    ensures subtotal >= CreateCoverage(newAmount, es[modified].discount) ==>
      t + CreateCoverage(newAmount, es[modified].discount) == subtotal
  {
    Max0(subtotal - CreateCoverage(newAmount, es[modified].discount))
  }

  /** `redistributeRemainingAmounts`: the sequential split of `RemainingToCover` over
      the rows other than `modified`, in their original order, written back through
      `actualIndex`. The modified row itself is never written. */
  function Redistribute(es: seq<Entry>, subtotal: real, modified: nat, newAmount: real): (r: seq<Entry>)
    requires modified < |es| && es[modified].discount != 100.0
    requires SequentialSafe(Discounts(RemoveAt(es, modified)))
    ensures |r| == |es|
    ensures r[modified] == es[modified]
    ensures forall i :: 0 <= i < |es| ==> r[i].methodId == es[i].methodId && r[i].discount == es[i].discount
    ensures forall i :: 0 <= i < |es| && i != modified ==> r[i].amount >= 0.0
    ensures |es| == 1 ==> r == es
  {
    var others := RemoveAt(es, modified);
    if |others| == 0 then es
    else
      var amounts := SplitSequential(Discounts(others), RemainingToCover(es, subtotal, modified, newAmount));
      var r := WriteBack(es, modified, amounts);
      ActualIndexBijective(|es|, modified);
      assert forall i :: 0 <= i < |es| && i != modified ==> r[i] == es[i].(amount := amounts[OtherIndex(i, modified)]);
      r
  }

  /** Removing one row from the coverage sum takes exactly that row's coverage off. */
  lemma {:induction false} SumCoverageRemoveAt(es: seq<Entry>, k: nat)
    requires k < |es| && NoFullDiscount(es)
    ensures NoFullDiscount(RemoveAt(es, k))
    ensures SumCoverage(es) == CreateCoverage(es[k].amount, es[k].discount) + SumCoverage(RemoveAt(es, k))
    decreases |es|
  {
    if k == 0 {
      assert RemoveAt(es, 0) == es[1..];
    } else {
      SumCoverageRemoveAt(es[1..], k - 1);
      assert RemoveAt(es, k) == [es[0]] + RemoveAt(es[1..], k - 1);
      assert RemoveAt(es, k)[1..] == RemoveAt(es[1..], k - 1);
    }
  }

  /** The other rows cover exactly what the modified row leaves uncovered. */
  lemma RedistributeConserves(es: seq<Entry>, subtotal: real, modified: nat, newAmount: real)
    requires 1 < |es| && modified < |es|
    requires ValidDiscounts(es)
    ensures NoFullDiscount(RemoveAt(Redistribute(es, subtotal, modified, newAmount), modified))
    ensures SumCoverage(RemoveAt(Redistribute(es, subtotal, modified, newAmount), modified))
         == RemainingToCover(es, subtotal, modified, newAmount)
  {
    var others := RemoveAt(es, modified);
    assert ValidDiscounts(others);
    SplitConserves(others, RemainingToCover(es, subtotal, modified, newAmount));
  }

  /** When the typed row does not over-cover the subtotal and holds `newAmount`, the
      whole form covers the subtotal again. */
  lemma RedistributeSettles(es: seq<Entry>, subtotal: real, modified: nat, newAmount: real)
    requires 1 < |es| && modified < |es|
    requires ValidDiscounts(es)
    requires es[modified].amount == newAmount
    requires subtotal >= CreateCoverage(newAmount, es[modified].discount)
    ensures NoFullDiscount(Redistribute(es, subtotal, modified, newAmount))
    ensures SumCoverage(Redistribute(es, subtotal, modified, newAmount)) == subtotal
  {
    var r := Redistribute(es, subtotal, modified, newAmount);
    RedistributeConserves(es, subtotal, modified, newAmount);
    SumCoverageRemoveAt(r, modified);
  }

  /** Editing row 0 of `[50 @ 0%, 45 @ 10%]` to 80 leaves 20 to cover, paid as 18. */
  lemma ScenarioManualEdit()
    ensures Redistribute([Entry(1, 0.0, 80.0), Entry(2, 10.0, 45.0)], 100.0, 0, 80.0)
         == [Entry(1, 0.0, 80.0), Entry(2, 10.0, 18.0)]
  {
    var es := [Entry(1, 0.0, 80.0), Entry(2, 10.0, 45.0)];
    assert RemoveAt(es, 0) == [Entry(2, 10.0, 45.0)];
    assert Discounts([Entry(2, 10.0, 45.0)]) == [10.0];
    assert RemainingToCover(es, 100.0, 0, 80.0) == 20.0;
    assert SplitSequential([10.0], 20.0) == [18.0];
  }

  /** Selecting a payment method in row `index`, then re-running the full distribution. */
  function SelectMethod(f: SaleForm, index: nat, methodId: int, catalogDiscount: Option<real>): (r: SaleForm)
    requires index < |f.entries|
    requires SequentialSafe(Discounts(AdoptMethod(f.entries, index, methodId, catalogDiscount)))
    ensures r.items == f.items && r.prices == f.prices && |r.entries| == |f.entries|
    ensures r.entries[index].methodId == methodId
    ensures catalogDiscount.Some? && catalogDiscount.value != 0.0 ==> r.entries[index].discount == catalogDiscount.value
    ensures catalogDiscount.None? || catalogDiscount.value == 0.0 ==> r.entries[index].discount == f.entries[index].discount
    ensures forall i :: 0 <= i < |f.entries| && i != index ==>
      r.entries[i].methodId == f.entries[i].methodId && r.entries[i].discount == f.entries[i].discount
    ensures FormSubtotal(f) >= 0.0 && ValidDiscounts(r.entries) ==>
      NoFullDiscount(r.entries) && SumCoverage(r.entries) == FormSubtotal(f)
  {
    var es := AdoptMethod(f.entries, index, methodId, catalogDiscount);
    var r := f.(entries := Distribute(es, FormSubtotal(f)));
    if FormSubtotal(f) >= 0.0 && ValidDiscounts(r.entries) then
      assert ValidDiscounts(es);
      DistributeConserves(es, FormSubtotal(f));
      r
    else r
  }

  /** Typing a discount into row `index`: store `parseFloat || 0`, then re-distribute. */
  function EditDiscount(f: SaleForm, index: nat, parsed: Option<real>): (r: SaleForm)
    requires index < |f.entries|
    requires SequentialSafe(Discounts(f.entries[index := f.entries[index].(discount := ParsedOrZero(parsed))]))
    ensures r.items == f.items && r.prices == f.prices && |r.entries| == |f.entries|
    ensures r.entries[index].discount == ParsedOrZero(parsed)
    ensures forall i :: 0 <= i < |f.entries| ==> r.entries[i].methodId == f.entries[i].methodId
    ensures forall i :: 0 <= i < |f.entries| && i != index ==> r.entries[i].discount == f.entries[i].discount
    ensures FormSubtotal(f) >= 0.0 && ValidDiscounts(r.entries) ==>
      NoFullDiscount(r.entries) && SumCoverage(r.entries) == FormSubtotal(f)
  {
    var es := f.entries[index := f.entries[index].(discount := ParsedOrZero(parsed))];
    var r := f.(entries := Distribute(es, FormSubtotal(f)));
    if FormSubtotal(f) >= 0.0 && ValidDiscounts(r.entries) then
      assert ValidDiscounts(es);
      DistributeConserves(es, FormSubtotal(f));
      r
    else r
  }

  /** Typing an amount into row `index`: store `parseFloat || 0` in that row, then
      redistribute the others with that same value passed explicitly. */
  function TypeAmount(f: SaleForm, index: nat, parsed: Option<real>): (r: SaleForm)
    requires index < |f.entries| && f.entries[index].discount != 100.0
    requires SequentialSafe(Discounts(RemoveAt(f.entries, index)))
    ensures r.items == f.items && r.prices == f.prices && |r.entries| == |f.entries|
    ensures r.entries[index] == f.entries[index].(amount := ParsedOrZero(parsed))
    ensures forall i :: 0 <= i < |f.entries| ==>
      r.entries[i].methodId == f.entries[i].methodId && r.entries[i].discount == f.entries[i].discount
    ensures forall i :: 0 <= i < |f.entries| && i != index ==> r.entries[i].amount >= 0.0
    ensures 1 < |f.entries| && ValidDiscounts(f.entries) &&
            FormSubtotal(f) >= CreateCoverage(ParsedOrZero(parsed), f.entries[index].discount) ==>
      NoFullDiscount(r.entries) && SumCoverage(r.entries) == FormSubtotal(f)
  {
    var v := ParsedOrZero(parsed);
    var es := f.entries[index := f.entries[index].(amount := v)];
    assert RemoveAt(es, index) == RemoveAt(f.entries, index);
    var r := f.(entries := Redistribute(es, FormSubtotal(f), index, v));
    if 1 < |f.entries| && ValidDiscounts(f.entries) && FormSubtotal(f) >= CreateCoverage(v, f.entries[index].discount) then
      assert ValidDiscounts(es);
      RedistributeSettles(es, FormSubtotal(f), index, v);
      r
    else r
  }

  /** The effect of the create page that re-runs `distributePaymentMethods` whenever
      the selected products, the product rows or the payment rows change. */
  function Settle(f: SaleForm): (r: SaleForm)
    requires SequentialSafe(Discounts(f.entries))
    ensures r.items == f.items && r.prices == f.prices && |r.entries| == |f.entries|
    ensures forall i :: 0 <= i < |f.entries| ==>
      r.entries[i].methodId == f.entries[i].methodId && r.entries[i].discount == f.entries[i].discount
    ensures |f.entries| >= 1 && FormSubtotal(f) >= 0.0 && ValidDiscounts(f.entries) ==>
      NoFullDiscount(r.entries) && SumCoverage(r.entries) == FormSubtotal(f)
  {
    var r := f.(entries := Distribute(f.entries, FormSubtotal(f)));
    if |f.entries| >= 1 && FormSubtotal(f) >= 0.0 && ValidDiscounts(f.entries) then
      DistributeConserves(f.entries, FormSubtotal(f));
      r
    else r
  }

  /** The create page's "Agregar" button of the payment section: a fresh `{0, 0, 0}`
      row, after which the effect re-splits every row. */
  function AddPaymentRow(f: SaleForm): (r: SaleForm)
    requires forall i :: 0 <= i < |f.entries| ==> f.entries[i].discount != 100.0
    ensures r.items == f.items && r.prices == f.prices && |r.entries| == |f.entries| + 1
    ensures forall i :: 0 <= i < |f.entries| ==>
      r.entries[i].methodId == f.entries[i].methodId && r.entries[i].discount == f.entries[i].discount
    ensures r.entries[|f.entries|].methodId == 0 && r.entries[|f.entries|].discount == 0.0
    ensures FormSubtotal(f) >= 0.0 && ValidDiscounts(f.entries) ==>
      NoFullDiscount(r.entries) && SumCoverage(r.entries) == FormSubtotal(f)
  {
    var added := AddRow(f);
    assert forall i :: 0 <= i < |f.entries| ==> added.entries[i] == f.entries[i];
    Settle(added)
  }

  /** The create page's delete button of payment row `index`, after which the effect
      re-splits the remaining rows. */
  function RemovePaymentRow(f: SaleForm, index: nat): (r: SaleForm)
    requires index < |f.entries| && |f.entries| > 1
    requires SequentialSafe(Discounts(RemoveAt(f.entries, index)))
    ensures r.items == f.items && r.prices == f.prices && |r.entries| == |f.entries| - 1
    ensures forall k :: 0 <= k < |r.entries| ==>
      r.entries[k].methodId == f.entries[ActualIndex(k, index)].methodId &&
      r.entries[k].discount == f.entries[ActualIndex(k, index)].discount
    ensures FormSubtotal(f) >= 0.0 && ValidDiscounts(f.entries) ==>
      NoFullDiscount(r.entries) && SumCoverage(r.entries) == FormSubtotal(f)
  {
    var removed := RemoveRow(f, index);
    assert forall k :: 0 <= k < |removed.entries| ==> removed.entries[k] == f.entries[ActualIndex(k, index)];
    Settle(removed)
  }

  /** `parseInt(text) || 1` of the quantity input, with `None` standing for NaN. */
  function QuantityOrOne(parsed: Option<int>): (q: int)
    ensures q != 0
    ensures parsed.Some? && parsed.value != 0 ==> q == parsed.value
    ensures parsed.None? || parsed.value == 0 ==> q == 1
  {
    if parsed.Some? && parsed.value != 0 then parsed.value else 1
  }

  /** The product selector of product row `index`: store the id, remember the chosen
      product's price under that row index (or forget it when nothing is chosen), then
      the effect re-splits the payment rows over the new subtotal. */
  function SelectProduct(f: SaleForm, index: nat, productId: int, price: Option<real>): (r: SaleForm)
    requires index < |f.items| && SequentialSafe(Discounts(f.entries))
    ensures |r.items| == |f.items| && r.items[index] == f.items[index].(productId := productId)
    ensures forall i :: 0 <= i < |f.items| && i != index ==> r.items[i] == f.items[i]
    ensures price.Some? ==> r.prices == f.prices[index := price.value]
    ensures price.None? ==> index !in r.prices && forall k :: k in f.prices && k != index ==> k in r.prices && r.prices[k] == f.prices[k]
    ensures price.None? ==> forall k :: k in r.prices ==> k in f.prices
    ensures |r.entries| == |f.entries| && forall i :: 0 <= i < |f.entries| ==>
      r.entries[i].methodId == f.entries[i].methodId && r.entries[i].discount == f.entries[i].discount
    ensures |f.entries| >= 1 && FormSubtotal(r) >= 0.0 && ValidDiscounts(f.entries) ==>
      NoFullDiscount(r.entries) && SumCoverage(r.entries) == FormSubtotal(r)
  {
    var prices := if price.Some? then f.prices[index := price.value] else f.prices - {index};
    Settle(f.(items := f.items[index := f.items[index].(productId := productId)], prices := prices))
  }

  /** The quantity input of product row `index`: store `parseInt || 1`. This is a
      nested write into the product rows, like the effect's own writes into the
      payment rows, so it does not re-run the effect by itself. */
  function SetQuantity(f: SaleForm, index: nat, parsed: Option<int>): (r: SaleForm)
    requires index < |f.items|
    ensures |r.items| == |f.items| && r.items[index].productId == f.items[index].productId
    ensures r.items[index].quantity == QuantityOrOne(parsed) && r.items[index].quantity != 0
    ensures forall i :: 0 <= i < |f.items| && i != index ==> r.items[i] == f.items[i]
    ensures r.prices == f.prices && r.entries == f.entries
  {
    f.(items := f.items[index := f.items[index].(quantity := QuantityOrOne(parsed))])
  }

  /** A quantity change leaves the payment rows as they were, so they cover the new
      subtotal only once the effect next runs (after a product change, a row added or
      removed, or a mount); then they do, and the quantity typed is what is charged for. */
  lemma SetQuantityThenSettle(f: SaleForm, index: nat, parsed: Option<int>)
    requires index < |f.items| && SequentialSafe(Discounts(f.entries))
    ensures SetQuantity(f, index, parsed).entries == f.entries
    ensures var r := Settle(SetQuantity(f, index, parsed));
      r.items[index].quantity == QuantityOrOne(parsed) &&
      (|f.entries| >= 1 && FormSubtotal(r) >= 0.0 && ValidDiscounts(f.entries) ==>
        NoFullDiscount(r.entries) && SumCoverage(r.entries) == FormSubtotal(r))
  {
  }

  /** The "Agregar" button of the product section: a fresh `{0, 1}` row, then the
      effect re-splits the payment rows. */
  function AddProductRow(f: SaleForm): (r: SaleForm)
    requires SequentialSafe(Discounts(f.entries))
    ensures r.items == f.items + [SaleItem(0, 1)] && r.prices == f.prices
    ensures |r.entries| == |f.entries| && forall i :: 0 <= i < |f.entries| ==>
      r.entries[i].methodId == f.entries[i].methodId && r.entries[i].discount == f.entries[i].discount
    ensures |f.entries| >= 1 && FormSubtotal(r) >= 0.0 && ValidDiscounts(f.entries) ==>
      NoFullDiscount(r.entries) && SumCoverage(r.entries) == FormSubtotal(r)
  {
    Settle(f.(items := f.items + [SaleItem(0, 1)]))
  }

  /** The delete button of product row `index`. The remembered prices stay keyed by
      the old row indices, as `selectedProducts` is not re-indexed; then the effect
      re-splits the payment rows. */
  function RemoveProductRow(f: SaleForm, index: nat): (r: SaleForm)
    requires index < |f.items| && |f.items| > 1 && SequentialSafe(Discounts(f.entries))
    ensures |r.items| == |f.items| - 1 && r.prices == f.prices
    ensures forall k :: 0 <= k < |r.items| ==> r.items[k] == f.items[ActualIndex(k, index)]
    ensures |r.entries| == |f.entries| && forall i :: 0 <= i < |f.entries| ==>
      r.entries[i].methodId == f.entries[i].methodId && r.entries[i].discount == f.entries[i].discount
    ensures |f.entries| >= 1 && FormSubtotal(r) >= 0.0 && ValidDiscounts(f.entries) ==>
      NoFullDiscount(r.entries) && SumCoverage(r.entries) == FormSubtotal(r)
  {
    Settle(f.(items := RemoveAt(f.items, index)))
  }

  /** Deleting product row 0 of two leaves row 1's product priced at row 0's old price:
      the prices stay keyed by the old row indices. */
  lemma RemoveProductRowKeepsStalePrice()
    ensures var f := SaleForm([SaleItem(1, 1), SaleItem(2, 1)], map[0 := 10.0, 1 := 30.0], [Entry(0, 0.0, 0.0)]);
            FormSubtotal(RemoveProductRow(f, 0)) == 10.0
  {
    var f := SaleForm([SaleItem(1, 1), SaleItem(2, 1)], map[0 := 10.0, 1 := 30.0], [Entry(0, 0.0, 0.0)]);
    var r := RemoveProductRow(f, 0);
    assert r.items == [SaleItem(2, 1)];
    assert SubtotalFrom(r.items, r.prices, 1) == 0.0;
  }

  /** The create request: the kept rows and `price = max(0, Σ amount)`. */
  datatype CreateSaleRequest = CreateSaleRequest(description: string, price: real,
                                                 saleItems: seq<SaleItem>, paymentMethods: seq<Entry>)

  /** `onSubmit`: the shared submit rules, shaped as a create request. */
  function OnSubmit(f: SaleForm, description: string): (r: Result<CreateSaleRequest, SubmitError>)
    ensures r.Err? <==> CheckSubmission(f.items, f.entries).Err?
    ensures r.Err? ==> r.error == CheckSubmission(f.items, f.entries).error
    ensures r.Ok? ==> r.value.price == Max0(TotalPaid(f.entries)) && r.value.description == description
    ensures r.Ok? ==> r.value.saleItems == Filter(f.items, HasProduct) && r.value.paymentMethods == Filter(f.entries, HasMethod)
    ensures r.Ok? ==> |r.value.saleItems| >= 1 && |r.value.paymentMethods| >= 1
  {
    match CheckSubmission(f.items, f.entries)
    case Err(e) => Err(e)
    case Ok(s) => Ok(CreateSaleRequest(description, s.total, s.items, s.payments))
  }
}
