/** The edit-sale form (`EditSalePage`): the proportional split of what remains after
    the discounts, rounded to cents, the redistribution after one amount is typed,
    loading a persisted sale into rows, the handlers and the submit step. */
module EditSale {
  import opened Common
  import opened SaleCommon

  /** The edit page's `calculateMethodCoverage`: 0 at a discount of 100 or more,
      otherwise the pre-discount value of `amount`. */
  function EditCoverage(amount: real, d: real): (c: real)
    ensures d >= 100.0 ==> c == 0.0
    ensures d < 100.0 ==> c * Factor(d) == amount
    ensures d < 100.0 && amount > 0.0 ==> c > 0.0
    ensures amount >= 0.0 ==> c >= 0.0
  {
    if d >= 100.0 then 0.0 else amount / Factor(d)
  }

  /** `Math.round(x * 100) / 100`: JavaScript rounds halves up, so this is
      `floor(100x + 1/2) / 100`. */
  function Round2(x: real): (r: real)
    ensures (r * 100.0).Floor as real == r * 100.0
  {
    (x * 100.0 + 0.5).Floor as real / 100.0
  }

  /** Rounding to cents moves a value by at most half a cent, and keeps it non-negative. */
  lemma Round2Close(x: real)
    ensures x - 0.005 < Round2(x) <= x + 0.005
    ensures x >= 0.0 ==> Round2(x) >= 0.0
  {
    var y := x * 100.0 + 0.5;
    assert y - 1.0 < y.Floor as real <= y;
  }

  /** A whole number of cents is left alone, so rounding twice is rounding once. */
  lemma Round2Idempotent(x: real)
    ensures Round2(Round2(x)) == Round2(x)
  {
    var k := (x * 100.0 + 0.5).Floor;
    assert Round2(x) * 100.0 == k as real;
    assert Round2(x) * 100.0 + 0.5 == k as real + 0.5;
    assert (k as real + 0.5).Floor == k;
  }

  /** Every element rounded to cents. */
  function RoundAll(xs: seq<real>): (r: seq<real>)
    ensures |r| == |xs|
    ensures forall i :: 0 <= i < |xs| ==> r[i] == Round2(xs[i])
  {
    seq(|xs|, i requires 0 <= i < |xs| => Round2(xs[i]))
  }

  /** Rounding every element moves the sum by at most half a cent per element. */
  lemma {:induction false} RoundAllSum(xs: seq<real>)
    ensures Sum(xs) - 0.005 * (|xs| as real) <= Sum(RoundAll(xs)) <= Sum(xs) + 0.005 * (|xs| as real)
    decreases |xs|
  {
    if |xs| > 0 {
      RoundAllSum(xs[1..]);
      Round2Close(xs[0]);
      assert RoundAll(xs)[1..] == RoundAll(xs[1..]);
    }
  }

  /** Rounded non-negative values stay non-negative. */
  lemma RoundAllNonNegative(xs: seq<real>)
    requires forall i :: 0 <= i < |xs| ==> xs[i] >= 0.0
    ensures forall i :: 0 <= i < |xs| ==> RoundAll(xs)[i] >= 0.0
  {
    forall i | 0 <= i < |xs|
      ensures RoundAll(xs)[i] >= 0.0
    {
      Round2Close(xs[i]);
    }
  }

  /** The weights of the proportional split: the coverage of `remaining` under each discount. */
  function Weights(remaining: real, ds: seq<real>): (ws: seq<real>)
    ensures |ws| == |ds|
    ensures forall i :: 0 <= i < |ds| ==> ws[i] == EditCoverage(remaining, ds[i])
    ensures remaining >= 0.0 ==> forall i :: 0 <= i < |ws| ==> ws[i] >= 0.0
    ensures remaining > 0.0 ==> forall i :: 0 <= i < |ws| ==> (ws[i] > 0.0 <==> ds[i] < 100.0)
  {
    seq(|ds|, i requires 0 <= i < |ds| => EditCoverage(remaining, ds[i]))
  }

  /** The unrounded split of `total` proportionally to the weights: `total * w / Σw`,
      falling back to an equal `total / n` when the weights sum to 0 or less. */
  function Shares(ws: seq<real>, total: real): (r: seq<real>)
    ensures |r| == |ws|
  {
    var s := Sum(ws);
    if s > 0.0 then Scaled(ws, total, s)
    else if |ws| == 0 then []
    else Repeat(|ws|, total / (|ws| as real))
  }

  /** `total * (w / s)` for every weight `w`. */
  function Scaled(ws: seq<real>, total: real, s: real): (r: seq<real>)
    requires s != 0.0
    ensures |r| == |ws|
    ensures forall i :: 0 <= i < |ws| ==> r[i] == total * (ws[i] / s)
  {
    if |ws| == 0 then [] else [total * (ws[0] / s)] + Scaled(ws[1..], total, s)
  }

  /** `n` copies of `c`. */
  function Repeat(n: nat, c: real): (r: seq<real>)
    ensures |r| == n && forall i :: 0 <= i < n ==> r[i] == c
  {
    if n == 0 then [] else [c] + Repeat(n - 1, c)
  }

  /** The scaled weights sum to `total * (Σw / s)`. */
  lemma {:induction false} SumScaled(ws: seq<real>, total: real, s: real)
    requires s != 0.0
    ensures Sum(Scaled(ws, total, s)) == total * (Sum(ws) / s)
    decreases |ws|
  {
    if |ws| > 0 {
      var xs := Scaled(ws, total, s);
      assert xs[1..] == Scaled(ws[1..], total, s);
      SumScaled(ws[1..], total, s);
      ScaleAdds(total, ws[0], Sum(ws[1..]), Sum(ws), s, xs[0], Sum(xs[1..]));
    }
  }

  lemma ScaleAdds(t: real, a: real, b: real, c: real, s: real, x: real, y: real)
    requires s != 0.0 && c == a + b && x == t * (a / s) && y == t * (b / s)
    ensures x + y == t * (c / s)
  {
    assert a / s + b / s == (a + b) / s;
  }

  /** `n` copies of `c` sum to `n * c`. */
  lemma {:induction false} SumRepeat(n: nat, c: real)
    ensures Sum(Repeat(n, c)) == (n as real) * c
    decreases n
  {
    if n > 0 {
      assert Repeat(n, c)[1..] == Repeat(n - 1, c);
      SumRepeat(n - 1, c);
    }
  }

  /** The unrounded shares of a non-empty split add up to exactly what is split. */
  lemma SharesSum(ws: seq<real>, total: real)
    requires |ws| >= 1
    ensures Sum(Shares(ws, total)) == total
  {
    var s := Sum(ws);
    if s > 0.0 {
      SumScaled(ws, total, s);
    } else {
      SumRepeat(|ws|, total / (|ws| as real));
    }
  }

  /** With positive total weight the shares are proportional to the weights: share
      `a` of row `i` times `s = Σw` is `total` times the row's weight ... */
  lemma SharesProportional(ws: seq<real>, total: real, i: nat, s: real, a: real)
    requires s == Sum(ws) && s > 0.0 && i < |ws|
    requires a == Shares(ws, total)[i]
    ensures a * s == total * ws[i]
  {
    SharesAreScaled(ws, total, i);
    ScaledCancels(ws, total, s, i);
  }

  lemma SharesAreScaled(ws: seq<real>, total: real, i: nat)
    requires Sum(ws) > 0.0 && i < |ws|
    ensures Shares(ws, total)[i] == Scaled(ws, total, Sum(ws))[i]
  {
  }

  lemma ScaledCancels(ws: seq<real>, total: real, s: real, i: nat)
    requires s != 0.0 && i < |ws|
    ensures Scaled(ws, total, s)[i] * s == total * ws[i]
  {
    ScaleCancels(total, ws[i], s);
  }

  /** ... and otherwise they are all equal. */
  lemma SharesEqualFallback(ws: seq<real>, total: real)
    requires Sum(ws) <= 0.0
    ensures forall i, j :: 0 <= i < |ws| && 0 <= j < |ws| ==> Shares(ws, total)[i] == Shares(ws, total)[j]
  {
  }

  lemma ScaleCancels(t: real, w: real, s: real)
    requires s != 0.0
    ensures t * (w / s) * s == t * w
  {
    var q := w / s;
    assert q * s == w;
  }

  /** Non-negative weights and total give non-negative shares. */
  lemma SharesNonNegative(ws: seq<real>, total: real)
    requires total >= 0.0
    requires forall i :: 0 <= i < |ws| ==> ws[i] >= 0.0
    ensures forall i :: 0 <= i < |ws| ==> Shares(ws, total)[i] >= 0.0
  {
    var s := Sum(ws);
    forall i | 0 <= i < |ws|
      ensures Shares(ws, total)[i] >= 0.0
    {
      if s > 0.0 {
        assert ws[i] / s >= 0.0;
      }
    }
  }

  /** `R = subtotal − calculateTotalDiscounts()`: what is left to charge once the
      discounts implied by the CURRENT amounts are taken off. */
  function Remaining(es: seq<Entry>, subtotal: real): real
    requires NoFullDiscount(es)
  {
    subtotal - TotalDiscounts(es)
  }

  /** `R` is the subtotal less what the rows cover beyond what they are charged; with no
      positive discount it is the subtotal itself. */
  lemma RemainingIsUncovered(es: seq<Entry>, subtotal: real)
    requires NoFullDiscount(es)
    ensures Remaining(es, subtotal) == subtotal - SumCoverage(es) + TotalPaid(es)
    ensures (forall i :: 0 <= i < |es| ==> es[i].discount <= 0.0) ==> Remaining(es, subtotal) == subtotal
  {
    TotalDiscountsIsCoverageMinusPaid(es);
  }

  /** The amounts of the general case of `distributePaymentMethods`: each row's share of
      `R`, proportional to its coverage of `R`, rounded to cents. */
  function ProportionalAmounts(ds: seq<real>, remaining: real): (amounts: seq<real>)
    ensures |amounts| == |ds|
  {
    RoundAll(Shares(Weights(remaining, ds), remaining))
  }

  /** The proportional amounts are non-negative and, all rows together, within half a
      cent per row of `R`. */
  lemma ProportionalAmountsSettle(ds: seq<real>, remaining: real)
    requires |ds| >= 1 && remaining > 0.0
    ensures forall i :: 0 <= i < |ds| ==> ProportionalAmounts(ds, remaining)[i] >= 0.0
    ensures var n := |ds| as real;
      remaining - 0.005 * n <= Sum(ProportionalAmounts(ds, remaining)) <= remaining + 0.005 * n
  {
    var ws := Weights(remaining, ds);
    SharesNonNegative(ws, remaining);
    RoundAllNonNegative(Shares(ws, remaining));
    SharesSum(ws, remaining);
    RoundAllSum(Shares(ws, remaining));
  }

  /** `distributePaymentMethods` of the edit page. No rows: nothing changes. `R <= 0`:
      only row 0 is set to 0. Discount percentages summing to 100 or more: every amount
      is 0. Otherwise every row gets its rounded proportional share of `R`. */
  function DistributeProportional(es: seq<Entry>, subtotal: real): (r: seq<Entry>)
    requires NoFullDiscount(es)
    ensures |r| == |es|
    ensures forall i :: 0 <= i < |es| ==> r[i].methodId == es[i].methodId && r[i].discount == es[i].discount
    ensures |es| == 0 ==> r == es
    ensures |es| > 0 && Remaining(es, subtotal) <= 0.0 ==>
      r[0].amount == 0.0 && forall i :: 1 <= i < |es| ==> r[i] == es[i]
    ensures |es| > 0 && Remaining(es, subtotal) > 0.0 && Sum(Discounts(es)) >= 100.0 ==>
      forall i :: 0 <= i < |es| ==> r[i].amount == 0.0
    ensures |es| > 0 && Remaining(es, subtotal) > 0.0 ==>
      forall i :: 0 <= i < |es| ==> r[i].amount >= 0.0
    ensures |es| > 0 && Remaining(es, subtotal) > 0.0 && Sum(Discounts(es)) < 100.0 ==>
      Amounts(r) == ProportionalAmounts(Discounts(es), Remaining(es, subtotal))
  {
    if |es| == 0 then es
    else
      var rem := Remaining(es, subtotal);
      if rem <= 0.0 then es[0 := es[0].(amount := 0.0)]
      else if Sum(Discounts(es)) >= 100.0 then WithAmounts(es, Repeat(|es|, 0.0))
      else
        ProportionalAmountsSettle(Discounts(es), rem);
        WithAmounts(es, ProportionalAmounts(Discounts(es), rem))
  }

  /** In the general case the rows are charged `R` in total, up to half a cent per row. */
  lemma DistributeProportionalSettles(es: seq<Entry>, subtotal: real)
    requires NoFullDiscount(es) && |es| >= 1
    requires Remaining(es, subtotal) > 0.0 && Sum(Discounts(es)) < 100.0
    ensures var rem := Remaining(es, subtotal);
      var n := |es| as real;
      var paid := TotalPaid(DistributeProportional(es, subtotal));
      rem - 0.005 * n <= paid <= rem + 0.005 * n
  {
    var rem := Remaining(es, subtotal);
    var amounts := ProportionalAmounts(Discounts(es), rem);
    ProportionalAmountsSettle(Discounts(es), rem);
    assert Amounts(DistributeProportional(es, subtotal)) == amounts;
  }

  /** Before rounding, the proportional split charges each row in proportion to its
      coverage of `R`, so a row with a larger discount is charged MORE. */
  lemma ScenarioLargerDiscountPaysMore()
    ensures Shares(Weights(90.0, [0.0, 50.0]), 90.0) == [30.0, 60.0]
  {
    var ws := Weights(90.0, [0.0, 50.0]);
    assert ws == [90.0, 180.0];
    assert Sum(ws) == 270.0;
  }

  /** What the other rows share after row `modified` is set to `newAmount`: 0 when
      `R <= 0`, otherwise `max(0, R − newAmount)`. */
  function OthersTarget(es: seq<Entry>, subtotal: real, newAmount: real): (t: real)
    requires NoFullDiscount(es)
    ensures t >= 0.0
    ensures Remaining(es, subtotal) > 0.0 && Remaining(es, subtotal) >= newAmount ==>
      t + newAmount == Remaining(es, subtotal)
  {
    var rem := Remaining(es, subtotal);
    if rem <= 0.0 then 0.0 else Max0(rem - newAmount)
  }

  /** `redistributeRemainingAmounts` of the edit page. The other rows, in order, get
      0 when `R <= 0` or `R − newAmount <= 0`, and otherwise their rounded share of
      `R − newAmount`, proportional to their coverage of `R` (equal shares when that
      coverage sums to 0). Row `modified` is never written. */
  function RedistributeProportional(es: seq<Entry>, subtotal: real, modified: nat, newAmount: real): (r: seq<Entry>)
    requires modified < |es| && NoFullDiscount(es)
    ensures |r| == |es|
    ensures r[modified] == es[modified]
    ensures forall i :: 0 <= i < |es| ==> r[i].methodId == es[i].methodId && r[i].discount == es[i].discount
    ensures forall i :: 0 <= i < |es| && i != modified ==> r[i].amount >= 0.0
    ensures OthersTarget(es, subtotal, newAmount) == 0.0 ==>
      forall i :: 0 <= i < |es| && i != modified ==> r[i].amount == 0.0
    ensures |es| == 1 ==> r == es
    ensures 1 < |es| && Remaining(es, subtotal) > 0.0 && Remaining(es, subtotal) - newAmount > 0.0 ==>
      Amounts(RemoveAt(r, modified)) ==
        RoundAll(Shares(Weights(Remaining(es, subtotal), Discounts(RemoveAt(es, modified))), Remaining(es, subtotal) - newAmount))
  {
    var others := RemoveAt(es, modified);
    var rem := Remaining(es, subtotal);
    if |others| == 0 then es
    else if rem <= 0.0 || rem - newAmount <= 0.0 then
      WriteBackAt(es, modified, Repeat(|others|, 0.0));
      WriteBack(es, modified, Repeat(|others|, 0.0))
    else
      var amounts := RoundAll(Shares(Weights(rem, Discounts(others)), rem - newAmount));
      SharesNonNegative(Weights(rem, Discounts(others)), rem - newAmount);
      RoundAllNonNegative(Shares(Weights(rem, Discounts(others)), rem - newAmount));
      WriteBackAt(es, modified, amounts);
      WriteBack(es, modified, amounts)
  }

  /** The other rows are charged `OthersTarget` in total, up to half a cent per row. */
  lemma RedistributeProportionalSettles(es: seq<Entry>, subtotal: real, modified: nat, newAmount: real)
    requires 1 < |es| && modified < |es| && NoFullDiscount(es)
    ensures var t := OthersTarget(es, subtotal, newAmount);
      var n := (|es| - 1) as real;
      var paid := TotalPaid(RemoveAt(RedistributeProportional(es, subtotal, modified, newAmount), modified));
      t - 0.005 * n <= paid <= t + 0.005 * n
  {
    var rem := Remaining(es, subtotal);
    if rem <= 0.0 || rem - newAmount <= 0.0 {
      RedistributeZeroed(es, subtotal, modified, newAmount);
    } else {
      RedistributeShared(es, subtotal, modified, newAmount);
    }
  }

  lemma RedistributeZeroed(es: seq<Entry>, subtotal: real, modified: nat, newAmount: real)
    requires 1 < |es| && modified < |es| && NoFullDiscount(es)
    requires Remaining(es, subtotal) <= 0.0 || Remaining(es, subtotal) - newAmount <= 0.0
    ensures OthersTarget(es, subtotal, newAmount) == 0.0
    ensures TotalPaid(RemoveAt(RedistributeProportional(es, subtotal, modified, newAmount), modified)) == 0.0
  {
    var r := RedistributeProportional(es, subtotal, modified, newAmount);
    assert OthersTarget(es, subtotal, newAmount) == 0.0;
    var others := RemoveAt(r, modified);
    assert forall i :: 0 <= i < |others| ==> others[i].amount == 0.0 by {
      forall i | 0 <= i < |others|
        ensures others[i].amount == 0.0
      {
        assert others[i] == r[ActualIndex(i, modified)];
      }
    }
    UnchargedRowsPayNothing(others);
  }

  /** Rows charged nothing add up to nothing. */
  lemma UnchargedRowsPayNothing(es: seq<Entry>)
    requires forall i :: 0 <= i < |es| ==> es[i].amount == 0.0
    ensures TotalPaid(es) == 0.0
  {
    assert Amounts(es) == Repeat(|es|, 0.0);
    SumRepeat(|es|, 0.0);
  }

  lemma RedistributeShared(es: seq<Entry>, subtotal: real, modified: nat, newAmount: real)
    requires 1 < |es| && modified < |es| && NoFullDiscount(es)
    requires Remaining(es, subtotal) > 0.0 && Remaining(es, subtotal) - newAmount > 0.0
    ensures var t := Remaining(es, subtotal) - newAmount;
      var n := (|es| - 1) as real;
      var paid := TotalPaid(RemoveAt(RedistributeProportional(es, subtotal, modified, newAmount), modified));
      t - 0.005 * n <= paid <= t + 0.005 * n
  {
    var rem := Remaining(es, subtotal);
    var t := rem - newAmount;
    var ws := Weights(rem, Discounts(RemoveAt(es, modified)));
    var r := RedistributeProportional(es, subtotal, modified, newAmount);
    assert Amounts(RemoveAt(r, modified)) == RoundAll(Shares(ws, t));
    RoundedSharesSum(ws, t);
  }

  /** The rounded shares of `total` add up to `total`, up to half a cent per share. */
  lemma RoundedSharesSum(ws: seq<real>, total: real)
    requires |ws| >= 1
    ensures var n := |ws| as real;
      total - 0.005 * n <= Sum(RoundAll(Shares(ws, total))) <= total + 0.005 * n
  {
    SharesSum(ws, total);
    RoundAllSum(Shares(ws, total));
  }

  /** Row by row: when `R > 0` and `R − newAmount > 0`, another row `j` is charged its
      share of `R − newAmount`, rounded to cents; its weight is its own coverage of `R`.
      With positive total weight `SharesProportional` pins the share to `R − newAmount`
      times that weight over the total; when the others' weights sum to 0 every other
      row gets the same `1/(n−1)` of `R − newAmount`. The parameters `rem`, `t` and `ws`
      name `R`, `R − newAmount` and the others' weights. */
  lemma RedistributeRowShare(es: seq<Entry>, subtotal: real, modified: nat, newAmount: real, j: nat,
                             rem: real, t: real, ws: seq<real>)
    requires modified < |es| && NoFullDiscount(es) && j < |es| && j != modified
    requires rem == Remaining(es, subtotal) && t == rem - newAmount && rem > 0.0 && t > 0.0
    requires ws == Weights(rem, Discounts(RemoveAt(es, modified)))
    ensures OtherIndex(j, modified) < |ws| == |es| - 1
    ensures ws[OtherIndex(j, modified)] == EditCoverage(rem, es[j].discount)
    ensures RedistributeProportional(es, subtotal, modified, newAmount)[j].amount
         == Round2(Shares(ws, t)[OtherIndex(j, modified)])
    ensures Sum(ws) <= 0.0 ==> Shares(ws, t)[OtherIndex(j, modified)] == t / (|ws| as real)
  {
    var k := OtherIndex(j, modified);
    assert k < |ws| == |es| - 1 && ws[k] == EditCoverage(rem, es[j].discount) by {
      RowWeight(es, rem, modified, j);
    }
    assert RedistributeProportional(es, subtotal, modified, newAmount)[j].amount == Round2(Shares(ws, t)[k]) by {
      RowIsRounded(es, subtotal, modified, newAmount, j, t, ws);
    }
    if Sum(ws) <= 0.0 {
      ShareAtFallback(ws, t, k);
    }
  }

  /** Without positive total weight a single share is `total / n`. */
  lemma ShareAtFallback(ws: seq<real>, total: real, k: nat)
    requires k < |ws| && Sum(ws) <= 0.0
    ensures Shares(ws, total)[k] == total / (|ws| as real)
  {
  }

  /** Row `j` of the redistributed rows holds the rounded share of its rank. */
  lemma RowIsRounded(es: seq<Entry>, subtotal: real, modified: nat, newAmount: real, j: nat,
                     t: real, ws: seq<real>)
    requires modified < |es| && NoFullDiscount(es) && j < |es| && j != modified
    requires Remaining(es, subtotal) > 0.0 && t == Remaining(es, subtotal) - newAmount && t > 0.0
    requires ws == Weights(Remaining(es, subtotal), Discounts(RemoveAt(es, modified)))
    ensures OtherIndex(j, modified) < |ws| &&
      RedistributeProportional(es, subtotal, modified, newAmount)[j].amount == Round2(Shares(ws, t)[OtherIndex(j, modified)])
  {
    var r := RedistributeProportional(es, subtotal, modified, newAmount);
    var k := OtherIndex(j, modified);
    assert k < |es| - 1 && ActualIndex(k, modified) == j by {
      ActualIndexBijective(|es|, modified);
    }
    var amounts := RoundAll(Shares(ws, t));
    assert Amounts(RemoveAt(r, modified)) == amounts by {
      SameShares(ws, t, Weights(Remaining(es, subtotal), Discounts(RemoveAt(es, modified))), Remaining(es, subtotal) - newAmount);
    }
    assert r[j].amount == amounts[k] by {
      assert RemoveAt(r, modified)[k] == r[j];
    }
  }

  lemma SameShares(ws: seq<real>, t: real, ws': seq<real>, t': real)
    requires ws == ws' && t == t'
    ensures RoundAll(Shares(ws, t)) == RoundAll(Shares(ws', t'))
  {
  }

  /** The weight at row `j`'s rank is row `j`'s coverage of `rem`. */
  lemma RowWeight(es: seq<Entry>, rem: real, modified: nat, j: nat)
    requires modified < |es| && j < |es| && j != modified
    ensures var ws := Weights(rem, Discounts(RemoveAt(es, modified)));
      OtherIndex(j, modified) < |ws| && ws[OtherIndex(j, modified)] == EditCoverage(rem, es[j].discount)
  {
    ActualIndexBijective(|es|, modified);
    assert RemoveAt(es, modified)[OtherIndex(j, modified)] == es[j];
  }

  /** What the proportional split leaves in the rows, stated without running it: the
      methods and discounts stay; with `R <= 0` row 0 is charged 0 and the others are
      untouched; with discount percentages summing to 100 or more every row is charged
      0; otherwise every row is charged a non-negative rounded proportional share, and
      all of them together `R` up to half a cent per row. */
  predicate Rebalanced(es: seq<Entry>, subtotal: real, out: seq<Entry>)
    requires NoFullDiscount(es)
  {
    |out| == |es| &&
    (forall i :: 0 <= i < |es| ==> out[i].methodId == es[i].methodId && out[i].discount == es[i].discount) &&
    var rem := Remaining(es, subtotal);
    var n := |es| as real;
    (|es| > 0 && rem <= 0.0 ==> out[0].amount == 0.0 && forall i :: 1 <= i < |es| ==> out[i] == es[i]) &&
    (|es| > 0 && rem > 0.0 ==> forall i :: 0 <= i < |es| ==> out[i].amount >= 0.0) &&
    (|es| > 0 && rem > 0.0 && Sum(Discounts(es)) >= 100.0 ==> forall i :: 0 <= i < |es| ==> out[i].amount == 0.0) &&
    (|es| > 0 && rem > 0.0 && Sum(Discounts(es)) < 100.0 ==>
      Amounts(out) == ProportionalAmounts(Discounts(es), rem) &&
      rem - 0.005 * n <= TotalPaid(out) <= rem + 0.005 * n)
  }

  /** `DistributeProportional` leaves the rows rebalanced. */
  lemma DistributeProportionalRebalances(es: seq<Entry>, subtotal: real)
    requires NoFullDiscount(es)
    ensures Rebalanced(es, subtotal, DistributeProportional(es, subtotal))
  {
    if |es| > 0 && Remaining(es, subtotal) > 0.0 && Sum(Discounts(es)) < 100.0 {
      DistributeProportionalSettles(es, subtotal);
    }
  }

  /** One persisted payment of a sale: method id, charged amount and the stored
      discount percentage, which may be missing. */
  datatype PersistedPayment = PersistedPayment(methodId: int, amount: real, discountPercentage: Option<real>)

  /** Loading a sale: one row per persisted payment, in order, with
      `discount = discount_percentage || 0`. */
  function LoadEntries(payments: seq<PersistedPayment>): (es: seq<Entry>)
    ensures |es| == |payments|
    ensures forall i :: 0 <= i < |payments| ==>
      es[i].methodId == payments[i].methodId && es[i].amount == payments[i].amount &&
      es[i].discount == payments[i].discountPercentage.GetOr(0.0)
  {
    seq(|payments|, i requires 0 <= i < |payments| =>
      Entry(payments[i].methodId, payments[i].discountPercentage.GetOr(0.0), payments[i].amount))
  }

  /** Selecting a payment method in row `index`, then re-running the proportional split. */
  function SelectMethod(f: SaleForm, index: nat, methodId: int, catalogDiscount: Option<real>): (r: SaleForm)
    requires index < |f.entries|
    requires NoFullDiscount(AdoptMethod(f.entries, index, methodId, catalogDiscount))
    ensures r.items == f.items && r.prices == f.prices && |r.entries| == |f.entries|
    ensures r.entries[index].methodId == methodId
    ensures catalogDiscount.Some? && catalogDiscount.value != 0.0 ==> r.entries[index].discount == catalogDiscount.value
    ensures catalogDiscount.None? || catalogDiscount.value == 0.0 ==> r.entries[index].discount == f.entries[index].discount
    ensures forall i :: 0 <= i < |f.entries| && i != index ==>
      r.entries[i].methodId == f.entries[i].methodId && r.entries[i].discount == f.entries[i].discount
    ensures Rebalanced(AdoptMethod(f.entries, index, methodId, catalogDiscount), FormSubtotal(f), r.entries)
  {
    var es := AdoptMethod(f.entries, index, methodId, catalogDiscount);
    DistributeProportionalRebalances(es, FormSubtotal(f));
    f.(entries := DistributeProportional(es, FormSubtotal(f)))
  }

  /** Typing a discount into row `index`: store `parseFloat || 0`, then re-run the split. */
  function EditDiscount(f: SaleForm, index: nat, parsed: Option<real>): (r: SaleForm)
    requires index < |f.entries|
    requires NoFullDiscount(f.entries[index := f.entries[index].(discount := ParsedOrZero(parsed))])
    ensures r.items == f.items && r.prices == f.prices && |r.entries| == |f.entries|
    ensures r.entries[index].discount == ParsedOrZero(parsed)
    ensures forall i :: 0 <= i < |f.entries| ==> r.entries[i].methodId == f.entries[i].methodId
    ensures forall i :: 0 <= i < |f.entries| && i != index ==> r.entries[i].discount == f.entries[i].discount
    ensures Rebalanced(f.entries[index := f.entries[index].(discount := ParsedOrZero(parsed))], FormSubtotal(f), r.entries)
  {
    var es := f.entries[index := f.entries[index].(discount := ParsedOrZero(parsed))];
    DistributeProportionalRebalances(es, FormSubtotal(f));
    f.(entries := DistributeProportional(es, FormSubtotal(f)))
  }

  /** Typing an amount into row `index`: store `parseFloat || 0` in that row, then
      redistribute the others with that same value; `R` is computed from the rows
      that already hold the new amount. */
  function TypeAmount(f: SaleForm, index: nat, parsed: Option<real>): (r: SaleForm)
    requires index < |f.entries| && NoFullDiscount(f.entries)
    ensures r.items == f.items && r.prices == f.prices && |r.entries| == |f.entries|
    ensures r.entries[index] == f.entries[index].(amount := ParsedOrZero(parsed))
    ensures forall i :: 0 <= i < |f.entries| ==>
      r.entries[i].methodId == f.entries[i].methodId && r.entries[i].discount == f.entries[i].discount
    ensures forall i :: 0 <= i < |f.entries| && i != index ==> r.entries[i].amount >= 0.0
  {
    var v := ParsedOrZero(parsed);
    var es := f.entries[index := f.entries[index].(amount := v)];
    f.(entries := RedistributeProportional(es, FormSubtotal(f), index, v))
  }

  /** The update request: the kept rows and `total_price = max(0, Σ amount)`. */
  datatype UpdateSaleRequest = UpdateSaleRequest(saleId: int, description: string, totalPrice: real,
                                                 items: seq<SaleItem>, paymentMethods: seq<Entry>)

  /** `onSubmit` of the edit page: the shared submit rules, shaped as an update of `saleId`. */
  function OnSubmit(f: SaleForm, saleId: int, description: string): (r: Result<UpdateSaleRequest, SubmitError>)
    ensures r.Err? <==> CheckSubmission(f.items, f.entries).Err?
    ensures r.Err? ==> r.error == CheckSubmission(f.items, f.entries).error
    ensures r.Ok? ==> r.value.saleId == saleId && r.value.description == description
    ensures r.Ok? ==> r.value.totalPrice == Max0(TotalPaid(f.entries))
    ensures r.Ok? ==> r.value.items == Filter(f.items, HasProduct) && r.value.paymentMethods == Filter(f.entries, HasMethod)
    ensures r.Ok? ==> |r.value.items| >= 1 && |r.value.paymentMethods| >= 1
  {
    match CheckSubmission(f.items, f.entries)
    case Err(e) => Err(e)
    case Ok(s) => Ok(UpdateSaleRequest(saleId, description, s.total, s.items, s.payments))
  }
}
