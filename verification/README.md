# plantin-ui core logic in Dafny

This project models the client-side business logic of plantin-ui, a React back-office for a shop. Sales, products, product types and users are kept on a REST server. The logic modelled here runs in the browser before anything is sent.

**Sales.** Both sale forms work on the same inputs:
- a subtotal, Σ price × quantity over the selected products;
- an ordered list of payment rows, each `(method id, discount %, amount charged)`.

They spread the subtotal over the payment rows. They re-spread it when one amount is typed, and they react to method and discount edits. They also derive the submitted total. The two forms use different algorithms, modelled separately:
- The create form (`CreateSale`) splits sequentially. Each row but the last takes an equal share of what is still uncovered, and the last row takes the rest.
- The edit form (`EditSale`) splits proportionally. The weights are each row's coverage `R / (1 − d/100)`, and results are rounded to cents.

A row's *coverage* is the pre-discount value its charged amount stands for: `amount / (1 − d/100)`. The two forms define it slightly differently (`SaleCommon.CreateCoverage`, `EditSale.EditCoverage`).

**Products and product types.** This covers:
- the product-type tree (`ProductTypes`) and the hierarchy name shown for a type;
- the attribute map of the product forms and its flattening on submit (`ProductForm`);
- the attribute editor and submit validation of the product-type form (`ProductTypeForm`).

**List pages and shared widgets.** This covers:
- sorting, paging windows and "showing x to y" ranges (`ProductTypesList`, `UsersList`, `SortHeader`);
- the searchable multi-select (`MultiSelect`);
- the filter panel's value map (`FilterPanel`);
- the flattening of request parameters (`QueryParams`).

**Session and profile.** This covers:
- the token payload reading and claim normalisation (`Jwt`);
- the session store (`AuthStore`);
- avatar initials (`Avatar`);
- profile-picture validation (`ImageUpload`).

**Modelling conventions:**
- Money and percentages are Dafny `real`.
- Strings are `seq<char>`, with ASCII models of `trim`, `split`, `toLowerCase`/`toUpperCase` (`Strings`).
- Every event handler is one synchronous pure function that receives the new value explicitly.
- Primitives whose result the code only passes on are function parameters:
  - `parseFloat`/`parseInt` become `Option` values, with `None` for `NaN`;
  - `atob` + `decodeURIComponent` + `JSON.parse` together become `decode`.

## Model

| member | source | states |
|---|---|---|
| `SaleCommon.CoverageUndoesDiscount` | src/pages/CreateSalePage.tsx:149-154 | Charging `share·(1 − d/100)` covers exactly `share`, for any discount ≥ 0 other than 100 |
| `SaleCommon.NegativeDiscountOvercharges` | src/pages/CreateSalePage.tsx:149-154 | A negative discount takes the other branch of the coverage formula, so the row is charged more than it covers (1.1 for 1 at −10%) |
| `SaleCommon.TotalDiscountsIsCoverageMinusPaid` | src/pages/CreateSalePage.tsx:98-107 | The discounts total equals Σ coverage − Σ amount charged |
| `SaleCommon.TotalDiscounts` | src/pages/CreateSalePage.tsx:98-107 | Rows without a positive discount take nothing off. With non-negative amounts and discounts below 100 the discounts total is ≥ 0 |
| `SaleCommon.TotalPaidAppend` | src/pages/CreateSalePage.tsx:109-115 | The amounts total (`TotalPaid`) of two lists of rows is the sum of their totals, and it is ≥ 0 when no row is charged a negative amount |
| `SaleCommon.SubtotalNonNegative` | src/pages/CreateSalePage.tsx:84-96 | With non-negative prices and quantities the subtotal is ≥ 0 |
| `SaleCommon.Subtotal` | src/pages/CreateSalePage.tsx:84-96 | A row counts only with a selected product and a non-zero quantity, so without such rows the subtotal is 0. It is ≥ 0 with non-negative prices and quantities |
| `SaleCommon.ActualIndexBijective` | src/pages/CreateSalePage.tsx:167-174 | `actualIndex` skips the edited row. It is strictly increasing and maps the ranks `[0, n−1)` one-to-one onto the positions other than the edited one |
| `SaleCommon.WriteBack` | src/pages/CreateSalePage.tsx:170-188 | Writing the other rows' amounts leaves the edited row untouched. The other rows, taken in order, receive the new amounts in order |
| `SaleCommon.CheckSubmission` | src/pages/CreateSalePage.tsx:198-222 | Rejected iff no item has a product id > 0, else iff no row has a method id > 0. Otherwise the kept items and payments are exactly the rows with positive ids, in their order and multiplicity, and the total is `max(0, Σ amounts)` over all rows |
| `SaleCommon.SubmissionKeepsRows` | src/pages/CreateSalePage.tsx:198-222 | Appending rows to an accepted submission appends exactly their kept rows. Every row with a positive id is kept as often as it occurs, and every other row is dropped |
| `SaleCommon.AdoptMethod` | src/pages/CreateSalePage.tsx:380-384 | Selecting a method stores its id. The catalog discount is adopted only when it is truthy (present and non-zero). No other row changes |
| `SaleCommon.AddRow` | src/pages/CreateSalePage.tsx:363 | Adding a payment row appends `{0, 0, 0}` and keeps every existing row and the product rows |
| `SaleCommon.RemoveRow` | src/pages/CreateSalePage.tsx:436-439 | Deleting row i (offered only while there are two or more rows) keeps the other rows in order |
| `SaleCommon.RemoveUndoesAddRow` | src/pages/CreateSalePage.tsx:363 | Deleting the row just added restores the form, and an added row leaves the amount total unchanged |
| `CreateSale.SplitSequential` | src/pages/CreateSalePage.tsx:130-146 | Every amount the sequential split writes is ≥ 0, one per row |
| `CreateSale.Distribute` | src/pages/CreateSalePage.tsx:117-147 | Distribution keeps every row's method and discount and the row count. With more than one row every amount is ≥ 0 |
| `CreateSale.StepCovers` | src/pages/CreateSalePage.tsx:139-143 | A non-last row with discount in [0,100) is charged a non-negative amount covering exactly `remaining/n` when n rows are left, and what is left stays ≥ 0 |
| `CreateSale.SplitConserves` | src/pages/CreateSalePage.tsx:130-154 | The sequential split over discounts in [0,100) covers exactly its non-negative target |
| `CreateSale.DistributeConserves` | src/pages/CreateSalePage.tsx:117-154 | Coverage conservation: with subtotal ≥ 0 and every discount in [0,100), Σ coverage after distribution equals the subtotal, the single-row case included |
| `CreateSale.SingleRowCovers` | src/pages/CreateSalePage.tsx:123-128 | A single row charged `subtotal·(1 − d/100)` with d in [0,100) covers exactly the subtotal |
| `CreateSale.SingleEntryExact` | src/pages/CreateSalePage.tsx:123-128 | One row is charged `subtotal·(1 − d/100)` with no clamp |
| `CreateSale.SingleEntryCanGoNegative` | src/pages/CreateSalePage.tsx:123-128 | One row at 150% discount is charged −50 on a subtotal of 100 |
| `CreateSale.SingleEntryFullDiscount` | src/pages/CreateSalePage.tsx:123-128 | One row at exactly 100% is charged 0, with no division |
| `CreateSale.DistributeIdempotent` | src/pages/CreateSalePage.tsx:117-147 | Distribution reads only the discounts, so a second run changes nothing |
| `CreateSale.ScenarioEvenSplit` | src/pages/CreateSalePage.tsx:130-146 | Two undiscounted rows split 100 into 50 and 50 |
| `CreateSale.ScenarioOrderMatters` | src/pages/CreateSalePage.tsx:130-146 | A 10% last row covers its remaining 50 by being charged 45 |
| `CreateSale.RemainingToCover` | src/pages/CreateSalePage.tsx:160-166 | The others' target is ≥ 0. When the edited row does not over-cover, target + edited coverage = subtotal |
| `CreateSale.Redistribute` | src/pages/CreateSalePage.tsx:156-189 | The edited row is never written, methods and discounts are kept, and the other rows get amounts ≥ 0. A single row is left as it is |
| `CreateSale.SumCoverageRemoveAt` | src/pages/CreateSalePage.tsx:167 | Removing one row takes exactly its coverage off the coverage sum |
| `CreateSale.RedistributeConserves` | src/pages/CreateSalePage.tsx:162-188 | With discounts in [0,100), the other rows' coverages sum to `max(0, subtotal − coverage(newAmount))` |
| `CreateSale.RedistributeSettles` | src/pages/CreateSalePage.tsx:156-189 | When the typed amount does not over-cover, the whole form covers the subtotal again |
| `CreateSale.ScenarioManualEdit` | src/pages/CreateSalePage.tsx:156-189 | Typing 80 in row 0 of `[50@0%, 45@10%]` on 100 makes row 1 pay 18 |
| `CreateSale.SelectMethod` | src/pages/CreateSalePage.tsx:378-389 | Selecting a method sets the id and adopts a truthy discount, then redistributes all rows. With valid discounts the rows cover the subtotal |
| `CreateSale.EditDiscount` | src/pages/CreateSalePage.tsx:400-410 | Editing a discount stores `parseFloat \|\| 0`, then redistributes all rows. Other rows keep their discounts, and coverage is conserved |
| `CreateSale.TypeAmount` | src/pages/CreateSalePage.tsx:419-429 | Typing an amount stores `parseFloat \|\| 0` in that row, which is then never overwritten. Others are redistributed with that value, and coverage is conserved when it does not over-cover |
| `CreateSale.OnSubmit` | src/pages/CreateSalePage.tsx:198-223 | Submit fails exactly as the shared rules do. Otherwise the price is `max(0, Σ amounts)`, the description is the one typed, and the items and payments are the kept rows in order, at least one of each |
| `CreateSale.Settle` | src/pages/CreateSalePage.tsx:191-196 | The effect's re-split keeps the rows, their methods and discounts, and with discounts in [0,100) and subtotal ≥ 0 the rows cover exactly the subtotal |
| `CreateSale.AddPaymentRow` | src/pages/CreateSalePage.tsx:363 | Adding a payment row appends a row with no method and no discount, keeps the others' methods and discounts, and after the effect the rows still cover the subtotal |
| `CreateSale.RemovePaymentRow` | src/pages/CreateSalePage.tsx:436-439 | Deleting payment row i keeps the other rows' methods and discounts in order, and after the effect the remaining rows cover the whole subtotal |
| `CreateSale.QuantityOrOne` | src/pages/CreateSalePage.tsx:306 | `parseInt \|\| 1` keeps a non-zero number and gives 1 for NaN or 0, so the stored quantity is never 0 |
| `CreateSale.SelectProduct` | src/pages/CreateSalePage.tsx:276-293 | Choosing a product sets only that row's product id and records or forgets only that row's price; after the effect the payment rows cover the new subtotal |
| `CreateSale.SetQuantity` | src/pages/CreateSalePage.tsx:305-306 | Typing a quantity stores `parseInt \|\| 1` (never 0) in that row only; the prices and the payment rows are left as they were |
| `CreateSale.SetQuantityThenSettle` | src/pages/CreateSalePage.tsx:191-196 | The payment rows are untouched by a quantity change; when the effect next runs they cover the subtotal computed with the typed quantity |
| `CreateSale.AddProductRow` | src/pages/CreateSalePage.tsx:261 | Adding a product row appends `{0, 1}`; the payment rows keep their methods and discounts and cover the subtotal after the effect |
| `CreateSale.RemoveProductRow` | src/pages/CreateSalePage.tsx:311-315 | Deleting product row i keeps the others in order and the prices keyed by the old indices; the payment rows cover the resulting subtotal after the effect |
| `CreateSale.RemoveProductRowKeepsStalePrice` | src/pages/CreateSalePage.tsx:33 | Because the prices are keyed by row index and never re-indexed, deleting the first of two rows prices the remaining product at the deleted row's price |
| `EditSale.EditCoverage` | src/pages/EditSalePage.tsx:205-208 | Coverage is 0 for d ≥ 100, and otherwise undoes the discount (`c·(1 − d/100) = amount`), staying ≥ 0 for non-negative amounts |
| `EditSale.Round2` | src/pages/EditSalePage.tsx:200-201 | `Math.round(x·100)/100` always yields a whole number of cents |
| `EditSale.Round2Close` | src/pages/EditSalePage.tsx:200-201 | `Math.round(x·100)/100` is within half a cent of x and keeps non-negative values non-negative |
| `EditSale.Round2Idempotent` | src/pages/EditSalePage.tsx:200-201 | Rounding a rounded value changes nothing |
| `EditSale.RoundAllSum` | src/pages/EditSalePage.tsx:196-202 | Rounding n amounts moves their sum by at most n half-cents |
| `EditSale.SharesSum` | src/pages/EditSalePage.tsx:189-202 | The unrounded proportional shares sum exactly to what is split |
| `EditSale.SharesProportional` | src/pages/EditSalePage.tsx:199-200 | With positive total weight, each share × Σw equals total × its weight |
| `EditSale.SharesEqualFallback` | src/pages/EditSalePage.tsx:199 | With zero total weight every row gets the same `1/n` share |
| `EditSale.SharesNonNegative` | src/pages/EditSalePage.tsx:196-202 | Non-negative weights and total give non-negative shares |
| `EditSale.Weights` | src/pages/EditSalePage.tsx:190-199 | One weight per row: its coverage of R. Weights are ≥ 0 when R ≥ 0, and for R > 0 a weight is positive iff its discount is below 100 |
| `EditSale.RemainingIsUncovered` | src/pages/EditSalePage.tsx:146-170 | R (`Remaining`) is the subtotal less what the rows cover beyond what they are charged, and it is the subtotal itself when no row has a positive discount |
| `EditSale.ProportionalAmountsSettle` | src/pages/EditSalePage.tsx:189-202 | The rounded proportional amounts are ≥ 0 and sum to R within half a cent per row |
| `EditSale.DistributeProportional` | src/pages/EditSalePage.tsx:162-203 | With no rows, nothing changes. If R ≤ 0, row 0 is set to 0 and the others are untouched. If Σ discount % ≥ 100, every amount becomes 0. Otherwise every amount is ≥ 0 and the amounts are the proportional amounts of R (rounded shares weighted by coverage) |
| `EditSale.DistributeProportionalSettles` | src/pages/EditSalePage.tsx:189-202 | In the general case, the rows are charged R in total, up to half a cent per row |
| `EditSale.DistributeProportionalRebalances` | src/pages/EditSalePage.tsx:162-203 | After the split the rows are rebalanced: methods and discounts are kept. R ≤ 0 zeroes row 0 only, and Σd ≥ 100 zeroes every row. Otherwise every row gets its non-negative rounded proportional amount, summing to R within half a cent per row |
| `EditSale.ScenarioLargerDiscountPaysMore` | src/pages/EditSalePage.tsx:189-200 | Before rounding, with R = 90 and discounts 0% and 50%, the shares are 30 for the 0% row and 60 for the 50% row |
| `EditSale.OthersTarget` | src/pages/EditSalePage.tsx:216-258 | The others' target is ≥ 0, and it is `R − newAmount` when that and R are positive |
| `EditSale.RedistributeProportional` | src/pages/EditSalePage.tsx:210-279 | The edited row is never written, and methods and discounts are kept. Every other row gets an amount ≥ 0, and all are 0 when R ≤ 0 or R − newAmount ≤ 0. Otherwise the others, in order, get the rounded shares of R − newAmount weighted by their coverage of R |
| `EditSale.RedistributeRowShare` | src/pages/EditSalePage.tsx:260-278 | Row by row: another row j gets `round2` of its share of R − newAmount, and its weight is its own coverage of R. When the other rows' weights sum to 0, the share is the equal `1/(n−1)` part |
| `EditSale.RedistributeProportionalSettles` | src/pages/EditSalePage.tsx:248-278 | The other rows are charged the target in total, up to half a cent per row |
| `EditSale.LoadEntries` | src/pages/EditSalePage.tsx:95-99 | Loading gives one row per persisted payment, in order, with discount `discount_percentage \|\| 0` |
| `EditSale.SelectMethod` | src/pages/EditSalePage.tsx:486-497 | Selecting a method sets the id and adopts a truthy discount, then reruns the proportional split on the edited rows: the result is rebalanced as `DistributeProportionalRebalances` states |
| `EditSale.EditDiscount` | src/pages/EditSalePage.tsx:507-517 | Editing a discount stores `parseFloat \|\| 0`, then reruns the split: the edited rows come out rebalanced (non-negative proportional amounts summing to R up to rounding, or the zeroing cases) |
| `EditSale.TypeAmount` | src/pages/EditSalePage.tsx:526-535 | Typing an amount stores the parsed amount, which is never overwritten. Every other row ends ≥ 0 |
| `EditSale.OnSubmit` | src/pages/EditSalePage.tsx:281-312 | Same rejections as the create page. The update carries the sale id and the description passed in. `total_price` is `max(0, Σ amounts)`, and the items and payments are the kept rows in order |
| `ProductTypes.Find` | src/pages/CreateProductPage.tsx:117 | `types.find`: None iff no type has the id, otherwise the first type with it |
| `ProductTypes.HierarchyName` | src/pages/CreateProductPage.tsx:116-135 | An unknown id gives `''`. A root gives its own name, and so does a type whose parent id matches no type (the walk stops there) |
| `ProductTypes.HierarchyNameParentPrefix` | src/pages/CreateProductPage.tsx:124-134 | When the parent exists and the walk ends, the name is the parent's hierarchy name + `' '` + the type's own name |
| `ProductTypes.Walk` | src/pages/CreateProductPage.tsx:120-132 | The loop of `getHierarchyName`: a walk that ends lists names ending with the starting type's own name, and a walk that reaches an already visited id never ends |
| `ProductTypes.SelfParentDiverges` | src/pages/CreateProductPage.tsx:122-131 | A type whose parent is itself makes the walk run forever (no name) |
| `ProductTypes.WalkForgetsVisited` | src/pages/EditProductPage.tsx:177-196 | A walk that ends gives the same names whatever part of its path was already seen |
| `ProductTypes.BuildHierarchy` | src/pages/CreateProductPage.tsx:84-113 | One node per id, filled from the last type with that id. Roots are the falsy-parent types in input order. The children of p are the non-root types with parent p, in input order |
| `ProductTypes.MakeNodes` | src/pages/EditProductPage.tsx:148-159 | The first loop makes one node per id (the last type with that id wins) and an empty children list for each |
| `ProductTypes.FileTypes` | src/pages/EditProductPage.tsx:161-171 | The second loop files each type as a root or under its existing parent, in input order |
| `ProductTypes.RootIdsAppend` | src/pages/CreateProductPage.tsx:100-110 | Roots keep input order: the roots of a concatenation are the roots of each part |
| `ProductTypes.RootIdsMembership` | src/pages/CreateProductPage.tsx:102-109 | An id is a root iff some type with it has a falsy parent id |
| `ProductTypes.ChildIdsMembership` | src/pages/CreateProductPage.tsx:101-106 | An id is filed under p iff some non-root type with that id has parent p |
| `ProductTypes.PlacedAtMostOnce` | src/pages/CreateProductPage.tsx:89-110 | With unique ids no list repeats a type, and no type is both a root and a child or the child of two parents |
| `ProductTypes.OrphanDropped` | src/pages/CreateProductPage.tsx:101-106 | A type whose truthy parent id is unknown appears nowhere in the tree |
| `ProductTypes.ToggleExpanded` | src/pages/CreateProductPage.tsx:139-149 | Toggling flips membership of exactly the given id |
| `ProductTypes.ToggleInvolution` | src/pages/EditProductPage.tsx:200-210 | Toggling the same id twice restores the set |
| `ProductForm.AttributeChange` | src/pages/CreateProductPage.tsx:259-264 | Changing an attribute writes that key only; every other key keeps its value |
| `ProductForm.SelectProductType` | src/pages/CreateProductPage.tsx:151-202 | Selecting a node sets `type_id` and clears the attribute values. The name becomes the hierarchy name when the catalog has the type |
| `ProductForm.Entries` | src/pages/CreateProductPage.tsx:268-271 | `Object.entries` gives one `{id, value}` per map key, in ascending key order, with the map's value |
| `ProductForm.EntriesComplete` | src/pages/CreateProductPage.tsx:268-271 | Every key of the map appears among the submitted entries |
| `ProductForm.AttributesField` | src/pages/CreateProductPage.tsx:272-276 | The attributes field is undefined iff the map is empty. Otherwise it is exactly the map's entries, one per key, in ascending key order |
| `ProductForm.CreateSubmit` | src/pages/CreateProductPage.tsx:266-278 | The create request carries name and type id, and its attributes are the flattened map (undefined when empty) |
| `ProductForm.EditSubmit` | src/pages/EditProductPage.tsx:337-352 | No request without a route id. Otherwise the product of that id, with name, type id and the same flattened attributes |
| `ProductForm.FindByName` | src/pages/EditProductPage.tsx:119-121 | The first type attribute with an equal name: no earlier one has it. None iff there is none |
| `ProductForm.FindByNameAppend` | src/pages/EditProductPage.tsx:119-121 | Searching a concatenation finds the first part's match when it has one, and otherwise the second part's |
| `ProductForm.InitialValuesSpec` | src/pages/EditProductPage.tsx:113-131 | A key is initialised iff some stored attribute's name matches a type attribute with that id. Its value is `value \|\| ''` of the last such attribute |
| `ProductForm.InitialValues` | src/pages/EditProductPage.tsx:116-129 | Every initialised key is the id of some type attribute |
| `ProductTypeForm.ValidRows` | src/pages/ProductTypeFormPage.tsx:99 | Exactly the rows with a non-blank trimmed name are kept |
| `ProductTypeForm.FindIndexByName` | src/pages/ProductTypeFormPage.tsx:101 | `findIndex` gives −1 iff no row has the name, otherwise the first such row |
| `ProductTypeForm.HasDuplicatesIff` | src/pages/ProductTypeFormPage.tsx:100-107 | The duplicate check fires iff two rows have exactly equal (untrimmed) names |
| `ProductTypeForm.OptionalText` | src/pages/ProductTypeFormPage.tsx:115 | The description is undefined iff it trims to empty, otherwise the trimmed text |
| `ProductTypeForm.ShapeRequest` | src/pages/ProductTypeFormPage.tsx:112-136 | The request has the trimmed name and optional description and the parent as given. A create carries trimmed names, and an update also keeps each row's id |
| `ProductTypeForm.HandleSubmit` | src/pages/ProductTypeFormPage.tsx:90-150 | A blank name is rejected first, then duplicates among kept rows. Otherwise the shaped request, whose name is non-empty |
| `ProductTypeForm.SubmittedNamesNotBlank` | src/pages/ProductTypeFormPage.tsx:99-136 | Every attribute name in an accepted request is non-empty |
| `ProductTypeForm.AddAttribute` | src/pages/ProductTypeFormPage.tsx:152-157 | Appends one empty-named row without id and keeps the others |
| `ProductTypeForm.RemoveAttribute` | src/pages/ProductTypeFormPage.tsx:159-161 | Deletes exactly index i and keeps the others in order. An index matching no row changes nothing |
| `ProductTypeForm.RemoveUndoesAdd` | src/pages/ProductTypeFormPage.tsx:152-161 | Removing the row just added restores the list |
| `ProductTypeForm.UpdateAttribute` | src/pages/ProductTypeFormPage.tsx:163-170 | Only the named field of row i changes |
| `ProductTypesList.HandleSort` | src/pages/ProductTypesPage.tsx:80-87 | The clicked field becomes the sort field. On the same field the order flips, and on a new field it is ascending |
| `ProductTypesList.HandleSortTwice` | src/pages/ProductTypesPage.tsx:80-87 | Two clicks on the sorted column restore the sort |
| `ProductTypesList.HandleSortAgreesWithHeader` | src/pages/ProductTypesPage.tsx:80-87 | The page's toggle agrees with the header component's click |
| `ProductTypesList.Prev` | src/pages/ProductTypesPage.tsx:257 | "Previous" goes one page back and never below 1 |
| `ProductTypesList.Next` | src/pages/ProductTypesPage.tsx:264 | "Next" goes one page on and never past the last page |
| `ProductTypesList.PrevDisabled` | src/pages/ProductTypesPage.tsx:258 | "Previous" is disabled, for any page ≥ 1, exactly where it would not move |
| `ProductTypesList.NextDisabled` | src/pages/ProductTypesPage.tsx:265 | "Next" is disabled, for any page up to the last, exactly where it would not move |
| `ProductTypesList.PagerShown` | src/pages/ProductTypesPage.tsx:253 | With at least one page, the pager is shown iff "next" is enabled on page 1 |
| `ProductTypesList.PrevNextStayInRange` | src/pages/ProductTypesPage.tsx:256-268 | From a page in range, both buttons land in range and an enabled button moves exactly one page, the two being inverse |
| `ProductTypesList.Window` | src/pages/ProductTypesPage.tsx:290-291 | The window has `min(5, T)` consecutive pages |
| `ProductTypesList.WindowInRange` | src/pages/ProductTypesPage.tsx:290-291 | For 1 ≤ cur ≤ T every window page is in [1, T] and the window contains cur |
| `ProductTypesList.WindowCentred` | src/pages/ProductTypesPage.tsx:290-291 | Away from the ends the current page is the middle of five |
| `ProductTypesList.RangeTiles` | src/pages/ProductTypesPage.tsx:274-276 | "Showing x to y" shows 1 to 10 items. Consecutive pages continue each other, the first page starts at 1 and the last ends at totalItems |
| `ProductTypesList.TypeSearch` | src/pages/ProductTypesPage.tsx:119 | Typing changes only the search term; the page stays until the debounce fires |
| `ProductTypesList.SearchSettled` | src/pages/ProductTypesPage.tsx:55-63 | When the debounce fires the list returns to page 1 with the current term |
| `ProductTypesList.SearchSettledKeepsLastTerm` | src/pages/ProductTypesPage.tsx:55-63 | Terms typed before the debounce fires are coalesced into the last one, the list lands on page 1 where "previous" is disabled, and firing again changes nothing |
| `UsersList.HandleSearch` | src/pages/UsersPage.tsx:32-34 | Search sets the term and resets the page to 0, keeping size and sort |
| `UsersList.HandlePageChange` | src/pages/UsersPage.tsx:36-38 | A page change changes only the page |
| `UsersList.HandleSort` | src/pages/UsersPage.tsx:40-46 | The sort field is set, and the order is desc iff the field is unchanged and was asc |
| `UsersList.SearchSettles` | src/pages/UsersPage.tsx:32-38 | Searching is idempotent, paging keeps the term, and a search forgets an earlier page change |
| `UsersList.HandleSortAgrees` | src/pages/UsersPage.tsx:40-46 | The users page sorts like the header component and the product-types page |
| `UsersList.EnabledButtonsStayInRange` | src/pages/UsersPage.tsx:245-256 | The unclamped buttons stay on real pages because each is disabled at its end |
| `UsersList.PrevDisabled` | src/pages/UsersPage.tsx:247 | "Previous" is disabled on a real page exactly where `page − 1` is not a page |
| `UsersList.NextDisabled` | src/pages/UsersPage.tsx:254 | "Next" is disabled on a real page exactly where `page + 1` is not a page |
| `UsersList.PagerShown` | src/pages/UsersPage.tsx:242 | With at least one page, the pager is shown iff "next" is enabled on page 0 |
| `UsersList.RangeTiles` | src/pages/UsersPage.tsx:265-269 | `page·size+1` to `min((page+1)·size, total)` shows 1 to size items and tiles the pages |
| `UsersList.RangeMatchesOneBased` | src/pages/UsersPage.tsx:265-269 | The zero-based range at size 10 equals the product-types page's one-based range |
| `SortHeader.NextOrder` | src/components/SortableTableHeader.tsx:27 | Only an ascending sort turns descending; descending or none starts ascending |
| `SortHeader.Click` | src/components/SortableTableHeader.tsx:24-33 | The emitted field is the header's own. The order is desc iff the header is the current field with asc, and any other field starts asc |
| `SortHeader.ClickThenHighlight` | src/components/SortableTableHeader.tsx:44-61 | After a click is applied, exactly the chevron of the emitted order is lit, and the next click asks for the other order |
| `SortHeader.UpLit` | src/components/SortableTableHeader.tsx:47-53 | The up chevron is lit exactly when a click would ask for a descending sort |
| `SortHeader.DownLit` | src/components/SortableTableHeader.tsx:55-61 | When the down chevron is lit, a click asks for the same field ascending |
| `SortHeader.AtMostOneLit` | src/components/SortableTableHeader.tsx:47-61 | The two chevrons are never lit together |
| `MultiSelect.FilterOptions` | src/components/SearchableMultiSelect.tsx:30-32 | The options kept are exactly those whose lower-cased label contains the lower-cased search |
| `MultiSelect.EmptySearchKeepsAll` | src/components/SearchableMultiSelect.tsx:30-32 | An empty search keeps every option |
| `MultiSelect.FilterOptionsOrdered` | src/components/SearchableMultiSelect.tsx:30-32 | Filtering keeps the options' original order (it distributes over concatenation) |
| `MultiSelect.ChipOf` | src/components/SearchableMultiSelect.tsx:36-37 | A chip shows the label of the first option with the value, or the value itself iff no option has it |
| `MultiSelect.SelectedLabels` | src/components/SearchableMultiSelect.tsx:35-38 | There is one chip per selected value, in order |
| `MultiSelect.Remove` | src/components/SearchableMultiSelect.tsx:51-53 | Remove deletes every occurrence and keeps each other value's multiplicity; an absent value changes nothing |
| `MultiSelect.RemoveAppend` | src/components/SearchableMultiSelect.tsx:51-53 | Removing from a concatenation removes from each part, so the remaining values keep their order |
| `MultiSelect.RemoveSingle` | src/components/SearchableMultiSelect.tsx:51-53 | A single value is dropped iff it is the removed one (with `RemoveAppend` this fixes `Remove` completely) |
| `MultiSelect.Toggle` | src/components/SearchableMultiSelect.tsx:41-48 | A selected value is removed exactly as `Remove` does, which keeps the rest in order. An unselected one is appended at the end |
| `MultiSelect.ToggleTwice` | src/components/SearchableMultiSelect.tsx:41-48 | Toggling an absent value twice restores the list; toggling a present value twice moves it to the end |
| `MultiSelect.ClickTrigger` | src/components/SearchableMultiSelect.tsx:72 | The trigger button flips the dropdown between open and closed |
| `MultiSelect.MouseDown` | src/components/SearchableMultiSelect.tsx:56-65 | A press outside the component always closes the dropdown; a press inside leaves it as it is |
| `MultiSelect.TriggerClickToggles` | src/components/SearchableMultiSelect.tsx:56-72 | A trigger click (a press inside, then the click) toggles the dropdown, two restore it, and a press outside then closes it |
| `FilterPanel.ActiveCount` | src/components/FilterSortPanel.tsx:42-45 | The count is at most the number of keys, and 0 iff no value is active (`0` and `false` are active) |
| `FilterPanel.ActiveCountUpdate` | src/components/FilterSortPanel.tsx:42-45 | Writing one key changes the count by that key's old and new activity only |
| `FilterPanel.ClearAll` | src/components/FilterSortPanel.tsx:47-53 | Clearing keeps the key set with every value undefined, and the count becomes 0 |
| `FilterPanel.TextChange` | src/components/FilterSortPanel.tsx:128-131 | Text, date and select fields store undefined for `''` and the text otherwise, leaving other keys |
| `FilterPanel.TextRoundTrip` | src/components/FilterSortPanel.tsx:126-131 | Typing back the shown text leaves the filters unchanged |
| `FilterPanel.NumberChange` | src/components/FilterSortPanel.tsx:143-151 | The number field stores undefined for an empty input, else the parsed number |
| `FilterPanel.MultiselectChange` | src/components/FilterSortPanel.tsx:190-197 | An empty selection stores undefined, and otherwise the list, leaving other keys |
| `FilterPanel.BooleanChange` | src/components/FilterSortPanel.tsx:222-225 | `''` maps to undefined, `'true'` to true, and anything else to false |
| `FilterPanel.BooleanRoundTrip` | src/components/FilterSortPanel.tsx:220-225 | Choosing the shown option leaves the filters unchanged |
| `FilterPanel.KeyOr` | src/components/FilterSortPanel.tsx:208-209 | A missing or empty configured key falls back to the default |
| `FilterPanel.DateRangeChange` | src/components/FilterSortPanel.tsx:206-214 | Both bounds are written under the configured or default keys, leaving other keys |
| `FilterPanel.DateRangeClearCounts` | src/components/FilterSortPanel.tsx:206-214 | Clearing an active default range lowers the count by two |
| `QueryParams.Present` | src/api/client.ts:22-26 | The present array elements, which are none iff every element is null or undefined |
| `QueryParams.PresentAppend` | src/api/client.ts:22-26 | The array loop goes element by element, so the present texts of a concatenation are those of each part, in order |
| `QueryParams.PresentSingle` | src/api/client.ts:22-26 | A present element contributes exactly its text and a null or undefined one nothing; with `PresentAppend` this fixes the result's order and repetitions |
| `QueryParams.EntryPairs` | src/api/client.ts:17-30 | null/undefined gives no pair, a scalar exactly one, and an array one pair per present element, all under the entry's key |
| `QueryParams.SerializeAppend` | src/api/client.ts:16 | The pairs follow the entries' order |
| `QueryParams.PairsComeFromEntries` | src/api/client.ts:16-30 | Every pair carries the key of an entry with a value |
| `QueryParams.ReadBack` | src/api/client.ts:13-36 | With distinct keys, reading a key back gives exactly its entry's values in order |
| `Jwt.PayloadSegment` | src/utils/jwt.ts:11 | There is a second segment iff the token has a `.`, and it contains no `.` |
| `Jwt.SegmentOfToken` | src/utils/jwt.ts:11 | For `header.payload.signature` the segment is the payload |
| `Jwt.Base64FromUrl` | src/utils/jwt.ts:12 | `-`→`+` and `_`→`/`, all else and the length unchanged |
| `Jwt.Base64FromUrlInvertible` | src/utils/jwt.ts:12 | On url-safe text the translation is undone by the reverse mapping |
| `Jwt.DecodeJwt` | src/utils/jwt.ts:9-24 | A token without a second segment gives null. A token with one gives exactly the decoding of that segment after the url-safe translation |
| `Jwt.DecodeWellFormed` | src/utils/jwt.ts:9-19 | For `header.payload.signature` with no `.` in the first two parts, the result is the decoding of the translated payload |
| `Jwt.UserId` | src/utils/jwt.ts:32-37 | The id is never 0. A zero or absent numeric sub, or a text sub that does not parse or parses to 0, gives exactly 1, and any other value is kept |
| `Jwt.UserIdStable` | src/utils/jwt.ts:32-37 | Normalising a normalised id changes nothing |
| `Jwt.NormaliseRole` | src/utils/jwt.ts:40-43 | A role starting with `Role.` loses exactly that prefix, and other roles are unchanged |
| `Jwt.NormaliseRolePrefixed` | src/utils/jwt.ts:40-43 | Stripping undoes prefixing for every role text |
| `Jwt.ExtractUser` | src/utils/jwt.ts:26-52 | null iff the payload is null. Otherwise the normalised id and role, and the username copied |
| `AuthStore.Login` | src/store/authStore.ts:25 | Login stores the token and sets authenticated |
| `AuthStore.Logout` | src/store/authStore.ts:26 | Logout clears the token and unsets authenticated |
| `AuthStore.GetUser` | src/store/authStore.ts:27-31 | No user without a token, otherwise the token's user |
| `AuthStore.AdminIffUserRole` | src/store/authStore.ts:32-37 | Admin iff there is a token whose user's role is `admin` or `ADMIN` |
| `AuthStore.IsAdmin` | src/store/authStore.ts:32-37 | An admin always has a session user whose role is `admin` or `ADMIN` |
| `AuthStore.LogoutForgets` | src/store/authStore.ts:25-37 | After logout there is no user and no admin, and logging in again is as if fresh |
| `AuthStore.PrefixedAdminIsAdmin` | src/store/authStore.ts:32-37 | A `Role.ADMIN` claim counts as admin after normalisation |
| `Avatar.FirstCharsAreWordStarts` | src/components/UserAvatar.tsx:58-61 | Splitting on single spaces and taking first characters picks exactly the word starts; empty words give nothing |
| `Avatar.Initials` | src/components/UserAvatar.tsx:57-64 | The initials are the upper-cased word starts, at most 2 |
| `Avatar.InitialsOneWord` | src/components/UserAvatar.tsx:57-64 | A single word yields its upper-cased first letter |
| `Avatar.InitialsExample` | src/components/UserAvatar.tsx:63 | `"a b c"` gives `"AB"` |
| `Avatar.Content` | src/components/UserAvatar.tsx:68-84 | The picture is shown when loaded and not failed. Otherwise initials iff the username is non-empty, else the icon |
| `ImageUpload.HandleFileSelect` | src/components/ProfileImageUpload.tsx:60-85 | No file does nothing, and a non-`image/` type is refused. Otherwise a file over 5·1024·1024 bytes is refused, and any other is uploaded exactly once |
| `ImageUpload.SizeBoundary` | src/components/ProfileImageUpload.tsx:71-74 | Exactly 5 MiB is accepted and one byte more refused |
| `ImageUpload.OnUploadSuccess` | src/components/ProfileImageUpload.tsx:48-52 | On success the returned id is stored and reported, and the shown stored picture is dropped |
| `ImageUpload.OnUploadError` | src/components/ProfileImageUpload.tsx:53-57 | On failure only the preview is cleared, and nothing is reported |
| `ImageUpload.HandleRemoveImage` | src/components/ProfileImageUpload.tsx:87-95 | Remove clears the preview, current URL and id, and reports null |
| `ImageUpload.RemoveUndoesUpload` | src/components/ProfileImageUpload.tsx:48-95 | Removing after an upload leaves nothing of it, and removing twice equals removing once |
| `Strings.SplitJoin` | src/components/UserAvatar.tsx:58 | Joining the `split` pieces with the separator restores the text |
| `Strings.Trim` | src/pages/ProductTypeFormPage.tsx:93 | `trim` gives the contiguous piece between the leading and the trailing whitespace, with no whitespace at either end, and empty iff the text is all whitespace |
| `Common.Filter` | src/pages/ProductTypeFormPage.tsx:99 | `filter` keeps exactly the passing elements, empty iff none passes |
| `Common.FilterMultiset` | src/components/SearchableMultiSelect.tsx:44 | `filter` keeps each passing element as often as it occurs |

## Left out

- REST calls, React Query, routing, JSX rendering, toasts and alerts are left out. They are I/O and presentation; the model ends at the request a form would send.
- The `setTimeout(…, 0)` deferrals are modelled as one synchronous step per handler. Scheduling is not part of the logic.
- The create page's redistributing effect (src/pages/CreateSalePage.tsx:191-196) is modelled as `CreateSale.Settle`, run at the end of the handlers that change the product rows, the selected products or the number of payment rows (`AddPaymentRow`, `RemovePaymentRow`, `SelectProduct`, `AddProductRow`, `RemoveProductRow`), each of which gives the form a new product array, a new payment array or a new `selectedProducts` object. `SaleCommon.AddRow` and `SaleCommon.RemoveRow` alone are the button handlers without the effect, which is what the edit page runs. Whether the effect fires again after a handler's own `setValue` calls depends on how `watch('payment_methods')` tracks identity. The model does not decide that. After `SelectMethod` and `EditDiscount` it would change nothing (`DistributeIdempotent`); after `TypeAmount` it would overwrite the typed amount.
- `CreateSale.SetQuantity`: the quantity write is nested (`sale_items.N.quantity`), like the effect's own writes to `payment_methods.N.amount` (src/pages/CreateSalePage.tsx:126-143), which must not re-run the effect or it would never stop. So the model does not re-split the payment rows after it; `SetQuantityThenSettle` states what the next run of the effect gives.
- The 500 ms delay of the product-types page's search debounce (src/pages/ProductTypesPage.tsx:55-63) is left out, because the model has no clock. `ProductTypesList.SearchSettled` is the effect once it fires, and which keystrokes fall inside one delay is not modelled.
- The registration and removal of the multi-select's `mousedown` listener (src/components/SearchableMultiSelect.tsx:63-64) is left out. `MultiSelect.MouseDown` is what the listener does to the open state, and whether the target lies inside the component is a parameter.
- The create page's effect that copies `max(0, Σ amounts)` into the price field (src/pages/CreateSalePage.tsx:191-196) is left out. The same value is recomputed by `onSubmit`, which is modelled.
- The edit page's redistribution computes `modifiedCoverage`, `otherMethodsCoverage`-style totals and a "total coverage" that it never uses (src/pages/EditSalePage.tsx:235-246). These dead computations are not modelled.
- IEEE-754 behaviour is not modelled: NaN, Infinity and rounding of intermediate results. Money is `real`. Both pages divide by `1 − d/100`, so a discount of exactly 100 is a precondition of the create members (`SequentialSafe`, `NoFullDiscount`) and of every `EditSale` member (`NoFullDiscount`).
- At d = 100 the edit page's `calculateTotalDiscounts` (src/pages/EditSalePage.tsx:146-155) does not fail. A positive amount makes the discount Infinity and R = −∞, so only row 0 is zeroed (src/pages/EditSalePage.tsx:172-176). An amount of 0 makes R NaN, which falls through to the Σd ≥ 100 branch and zeroes every row (src/pages/EditSalePage.tsx:181-187). These paths are not modelled.
- `EditSale.TypeAmount`: the typed amount is not clamped, exactly as in the source. The contract says nothing about the other rows' sum beyond `EditSale.RedistributeProportionalSettles`, because with rounding the sum is only known up to half a cent per row.
- `EditSale.DistributeProportionalSettles`: states the sum within half a cent per row, not exactly. `Math.round` to cents makes an exact statement false.
- `ProductTypes.HierarchyName`: a cyclic parent chain makes the source loop forever. The model returns `None` there (`SelfParentDiverges`), and callers require a terminating walk.
- `Jwt.Payload`: the claims are modelled as text or absent. A non-text `username` or `role` becomes absent, while `extractUserFromToken` copies any value through (src/utils/jwt.ts:39-49). A numeric `sub` is an integer, so a fractional `payload.sub || 1` (src/utils/jwt.ts:36) cannot be represented.
- `ProductForm.CreateSubmit` and `ProductForm.EditSubmit`: the requests carry only name, type id and attributes. The other form fields spread by `{...data, attributes}` are not modelled: description, code, price and stock (src/pages/CreateProductPage.tsx:273-276, src/pages/EditProductPage.tsx:346-349). They pass through unchanged.
- `parseFloat`, `parseInt`, `atob`, `decodeURIComponent` and `JSON.parse` are parameters or `Option` inputs, not implementations. The JWT signature is never checked by the client either.
- Unicode case mapping and whitespace are not modelled. `toLowerCase`, `toUpperCase` and `trim` are modelled on ASCII only.
- `URLSearchParams` percent-encoding and `toString` are not modelled. `String(value)` of a scalar is taken as given text.
- FileReader previews, `fileApi.upload`/`download` and the image-loading effect of ProfileImageUpload are left out. Uploads arrive as success or error events.
- The zustand `persist`/local-storage layer is left out. The store is the in-memory state.
- zod form schemas, which run before `onSubmit`, are left out. They are library validation.
- Display formatting via `toFixed` and `Intl` is left out.
