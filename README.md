# Storefront listing page — verified model

A model of the product-listing page of a small storefront. Once the product
catalog has loaded, the page keeps the catalog, the filtered and sorted
result set, the current page of a paginated grid, the sort token, the active
colour, size and price filters, and an in-memory cart. The model covers what
the page does with that state:

- the filter-and-sort rebuild (`updateProductDisplay`), which narrows the
  catalog by colour, then by size, then by price range, each stage only when
  it is active, sorts the result in place and goes back to page 1;
- pagination: nine products per page, `min(page * 9, |result|)` shown, and a
  "load more" button that is hidden once everything is shown;
- the cart: "add to cart" appends the first catalog product with the given
  identifier, ignores unknown identifiers and sets the badge to the cart's
  length (before the first addition the badge keeps the markup's own text);
- the filter panel's handler (colour checkbox, price checkbox, size button),
  the two sort surfaces (dropdown and overlay), which share one transition,
  and "load more";
- the option lists of the filter panel: distinct colours in order of first
  appearance and distinct sizes in string order.

Modules, one per component: `Catalog` (products, filters, the filter
predicates and stages), `Ordering` (sort orders, comparator, in-place
a stable insertion sort on an array), `Pagination`, `FilterOptions` and `Storefront`
(the `AppState` class and its event methods). `Options` holds the `Option`
type.

Modelling decisions:

- Prices, installment amounts and dates are integers (cents, timestamps);
  only comparisons and differences are used.
- The price-range token is held already split at `-` and converted:
  `NoPrice` is the empty token, `Bracket(min, max)` a non-empty one, with
  `max == 0` standing for a falsy second part (`"50-"`, `"50"`). A bracket
  with a non-zero max keeps `min <= price <= max`; one with max 0 keeps
  `price >= min`.
- The sort token stays a string. `menor-preco` sorts by ascending price,
  `maior-preco` by descending price, and any other token by descending date.
  A sort choice whose item has no value, or an empty one, stores
  `mais-recentes`.
- `AppState.Valid()` keeps three facts at every step. The result set is a
  permutation of exactly the catalog products that pass the active filters.
  Every cart entry is a catalog product. The badge (`None` while it still
  shows the markup's text) is `None` only while the cart is empty, and
  otherwise shows the cart's length. Sortedness is promised after every
  rebuild (`Refreshed()`), but not by the invariant. Right after loading,
  the result set is the catalog in the order it was received, not sorted by
  date, even though the sort token is already `mais-recentes`.
- `Array.sort` is stable, so a rebuild's result is determined: it is
  `SortByKey` of the matching products in catalog order, where `SortByKey`
  inserts each element after every earlier element whose key is not larger.
  The in-place insertion sort is proved equal to it.
- Rendering is the function `AppState.Render()`, which returns what the grid
  shows: the cards, whether the "no results" message appears, and whether
  the button is visible. Every rebuild and every "load more" is followed by
  a render, so the page's view after an event is `Render()` of the new state.
- Each DOM event is a direct method call. The filter panel's handler is
  registered for both `click` and `change` on both the desktop and mobile
  panels, so one checkbox toggle reaches the handler twice. Lemma
  `CheckboxTwiceSameAsOnce` shows that the second run leaves the filters as
  the first left them. Because the rebuild's result is determined by the
  catalog, the filters and the token, `AppState.CheckboxClickAndChange` shows
  that the whole page state after both runs is the state after one.
- The price checkboxes are independent checkboxes. Checking one stores its
  token. Unchecking any price checkbox clears the token to the empty one,
  even while another price checkbox is still checked. Nothing keeps only one
  price box checked; `priceRange` holds the last box written.

## Model

| member | source | states |
|---|---|---|
| Catalog.Filter | src/ts/index.ts:88-92 | a filter stage keeps exactly the products its predicate accepts, drops the rest, and never grows the sequence |
| Catalog.FilterCount | src/ts/index.ts:88-92 | a filter stage keeps every accepted product exactly as often as it occurs and drops every rejected one |
| Catalog.MatchingCount | src/ts/index.ts:87-93 | the products passing all active filters occur as often as in the catalog; no other product occurs |
| Catalog.NoFiltersKeepsAll | src/ts/index.ts:87-92 | with no colour, no size and an empty price token, the result is the catalog itself, in order |
| Catalog.NarrowMatching | src/ts/index.ts:88-92 | adding a filter stage to an already filtered result is the same as filtering the catalog once by the combined condition (dimensions combine with AND) |
| Catalog.MatchingIdempotent | src/ts/index.ts:87-93 | filtering twice with the same filters gives the same result as filtering once |
| Catalog.PriceTokenMeaning | src/ts/index.ts:90-92 | the price test (InPriceRange): the empty token constrains nothing; a token with non-zero max keeps exactly min <= price <= max; a token with max 0 keeps exactly price >= min |
| Catalog.PassesEachDimension | src/ts/index.ts:87-92 | a product passes the filters exactly when it passes the colour, the size and the price dimension each on its own (AND across dimensions) |
| Catalog.SelectionsWithinDimensionWiden | src/ts/index.ts:88-89 | checking two non-empty sets of colours, or of sizes, admits exactly the products either set admits (OR within a dimension) |
| Ordering.SortedByToken | src/ts/index.ts:94-98 | the token's order: menor-preco means prices never decrease, maior-preco means prices never increase, any other token means dates never increase |
| Ordering.CompareIsKeyDifference | src/ts/index.ts:95-97 | each of the three comparators is the difference of a per-order key, so it puts a before b exactly when a's key is smaller |
| Ordering.SortByKeySorted | src/ts/index.ts:94-98 | the stable sort's result is sorted by the order's key |
| Ordering.SortByKeyStable | src/ts/index.ts:94-98 | the stable sort keeps the products of each key in their original relative order |
| Ordering.SortInPlace | src/ts/index.ts:94-98 | the array ends as the stable sort of what it held: sorted by the order's key and a permutation, and, by SortByKeyStable, equal keys stay in their old order |
| Ordering.SortedCopy | src/ts/index.ts:94-98 | sorting a copy gives the stable sort of the list: sorted and a permutation |
| Ordering.SortedPermutationsEqual | src/ts/index.ts:94-98 | two sorted permutations of one sequence whose keys are distinct are equal, so the sorted result is determined |
| Ordering.AscendingReversedIsDescending | src/ts/index.ts:95-96 | when all prices differ, the ascending-price result reversed is the descending-price result |
| Pagination.VisibleCount | src/ts/index.ts:107 | the shown count is at most page * 9 and at most the result size, and equals one of them: their minimum |
| Pagination.LoadMoreShownIff | src/ts/index.ts:115 | LoadMoreShown: the button is visible exactly when page * 9 is below the result size, and hidden exactly when everything is shown |
| Pagination.NextPageReveals | src/ts/index.ts:214-216 | one more page never shows fewer products and adds up to nine, stopping at the result size |
| Pagination.PagesNeeded | src/ts/index.ts:107-115 | the number of pages that hides the button, one fewer still shows it |
| Pagination.TenProductsExample | src/ts/index.ts:107-115 | ten products: page 1 shows 9 with the button, page 2 shows 10 without it |
| FilterOptions.Dedup | src/ts/index.ts:135-136 | the distinct values hold each input value exactly once and nothing else |
| FilterOptions.DedupKeepsFirstAppearanceOrder | src/ts/index.ts:135 | the distinct values appear in the order of their first occurrence |
| FilterOptions.AllSizesMembers | src/ts/index.ts:136 | a size is in the flattened size list exactly when some product offers it |
| FilterOptions.SortStrings | src/ts/index.ts:148 | the default string sort gives a sorted permutation and keeps distinct values distinct |
| FilterOptions.LexSortedPairwise | src/ts/index.ts:148 | in a sorted list of strings every earlier entry is at most every later one |
| FilterOptions.DistinctColors | src/ts/index.ts:135 | the colour options are exactly the catalog colours, each once, in the order of their first appearance in the catalog |
| FilterOptions.DistinctSizes | src/ts/index.ts:136-148 | the size options are exactly the sizes some product offers, each once, in string order |
| Storefront.FirstIndexWithId | src/ts/index.ts:42 | finds the first product with the identifier, or reports that none has it |
| Storefront.ToggledSize | src/ts/index.ts:196-201 | a size button flips exactly its own size's membership |
| Storefront.ApplyTarget | src/ts/index.ts:180-201 | a colour box adds its colour when checked and removes it when not, touching no other colour; a checked price box stores its token and an unchecked one lifts the price constraint; a size button flips its own size only; other checkboxes and elements keep the filters |
| Storefront.SizeButtonTwiceRestores | src/ts/index.ts:192-201 | pressing the same size button twice restores the filter state |
| Storefront.CheckboxTwiceSameAsOnce | src/ts/index.ts:180-190 | the second dispatch of a checkbox event (click and change) leaves the filters as the first left them; the filters only, the whole state is CheckboxClickAndChange |
| Storefront.SortTokenOf | src/ts/index.ts:234 | the stored sort token is the item's value, or mais-recentes when the value is missing or empty, and never empty |
| Storefront.RebuildFacts | src/ts/index.ts:86-101 | a rebuilt result set holds each passing product as often as the catalog does and nothing else, keeps products with equal keys in catalog order, and orders prices up, prices down or dates down according to the token |
| Storefront.AppState.constructor | src/ts/index.ts:23-24 | after loading, the result set is the catalog, page 1, sort token mais-recentes, empty cart, the badge still showing the markup's text, no filters, and the invariant holds |
| Storefront.AppState.FilterCatalog | src/ts/index.ts:87-93 | the three skipped-when-inactive filter stages give exactly the catalog products passing all active filters, in catalog order |
| Storefront.AppState.SortedListing | src/ts/index.ts:86-98 | the filter stages followed by the sort give the stable sort of the passing catalog products, changing nothing |
| Storefront.AppState.UpdateProductDisplay | src/ts/index.ts:86-102 | the result set becomes the stable sort of the passing products in catalog order (what that holds is RebuildFacts); page reset to 1; the invariant holds; catalog, cart, badge, filters and token unchanged |
| Storefront.AppState.Render | src/ts/index.ts:104-116 | the grid shows the first min(page * 9, size) results, the empty message exactly when the result set is empty, and the button exactly when some result is not shown |
| Storefront.AppState.LoadMore | src/ts/index.ts:214-217 | the page grows by exactly one; the result set, filters, sort token and cart are untouched |
| Storefront.AppState.UpdateCartBadge | src/ts/index.ts:50-53 | writing the cart's length into the badge restores the badge invariant (BadgeShowsCart), so the state is valid exactly when its result set is |
| Storefront.AppState.AddToCart | src/ts/index.ts:41-48 | a known identifier appends exactly the first matching catalog product and sets the badge to the cart length; an unknown one changes neither cart nor badge; the invariant, badge included, is kept |
| Storefront.AppState.HandleInteraction | src/ts/index.ts:171-207 | the new filters are ApplyTarget of the old ones; a checkbox or size button rebuilds the listing back to page 1; any other element changes nothing |
| Storefront.AppState.CheckboxClickAndChange | src/ts/index.ts:180-212 | one checkbox toggle delivered as a click and then a change leaves catalog, cart, badge, token, filters and result set exactly as one dispatch would |
| Storefront.AppState.SelectSort | src/ts/index.ts:253-261 | stores the token (default mais-recentes), rebuilds the listing sorted by it at page 1, and keeps the same products (only the order changes) |

## Left out

- The catalog fetch, JSON decoding and the error message shown when loading fails (src/ts/index.ts:18-39) are network I/O. The constructor models a successful load only.
- Card markup and currency formatting with `toFixed(2)` (src/ts/index.ts:119-132) are floating-point presentation.
- The filter option markup, `cloneFiltersToMobile`, accordion toggles, `initializeSortDropdown` and the `is-open`/`is-active`/`is-selected` class updates (src/ts/index.ts:59-72, 137-151, 154-162, 175-178, 197-199, 221-232, 240-244) are DOM presentation.
- Opening and closing the filter and sort overlays and `document.body.style.overflow` (src/ts/index.ts:74-84, 245-264) are UI side effects. The state part of the overlay sort choice is `SelectSort`.
- The badge's `setTimeout` animation and the `console.log` of the cart (src/ts/index.ts:46, 54-55) are timers and logging.
- `Number()` on arbitrary strings (NaN, decimals, exponents) and `new Date(...)` parsing (src/ts/index.ts:91, 97) are not modelled. The token and the date arrive already converted to integers, so a NaN bound cannot be expressed.
- The badge's text before the first addition comes from the page markup, which is not part of this model; the model only records that it is untouched (`None`). A page without a badge element (src/ts/index.ts:51) is not modelled.
- Event dispatch (`addEventListener`, `closest`, `matches`, `dataset`) is replaced by direct calls with the target already classified.
- FilterOptions.SortStrings: compares strings by Unicode code point, where JavaScript compares UTF-16 code units. The two orders differ only for characters outside the Basic Multilingual Plane.
