/**
 * The listing page's state and the events that change it: the filter panel,
 * the two sort surfaces, "load more" and "add to cart".
 */
module Storefront {
  import opened Options
  import opened Catalog
  import opened Ordering
  import opened Pagination

  /** The element a click or change in the filter panel lands on. */
  datatype FilterTarget =
    | ColorCheckbox(value: string, checked: bool)
    | PriceCheckbox(token: PriceToken, checked: bool)
    | OtherCheckbox
    | SizeButton(size: string)
    | OtherElement

  /** What one render writes: the product cards, the empty-result message, the button. */
  datatype View = View(cards: seq<Product>, noResults: bool, loadMore: bool)

  /** The index of the first product with identifier `id`, as `Array.find` locates it. */
  function FirstIndexWithId(xs: seq<Product>, id: string): (r: Option<nat>)
    ensures r.None? <==> forall i :: 0 <= i < |xs| ==> xs[i].id != id
    ensures r.Some? ==> r.value < |xs| && xs[r.value].id == id
    ensures r.Some? ==> forall j :: 0 <= j < r.value ==> xs[j].id != id
  {
    if xs == [] then None
    else if xs[0].id == id then Some(0)
    else
      match FirstIndexWithId(xs[1..], id)
      case None => None
      case Some(k) => Some(k + 1)
  }

  /** Pressing a size button flips that size's membership and no other. */
  function ToggledSize(sizes: set<string>, size: string): (r: set<string>)
    ensures size in r <==> size !in sizes
    ensures forall t :: t != size ==> (t in r <==> t in sizes)
  {
    if size in sizes then sizes - {size} else sizes + {size}
  }

  /** The filter state after the panel's handler has seen `target`. */
  function ApplyTarget(f: Filters, target: FilterTarget): (r: Filters)
    ensures target.ColorCheckbox? ==>
      && r.sizes == f.sizes && r.priceRange == f.priceRange
      && (target.value in r.colors <==> target.checked)
      && forall c :: c != target.value ==> (c in r.colors <==> c in f.colors)
    ensures target.PriceCheckbox? ==>
      && r.colors == f.colors && r.sizes == f.sizes
      && (target.checked ==> r.priceRange == target.token)
      && (!target.checked ==> forall p :: Passes(r, p) <==> Passes(f.(priceRange := NoPrice), p))
    ensures target.SizeButton? ==>
      && r.colors == f.colors && r.priceRange == f.priceRange
      && (target.size in r.sizes <==> target.size !in f.sizes)
      && forall t :: t != target.size ==> (t in r.sizes <==> t in f.sizes)
    ensures target.OtherCheckbox? || target.OtherElement? ==> r == f
  {
    match target
    case ColorCheckbox(v, checked) =>
      f.(colors := if checked then f.colors + {v} else f.colors - {v})
    case PriceCheckbox(t, checked) =>
      f.(priceRange := if checked then t else NoPrice)
    case SizeButton(s) =>
      f.(sizes := ToggledSize(f.sizes, s))
    case OtherCheckbox => f
    case OtherElement => f
  }

  /** Whether the handler refreshes the listing for `target`. */
  predicate ChangesFilters(target: FilterTarget) {
    !target.OtherElement?
  }

  /** Pressing the same size button twice restores the selected sizes. */
  lemma SizeButtonTwiceRestores(f: Filters, size: string)
    ensures ApplyTarget(ApplyTarget(f, SizeButton(size)), SizeButton(size)) == f
  {
    var g := ApplyTarget(f, SizeButton(size));
    assert ApplyTarget(g, SizeButton(size)).sizes == f.sizes;
  }

  /**
   * A checkbox fires both a click and a change, and both reach the handler;
   * the second run leaves the filters as the first left them.
   */
  lemma CheckboxTwiceSameAsOnce(f: Filters, target: FilterTarget)
    requires target.ColorCheckbox? || target.PriceCheckbox? || target.OtherCheckbox?
    ensures ApplyTarget(ApplyTarget(f, target), target) == ApplyTarget(f, target)
  {
  }

  /** The token stored by a sort selection: the item's value, or the default when it has none. */
  function SortTokenOf(value: Option<string>): (token: string)
    ensures token != ""
    ensures value.Some? && value.value != "" ==> token == value.value
    ensures value == None || value == Some("") ==> token == "mais-recentes"
  {
    if value.Some? && value.value != "" then value.value else "mais-recentes"
  }

  /**
   * What a rebuild yields: the stable sort of the passing products in
   * catalog order holds each passing product as often as the catalog does
   * and nothing else, keeps equal keys in catalog order, and orders prices
   * up, prices down or dates down according to the token.
   */
  lemma RebuildFacts(all: seq<Product>, f: Filters, token: string, r: seq<Product>)
    requires r == SortByKey(Matching(all, f), OrderOf(token))
    ensures multiset(r) == multiset(Matching(all, f))
    ensures forall p :: multiset(r)[p] == (if Passes(f, p) then multiset(all)[p] else 0)
    ensures forall k :: WithKey(r, OrderOf(token), k) == WithKey(Matching(all, f), OrderOf(token), k)
    ensures SortedBy(r, OrderOf(token))
    ensures token == "menor-preco" ==> forall i, j :: 0 <= i < j < |r| ==> r[i].price <= r[j].price
    ensures token == "maior-preco" ==> forall i, j :: 0 <= i < j < |r| ==> r[i].price >= r[j].price
    ensures token != "menor-preco" && token != "maior-preco" ==>
      forall i, j :: 0 <= i < j < |r| ==> r[i].date >= r[j].date
  {
    SortByKeySorted(Matching(all, f), OrderOf(token));
    SortedByToken(r, token);
    forall p ensures multiset(r)[p] == (if Passes(f, p) then multiset(all)[p] else 0) {
      MatchingCount(all, f, p);
    }
    forall k ensures WithKey(r, OrderOf(token), k) == WithKey(Matching(all, f), OrderOf(token), k) {
      SortByKeyStable(Matching(all, f), OrderOf(token), k);
    }
  }

  /** The listing page: catalog, result set, page, sort token, cart and filters. */
  class AppState {
    var allProducts: seq<Product>
    var filteredProducts: seq<Product>
    var currentPage: PageNumber
    var sortOrder: string
    var cart: seq<Product>
    var colors: set<string>
    var sizes: set<string>
    var priceRange: PriceToken
    /** The cart badge's text: `None` until the first addition, while it shows the markup's own text. */
    var badge: Option<nat>

    function ActiveFilters(): Filters
      reads this`colors, this`sizes, this`priceRange
    {
      Filters(colors, sizes, priceRange)
    }

    /**
     * The result set always holds exactly the catalog products that pass the
     * active filters, the cart only holds catalog products, and the badge
     * shows the cart's length once anything has been added.
     */
    ghost predicate Valid()
      reads this
    {
      && multiset(filteredProducts) == multiset(Matching(allProducts, ActiveFilters()))
      && CartFromCatalog()
      && BadgeShowsCart()
    }

    /** Every cart entry is a catalog product. */
    ghost predicate CartFromCatalog()
      reads this`cart, this`allProducts
    {
      forall i :: 0 <= i < |cart| ==> cart[i] in allProducts
    }

    /** The badge is untouched while the cart is empty, and otherwise shows its length. */
    ghost predicate BadgeShowsCart()
      reads this`badge, this`cart
    {
      (badge.None? && cart == []) || badge == Some(|cart|)
    }

    /**
     * The result set has just been rebuilt: it is the stable sort of the
     * passing catalog products by the token's order (`RebuildFacts` says what
     * that holds), and the grid is back on the first page.
     */
    ghost predicate Refreshed()
      reads this
    {
      && currentPage == 1
      && filteredProducts == SortByKey(Matching(allProducts, ActiveFilters()), OrderOf(sortOrder))
    }

    /**
     * The page once the catalog has loaded: the result set is the catalog as
     * received (not yet sorted), no filter is active and the cart is empty.
     */
    constructor (products: seq<Product>)
      ensures Valid()
      ensures allProducts == products && filteredProducts == products
      ensures currentPage == 1 && sortOrder == "mais-recentes" && cart == [] && badge == None
      ensures ActiveFilters() == NoFilters
    {
      allProducts := products;
      filteredProducts := products;
      currentPage := 1;
      sortOrder := "mais-recentes";
      cart := [];
      badge := None;
      colors, sizes, priceRange := {}, {}, NoPrice;
      NoFiltersKeepsAll(products);
    }

    /**
     * The filtering half of a rebuild: the catalog narrowed by colour, then by
     * size, then by price, each stage only when that dimension is active.
     */
    method FilterCatalog() returns (result: seq<Product>)
      ensures result == Matching(allProducts, ActiveFilters())
    {
      var cs, ss, pr := colors, sizes, priceRange;
      result := allProducts;
      NoFiltersKeepsAll(allProducts);
      if |cs| > 0 {
        NarrowMatching(allProducts, NoFilters, Filters(cs, {}, NoPrice), p => HasColor(cs, p));
        result := Filter(result, p => HasColor(cs, p));
      }
      assert result == Matching(allProducts, Filters(cs, {}, NoPrice));
      if |ss| > 0 {
        NarrowMatching(allProducts, Filters(cs, {}, NoPrice), Filters(cs, ss, NoPrice), p => HasSomeSize(ss, p));
        result := Filter(result, p => HasSomeSize(ss, p));
      }
      assert result == Matching(allProducts, Filters(cs, ss, NoPrice));
      if pr.Bracket? {
        var min, max := pr.min, pr.max;
        NarrowMatching(allProducts, Filters(cs, ss, NoPrice), Filters(cs, ss, pr), p => InPriceRange(min, max, p));
        result := Filter(result, p => InPriceRange(min, max, p));
      }
    }

    /**
     * Rebuilds the result set from the catalog and the current filters, sorts
     * it in place by the sort token and goes back to page 1.
     */
    method UpdateProductDisplay()
      requires CartFromCatalog() && BadgeShowsCart()
      modifies this`filteredProducts, this`currentPage
      ensures Valid() && Refreshed()
      ensures allProducts == old(allProducts) && cart == old(cart) && badge == old(badge)
      ensures sortOrder == old(sortOrder) && ActiveFilters() == old(ActiveFilters())
    {
      filteredProducts := SortedListing();
      currentPage := 1;
    }

    /** The filter stages followed by the sort, on a fresh array: the rebuilt result set. */
    method SortedListing() returns (r: seq<Product>)
      ensures r == SortByKey(Matching(allProducts, ActiveFilters()), OrderOf(sortOrder))
    {
      var result := FilterCatalog();
      r := SortedCopy(result, OrderOf(sortOrder));
    }

    /** What the grid shows: the first pages of the result set and the "load more" button. */
    function Render(): (v: View)
      reads this
      ensures |v.cards| <= currentPage * PageSize && |v.cards| <= |filteredProducts|
      ensures |v.cards| == currentPage * PageSize || |v.cards| == |filteredProducts|
      ensures v.cards == filteredProducts[..|v.cards|]
      ensures v.noResults <==> filteredProducts == []
      ensures v.loadMore <==> |v.cards| < |filteredProducts|
      ensures v.loadMore <==> currentPage * PageSize < |filteredProducts|
    {
      var shown := filteredProducts[..VisibleCount(currentPage, |filteredProducts|)];
      View(shown, |shown| == 0, !(|shown| >= |filteredProducts|))
    }

    /** "Load more": one more page; the result set and the filters stay as they are. */
    method LoadMore()
      requires Valid()
      modifies this`currentPage
      ensures Valid()
      ensures currentPage == old(currentPage) + 1
    {
      currentPage := currentPage + 1;
    }

    /** Writes the cart's length into the badge, which restores the badge invariant. */
    method UpdateCartBadge()
      requires CartFromCatalog()
      modifies this`badge
      ensures Valid() <==> multiset(filteredProducts) == multiset(Matching(allProducts, ActiveFilters()))
      ensures badge == Some(|cart|)
    {
      badge := Some(|cart|);
    }

    /**
     * "Add to cart": appends the first catalog product with the identifier and
     * refreshes the badge; an unknown identifier changes nothing.
     */
    method AddToCart(productId: string)
      requires Valid()
      modifies this`cart, this`badge
      ensures Valid()
      ensures FirstIndexWithId(allProducts, productId).None? ==> cart == old(cart) && badge == old(badge)
      ensures FirstIndexWithId(allProducts, productId).Some? ==>
        && cart == old(cart) + [allProducts[FirstIndexWithId(allProducts, productId).value]]
        && badge == Some(|cart|)
    {
      var found := FirstIndexWithId(allProducts, productId);
      if found.Some? {
        cart := cart + [allProducts[found.value]];
        UpdateCartBadge();
      }
    }

    /**
     * The filter panel's delegated click/change handler: a checkbox or size
     * button updates the filters and rebuilds the listing; anything else
     * changes nothing. It mutates the filter fields one by one, as the page
     * does; `ApplyTarget` is its specification.
     */
    method HandleInteraction(target: FilterTarget)
      requires Valid()
      modifies this
      ensures Valid()
      ensures allProducts == old(allProducts) && cart == old(cart) && badge == old(badge)
      ensures sortOrder == old(sortOrder)
      ensures ActiveFilters() == ApplyTarget(old(ActiveFilters()), target)
      ensures ChangesFilters(target) ==> Refreshed()
      ensures !ChangesFilters(target) ==>
        filteredProducts == old(filteredProducts) && currentPage == old(currentPage)
    {
      var filtersChanged := false;
      match target {
        case ColorCheckbox(v, checked) =>
          filtersChanged := true;
          if checked { colors := colors + {v}; } else { colors := colors - {v}; }
        case PriceCheckbox(t, checked) =>
          filtersChanged := true;
          priceRange := if checked then t else NoPrice;
        case OtherCheckbox =>
          filtersChanged := true;
        case SizeButton(s) =>
          filtersChanged := true;
          var isSelected := s in sizes;
          if isSelected { sizes := sizes - {s}; } else { sizes := sizes + {s}; }
        case OtherElement =>
      }
      if filtersChanged {
        UpdateProductDisplay();
      }
    }

    /**
     * A choice from the sort dropdown or the sort overlay: stores the token
     * (the default when the item has no value) and rebuilds the listing.
     */
    method SelectSort(value: Option<string>)
      requires Valid()
      modifies this
      ensures Valid() && Refreshed()
      ensures sortOrder == SortTokenOf(value)
      ensures allProducts == old(allProducts) && cart == old(cart) && badge == old(badge)
      ensures ActiveFilters() == old(ActiveFilters())
      ensures multiset(filteredProducts) == multiset(old(filteredProducts))
    {
      sortOrder := SortTokenOf(value);
      UpdateProductDisplay();
    }

    /**
     * One checkbox toggle, delivered as a click and then as a change: the page
     * ends exactly as after a single dispatch.
     */
    method CheckboxClickAndChange(target: FilterTarget)
      requires Valid()
      requires target.ColorCheckbox? || target.PriceCheckbox? || target.OtherCheckbox?
      modifies this
      ensures Valid() && Refreshed()
      ensures allProducts == old(allProducts) && cart == old(cart) && badge == old(badge)
      ensures sortOrder == old(sortOrder)
      ensures ActiveFilters() == ApplyTarget(old(ActiveFilters()), target)
      ensures filteredProducts ==
        SortByKey(Matching(old(allProducts), ApplyTarget(old(ActiveFilters()), target)), OrderOf(old(sortOrder)))
    {
      HandleInteraction(target);
      ghost var once := filteredProducts;
      ghost var filtersOnce := ActiveFilters();
      CheckboxTwiceSameAsOnce(old(ActiveFilters()), target);
      HandleInteraction(target);
      assert ActiveFilters() == filtersOnce && filteredProducts == once;
    }
  }
}
