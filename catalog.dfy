/**
 * The product catalog and the three filter dimensions of the listing page:
 * colour, size and price range. Filters combine with AND across dimensions
 * and with OR inside a dimension; an empty dimension constrains nothing.
 */
module Catalog {

  /**
   * A product as the listing endpoint returns it. Prices and installment
   * amounts are integers (cents); `date` is a timestamp.
   */
  datatype Product = Product(
    id: string,
    name: string,
    price: int,
    color: string,
    size: seq<string>,
    image: string,
    date: int,
    installmentCount: int,
    installmentValue: int)

  /**
   * The price-range token after it is split at '-' and both parts are
   * converted to numbers. `NoPrice` is the empty token. In `Bracket(min, max)`
   * a `max` of 0 stands for a falsy second part, as in "50-" or "50".
   */
  datatype PriceToken = NoPrice | Bracket(min: int, max: int)

  /** The selected colours, the selected sizes and the price-range token. */
  datatype Filters = Filters(colors: set<string>, sizes: set<string>, priceRange: PriceToken)

  const NoFilters := Filters({}, {}, NoPrice)

  /** The colour test, applied only when some colour is selected. */
  predicate HasColor(colors: set<string>, p: Product) {
    p.color in colors
  }

  /** The size test: the product offers at least one selected size. */
  predicate HasSomeSize(sizes: set<string>, p: Product) {
    exists i :: 0 <= i < |p.size| && p.size[i] in sizes
  }

  /** The price test of a non-empty token: a falsy max leaves the range open above. */
  predicate InPriceRange(min: int, max: int, p: Product) {
    if max != 0 then p.price >= min && p.price <= max else p.price >= min
  }

  /** A product passes when it passes every dimension that is active. */
  predicate Passes(f: Filters, p: Product) {
    && (|f.colors| > 0 ==> HasColor(f.colors, p))
    && (|f.sizes| > 0 ==> HasSomeSize(f.sizes, p))
    && (f.priceRange.Bracket? ==> InPriceRange(f.priceRange.min, f.priceRange.max, p))
  }

  /** Keeps, in order, the products that `keep` accepts (as `Array.filter`). */
  function Filter(xs: seq<Product>, keep: Product -> bool): (r: seq<Product>)
    ensures |r| <= |xs|
    ensures forall p :: p in r <==> p in xs && keep(p)
  {
    if xs == [] then []
    else
      assert xs == [xs[0]] + xs[1..];
      (if keep(xs[0]) then [xs[0]] else []) + Filter(xs[1..], keep)
  }

  /** Filtering keeps every accepted product as often as it occurs and drops the rest. */
  lemma {:induction false} FilterCount(xs: seq<Product>, keep: Product -> bool, p: Product)
    ensures multiset(Filter(xs, keep))[p] == if keep(p) then multiset(xs)[p] else 0
  {
    if xs != [] {
      assert xs == [xs[0]] + xs[1..];
      FilterCount(xs[1..], keep, p);
    }
  }

  /** The products of `xs` that pass all active filters of `f`, in catalog order. */
  function Matching(xs: seq<Product>, f: Filters): seq<Product> {
    Filter(xs, p => Passes(f, p))
  }

  /** The result set holds each catalog product that passes as often as the catalog does, and no other. */
  lemma MatchingCount(xs: seq<Product>, f: Filters, p: Product)
    ensures multiset(Matching(xs, f))[p] == if Passes(f, p) then multiset(xs)[p] else 0
  {
    FilterCount(xs, q => Passes(f, q), p);
  }

  /** With no active filter, every product is kept, in its place. */
  lemma {:induction false} NoFiltersKeepsAll(xs: seq<Product>)
    ensures Matching(xs, NoFilters) == xs
  {
    if xs != [] {
      NoFiltersKeepsAll(xs[1..]);
    }
  }

  /** Filtering distributes over concatenation. */
  lemma {:induction false} FilterAppend(a: seq<Product>, b: seq<Product>, keep: Product -> bool)
    ensures Filter(a + b, keep) == Filter(a, keep) + Filter(b, keep)
  {
    if a != [] {
      var head := if keep(a[0]) then [a[0]] else [];
      assert (a + b)[0] == a[0] && (a + b)[1..] == a[1..] + b;
      assert Filter(a + b, keep) == head + Filter(a[1..] + b, keep);
      FilterAppend(a[1..], b, keep);
      assert Filter(a, keep) == head + Filter(a[1..], keep);
    } else {
      assert a + b == b;
    }
  }

  /** One step of `Matching`: the head is kept exactly when it passes. */
  lemma MatchingCons(xs: seq<Product>, f: Filters)
    requires xs != []
    ensures Matching(xs, f) == (if Passes(f, xs[0]) then [xs[0]] else []) + Matching(xs[1..], f)
  {
  }

  /**
   * Applying one more filter stage `keep` to the products that pass `f` gives
   * the products that pass `g`, when `g` is `f` narrowed by `keep`.
   */
  lemma {:induction false} NarrowMatching(xs: seq<Product>, f: Filters, g: Filters, keep: Product -> bool)
    requires forall p :: Passes(g, p) == (Passes(f, p) && keep(p))
    ensures Filter(Matching(xs, f), keep) == Matching(xs, g)
  {
    if xs != [] {
      var head := if Passes(f, xs[0]) then [xs[0]] else [];
      MatchingCons(xs, f);
      MatchingCons(xs, g);
      FilterAppend(head, Matching(xs[1..], f), keep);
      NarrowMatching(xs[1..], f, g, keep);
      assert Filter(head, keep) == (if Passes(g, xs[0]) then [xs[0]] else []);
    }
  }

  /** Filtering is idempotent: a second pass with the same filters changes nothing. */
  lemma MatchingIdempotent(xs: seq<Product>, f: Filters)
    ensures Matching(Matching(xs, f), f) == Matching(xs, f)
  {
    NarrowMatching(xs, f, f, p => Passes(f, p));
  }

  /** What each form of the price token keeps, for a product and no other filter. */
  lemma PriceTokenMeaning(p: Product, min: int, max: int)
    ensures Passes(Filters({}, {}, NoPrice), p)
    ensures max != 0 ==> (Passes(Filters({}, {}, Bracket(min, max)), p) <==> min <= p.price <= max)
    ensures Passes(Filters({}, {}, Bracket(min, 0)), p) <==> p.price >= min
  {
  }

  /** Active dimensions combine with AND: a product passes when it passes each dimension on its own. */
  lemma PassesEachDimension(f: Filters, p: Product)
    ensures Passes(f, p) <==>
      && Passes(Filters(f.colors, {}, NoPrice), p)
      && Passes(Filters({}, f.sizes, NoPrice), p)
      && Passes(Filters({}, {}, f.priceRange), p)
  {
  }

  /**
   * Within one dimension the selected values combine with OR: checking more
   * colours, or more sizes, admits the products of either selection.
   */
  lemma SelectionsWithinDimensionWiden(f: Filters, c1: set<string>, c2: set<string>, p: Product)
    requires |c1| > 0 && |c2| > 0
    ensures Passes(f.(colors := c1 + c2), p) <==> Passes(f.(colors := c1), p) || Passes(f.(colors := c2), p)
    ensures Passes(f.(sizes := c1 + c2), p) <==> Passes(f.(sizes := c1), p) || Passes(f.(sizes := c2), p)
  {
    assert |c1 + c2| > 0 by {
      var c :| c in c1;
      assert c in c1 + c2;
    }
  }
}
