/**
 * Pagination of the result set: a fixed page size, a 1-based page number
 * that only grows, and the "load more" button.
 */
module Pagination {

  const PageSize: nat := 9

  /** Page numbers start at 1. */
  type PageNumber = n: nat | 1 <= n witness 1

  /** How many products are shown: page * PageSize, clamped to the result set. */
  function VisibleCount(page: nat, total: nat): (n: nat)
    ensures n <= total && n <= page * PageSize
    ensures n == total || n == page * PageSize
  {
    if page * PageSize < total then page * PageSize else total
  }

  /** The "load more" button is hidden once the shown count reaches the total. */
  predicate LoadMoreShown(page: nat, total: nat) {
    !(VisibleCount(page, total) >= total)
  }

  /** The button is shown exactly while some product lies beyond the current pages. */
  lemma LoadMoreShownIff(page: nat, total: nat)
    ensures LoadMoreShown(page, total) <==> page * PageSize < total
    ensures !LoadMoreShown(page, total) <==> VisibleCount(page, total) == total
  {
  }

  /** Each "load more" reveals at most one more page of products, and never hides any. */
  lemma NextPageReveals(page: nat, total: nat)
    ensures VisibleCount(page, total) <= VisibleCount(page + 1, total)
    ensures VisibleCount(page + 1, total) == if VisibleCount(page, total) + PageSize < total then VisibleCount(page, total) + PageSize else total
  {
  }

  /** The number of pages after which everything is shown. */
  function PagesNeeded(total: nat): (pages: nat)
    ensures !LoadMoreShown(pages, total)
    ensures pages > 0 ==> LoadMoreShown(pages - 1, total)
  {
    (total + PageSize - 1) / PageSize
  }

  /** Ten products: page one shows nine with the button, page two shows all ten without it. */
  lemma TenProductsExample()
    ensures VisibleCount(1, 10) == 9 && LoadMoreShown(1, 10)
    ensures VisibleCount(2, 10) == 10 && !LoadMoreShown(2, 10)
  {
  }
}
