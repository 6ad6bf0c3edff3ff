/**
 * The three sort orders of the listing and the in-place sort that puts the
 * filtered products in the selected order.
 */
module Ordering {
  import opened Catalog

  datatype SortOrder = MostRecent | PriceAscending | PriceDescending

  /** The sort token's meaning: two known tokens, and most recent for any other. */
  function OrderOf(token: string): SortOrder {
    if token == "menor-preco" then PriceAscending
    else if token == "maior-preco" then PriceDescending
    else MostRecent
  }

  /** The comparator handed to the sort for each order: negative puts `a` first. */
  function Compare(o: SortOrder, a: Product, b: Product): int {
    match o
    case PriceAscending => a.price - b.price
    case PriceDescending => b.price - a.price
    case MostRecent => b.date - a.date
  }

  /** The value each order sorts on, smallest first. */
  function Key(o: SortOrder, p: Product): int {
    match o
    case PriceAscending => p.price
    case PriceDescending => -p.price
    case MostRecent => -p.date
  }

  /** Every comparator is the difference of the keys, so it is a total preorder. */
  lemma CompareIsKeyDifference(o: SortOrder, a: Product, b: Product)
    ensures Compare(o, a, b) == Key(o, a) - Key(o, b)
    ensures Compare(o, a, b) > 0 <==> Key(o, b) < Key(o, a)
  {
  }

  /** `s` is in the order `o`: keys never decrease from left to right. */
  predicate SortedBy(s: seq<Product>, o: SortOrder) {
    forall i, j :: 0 <= i < j < |s| ==> Key(o, s[i]) <= Key(o, s[j])
  }

  /** Exchanges two neighbouring elements. */
  method SwapAdjacent(a: array<Product>, j: nat)
    requires 0 < j < a.Length
    modifies a
    ensures a[..] == old(a[..])[j - 1 := old(a[j])][j := old(a[j - 1])]
  {
    a[j - 1], a[j] := a[j], a[j - 1];
  }

  /**
   * Inserts `x` after every element whose key is at most its own: from the
   * right, `x` moves left only past strictly larger keys.
   */
  function InsertByKey(x: Product, s: seq<Product>, o: SortOrder): (r: seq<Product>)
    ensures |r| == |s| + 1
    ensures multiset(r) == multiset(s) + multiset{x}
  {
    if s == [] || Key(o, s[|s| - 1]) <= Key(o, x) then s + [x]
    else
      var init, last := s[..|s| - 1], s[|s| - 1];
      assert s == init + [last];
      InsertByKey(x, init, o) + [last]
  }

  /** Inserting keeps every key below a bound that `x` and all of `s` respect. */
  lemma {:induction false} InsertByKeyBounded(x: Product, s: seq<Product>, o: SortOrder, bound: int)
    requires Key(o, x) <= bound
    requires forall i :: 0 <= i < |s| ==> Key(o, s[i]) <= bound
    ensures forall i :: 0 <= i < |s| + 1 ==> Key(o, InsertByKey(x, s, o)[i]) <= bound
  {
    if !(s == [] || Key(o, s[|s| - 1]) <= Key(o, x)) {
      InsertByKeyBounded(x, s[..|s| - 1], o, bound);
    }
  }

  /** Inserting into a sorted sequence keeps it sorted. */
  lemma {:induction false} InsertByKeySorted(x: Product, s: seq<Product>, o: SortOrder)
    requires SortedBy(s, o)
    ensures SortedBy(InsertByKey(x, s, o), o)
  {
    if !(s == [] || Key(o, s[|s| - 1]) <= Key(o, x)) {
      var init, last := s[..|s| - 1], s[|s| - 1];
      var r' := InsertByKey(x, init, o);
      InsertByKeySorted(x, init, o);
      InsertByKeyBounded(x, init, o, Key(o, last));
      var r := r' + [last];
      assert InsertByKey(x, s, o) == r;
      forall i, j | 0 <= i < j < |r| ensures Key(o, r[i]) <= Key(o, r[j]) {
        if j < |r| - 1 {
          assert r[i] == r'[i] && r[j] == r'[j];
        } else {
          assert r[i] == r'[i] && r[j] == last;
        }
      }
    }
  }

  /** Insertion sort as a function: the specification of `SortInPlace`. */
  function SortByKey(s: seq<Product>, o: SortOrder): (r: seq<Product>)
    ensures |r| == |s|
    ensures multiset(r) == multiset(s)
  {
    if s == [] then []
    else
      assert s == s[..|s| - 1] + [s[|s| - 1]];
      InsertByKey(s[|s| - 1], SortByKey(s[..|s| - 1], o), o)
  }

  /** The sorted result is in the order `o`. */
  lemma {:induction false} SortByKeySorted(s: seq<Product>, o: SortOrder)
    ensures SortedBy(SortByKey(s, o), o)
  {
    if s != [] {
      SortByKeySorted(s[..|s| - 1], o);
      InsertByKeySorted(s[|s| - 1], SortByKey(s[..|s| - 1], o), o);
    }
  }

  /** The entries of `s` whose key is `k`, in their order in `s`. */
  function WithKey(s: seq<Product>, o: SortOrder, k: int): seq<Product> {
    if s == [] then []
    else (if Key(o, s[0]) == k then [s[0]] else []) + WithKey(s[1..], o, k)
  }

  lemma {:induction false} WithKeyAppend(a: seq<Product>, b: seq<Product>, o: SortOrder, k: int)
    ensures WithKey(a + b, o, k) == WithKey(a, o, k) + WithKey(b, o, k)
  {
    if a == [] {
      assert a + b == b;
    } else {
      assert (a + b)[0] == a[0] && (a + b)[1..] == a[1..] + b;
      WithKeyAppend(a[1..], b, o, k);
    }
  }

  /** Inserting `x` puts it after every entry that has the same key. */
  lemma {:induction false} InsertByKeyStable(x: Product, s: seq<Product>, o: SortOrder, k: int)
    ensures WithKey(InsertByKey(x, s, o), o, k) == WithKey(s, o, k) + WithKey([x], o, k)
  {
    if s == [] || Key(o, s[|s| - 1]) <= Key(o, x) {
      WithKeyAppend(s, [x], o, k);
    } else {
      var init, last := s[..|s| - 1], s[|s| - 1];
      assert s == init + [last];
      InsertByKeyStable(x, init, o, k);
      WithKeyAppend(InsertByKey(x, init, o), [last], o, k);
      WithKeyAppend(init, [last], o, k);
      if Key(o, x) == k {
        assert WithKey([last], o, k) == [];
      } else {
        assert WithKey([x], o, k) == [];
      }
    }
  }

  /** The sort is stable: entries with equal keys keep their relative order. */
  lemma {:induction false} SortByKeyStable(s: seq<Product>, o: SortOrder, k: int)
    ensures WithKey(SortByKey(s, o), o, k) == WithKey(s, o, k)
  {
    if s != [] {
      var init, last := s[..|s| - 1], s[|s| - 1];
      assert s == init + [last];
      SortByKeyStable(init, o, k);
      InsertByKeyStable(last, SortByKey(init, o), o, k);
      WithKeyAppend(init, [last], o, k);
    }
  }

  /** One step of the inner loop: passing a strictly larger key moves it behind `x`. */
  lemma InsertPastLarger(x: Product, p: seq<Product>, q: seq<Product>, o: SortOrder)
    requires p != [] && Key(o, x) < Key(o, p[|p| - 1])
    ensures InsertByKey(x, p, o) + q == InsertByKey(x, p[..|p| - 1], o) + ([p[|p| - 1]] + q)
  {
  }

  /** What one adjacent exchange at `j` does to the slices the inner loop tracks. */
  lemma SwapSlices(b: seq<Product>, c: seq<Product>, j: nat, i: nat)
    requires 0 < j <= i < |b| && c == b[j - 1 := b[j]][j := b[j - 1]]
    ensures c[j - 1] == b[j]
    ensures c[..j - 1] == b[..j][..j - 1]
    ensures c[j..i + 1] == [b[..j][j - 1]] + b[j + 1..i + 1]
    ensures c[..j - 1] + c[j..i + 1] == b[..j] + b[j + 1..i + 1]
    ensures c[i + 1..] == b[i + 1..]
  {
    assert b[..j] == b[..j - 1] + [b[j - 1]];
  }

  /** The inner loop stops where `x` belongs: after the last key it does not exceed. */
  lemma InsertStops(x: Product, p: seq<Product>, o: SortOrder)
    requires p == [] || Key(o, p[|p| - 1]) <= Key(o, x)
    ensures InsertByKey(x, p, o) == p + [x]
  {
  }

  /** Sorting one more entry inserts it into the sorted prefix. */
  lemma SortByKeyExtend(s: seq<Product>, i: nat, o: SortOrder)
    requires i < |s|
    ensures SortByKey(s[..i + 1], o) == InsertByKey(s[i], SortByKey(s[..i], o), o)
  {
    var prefix := s[..i + 1];
    assert prefix[..i] == s[..i] && prefix[i] == s[i] && |prefix| == i + 1;
  }

  lemma SplitAround(s: seq<Product>, i: nat, j: nat)
    requires j <= i < |s|
    ensures s[..i + 1] == s[..j] + [s[j]] + s[j + 1..i + 1]
  {
  }

  /**
   * The inner loop's state: `orig[i]` sits at `j`, the rest of the first
   * `i + 1` entries is the sorted prefix, and the entries right of `j` are
   * exactly those `orig[i]` still has to pass when inserted.
   */
  ghost predicate InnerInvariant(cur: seq<Product>, orig: seq<Product>, sorted: seq<Product>, i: nat, j: nat, o: SortOrder) {
    && j <= i < |cur| == |orig|
    && cur[j] == orig[i]
    && cur[..j] + cur[j + 1..i + 1] == sorted
    && InsertByKey(orig[i], sorted, o) == InsertByKey(orig[i], cur[..j], o) + cur[j + 1..i + 1]
    && cur[i + 1..] == orig[i + 1..]
  }

  /** Before the inner loop, `orig[i]` sits at `i` behind the sorted prefix. */
  lemma InnerStart(orig: seq<Product>, i: nat, o: SortOrder)
    requires i < |orig|
    ensures InnerInvariant(orig, orig, orig[..i], i, i, o)
  {
    assert orig[i + 1..i + 1] == [];
  }

  /** One exchange past a strictly larger key keeps the inner loop's state. */
  lemma InnerStep(b: seq<Product>, c: seq<Product>, orig: seq<Product>, sorted: seq<Product>, i: nat, j: nat, o: SortOrder)
    requires 0 < j && InnerInvariant(b, orig, sorted, i, j, o)
    requires Compare(o, b[j - 1], b[j]) > 0
    requires c == b[j - 1 := b[j]][j := b[j - 1]]
    ensures InnerInvariant(c, orig, sorted, i, j - 1, o)
  {
    CompareIsKeyDifference(o, b[j - 1], b[j]);
    InsertPastLarger(orig[i], b[..j], b[j + 1..i + 1], o);
    SwapSlices(b, c, j, i);
  }

  /** When the inner loop stops, the first `i + 1` entries are `orig[i]` inserted into the prefix. */
  lemma InnerExit(cur: seq<Product>, orig: seq<Product>, sorted: seq<Product>, i: nat, j: nat, o: SortOrder)
    requires InnerInvariant(cur, orig, sorted, i, j, o)
    requires j == 0 || Compare(o, cur[j - 1], cur[j]) <= 0
    ensures cur[..i + 1] == InsertByKey(orig[i], sorted, o)
    ensures cur[i + 1..] == orig[i + 1..]
  {
    if j > 0 {
      CompareIsKeyDifference(o, cur[j - 1], cur[j]);
    }
    InsertStops(orig[i], cur[..j], o);
    SplitAround(cur, i, j);
  }

  /** One step of the inner loop: moves `orig[i]` from `j` one place left, past a larger key. */
  method SwapBack(a: array<Product>, ghost orig: seq<Product>, ghost sorted: seq<Product>, i: nat, j: nat, o: SortOrder)
    requires 0 < j && InnerInvariant(a[..], orig, sorted, i, j, o)
    requires Compare(o, a[j - 1], a[j]) > 0
    modifies a
    ensures InnerInvariant(a[..], orig, sorted, i, j - 1, o)
  {
    ghost var before := a[..];
    SwapAdjacent(a, j);
    InnerStep(before, a[..], orig, sorted, i, j, o);
  }

  /**
   * One pass of the outer loop: moves `a[i]` left past the strictly larger
   * keys before it, which inserts it into the first `i` entries.
   */
  method InsertInPlace(a: array<Product>, i: nat, o: SortOrder)
    requires i < a.Length
    modifies a
    ensures a[..][..i + 1] == InsertByKey(old(a[i]), old(a[..][..i]), o)
    ensures a[..][i + 1..] == old(a[..][i + 1..])
  {
    ghost var orig := a[..];
    ghost var sorted := orig[..i];
    InnerStart(orig, i, o);
    var j := i;
    while j > 0 && Compare(o, a[j - 1], a[j]) > 0
      invariant InnerInvariant(a[..], orig, sorted, i, j, o)
    {
      SwapBack(a, orig, sorted, i, j, o);
      j := j - 1;
    }
    InnerExit(a[..], orig, sorted, i, j, o);
  }

  /** Inserting the next entry into the sorted prefix extends the sorted prefix by one. */
  lemma OuterStep(orig: seq<Product>, b: seq<Product>, c: seq<Product>, i: nat, o: SortOrder)
    requires i < |orig| == |b| == |c|
    requires b[..i] == SortByKey(orig[..i], o) && b[i..] == orig[i..]
    requires c[..i + 1] == InsertByKey(b[i], b[..i], o) && c[i + 1..] == b[i + 1..]
    ensures c[..i + 1] == SortByKey(orig[..i + 1], o) && c[i + 1..] == orig[i + 1..]
  {
    assert b[i] == b[i..][0] == orig[i];
    SortByKeyExtend(orig, i, o);
    assert b[i + 1..] == b[i..][1..] && orig[i + 1..] == orig[i..][1..];
  }

  /**
   * Sorts `a` in place by the comparator of `o`: insertion sort, moving each
   * element left past strictly larger keys only, so that equal keys keep
   * their order. The result is `SortByKey` of the old contents.
   */
  method SortInPlace(a: array<Product>, o: SortOrder)
    modifies a
    ensures a[..] == SortByKey(old(a[..]), o)
    ensures SortedBy(a[..], o)
    ensures multiset(a[..]) == multiset(old(a[..]))
  {
    ghost var orig := a[..];
    var i := 0;
    while i < a.Length
      invariant 0 <= i <= a.Length == |orig|
      invariant a[..][..i] == SortByKey(orig[..i], o)
      invariant a[..][i..] == orig[i..]
    {
      ghost var before := a[..];
      InsertInPlace(a, i, o);
      OuterStep(orig, before, a[..], i, o);
      i := i + 1;
    }
    assert a[..][..a.Length] == a[..] && orig[..a.Length] == orig;
    ghost var r := a[..];
    SortByKeySorted(orig, o);
    assert SortedBy(r, o) && multiset(r) == multiset(orig);
  }

  /** Sorts a copy of `s` in a fresh array, as the rebuild does with its filtered list. */
  method SortedCopy(s: seq<Product>, o: SortOrder) returns (r: seq<Product>)
    ensures r == SortByKey(s, o)
    ensures SortedBy(r, o) && multiset(r) == multiset(s)
  {
    var a := new Product[|s|](i requires 0 <= i < |s| => s[i]);
    assert a[..] == s;
    SortInPlace(a, o);
    r := a[..];
  }

  /** What sorting under each token means for prices and dates. */
  lemma SortedByToken(s: seq<Product>, token: string)
    requires SortedBy(s, OrderOf(token))
    ensures token == "menor-preco" ==>
      forall i, j :: 0 <= i < j < |s| ==> s[i].price <= s[j].price
    ensures token == "maior-preco" ==>
      forall i, j :: 0 <= i < j < |s| ==> s[i].price >= s[j].price
    ensures token != "menor-preco" && token != "maior-preco" ==>
      forall i, j :: 0 <= i < j < |s| ==> s[i].date >= s[j].date
  {
  }

  /** No two entries of `s` share a key. */
  predicate DistinctKeys(s: seq<Product>, o: SortOrder) {
    forall i, j :: 0 <= i < |s| && 0 <= j < |s| && i != j ==> Key(o, s[i]) != Key(o, s[j])
  }

  /** Sorted permutations with distinct keys start with the same element. */
  lemma SameHead(s: seq<Product>, t: seq<Product>, o: SortOrder)
    requires SortedBy(s, o) && SortedBy(t, o)
    requires multiset(s) == multiset(t)
    requires DistinctKeys(s, o)
    requires s != []
    ensures t != [] && s[0] == t[0]
  {
    assert s[0] in multiset(t);
    var k :| 0 <= k < |t| && t[k] == s[0];
    assert t[0] in multiset(s);
    var m :| 0 <= m < |s| && s[m] == t[0];
    assert Key(o, s[0]) <= Key(o, s[m]);
    assert Key(o, t[0]) <= Key(o, t[k]);
  }

  /** Removing a common first element keeps two permutations permutations. */
  lemma SameTailElements(s: seq<Product>, t: seq<Product>)
    requires s != [] && t != [] && s[0] == t[0]
    requires multiset(s) == multiset(t)
    ensures multiset(s[1..]) == multiset(t[1..])
  {
    assert s == [s[0]] + s[1..] && t == [t[0]] + t[1..];
    assert multiset(s[1..]) == multiset(s) - multiset{s[0]};
    assert multiset(t[1..]) == multiset(t) - multiset{t[0]};
  }

  /** Two sorted permutations of one sequence whose keys are all distinct are equal. */
  lemma {:induction false} SortedPermutationsEqual(s: seq<Product>, t: seq<Product>, o: SortOrder)
    requires SortedBy(s, o) && SortedBy(t, o)
    requires multiset(s) == multiset(t)
    requires DistinctKeys(s, o)
    ensures s == t
  {
    if s == [] {
      assert |t| == |multiset(t)| == 0;
    } else {
      SameHead(s, t, o);
      SameTailElements(s, t);
      SortedPermutationsEqual(s[1..], t[1..], o);
      assert s == [s[0]] + s[1..] && t == [t[0]] + t[1..];
    }
  }

  function Reverse(s: seq<Product>): (r: seq<Product>)
    ensures |r| == |s|
    ensures forall i :: 0 <= i < |s| ==> r[i] == s[|s| - 1 - i]
  {
    if s == [] then [] else Reverse(s[1..]) + [s[0]]
  }

  lemma {:induction false} ReverseSameElements(s: seq<Product>)
    ensures multiset(Reverse(s)) == multiset(s)
  {
    if s != [] {
      assert s == [s[0]] + s[1..];
      ReverseSameElements(s[1..]);
    }
  }

  /** No two entries of `s` have the same price. */
  predicate DistinctPrices(s: seq<Product>) {
    forall i, j :: 0 <= i < |s| && 0 <= j < |s| && i != j ==> s[i].price != s[j].price
  }

  lemma ReverseOfAscending(s: seq<Product>)
    requires SortedBy(s, PriceAscending)
    ensures SortedBy(Reverse(s), PriceDescending)
  {
    var r := Reverse(s);
    forall i, j | 0 <= i < j < |r|
      ensures Key(PriceDescending, r[i]) <= Key(PriceDescending, r[j])
    {
      assert r[i] == s[|s| - 1 - i] && r[j] == s[|s| - 1 - j];
    }
  }

  lemma ReverseKeepsDistinctPrices(s: seq<Product>)
    requires DistinctPrices(s)
    ensures DistinctKeys(Reverse(s), PriceDescending)
  {
    var r := Reverse(s);
    forall i, j | 0 <= i < |r| && 0 <= j < |r| && i != j
      ensures Key(PriceDescending, r[i]) != Key(PriceDescending, r[j])
    {
      assert r[i] == s[|s| - 1 - i] && r[j] == s[|s| - 1 - j];
    }
  }

  /**
   * On a catalog whose prices are all distinct, the ascending-price order
   * reversed is the descending-price order.
   */
  lemma AscendingReversedIsDescending(s: seq<Product>, t: seq<Product>)
    requires SortedBy(s, PriceAscending) && SortedBy(t, PriceDescending)
    requires multiset(s) == multiset(t)
    requires DistinctPrices(s)
    ensures Reverse(s) == t
  {
    ReverseSameElements(s);
    ReverseOfAscending(s);
    ReverseKeepsDistinctPrices(s);
    SortedPermutationsEqual(Reverse(s), t, PriceDescending);
  }
}
