/**
 * The option lists offered by the filter panel, derived from the whole
 * catalog: the distinct colours in order of first appearance, and the
 * distinct sizes in ascending string order.
 */
module FilterOptions {
  import opened Catalog

  /** No value occurs twice. */
  predicate NoDuplicates(s: seq<string>) {
    forall i, j :: 0 <= i < j < |s| ==> s[i] != s[j]
  }

  /** The colour of every product, in catalog order. */
  function Colors(ps: seq<Product>): (r: seq<string>)
    ensures |r| == |ps|
    ensures forall i :: 0 <= i < |ps| ==> r[i] == ps[i].color
  {
    seq(|ps|, i requires 0 <= i < |ps| => ps[i].color)
  }

  /** All sizes of all products, concatenated in catalog order (as `flatMap`). */
  function AllSizes(ps: seq<Product>): seq<string> {
    if ps == [] then [] else ps[0].size + AllSizes(ps[1..])
  }

  /** A size is in the flattened list exactly when some product offers it. */
  lemma {:induction false} AllSizesMembers(ps: seq<Product>, s: string)
    ensures s in AllSizes(ps) <==> exists i :: 0 <= i < |ps| && s in ps[i].size
  {
    if ps != [] {
      AllSizesMembers(ps[1..], s);
      if s in AllSizes(ps[1..]) {
        var i :| 0 <= i < |ps[1..]| && s in ps[1..][i].size;
        assert s in ps[i + 1].size;
      }
      if exists i :: 0 <= i < |ps| && s in ps[i].size {
        var i :| 0 <= i < |ps| && s in ps[i].size;
        if i > 0 {
          assert s in ps[1..][i - 1].size;
        }
      }
    }
  }

  /** The position where `x` first occurs in `xs`. */
  function FirstIndex(xs: seq<string>, x: string): (k: nat)
    requires x in xs
    ensures k < |xs| && xs[k] == x
    ensures forall j :: 0 <= j < k ==> xs[j] != x
  {
    if xs[0] == x then 0 else 1 + FirstIndex(xs[1..], x)
  }

  /**
   * The distinct values of `xs`, each in the place of its first occurrence
   * (as spreading a `Set` built from `xs`).
   */
  function Dedup(xs: seq<string>): (r: seq<string>)
    ensures forall x :: x in r <==> x in xs
    ensures NoDuplicates(r)
  {
    if xs == [] then []
    else
      var seen := Dedup(xs[..|xs| - 1]);
      var last := xs[|xs| - 1];
      assert xs == xs[..|xs| - 1] + [last];
      if last in seen then seen else seen + [last]
  }

  /** A value found in a prefix first occurs at the same position in the whole sequence. */
  lemma FirstIndexInPrefix(xs: seq<string>, n: nat, x: string)
    requires n <= |xs| && x in xs[..n]
    ensures x in xs && FirstIndex(xs, x) == FirstIndex(xs[..n], x)
  {
    var k := FirstIndex(xs[..n], x);
    assert xs[k] == x;
  }

  /** `Dedup` keeps the order of first appearance. */
  lemma {:induction false} DedupKeepsFirstAppearanceOrder(xs: seq<string>)
    ensures forall i, j :: 0 <= i < j < |Dedup(xs)| ==>
      FirstIndex(xs, Dedup(xs)[i]) < FirstIndex(xs, Dedup(xs)[j])
  {
    if xs != [] {
      var n := |xs| - 1;
      var init := xs[..n];
      var seen := Dedup(init);
      var last := xs[n];
      DedupKeepsFirstAppearanceOrder(init);
      var r := Dedup(xs);
      assert r == if last in seen then seen else seen + [last];
      forall i, j | 0 <= i < j < |r| ensures FirstIndex(xs, r[i]) < FirstIndex(xs, r[j]) {
        assert r[i] == seen[i];
        FirstIndexInPrefix(xs, n, seen[i]);
        if j < |seen| {
          assert r[j] == seen[j];
          FirstIndexInPrefix(xs, n, seen[j]);
        } else {
          assert r[j] == last && last !in init;
          assert FirstIndex(xs, last) == n;
        }
      }
    }
  }

  /** The string order of the default `Array.sort`: lexicographic by character. */
  predicate LexLe(a: string, b: string) {
    |a| == 0 || (|b| > 0 && (a[0] < b[0] || (a[0] == b[0] && LexLe(a[1..], b[1..]))))
  }

  lemma {:induction false} LexLeTotal(a: string, b: string)
    ensures LexLe(a, b) || LexLe(b, a)
  {
    if |a| > 0 && |b| > 0 && a[0] == b[0] {
      LexLeTotal(a[1..], b[1..]);
    }
  }

  lemma {:induction false} LexLeTransitive(a: string, b: string, c: string)
    requires LexLe(a, b) && LexLe(b, c)
    ensures LexLe(a, c)
  {
    if |a| > 0 && a[0] == b[0] && b[0] == c[0] {
      LexLeTransitive(a[1..], b[1..], c[1..]);
    }
  }

  /** Neighbours are in string order. */
  predicate LexSorted(s: seq<string>) {
    forall i :: 0 < i < |s| ==> LexLe(s[i - 1], s[i])
  }

  /** In a string-ordered sequence every earlier value is at most every later one. */
  lemma {:induction false} LexSortedPairwise(s: seq<string>, i: nat, j: nat)
    requires LexSorted(s) && i <= j < |s|
    ensures LexLe(s[i], s[j])
    decreases j - i
  {
    if i == j {
      LexLeTotal(s[i], s[i]);
    } else {
      LexSortedPairwise(s, i + 1, j);
      LexLeTransitive(s[i], s[i + 1], s[j]);
    }
  }

  /** Inserts `x` before the first value it does not exceed. */
  function Insert(x: string, s: seq<string>): (r: seq<string>)
    ensures |r| == |s| + 1
    ensures multiset(r) == multiset(s) + multiset{x}
    ensures forall y :: y in r <==> y == x || y in s
    ensures s != [] ==> r[0] == x || r[0] == s[0]
  {
    if s == [] then [x]
    else if LexLe(x, s[0]) then [x] + s
    else
      assert s == [s[0]] + s[1..];
      [s[0]] + Insert(x, s[1..])
  }

  /** Inserting into a string-ordered sequence keeps it ordered. */
  lemma {:induction false} InsertSorted(x: string, s: seq<string>)
    requires LexSorted(s)
    ensures LexSorted(Insert(x, s))
  {
    if s != [] && !LexLe(x, s[0]) {
      LexLeTotal(x, s[0]);
      InsertSorted(x, s[1..]);
      var r := Insert(x, s);
      assert r == [s[0]] + Insert(x, s[1..]);
      forall i | 0 < i < |r| ensures LexLe(r[i - 1], r[i]) {
        if i > 1 {
          assert r[i - 1] == Insert(x, s[1..])[i - 2] && r[i] == Insert(x, s[1..])[i - 1];
        }
      }
    }
  }

  /** Inserting a new value into a duplicate-free sequence keeps it duplicate-free. */
  lemma {:induction false} InsertNoDuplicates(x: string, s: seq<string>)
    ensures NoDuplicates(s) && x !in s ==> NoDuplicates(Insert(x, s))
  {
    if NoDuplicates(s) && x !in s && s != [] {
      var head, tail := s[0], s[1..];
      assert s == [head] + tail;
      var r := Insert(x, s);
      if LexLe(x, head) {
        assert r == [x] + s;
        forall i, j | 0 <= i < j < |r| ensures r[i] != r[j] {
          if i > 0 {
            assert r[i] == s[i - 1] && r[j] == s[j - 1];
          } else {
            assert r[j] in s;
          }
        }
      } else {
        assert head !in tail && head != x;
        InsertNoDuplicates(x, tail);
        var t := Insert(x, tail);
        assert r == [head] + t;
        forall i, j | 0 <= i < j < |r| ensures r[i] != r[j] {
          if i > 0 {
            assert r[i] == t[i - 1] && r[j] == t[j - 1];
          } else {
            assert r[j] in t;
          }
        }
      }
    }
  }

  /** Insertion sort on strings, as `Array.sort` with no comparator. */
  function SortStrings(s: seq<string>): (r: seq<string>)
    ensures multiset(r) == multiset(s)
    ensures forall y :: y in r <==> y in s
    ensures LexSorted(r)
    ensures NoDuplicates(s) ==> NoDuplicates(r)
  {
    if s == [] then []
    else
      assert s == [s[0]] + s[1..];
      var t := SortStrings(s[1..]);
      InsertSorted(s[0], t);
      assert NoDuplicates(s) ==> s[0] !in s[1..];
      InsertNoDuplicates(s[0], t);
      Insert(s[0], t)
  }

  /** The colour options: every catalog colour exactly once, in order of first appearance. */
  function DistinctColors(ps: seq<Product>): (r: seq<string>)
    ensures forall c :: c in r <==> exists i :: 0 <= i < |ps| && ps[i].color == c
    ensures NoDuplicates(r)
    ensures forall c :: c in r <==> c in Colors(ps)
    ensures forall i, j :: 0 <= i < j < |r| ==> FirstIndex(Colors(ps), r[i]) < FirstIndex(Colors(ps), r[j])
  {
    var colors := Colors(ps);
    DedupKeepsFirstAppearanceOrder(colors);
    assert forall c :: c in colors <==> exists i :: 0 <= i < |ps| && ps[i].color == c by {
      forall c | c in colors ensures exists i :: 0 <= i < |ps| && ps[i].color == c {
        var i :| 0 <= i < |colors| && colors[i] == c;
        assert ps[i].color == c;
      }
    }
    Dedup(colors)
  }

  /** The size options: every size some product offers exactly once, in string order. */
  function DistinctSizes(ps: seq<Product>): (r: seq<string>)
    ensures forall s :: s in r <==> exists i :: 0 <= i < |ps| && s in ps[i].size
    ensures NoDuplicates(r)
    ensures LexSorted(r)
  {
    forall s ensures s in AllSizes(ps) <==> exists i :: 0 <= i < |ps| && s in ps[i].size {
      AllSizesMembers(ps, s);
    }
    SortStrings(Dedup(AllSizes(ps)))
  }
}
