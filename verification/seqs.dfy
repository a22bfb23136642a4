/**
  Sequence operations that stand in for the database's cursor methods:
  `sort({ createdAt: -1 })`, `skip(n)`, `limit(n)`, and the page count
  `Math.ceil(total / limit)` reported alongside a page.
 */
module Seqs {

  function Min(a: int, b: int): int {
    if a <= b then a else b
  }

  /** `xs` is ordered by `key`, largest first. */
  predicate SortedDesc<T>(xs: seq<T>, key: T -> int) {
    forall i, j :: 0 <= i < j < |xs| ==> key(xs[i]) >= key(xs[j])
  }

  /** Inserts `x` in front of the first element whose key is strictly smaller,
      so that `x` precedes every element with an equal key. */
  function InsertDesc<T>(x: T, xs: seq<T>, key: T -> int): (r: seq<T>)
    requires SortedDesc(xs, key)
    ensures |r| == |xs| + 1
    ensures r[0] == x || (|xs| > 0 && r[0] == xs[0])
    ensures SortedDesc(r, key)
    ensures multiset(r) == multiset(xs) + multiset{x}
  {
    if xs == [] || key(x) >= key(xs[0]) then
      ConsSorted(x, xs, key);
      [x] + xs
    else
      TailSorted(xs, key);
      var rest := InsertDesc(x, xs[1..], key);
      InsertBehindHead(x, xs, rest, key);
      [xs[0]] + rest
  }

  /** The step of `InsertDesc` that keeps the head: `rest`, the insertion
      of `x` into the tail, goes behind it. */
  lemma InsertBehindHead<T>(x: T, xs: seq<T>, rest: seq<T>, key: T -> int)
    requires xs != [] && SortedDesc(xs, key) && key(x) < key(xs[0])
    requires |rest| == |xs| && SortedDesc(rest, key)
    requires rest[0] == x || (|xs| > 1 && rest[0] == xs[1])
    requires multiset(rest) == multiset(xs[1..]) + multiset{x}
    ensures SortedDesc([xs[0]] + rest, key)
    ensures multiset([xs[0]] + rest) == multiset(xs) + multiset{x}
  {
    TailSorted(xs, key);
    ConsSorted(xs[0], rest, key);
    assert xs == [xs[0]] + xs[1..];
  }

  /** The tail of a sorted sequence is sorted and starts no higher than
      its head. */
  lemma TailSorted<T>(xs: seq<T>, key: T -> int)
    requires xs != [] && SortedDesc(xs, key)
    ensures SortedDesc(xs[1..], key)
    ensures |xs| > 1 ==> key(xs[0]) >= key(xs[1])
  {
    var t := xs[1..];
    forall i, j | 0 <= i < j < |t|
      ensures key(t[i]) >= key(t[j])
    {
      assert t[i] == xs[i + 1] && t[j] == xs[j + 1];
    }
  }

  /** Putting an element no smaller than the head in front of a sorted
      sequence keeps it sorted. */
  lemma ConsSorted<T>(h: T, t: seq<T>, key: T -> int)
    requires SortedDesc(t, key)
    requires t == [] || key(h) >= key(t[0])
    ensures SortedDesc([h] + t, key)
  {
    var r := [h] + t;
    forall i, j | 0 <= i < j < |r|
      ensures key(r[i]) >= key(r[j])
    {
      assert r[j] == t[j - 1];
      if i == 0 {
        assert key(t[0]) >= key(t[j - 1]);
      } else {
        assert r[i] == t[i - 1];
      }
    }
  }

  /** Stable insertion sort, largest key first: among elements with equal
      keys, the one earlier in `xs` stays earlier. */
  function SortDesc<T>(xs: seq<T>, key: T -> int): (r: seq<T>)
    ensures |r| == |xs|
    ensures SortedDesc(r, key)
    ensures multiset(r) == multiset(xs)
  {
    if xs == [] then []
    else
      assert xs == [xs[0]] + xs[1..];
      InsertDesc(xs[0], SortDesc(xs[1..], key), key)
  }

  /** Sorting neither loses nor invents elements. */
  lemma SortDescMembers<T>(xs: seq<T>, key: T -> int)
    ensures forall x :: x in SortDesc(xs, key) ==> x in xs
    ensures forall x :: x in xs ==> x in SortDesc(xs, key)
  {
    var r := SortDesc(xs, key);
    forall x | x in r
      ensures x in xs
    {
      assert x in multiset(r);
    }
    forall x | x in xs
      ensures x in r
    {
      assert x in multiset(xs);
    }
  }

  /** The cursor `skip(skip).limit(limit)`: at most `limit` elements starting
      at position `skip`; empty once `skip` runs past the end. */
  function Window<T>(xs: seq<T>, skip: nat, limit: nat): (r: seq<T>)
    ensures |r| <= limit
    ensures |r| == if skip >= |xs| then 0 else Min(limit, |xs| - skip)
    ensures forall k :: 0 <= k < |r| ==> r[k] == xs[skip + k]
    ensures forall x :: x in r ==> x in xs
  {
    if skip >= |xs| then [] else xs[skip .. skip + Min(limit, |xs| - skip)]
  }

  /** In a sequence sorted largest key first, an element whose key is
      strictly larger than every other element's comes first. */
  lemma StrictMaxFirst<T>(xs: seq<T>, key: T -> int, x: T)
    requires SortedDesc(xs, key) && x in xs
    requires forall k :: 0 <= k < |xs| && xs[k] != x ==> key(xs[k]) < key(x)
    ensures xs[0] == x
  {
    var i :| 0 <= i < |xs| && xs[i] == x;
    assert key(xs[0]) >= key(xs[i]);
  }

  /** The number of elements before page `page` (counted from 1). */
  function Skip(page: nat, limit: nat): nat
    requires page >= 1
  {
    MulLeftMono(0, page - 1, limit);
    (page - 1) * limit
  }

  /** A window of a sorted sequence is sorted. */
  lemma WindowKeepsOrder<T>(xs: seq<T>, skip: nat, limit: nat, key: T -> int)
    requires SortedDesc(xs, key)
    ensures SortedDesc(Window(xs, skip, limit), key)
  {
    var r := Window(xs, skip, limit);
    forall i, j | 0 <= i < j < |r|
      ensures key(r[i]) >= key(r[j])
    {
      assert r[i] == xs[skip + i] && r[j] == xs[skip + j];
    }
  }

  /** `Math.ceil(n / d)` for a positive divisor: the least number of
      `d`-sized pages that hold `n` items. */
  function CeilDiv(n: nat, d: nat): (r: nat)
    requires d >= 1
    ensures r * d >= n
    ensures r == 0 || (r - 1) * d < n
    ensures r == 0 <==> n == 0
  {
    CeilDivBounds(n, d);
    (n + d - 1) / d
  }

  lemma CeilDivBounds(n: nat, d: nat)
    requires d >= 1
    ensures var q := (n + d - 1) / d;
            q >= 0 && q * d >= n && (q == 0 || (q - 1) * d < n) && (q == 0 <==> n == 0)
  {
    var q := (n + d - 1) / d;
    var m := (n + d - 1) % d;
    DivMod(n + d - 1, d);
    MulSubOne(q, d);
    if q == 0 {
      assert n + d - 1 == m;
    }
  }

  lemma DivMod(a: nat, d: nat)
    requires d >= 1
    ensures a == (a / d) * d + a % d && 0 <= a % d < d && a / d >= 0
  {}

  lemma MulSubOne(q: int, d: int)
    ensures (q - 1) * d == q * d - d
  {}

  lemma MulLeftMono(a: nat, b: nat, d: nat)
    requires a <= b
    ensures a * d <= b * d
  {}

  /** Page `page` (counted from 1) of `xs` cut `limit` at a time is non-empty
      exactly when `page` does not exceed the reported page count. */
  lemma {:induction false} PageNonEmptyIff<T>(xs: seq<T>, page: nat, limit: nat)
    requires page >= 1 && limit >= 1
    ensures |Window(xs, Skip(page, limit), limit)| > 0 <==> page <= CeilDiv(|xs|, limit)
  {
    var total := CeilDiv(|xs|, limit);
    if page <= total {
      MulLeftMono(page - 1, total - 1, limit);
    } else {
      MulLeftMono(total, page - 1, limit);
    }
  }

  /** Every element of `xs` is shown on exactly one page: element `i` is entry
      `i % limit` of page `i / limit + 1`, and that page number is within the
      reported page count. */
  lemma {:induction false} ElementOnPage<T>(xs: seq<T>, i: nat, limit: nat)
    requires i < |xs| && limit >= 1
    ensures var page := i / limit + 1;
            && page <= CeilDiv(|xs|, limit)
            && i % limit < |Window(xs, Skip(page, limit), limit)|
            && Window(xs, Skip(page, limit), limit)[i % limit] == xs[i]
  {
    var page := i / limit + 1;
    assert Skip(page, limit) + i % limit == i;
    PageNonEmptyIff(xs, page, limit);
  }
}
