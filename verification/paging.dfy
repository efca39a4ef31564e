/** Skip/limit pagination of a listing and its page count. */
module Paging {

  /** Page numbers and page sizes start at one. */
  type Positive = n: nat | 1 <= n witness 1

  /** The values used when the query string leaves `page` or `limit` out. */
  const DefaultPage: Positive := 1
  const DefaultLimit: Positive := 10

  function Min(a: int, b: int): int {
    if a <= b then a else b
  }

  function Max(a: int, b: int): int {
    if a <= b then b else a
  }

  /** Number of entries skipped before page `page`. */
  function Offset(page: Positive, limit: Positive): nat {
    (page - 1) * limit
  }

  /** The entries of page `page`: skip `Offset` entries, then take at most `limit`. */
  function Paginate<T>(xs: seq<T>, page: Positive, limit: Positive): (r: seq<T>)
    ensures |r| == Min(limit, Max(0, |xs| - Offset(page, limit)))
    ensures forall k :: 0 <= k < |r| ==> r[k] == xs[Offset(page, limit) + k]
  {
    var from := Offset(page, limit);
    if from >= |xs| then [] else xs[from..Min(|xs|, from + limit)]
  }

  /** `Math.ceil(count / limit)`: the fewest pages of size `limit` holding `count` entries. */
  function TotalPages(count: nat, limit: Positive): (n: nat)
    ensures count <= n * limit
    ensures n > 0 ==> (n - 1) * limit < count
    ensures n == 0 <==> count == 0
  {
    var n := (count + limit - 1) / limit;
    CeilBounds(count, limit, n);
    n
  }

  lemma CeilBounds(count: nat, limit: Positive, n: nat)
    requires n == (count + limit - 1) / limit
    ensures count <= n * limit
    ensures n > 0 ==> (n - 1) * limit < count
    ensures n == 0 <==> count == 0
  {
    var m := (count + limit - 1) % limit;
    assert count + limit - 1 == n * limit + m;
    assert (n - 1) * limit == n * limit - limit;
  }

  /** An empty listing has no pages. */
  lemma NoEntriesNoPages(limit: Positive)
    ensures TotalPages(0, limit) == 0
  {
  }

  /** A page has entries exactly when its number is at most the page count. */
  lemma PageNonEmptyIff<T>(xs: seq<T>, page: Positive, limit: Positive)
    ensures |Paginate(xs, page, limit)| > 0 <==> page <= TotalPages(|xs|, limit)
  {
    var n := TotalPages(|xs|, limit);
    if page <= n {
      assert (page - 1) * limit <= (n - 1) * limit by {
        MulMono(page - 1, n - 1, limit);
      }
    } else {
      assert n * limit <= (page - 1) * limit by {
        MulMono(n, page - 1, limit);
      }
    }
  }

  lemma MulMono(a: nat, b: nat, c: nat)
    requires a <= b
    ensures a * c <= b * c
  {
  }

  /** Every entry appears on exactly the page its index says: entry `i` is
      item `i % limit` of page `i / limit + 1`. */
  lemma EntryPage<T>(xs: seq<T>, i: nat, limit: Positive)
    requires i < |xs|
    ensures var r := Paginate(xs, i / limit + 1, limit);
            i % limit < |r| && r[i % limit] == xs[i]
  {
    var p: Positive := i / limit + 1;
    assert (p - 1) * limit + i % limit == i;
  }

  /** With 15 entries and pages of 10, the second page holds the last 5 and there are 2 pages. */
  lemma SecondPageOfFifteen<T>(xs: seq<T>)
    requires |xs| == 15
    ensures Paginate(xs, 2, 10) == xs[10..]
    ensures TotalPages(|xs|, 10) == 2
  {
  }
}
