/**
 * `.limit(n)` and `.paginate(page, per_page, False)` over an ordered result.
 * A page is the window `[(page - 1) * perPage, page * perPage)` of the rows,
 * clipped to their number; with `error_out` off, a page past the end is
 * empty rather than an error. Only `page >= 1` and `perPage >= 1` are
 * modelled.
 */
module Pagination {

  /** `.limit(n)`: the first `n` rows, or all of them when there are fewer. */
  function Limit<T>(s: seq<T>, n: int): (r: seq<T>)
    requires n >= 0
    ensures |r| == if n < |s| then n else |s|
    ensures forall k :: 0 <= k < |r| ==> r[k] == s[k]
  {
    if n < |s| then s[..n] else s
  }

  /** Number of rows skipped before page `page`. */
  function Offset(page: int, perPage: int): int {
    (page - 1) * perPage
  }

  /** The items of page `page` (1-based) of `s`. */
  function Page<T>(s: seq<T>, page: int, perPage: int): (r: seq<T>)
    requires page >= 1 && perPage >= 1
    ensures |r| <= perPage
    ensures r == [] <==> Offset(page, perPage) >= |s|
    ensures |r| < perPage ==> Offset(page, perPage) + |r| >= |s|
    ensures forall k :: 0 <= k < |r| ==>
      Offset(page, perPage) + k < |s| && r[k] == s[Offset(page, perPage) + k]
  {
    var lo := Offset(page, perPage);
    if lo >= |s| then []
    else s[lo..if lo + perPage < |s| then lo + perPage else |s|]
  }

  /** Number of non-empty pages: the ceiling of `n / perPage`. */
  function PageCount(n: nat, perPage: int): nat
    requires perPage >= 1
  {
    (n + perPage - 1) / perPage
  }

  lemma MulMono(a: int, b: int, p: nat)
    requires a <= b
    ensures a * p <= b * p
  {
    assert b * p - a * p == (b - a) * p;
  }

  /** The last page ends at or after the last row, and starts before it. */
  lemma PageCountBounds(n: nat, perPage: int)
    requires perPage >= 1
    ensures PageCount(n, perPage) * perPage >= n
    ensures n > 0 ==> (PageCount(n, perPage) - 1) * perPage < n
  {
    var c := PageCount(n, perPage);
    var q := n + perPage - 1;
    assert q == c * perPage + q % perPage;
    assert (c - 1) * perPage == c * perPage - perPage;
  }

  /** Exactly the pages after the last one are empty. */
  lemma {:induction false} EmptyIffPastLast<T>(s: seq<T>, page: int, perPage: int)
    requires page >= 1 && perPage >= 1
    ensures Page(s, page, perPage) == [] <==> page > PageCount(|s|, perPage)
  {
    var c := PageCount(|s|, perPage);
    PageCountBounds(|s|, perPage);
    if page > c {
      MulMono(c, page - 1, perPage);
    } else {
      MulMono(page - 1, c - 1, perPage);
    }
  }

  /** Where page `page` starts and ends in a sequence of `n` rows. */
  function PageStart(n: nat, page: int, perPage: int): nat
    requires page >= 1 && perPage >= 1
  {
    if Offset(page, perPage) < n then Offset(page, perPage) else n
  }

  function PageEnd(n: nat, page: int, perPage: int): nat
    requires page >= 1 && perPage >= 1
  {
    if Offset(page, perPage) + perPage < n then Offset(page, perPage) + perPage else n
  }

  /** A page is the slice between its start and end, both clipped. */
  lemma PageIsSlice<T>(s: seq<T>, page: int, perPage: int)
    requires page >= 1 && perPage >= 1
    ensures PageStart(|s|, page, perPage) <= PageEnd(|s|, page, perPage) <= |s|
    ensures Page(s, page, perPage) == s[PageStart(|s|, page, perPage)..PageEnd(|s|, page, perPage)]
  {
    assert Offset(page, perPage) >= 0;
  }

  /** Pages `1..n`, concatenated. */
  function Pages<T>(s: seq<T>, perPage: int, n: nat): seq<T>
    requires perPage >= 1
  {
    if n == 0 then [] else Pages(s, perPage, n - 1) + Page(s, n, perPage)
  }

  /** Number of rows on pages `1..n` of a sequence of `len` rows. */
  function RowsThrough(len: nat, n: nat, perPage: int): nat
    requires perPage >= 1
  {
    if n * perPage < len then n * perPage else len
  }

  /** Page `n` starts after the rows of pages `1..n-1` and ends after those
      of pages `1..n`. */
  lemma PageBounds(len: nat, n: nat, perPage: int)
    requires n >= 1 && perPage >= 1
    ensures PageStart(len, n, perPage) == RowsThrough(len, n - 1, perPage)
    ensures PageEnd(len, n, perPage) == RowsThrough(len, n, perPage)
  {
    assert n * perPage == (n - 1) * perPage + perPage;
  }

  /** The first `n` pages are the first rows, as many as those pages hold. */
  lemma {:induction false} PagesPrefix<T>(s: seq<T>, perPage: int, n: nat)
    requires perPage >= 1
    ensures RowsThrough(|s|, n, perPage) <= |s|
    ensures Pages(s, perPage, n) == s[..RowsThrough(|s|, n, perPage)]
  {
    if n > 0 {
      PagesPrefix(s, perPage, n - 1);
      PageIsSlice(s, n, perPage);
      PageBounds(|s|, n, perPage);
      var lo, hi := RowsThrough(|s|, n - 1, perPage), RowsThrough(|s|, n, perPage);
      assert s[..hi] == s[..lo] + s[lo..hi];
    }
  }

  /** Pages `1..PageCount` together give back every row, in order, each once. */
  lemma PagesRebuild<T>(s: seq<T>, perPage: int)
    requires perPage >= 1
    ensures Pages(s, perPage, PageCount(|s|, perPage)) == s
  {
    PageCountBounds(|s|, perPage);
    PagesPrefix(s, perPage, PageCount(|s|, perPage));
  }
}
