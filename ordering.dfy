/**
 * The `order_by(desc(...))` clauses of the queries. Each order is a total
 * preorder on bookmarks ("may come before"); rows with equal keys are ties,
 * and the database may return ties in any order. `Sort` fixes one admissible
 * order, the one that keeps ties in snapshot order.
 */
module Ordering {
  import opened Entities
  import opened Pagination

  datatype Order =
    | CreatedDesc            // order_by(desc(created))
    | ClicksDesc             // order_by(desc(clicks))
    | ClicksThenCreatedDesc  // order_by(desc(clicks), desc(created))

  /** `a` may be listed before `b` under order `o`. */
  predicate Before(o: Order, a: Bookmark, b: Bookmark) {
    match o
    case CreatedDesc => a.created >= b.created
    case ClicksDesc => a.clicks >= b.clicks
    case ClicksThenCreatedDesc =>
      a.clicks > b.clicks || (a.clicks == b.clicks && a.created >= b.created)
  }

  /** Every pair of positions respects the order. */
  predicate Sorted(o: Order, s: seq<Bookmark>) {
    forall i, j :: 0 <= i < j < |s| ==> Before(o, s[i], s[j])
  }

  /** `r` is an admissible answer of the database to an ORDER BY `o` over
      the rows `s`: the same rows, sorted. */
  predicate IsOrderingOf(o: Order, r: seq<Bookmark>, s: seq<Bookmark>) {
    multiset(r) == multiset(s) && Sorted(o, r)
  }

  /** Any two bookmarks are comparable. */
  lemma BeforeTotal(o: Order, a: Bookmark, b: Bookmark)
    ensures Before(o, a, b) || Before(o, b, a)
  {
  }

  /** Prepending a row that may precede every row of a sorted sequence
      keeps it sorted. */
  lemma SortedCons(o: Order, h: Bookmark, t: seq<Bookmark>)
    requires Sorted(o, t)
    requires forall z :: z in t ==> Before(o, h, z)
    ensures Sorted(o, [h] + t)
  {
    forall i, j | 0 <= i < j < |[h] + t|
      ensures Before(o, ([h] + t)[i], ([h] + t)[j])
    {
      assert ([h] + t)[j] == t[j - 1];
      if i > 0 {
        assert ([h] + t)[i] == t[i - 1];
      }
    }
  }

  /** Places `x` in front of the first row it may precede. */
  function Insert(o: Order, x: Bookmark, s: seq<Bookmark>): (r: seq<Bookmark>)
    requires Sorted(o, s)
    ensures Sorted(o, r)
    ensures multiset(r) == multiset(s) + multiset{x}
  {
    if s == [] then [x]
    else if Before(o, x, s[0]) then
      SortedCons(o, x, s);
      [x] + s
    else
      var rest := Insert(o, x, s[1..]);
      assert s == [s[0]] + s[1..];
      assert forall z :: z in rest ==> Before(o, s[0], z) by {
        forall z | z in rest
          ensures Before(o, s[0], z)
        {
          assert z in multiset(rest);
          if z == x {
            BeforeTotal(o, x, s[0]);
          } else {
            assert z in multiset(s[1..]);
            var j :| 0 <= j < |s[1..]| && s[1..][j] == z;
            assert s[j + 1] == z;
          }
        }
      }
      SortedCons(o, s[0], rest);
      [s[0]] + rest
  }

  /** Insertion sort; among ties the earlier row of `s` comes first. */
  function Sort(o: Order, s: seq<Bookmark>): (r: seq<Bookmark>)
    ensures IsOrderingOf(o, r, s)
  {
    if s == [] then []
    else
      assert s == [s[0]] + s[1..];
      Insert(o, s[0], Sort(o, s[1..]))
  }

  /** The first row of an ordered result may precede every row of it. */
  lemma OrderingHead(o: Order, ordered: seq<Bookmark>, rows: seq<Bookmark>)
    requires IsOrderingOf(o, ordered, rows)
    ensures ordered == [] <==> rows == []
    ensures ordered != [] ==> ordered[0] in rows && forall b :: b in rows ==> Before(o, ordered[0], b)
  {
    assert |ordered| == |multiset(ordered)| == |rows|;
    if ordered != [] {
      SortedHead(o, ordered);
      assert ordered[0] in multiset(rows);
      assert forall b :: b in rows ==> b in multiset(ordered);
    }
  }

  /** The first row of a sorted sequence may precede every row of it. */
  lemma SortedHead(o: Order, s: seq<Bookmark>)
    requires Sorted(o, s) && s != []
    ensures forall b :: b in s ==> Before(o, s[0], b)
  {
    forall b | b in s
      ensures Before(o, s[0], b)
    {
      var k :| 0 <= k < |s| && s[k] == b;
      assert k == 0 || Before(o, s[0], s[k]);
    }
  }

  /** A sorted sequence cut after `k` rows: no row left out may come before
      a row kept. This is what `limit` after `order_by` guarantees. */
  lemma {:induction false} TopRows(o: Order, s: seq<Bookmark>, k: nat)
    requires Sorted(o, s) && k <= |s|
    ensures forall x, y :: x in multiset(s) - multiset(s[..k]) && y in s[..k] ==> Before(o, y, x)
  {
    assert s == s[..k] + s[k..];
    assert multiset(s) - multiset(s[..k]) == multiset(s[k..]);
    forall x, y | x in multiset(s[k..]) && y in s[..k]
      ensures Before(o, y, x)
    {
      var i :| 0 <= i < k && s[..k][i] == y;
      var j :| 0 <= j < |s[k..]| && s[k..][j] == x;
      assert s[i] == y && s[k + j] == x;
    }
  }

  /** `.limit(k)` after ORDER BY `o`: the `k` first rows of the ordered
      result (all of them when there are fewer), in order, and no row left
      out may come before a row kept. */
  lemma LimitOfOrdering(o: Order, ordered: seq<Bookmark>, rows: seq<Bookmark>, k: int)
    requires IsOrderingOf(o, ordered, rows) && k >= 0
    ensures |Limit(ordered, k)| == if k < |rows| then k else |rows|
    ensures Sorted(o, Limit(ordered, k))
    ensures multiset(Limit(ordered, k)) <= multiset(rows)
    ensures forall x, y :: x in multiset(rows) - multiset(Limit(ordered, k)) && y in Limit(ordered, k) ==>
      Before(o, y, x)
  {
    assert |ordered| == |multiset(ordered)| == |rows|;
    var n := if k < |ordered| then k else |ordered|;
    assert Limit(ordered, k) == ordered[..n] == ordered[0..n];
    TopRows(o, ordered, n);
    SortedSlice(o, ordered, 0, n);
  }

  /** A contiguous part of a sorted sequence is sorted and holds only its rows. */
  lemma SortedSlice(o: Order, s: seq<Bookmark>, lo: int, hi: int)
    requires Sorted(o, s) && 0 <= lo <= hi <= |s|
    ensures Sorted(o, s[lo..hi])
    ensures multiset(s[lo..hi]) <= multiset(s)
  {
    assert s == s[..lo] + s[lo..hi] + s[hi..];
  }

  /** A page of an ordered result is itself ordered, holds only rows of the
      result, and is empty exactly past the last page. */
  lemma PageOfOrdering(o: Order, ordered: seq<Bookmark>, rows: seq<Bookmark>, page: int, perPage: int)
    requires IsOrderingOf(o, ordered, rows)
    requires page >= 1 && perPage >= 1
    ensures Sorted(o, Page(ordered, page, perPage))
    ensures multiset(Page(ordered, page, perPage)) <= multiset(rows)
    ensures forall b :: b in Page(ordered, page, perPage) ==> b in rows
    ensures Page(ordered, page, perPage) == [] <==> page > PageCount(|rows|, perPage)
  {
    assert |ordered| == |rows| by {
      assert |ordered| == |multiset(ordered)|;
    }
    EmptyIffPastLast(ordered, page, perPage);
    PageIsSlice(ordered, page, perPage);
    SortedSlice(o, ordered, PageStart(|ordered|, page, perPage), PageEnd(|ordered|, page, perPage));
    var r := Page(ordered, page, perPage);
    assert forall b :: b in r ==> b in rows by {
      assert forall b :: b in r ==> b in multiset(r);
    }
  }

  /** Pages `1..PageCount` of an ordered result give back that result. */
  lemma PagesOfOrdering(o: Order, ordered: seq<Bookmark>, rows: seq<Bookmark>, perPage: int)
    requires IsOrderingOf(o, ordered, rows)
    requires perPage >= 1
    ensures Pages(ordered, perPage, PageCount(|rows|, perPage)) == ordered
  {
    assert |ordered| == |multiset(ordered)| == |rows|;
    PagesRebuild(ordered, perPage);
  }

  /** Two rows tied on the sort key may be listed either way round, and a
      database free to break the tie differently for each page request can
      serve one row on page 1 and again on page 2 (and skip the other). */
  lemma TiedRowsMayRepeatAcrossPages(o: Order, a: Bookmark, b: Bookmark)
    requires Before(o, a, b) && Before(o, b, a)
    ensures IsOrderingOf(o, [a, b], [a, b]) && IsOrderingOf(o, [b, a], [a, b])
    ensures Page([a, b], 1, 1) + Page([b, a], 2, 1) == [a, a]
  {
    assert multiset([b, a]) == multiset([a, b]);
    assert Page([a, b], 1, 1) == [a];
    assert Page([b, a], 2, 1) == [a];
  }
}
