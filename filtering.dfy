/**
 * The `.filter(...)` clauses of the queries: a criterion is one SQL
 * condition on a bookmark row, and `Where` keeps the rows that satisfy it.
 * A condition on a NULL column is never satisfied.
 */
module Filtering {
  import opened Wrappers
  import opened Entities
  import opened SqlLike

  datatype Criterion =
    | OwnerIs(ownerId: int)          // owner_id == ownerId
    | ClicksZero                     // clicks == 0
    | IdIs(id: int)                  // id == id
    | TagsLike(pattern: string)      // tags LIKE pattern
    | TitleOrUrlLike(pattern: string) // title LIKE pattern OR url LIKE pattern

  predicate Matches(c: Criterion, b: Bookmark) {
    match c
    case OwnerIs(o) => OwnedBy(b, o)
    case ClicksZero => b.clicks == 0
    case IdIs(i) => b.id == i
    case TagsLike(p) => b.tags.Some? && Like(b.tags.value, p)
    case TitleOrUrlLike(p) => Like(b.title, p) || Like(b.url, p)
  }

  /** `.filter(c)`: the rows of `s` satisfying `c`, in their order. */
  function Where(c: Criterion, s: seq<Bookmark>): (r: seq<Bookmark>)
    ensures forall i :: 0 <= i < |r| ==> Matches(c, r[i])
  {
    if s == [] then []
    else (if Matches(c, s[0]) then [s[0]] else []) + Where(c, s[1..])
  }

  /** `Where` keeps every row satisfying `c` as often as it occurs in `s`,
      and no other row. */
  lemma {:induction false} WhereRows(c: Criterion, s: seq<Bookmark>)
    ensures forall b :: multiset(Where(c, s))[b] == if Matches(c, b) then multiset(s)[b] else 0
    ensures forall b :: b in Where(c, s) <==> b in s && Matches(c, b)
  {
    if s != [] {
      WhereRows(c, s[1..]);
      assert s == [s[0]] + s[1..];
      assert forall b :: b in Where(c, s) <==> b in multiset(Where(c, s));
    }
  }

  /** One step of `Where`, for a sequence given as head and tail. */
  lemma WhereCons(c: Criterion, x: Bookmark, t: seq<Bookmark>)
    ensures Where(c, [x] + t) == (if Matches(c, x) then [x] else []) + Where(c, t)
  {
    assert ([x] + t)[0] == x && ([x] + t)[1..] == t;
  }

  /** Filtering a concatenation filters each part. */
  lemma {:induction false} WhereAppend(c: Criterion, a: seq<Bookmark>, b: seq<Bookmark>)
    ensures Where(c, a + b) == Where(c, a) + Where(c, b)
  {
    if a == [] {
      assert a + b == b;
    } else {
      var h := if Matches(c, a[0]) then [a[0]] else [];
      assert a == [a[0]] + a[1..] && a + b == [a[0]] + (a[1..] + b);
      WhereCons(c, a[0], a[1..] + b);
      WhereCons(c, a[0], a[1..]);
      WhereAppend(c, a[1..], b);
      assert h + (Where(c, a[1..]) + Where(c, b)) == (h + Where(c, a[1..])) + Where(c, b);
    }
  }

  /** Positions of the rows of `s` satisfying `c`. */
  function MatchingPositions(c: Criterion, s: seq<Bookmark>): set<int> {
    set i | 0 <= i < |s| && Matches(c, s[i])
  }

  /** Filtering a sequence with one more row at its end. */
  lemma WhereSnoc(c: Criterion, init: seq<Bookmark>, last: Bookmark)
    ensures |Where(c, init + [last])| == |Where(c, init)| + (if Matches(c, last) then 1 else 0)
  {
    WhereAppend(c, init, [last]);
    WhereCons(c, last, []);
    assert [last] + [] == [last];
  }

  /** Matching positions of a sequence with one more row at its end: those
      of the shorter sequence, and possibly the new last position. */
  lemma PositionsSnocSet(c: Criterion, init: seq<Bookmark>, last: Bookmark)
    ensures MatchingPositions(c, init + [last]) ==
            MatchingPositions(c, init) + (if Matches(c, last) then {|init|} else {})
  {
    var s := init + [last];
    var before := MatchingPositions(c, init);
    var here: set<int> := if Matches(c, last) then {|init|} else {};
    forall i | i in MatchingPositions(c, s)
      ensures i in before + here
    {
      if i < |init| {
        assert s[i] == init[i];
      }
    }
    forall i | i in before + here
      ensures i in MatchingPositions(c, s)
    {
      if i < |init| {
        assert s[i] == init[i];
      }
    }
  }

  lemma PositionsSnoc(c: Criterion, init: seq<Bookmark>, last: Bookmark)
    ensures |MatchingPositions(c, init + [last])| ==
            |MatchingPositions(c, init)| + (if Matches(c, last) then 1 else 0)
  {
    PositionsSnocSet(c, init, last);
    assert |init| !in MatchingPositions(c, init);
  }

  /** `Where` keeps one row per matching position: `.count()` after
      `.filter(c)` is the number of matching rows. */
  lemma {:induction false} WhereCount(c: Criterion, s: seq<Bookmark>)
    ensures |Where(c, s)| == |MatchingPositions(c, s)|
  {
    if s == [] {
      assert MatchingPositions(c, s) == {};
    } else {
      var init, last := s[..|s| - 1], s[|s| - 1];
      assert s == init + [last];
      WhereSnoc(c, init, last);
      PositionsSnoc(c, init, last);
      WhereCount(c, init);
    }
  }

  /** `.first()`: the first row, if any. */
  function First(s: seq<Bookmark>): (r: Option<Bookmark>)
    ensures r.None? <==> s == []
    ensures r.Some? ==> r.value in s
  {
    if s == [] then None else Some(s[0])
  }
}
