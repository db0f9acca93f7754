/**
 * The two persisted entities, as rows of an in-memory snapshot of the
 * `users` and `bookmarks` tables. Timestamps are plain integers (larger is
 * later); strings are sequences of characters.
 */
module Entities {
  import opened Wrappers

  /** A row of `users` (models.py:12-22). The password hash and
      `last_logged` are not read by any query and are not modelled. */
  datatype User = User(
    id: int,
    username: string,
    email: string,
    perPage: int,       // page size of every paginated listing
    suggestion: bool,   // never consulted by the queries
    recently: int)      // how many rows `recent` returns

  /** A row of `bookmarks` (models.py:82-91). `owner_id` and `tags` are
      nullable columns, hence the options. */
  datatype Bookmark = Bookmark(
    id: int,
    ownerId: Option<int>,
    title: string,
    url: string,
    tags: Option<string>,
    clicks: int,
    created: int,
    updated: int)

  /** The owner filter `Bookmark.owner_id == uid`: a NULL owner never matches. */
  predicate OwnedBy(b: Bookmark, uid: int) {
    b.ownerId == Some(uid)
  }

  /** The primary-key constraint of `bookmarks`, as an assumption on a snapshot. */
  predicate UniqueIds(s: seq<Bookmark>) {
    forall i, j :: 0 <= i < j < |s| ==> s[i].id != s[j].id
  }

  /** The `unique=True` constraint on `users.username`. */
  predicate UniqueUsernames(users: seq<User>) {
    forall i, j :: 0 <= i < j < |users| ==> users[i].username != users[j].username
  }

  /** A row occurs at most once in a snapshot whose ids are unique. */
  lemma {:induction false} UniqueIdsOnce(s: seq<Bookmark>, x: Bookmark)
    requires UniqueIds(s)
    ensures multiset(s)[x] <= 1
  {
    if s != [] {
      assert s == [s[0]] + s[1..];
      assert UniqueIds(s[1..]);
      UniqueIdsOnce(s[1..], x);
      assert s[0] == x ==> x !in s[1..];
    }
  }

  /** A row at two positions is counted at least twice. */
  lemma CountsBothPositions(r: seq<Bookmark>, i: int, j: int)
    requires 0 <= i < j < |r|
    ensures multiset(r)[r[i]] >= if r[j] == r[i] then 2 else 1
  {
    assert r == r[..j] + [r[j]] + r[j + 1..];
    assert r[i] in r[..j];
  }

  /** Any selection of the rows of a snapshot with unique ids, each taken at
      most as often as it occurs, has unique ids too. */
  lemma UniqueIdsSubMultiset(r: seq<Bookmark>, s: seq<Bookmark>)
    requires UniqueIds(s)
    requires multiset(r) <= multiset(s)
    ensures UniqueIds(r)
  {
    forall i, j | 0 <= i < j < |r|
      ensures r[i].id != r[j].id
    {
      UniqueIdsOnce(s, r[i]);
      CountsBothPositions(r, i, j);
      assert r[i] != r[j];
      assert r[i] in multiset(s) && r[j] in multiset(s);
      var p :| 0 <= p < |s| && s[p] == r[i];
      var q :| 0 <= q < |s| && s[q] == r[j];
      assert p != q;
    }
  }

  /** In a snapshot with unique ids, an id names at most one row. */
  lemma SameIdSameRow(s: seq<Bookmark>, a: Bookmark, b: Bookmark)
    requires UniqueIds(s)
    requires a in s && b in s && a.id == b.id
    ensures a == b
  {
    var p :| 0 <= p < |s| && s[p] == a;
    var q :| 0 <= q < |s| && s[q] == b;
    assert p == q;
  }
}
