/**
 * The query methods of `User` (models.py:24-60): one lookup over the users
 * table and the views of one user's bookmarks. Each is a chain of filter,
 * order, limit or paginate, and first or count, over a snapshot `all` of
 * the bookmarks table.
 */
module UserQueries {
  import opened Wrappers
  import opened Entities
  import opened SqlLike
  import opened Filtering
  import opened Ordering
  import opened Pagination
  import opened BookmarkSearch

  /** `User.by_uname_or_email(uname)`: some user whose username or email is
      `ident`. The query has no ORDER BY; the model answers with the first
      match in snapshot order. */
  function ByUnameOrEmail(users: seq<User>, ident: string): (r: Option<User>)
    ensures r.None? <==> forall v :: v in users ==> v.username != ident && v.email != ident
    ensures r.Some? ==> r.value in users && (r.value.username == ident || r.value.email == ident)
  {
    if users == [] then None
    else if users[0].username == ident || users[0].email == ident then Some(users[0])
    else ByUnameOrEmail(users[1..], ident)
  }

  /** When `ident` is nobody's email, the unique username constraint makes
      the lookup return the user with that username. */
  lemma LookupByUsername(users: seq<User>, u: User, ident: string)
    requires UniqueUsernames(users)
    requires u in users && u.username == ident
    requires forall v :: v in users ==> v.email != ident
    ensures ByUnameOrEmail(users, ident) == Some(u)
  {
    var v := ByUnameOrEmail(users, ident).value;
    var p :| 0 <= p < |users| && users[p] == v;
    var q :| 0 <= q < |users| && users[q] == u;
    assert p == q;
  }

  /** `my()`: the bookmarks owned by `u`, and every one of them. */
  function My(u: User, all: seq<Bookmark>): (r: seq<Bookmark>)
    ensures forall b :: b in r <==> b in all && OwnedBy(b, u.id)
    ensures forall b :: multiset(r)[b] == if OwnedBy(b, u.id) then multiset(all)[b] else 0
  {
    WhereRows(OwnerIs(u.id), all);
    Where(OwnerIs(u.id), all)
  }

  /** The rows `suggestions()` draws from: owned and never clicked. */
  function SuggestionCandidates(u: User, all: seq<Bookmark>): (r: seq<Bookmark>)
    ensures forall b :: b in r <==> b in all && OwnedBy(b, u.id) && b.clicks == 0
    ensures forall b :: multiset(r)[b] == if OwnedBy(b, u.id) && b.clicks == 0 then multiset(all)[b] else 0
    ensures multiset(r) <= multiset(all)
  {
    WhereRows(ClicksZero, My(u, all));
    Where(ClicksZero, My(u, all))
  }

  /** `suggestions()`: `shuffled` is the order `func.random()` produced, any
      arrangement of the candidates; the first `suggestionsCount` are kept.
      The user's `suggestion` flag is not consulted. */
  function Suggestions(u: User, all: seq<Bookmark>, suggestionsCount: nat, shuffled: seq<Bookmark>): (r: seq<Bookmark>)
    requires multiset(shuffled) == multiset(SuggestionCandidates(u, all))
    ensures |r| == if suggestionsCount < |SuggestionCandidates(u, all)| then suggestionsCount
                   else |SuggestionCandidates(u, all)|
    ensures r == shuffled[..|r|]
    ensures multiset(r) <= multiset(SuggestionCandidates(u, all))
    ensures forall b :: b in r ==> b in all && OwnedBy(b, u.id) && b.clicks == 0
  {
    assert |shuffled| == |multiset(shuffled)| == |SuggestionCandidates(u, all)|;
    var r := Limit(shuffled, suggestionsCount);
    assert shuffled == r + shuffled[|r|..];
    assert forall b :: b in r ==> b in multiset(shuffled);
    r
  }

  /** Suggestions never repeat a bookmark, whatever the random order. */
  lemma SuggestionsDistinct(u: User, all: seq<Bookmark>, suggestionsCount: nat, shuffled: seq<Bookmark>)
    requires multiset(shuffled) == multiset(SuggestionCandidates(u, all))
    requires UniqueIds(all)
    ensures UniqueIds(Suggestions(u, all, suggestionsCount, shuffled))
  {
    UniqueIdsSubMultiset(Suggestions(u, all, suggestionsCount, shuffled), all);
  }

  /** `recent()`: the `recently` newest owned bookmarks, newest first. */
  function Recent(u: User, all: seq<Bookmark>): (r: seq<Bookmark>)
    requires u.recently >= 0
    ensures |r| == if u.recently < |My(u, all)| then u.recently else |My(u, all)|
    ensures Sorted(CreatedDesc, r)
    ensures multiset(r) <= multiset(My(u, all))
    ensures forall x, y :: x in multiset(My(u, all)) - multiset(r) && y in r ==> x.created <= y.created
  {
    var s := Sort(CreatedDesc, My(u, all));
    LimitOfOrdering(CreatedDesc, s, My(u, all), u.recently);
    Limit(s, u.recently)
  }

  /** The ordered result of `bookmarks(page)` before pagination. */
  function BookmarksOrdered(u: User, all: seq<Bookmark>): (r: seq<Bookmark>)
    ensures IsOrderingOf(ClicksThenCreatedDesc, r, My(u, all))
  {
    Sort(ClicksThenCreatedDesc, My(u, all))
  }

  /** `bookmarks(page)`: page `page` of the owned bookmarks, most clicked
      first and newest first among equal clicks. */
  function Bookmarks(u: User, all: seq<Bookmark>, page: int): (r: seq<Bookmark>)
    requires page >= 1 && u.perPage >= 1
    ensures |r| <= u.perPage
    ensures forall b :: b in r ==> b in all && OwnedBy(b, u.id)
    ensures Sorted(ClicksThenCreatedDesc, r)
    ensures r == [] <==> page > PageCount(|My(u, all)|, u.perPage)
    ensures r == Page(BookmarksOrdered(u, all), page, u.perPage)
  {
    var ordered := BookmarksOrdered(u, all);
    PageOfOrdering(ClicksThenCreatedDesc, ordered, My(u, all), page, u.perPage);
    Page(ordered, page, u.perPage)
  }

  /** Pages `1..n` of `bookmarks`, concatenated. */
  function BookmarksPages(u: User, all: seq<Bookmark>, n: nat): seq<Bookmark>
    requires u.perPage >= 1
  {
    if n == 0 then [] else BookmarksPages(u, all, n - 1) + Bookmarks(u, all, n)
  }

  lemma {:induction false} BookmarksPagesArePages(u: User, all: seq<Bookmark>, n: nat)
    requires u.perPage >= 1
    ensures BookmarksPages(u, all, n) == Pages(BookmarksOrdered(u, all), u.perPage, n)
  {
    if n > 0 {
      BookmarksPagesArePages(u, all, n - 1);
      assert Bookmarks(u, all, n) == Page(BookmarksOrdered(u, all), n, u.perPage);
    }
  }

  /** Requesting every page of `bookmarks` in turn yields each owned
      bookmark as often as it is in the table, in (clicks, created) descending order. */
  lemma BookmarksPagesRebuild(u: User, all: seq<Bookmark>)
    requires u.perPage >= 1
    ensures IsOrderingOf(ClicksThenCreatedDesc,
      BookmarksPages(u, all, PageCount(|My(u, all)|, u.perPage)), My(u, all))
  {
    BookmarksPagesArePages(u, all, PageCount(|My(u, all)|, u.perPage));
    PagesOfOrdering(ClicksThenCreatedDesc, BookmarksOrdered(u, all), My(u, all), u.perPage);
  }

  /** `bid(id)`: the bookmark with that id if `u` owns it; none when the id
      is absent or another user's. */
  function Bid(u: User, all: seq<Bookmark>, id: int): (r: Option<Bookmark>)
    ensures r.Some? ==> r.value in all && OwnedBy(r.value, u.id) && r.value.id == id
    ensures r.None? <==> forall b :: b in all && b.id == id ==> !OwnedBy(b, u.id)
    ensures UniqueIds(all) ==> forall b :: b in all && b.id == id && OwnedBy(b, u.id) ==> r == Some(b)
  {
    WhereRows(IdIs(id), My(u, all));
    var r := First(Where(IdIs(id), My(u, all)));
    assert UniqueIds(all) ==> forall b :: b in all && b.id == id && OwnedBy(b, u.id) ==> r == Some(b) by {
      if UniqueIds(all) {
        forall b | b in all && b.id == id && OwnedBy(b, u.id)
          ensures r == Some(b)
        {
          SameIdSameRow(all, r.value, b);
        }
      }
    }
    r
  }

  /** `bookmark_count()`: the number of rows of the snapshot owned by `u`. */
  function BookmarkCount(u: User, all: seq<Bookmark>): (n: nat)
    ensures n == |set i | 0 <= i < |all| && OwnedBy(all[i], u.id)|
  {
    WhereCount(OwnerIs(u.id), all);
    assert MatchingPositions(OwnerIs(u.id), all) == set i | 0 <= i < |all| && OwnedBy(all[i], u.id);
    |My(u, all)|
  }

  /** `bookmark_last_created()`: a newest owned bookmark, or none when `u`
      owns nothing. */
  function BookmarkLastCreated(u: User, all: seq<Bookmark>): (r: Option<Bookmark>)
    ensures r.None? <==> forall b :: b in all ==> !OwnedBy(b, u.id)
    ensures r.Some? ==> r.value in all && OwnedBy(r.value, u.id)
    ensures r.Some? ==> forall b :: b in all && OwnedBy(b, u.id) ==> b.created <= r.value.created
  {
    var s := Sort(CreatedDesc, My(u, all));
    OrderingHead(CreatedDesc, s, My(u, all));
    First(s)
  }

  /** `btag(page, tag)`: `by_tag` scoped to `u` with `u`'s page size. */
  function Btag(u: User, all: seq<Bookmark>, page: int, tag: string): (r: seq<Bookmark>)
    requires page >= 1 && u.perPage >= 1
    ensures |r| <= u.perPage
    ensures forall b :: b in r ==>
      b in all && OwnedBy(b, u.id) && b.tags.Some? && Like(b.tags.value, Surround(tag))
    ensures Sorted(ClicksDesc, r)
    ensures r == ByTag(page, u.id, u.perPage, tag, all)
  {
    ByTag(page, u.id, u.perPage, tag, all)
  }

  /** `bstring(page, string)`: `by_string` scoped to `u` with `u`'s page size. */
  function Bstring(u: User, all: seq<Bookmark>, page: int, text: string): (r: seq<Bookmark>)
    requires page >= 1 && u.perPage >= 1
    ensures |r| <= u.perPage
    ensures forall b :: b in r ==>
      b in all && OwnedBy(b, u.id) && (Like(b.title, Surround(text)) || Like(b.url, Surround(text)))
    ensures Sorted(ClicksDesc, r)
    ensures r == ByString(page, u.id, u.perPage, text, all)
  {
    ByString(page, u.id, u.perPage, text, all)
  }
}
