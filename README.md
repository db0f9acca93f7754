# Bookmark manager query layer, in Dafny

This project models the data-access layer of a small Flask bookmark manager.
A `User` owns `Bookmark`s. The model covers the read queries that
`models.py` defines: lookup by username or email, the user's bookmarks, random
unclicked suggestions, the most recent bookmarks, a ranked paginated
listing, lookup by id, count, newest bookmark, and tag and text search.
Each query method in `models.py` is one chained ORM query
(`filter` / `order_by` / `limit` / `paginate` / `first` / `count`) and
changes nothing. So each query method is a pure Dafny function over a snapshot of
the tables: `seq<User>` and `seq<Bookmark>`.

Modules, one per concept of the query language:

- `Entities` (`entities.dfy`): the `User` and `Bookmark` rows. The nullable
  `owner_id` and `tags` columns are `Option`s. Timestamps are integers.
  The predicates `UniqueIds` and `UniqueUsernames` state the primary-key and
  unique constraints, as assumptions about a snapshot.
- `SqlLike` (`sql_like.dfy`): SQL `LIKE` as the code uses it, with the search
  text wrapped in `%...%` and no escape character. It also defines substring
  containment, the meaning the search is meant to have.
- `Filtering` (`filtering.dfy`): one `Criterion` per `.filter(...)`
  condition, plus `Where` (filter) and `First`.
- `Ordering` (`ordering.dfy`): the three `order_by(desc(...))` orders, as total
  preorders. It defines what an admissible ordered result is (the same rows,
  sorted) and gives one such result, a stable insertion sort.
- `Pagination` (`pagination.dfy`): `.limit(n)` and `.paginate(page, per_page,
  False)`. A page is the slice `[(page-1)*per_page, page*per_page)` of the
  ordered rows, clipped. A page past the end is empty.
- `BookmarkSearch` (`bookmark_search.dfy`): `Bookmark.by_tag` and
  `Bookmark.by_string`.
- `UserQueries` (`user_queries.dfy`): the `User` methods.

Conventions of the model:

- Ties: the database may return rows with equal sort keys in any order. The
  model fixes one admissible order (`Ordering.IsOrderingOf`): `Ordering.Sort`
  keeps tied rows in snapshot order. The page contracts of `Bookmarks`,
  `ByTag`, `ByString` (and so `Btag`, `Bstring`) and the `*PagesRebuild`
  lemmas are stated for that one fixed order. Only `Ordering.LimitOfOrdering`,
  `Ordering.PageOfOrdering` and `Ordering.PagesOfOrdering` hold for every
  admissible order. `Ordering.TiedRowsMayRepeatAcrossPages` shows what a
  fixed order hides: pages requested separately may repeat or skip tied rows.
- Random order: the order that `func.random()` produces in `suggestions()` is
  a parameter, `shuffled`. It may be any arrangement of the candidate rows.
- `.first()` without `order_by`: the model returns the first match in
  snapshot order. The contracts promise only "some match".
- `suggestions()` does not read the user's `suggestion` flag
  (models.py:20). The model follows the code.

Text search is meant as case-sensitive substring matching. The code builds
an unescaped `LIKE '%text%'` pattern, so the model follows the code: `%` and
`_` in the search text act as wildcards
(`SqlLike.WildcardMatchesNonSubstring`). The model proves that the search
is a substring search whenever the text has no wildcard character. The code
orders `recent()` by `created` only, so ties are possible, and the model
proves a non-increasing order.

## Model

| member | source | states |
|---|---|---|
| `UserQueries.ByUnameOrEmail` | models.py:24-27 | none exactly when no user has the identifier as username or as email; otherwise a user of the table whose username or email equals it |
| `UserQueries.LookupByUsername` | models.py:15-27 | with unique usernames and no user having the identifier as email, the lookup returns the user with that username |
| `UserQueries.My` | models.py:29-30 | the rows owned by the user, each as often as in the table, and no other row |
| `UserQueries.SuggestionCandidates` | models.py:32-33 | the rows suggestions draw from: every owned zero-click row of the table, each as often as it occurs there, and no other row |
| `UserQueries.Suggestions` | models.py:32-35 | for any random order of the candidates: its first min(SUGGESTIONS_COUNT, number of candidates) rows, a sub-multiset of the owned zero-click rows |
| `UserQueries.SuggestionsDistinct` | models.py:32-35 | when table ids are unique, no suggestion is repeated |
| `UserQueries.Recent` | models.py:37-39 | min(recently, owned count) owned rows, newest first; no owned row left out is newer than one returned |
| `UserQueries.BookmarksOrdered` | models.py:41-43 | the owned rows, each as often as in the table, sorted by clicks descending and then created descending |
| `UserQueries.Bookmarks` | models.py:41-44 | exactly the page-th per_page slice of the user's rows ordered by (clicks, created) descending; at most per_page rows; empty exactly when the page is past the last one |
| `UserQueries.BookmarksPagesRebuild` | models.py:41-44 | pages 1 to the last page, concatenated, hold every owned row as often as in the table, in (clicks, created) descending order |
| `UserQueries.Bid` | models.py:46-48 | a returned row has that id and is owned by the user; none exactly when no owned row has that id (absent, or another user's); with unique ids, it is that row |
| `UserQueries.BookmarkCount` | models.py:50-51 | the number of table rows whose owner is the user |
| `UserQueries.BookmarkLastCreated` | models.py:53-54 | none exactly when the user owns nothing; otherwise an owned row whose created is at least that of every owned row |
| `UserQueries.Btag` | models.py:56-57 | the same page `Bookmark.by_tag` returns for the user's id and per_page: at most per_page rows, all owned by the user, with tags matching `%tag%`, clicks descending |
| `UserQueries.Bstring` | models.py:59-60 | the same page `Bookmark.by_string` returns for the user's id and per_page: at most per_page rows, all owned by the user, with title or url matching `%text%`, clicks descending |
| `BookmarkSearch.TagRows` | models.py:96-99 | a row is selected exactly when it is in the table, owned by the owner, and has non-null tags matching `%tag%`; each selected row as often as in the table |
| `BookmarkSearch.TagRowsAreSubstringMatches` | models.py:96-99 | for a tag without wildcards: selected exactly when owned with non-null tags containing the tag; a null tags column never matches |
| `BookmarkSearch.TagSearchExample` | models.py:96-99 | `py` selects a bookmark tagged `python,flask` and not one tagged `ruby` |
| `BookmarkSearch.TagOrdered` | models.py:100 | the selected rows, each as often as in the table, clicks descending |
| `BookmarkSearch.ByTag` | models.py:94-101 | exactly the page-th per_page slice of the selected rows ordered by clicks descending; at most per_page rows; empty exactly when the page is past the last one |
| `BookmarkSearch.ByTagPagesRebuild` | models.py:94-101 | pages 1 to the last page, concatenated, hold every selected row as often as in the table, clicks descending |
| `BookmarkSearch.StringRows` | models.py:105-108 | a row is selected exactly when it is in the table, owned by the owner, and its title or its url matches `%text%`; each selected row as often as in the table |
| `BookmarkSearch.StringRowsAreSubstringMatches` | models.py:105-108 | for text without wildcards: selected exactly when owned and the title or the url contains the text; either field alone suffices |
| `BookmarkSearch.StringOrdered` | models.py:109 | the selected rows, each as often as in the table, clicks descending |
| `BookmarkSearch.ByString` | models.py:103-110 | exactly the page-th per_page slice of the selected rows ordered by clicks descending; at most per_page rows; empty exactly when the page is past the last one |
| `BookmarkSearch.ByStringPagesRebuild` | models.py:103-110 | pages 1 to the last page, concatenated, hold every selected row as often as in the table, clicks descending |
| `SqlLike.LikeSurroundContains` | models.py:96-98 | for a wildcard-free text, `s LIKE '%text%'` holds exactly when the text occurs in s |
| `SqlLike.ContainsAt` | models.py:96-98 | containment is an occurrence at some offset |
| `SqlLike.LacksFirstChar` | models.py:96-98 | a string that lacks the first character of the text does not contain the text |
| `SqlLike.LikePrefix` | models.py:96-98 | for a wildcard-free text, `s LIKE 'text%'` holds exactly when s starts with the text |
| `SqlLike.WildcardMatchesNonSubstring` | models.py:105-108 | `_` in the search text is not literal: `a_c` matches `a-c`, which does not contain `a_c` |
| `SqlLike.Like` | models.py:98 | definition of `LIKE` with `%`, `_` and no escape; a pattern without wildcards matches exactly the equal string |
| `SqlLike.Surround` | models.py:96 | definition of the `"%"+tag+"%"` wrapping: the text with one `%` added at each end |
| `Filtering.Where` | models.py:97-99 | definition of `.filter(...)` as an order-keeping selection; every row kept satisfies the condition |
| `Filtering.First` | models.py:47 | definition of `.first()` as the first row of the result; none exactly when the result is empty, otherwise a row of it |
| `Filtering.WhereRows` | models.py:106-108 | a filter keeps every satisfying row as often as it occurs, and no other row |
| `Filtering.WhereCount` | models.py:50-51 | the length of a filtered result is the number of matching positions |
| `Ordering.Sort` | models.py:42-43 | the result has the same rows as its input, sorted by the order |
| `Ordering.TopRows` | models.py:38-39 | in a sorted sequence cut after k rows, every row left out may follow every row kept |
| `Ordering.LimitOfOrdering` | models.py:38-39 | a limit after an order keeps min(k, count) rows, sorted, and none left out comes before one kept |
| `Ordering.TiedRowsMayRepeatAcrossPages` | models.py:100-101 | two rows tied on the sort key admit both orders, and page 1 of one with page 2 of the other lists the same row twice |
| `Ordering.PageOfOrdering` | models.py:42-44 | a page of an ordered result is sorted, holds only result rows, and is empty exactly past the last page |
| `Pagination.Limit` | models.py:35 | at most n rows, all of them when there are fewer, the first ones in order |
| `Pagination.Page` | models.py:44 | at most per_page rows; row k of the page is row (page-1)*per_page+k; empty exactly when the offset reaches the end; full unless it reaches the end |
| `Pagination.EmptyIffPastLast` | models.py:44 | a page is empty exactly when its number exceeds ceil(rows / per_page) |
| `Pagination.PagesRebuild` | models.py:44 | pages 1 to ceil(rows / per_page), concatenated, give back the ordered rows |

## Left out

- `authenticate_user` (models.py:62-64) is not modelled. It calls bcrypt from a foreign library (`cryptacular`).
- `is_authenticated`, `is_active`, `is_anonymous`, `get_id` and the `__repr__` methods (models.py:66-79, 112-113) are not modelled. They return constants or format strings.
- The application setup in `__init__.py` (Flask app, configuration, login manager, database handle) is not modelled. `SUGGESTIONS_COUNT` is a parameter.
- Persistence, sessions, concurrent writes, and the database's enforcement of column lengths, uniqueness and nullability are not modelled. Where a lemma needs a constraint, it takes it as a requirement on the snapshot (`UniqueIds`, `UniqueUsernames`).
- The random order of `suggestions()` is not modelled. Any arrangement of the candidates is accepted as input.
- Comparison details that depend on the database are not modelled: case folding and collation in `LIKE` and in the `==` comparisons of `by_uname_or_email` (models.py:26-27), trailing-space handling of `==` on some databases, and any default escape character of `LIKE`. Characters are compared exactly and there is no escape.
- Recent: requires `recently >= 0`, which is narrower than the code, because a negative LIMIT depends on the database (see below).
- Ties in `order_by` may come back in a different order in two separate page queries. `by_tag` and `by_string` order by `clicks` alone (models.py:100, 109), so ties are common, and a user paging through results can see a row twice and miss another (`Ordering.TiedRowsMayRepeatAcrossPages`). The model uses one fixed order for all pages, so the page contracts and the page-rebuild lemmas assume a fixed snapshot and a fixed tie order.
- Pages numbered below 1 are not modelled: the offset would be negative, and what happens depends on the database. The `Pagination` object's metadata (`total`, `pages`, `has_prev`, `has_next`) is not modelled either. `PageCount` (the number of pages, ceil(rows / per_page)) is used only to state when a page is empty, in the contracts of `Bookmarks`, `ByTag` and `ByString` and in the pagination lemmas.
- NULL values in `clicks` and `created`, whose position in a descending sort depends on the database, are not modelled. A negative `recently` is not modelled either: SQLite treats a negative LIMIT as no limit.
- NULL `per_page` and `recently` (models.py:19, 21) are not modelled. Both columns are nullable: `limit(None)` means no limit, and what `paginate` does with a NULL page size is up to the pagination library. `Entities.User` holds both as `int`.
- Bookmarks: does not model the integer width of the page offset. The offset `(page - 1) * per_page` is passed to the database as the query's OFFSET (models.py:44). Beyond the database's 64-bit integer range the query fails, whereas the model answers with an empty page.
- ByTag: does not model the integer width of the page offset (models.py:101), for the same reason as Bookmarks: an offset past the 64-bit range fails in the database, and the model answers with an empty page.
- ByString: does not model the integer width of the page offset (models.py:110), for the same reason as Bookmarks.
- Btag: inherits the unmodelled offset width of ByTag.
- Bstring: inherits the unmodelled offset width of ByString.
- Bookmarks: requires `page >= 1` and `per_page >= 1`, which is narrower than the code, because of the page-number and database points above.
- Btag: requires `page >= 1` and `per_page >= 1`, which is narrower than the code, because of the page-number and database points above.
- Bstring: requires `page >= 1` and `per_page >= 1`, which is narrower than the code, because of the page-number and database points above.
- ByTag: requires `page >= 1` and `per_page >= 1`, which is narrower than the code, because of the page-number and database points above.
- ByString: requires `page >= 1` and `per_page >= 1`, which is narrower than the code, because of the page-number and database points above.
- The columns `password` and `last_logged` are not modelled. No query reads them. `updated` is kept as a field, although no query reads it either.
