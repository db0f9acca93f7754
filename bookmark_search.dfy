/**
 * The search class methods of `Bookmark`: `by_tag` and `by_string`. Both
 * keep one owner's rows whose text matches `%text%`, order them by clicks
 * descending (ties in any order) and return one page.
 */
module BookmarkSearch {
  import opened Wrappers
  import opened Entities
  import opened SqlLike
  import opened Filtering
  import opened Ordering
  import opened Pagination

  /** Rows selected by `by_tag`: tags LIKE `%tag%` and the owner filter. */
  function TagRows(all: seq<Bookmark>, ownerId: int, tag: string): (r: seq<Bookmark>)
    ensures forall b :: b in r <==>
      b in all && OwnedBy(b, ownerId) && b.tags.Some? && Like(b.tags.value, Surround(tag))
    ensures forall b :: multiset(r)[b] ==
                        if OwnedBy(b, ownerId) && b.tags.Some? && Like(b.tags.value, Surround(tag))
                        then multiset(all)[b] else 0
    ensures multiset(r) <= multiset(all)
  {
    var tagged := Where(TagsLike(Surround(tag)), all);
    WhereRows(TagsLike(Surround(tag)), all);
    WhereRows(OwnerIs(ownerId), tagged);
    Where(OwnerIs(ownerId), tagged)
  }

  /** With a wildcard-free tag, `by_tag` is a substring search on the
      non-null tags of the owner's rows. */
  lemma TagRowsAreSubstringMatches(all: seq<Bookmark>, ownerId: int, tag: string)
    requires NoWildcards(tag)
    ensures forall b :: b in TagRows(all, ownerId, tag) <==>
      b in all && OwnedBy(b, ownerId) && b.tags.Some? && Contains(b.tags.value, tag)
  {
    forall b: Bookmark | b.tags.Some?
      ensures Like(b.tags.value, Surround(tag)) <==> Contains(b.tags.value, tag)
    {
      LikeSurroundContains(b.tags.value, tag);
    }
  }

  /** The tag is matched as a raw substring, not as a whole tag: `py`
      finds a bookmark tagged `python,flask` and not one tagged `ruby`. */
  lemma TagSearchExample(ownerId: int, hit: Bookmark, miss: Bookmark)
    requires OwnedBy(hit, ownerId) && OwnedBy(miss, ownerId)
    requires hit.tags == Some("python,flask") && miss.tags == Some("ruby")
    ensures TagRows([hit, miss], ownerId, "py") == [hit]
  {
    var r := TagRows([hit, miss], ownerId, "py");
    TagSearchExampleRows(ownerId, hit, miss);
    assert multiset(r) == multiset{hit} by {
      assert multiset(r) <= multiset([hit, miss]);
      assert hit != miss;
    }
    assert |r| == |multiset(r)| == 1;
  }

  lemma TagSearchExampleRows(ownerId: int, hit: Bookmark, miss: Bookmark)
    requires OwnedBy(hit, ownerId) && OwnedBy(miss, ownerId)
    requires hit.tags == Some("python,flask") && miss.tags == Some("ruby")
    ensures hit in TagRows([hit, miss], ownerId, "py")
    ensures miss !in TagRows([hit, miss], ownerId, "py")
  {
    assert NoWildcards("py");
    TagRowsAreSubstringMatches([hit, miss], ownerId, "py");
    assert IsPrefix("py", hit.tags.value);
    LacksFirstChar(miss.tags.value, "py");
  }

  /** The ordered result of `by_tag` before pagination. */
  function TagOrdered(all: seq<Bookmark>, ownerId: int, tag: string): (r: seq<Bookmark>)
    ensures IsOrderingOf(ClicksDesc, r, TagRows(all, ownerId, tag))
  {
    Sort(ClicksDesc, TagRows(all, ownerId, tag))
  }

  /** `Bookmark.by_tag(page, oID, per_page, tag)`. */
  function ByTag(page: int, ownerId: int, perPage: int, tag: string, all: seq<Bookmark>): (r: seq<Bookmark>)
    requires page >= 1 && perPage >= 1
    ensures |r| <= perPage
    ensures forall b :: b in r ==>
      b in all && OwnedBy(b, ownerId) && b.tags.Some? && Like(b.tags.value, Surround(tag))
    ensures Sorted(ClicksDesc, r)
    ensures r == [] <==> page > PageCount(|TagRows(all, ownerId, tag)|, perPage)
    ensures r == Page(TagOrdered(all, ownerId, tag), page, perPage)
  {
    var rows := TagRows(all, ownerId, tag);
    var ordered := TagOrdered(all, ownerId, tag);
    PageOfOrdering(ClicksDesc, ordered, rows, page, perPage);
    Page(ordered, page, perPage)
  }

  /** Pages `1..n` of `by_tag`, concatenated. */
  function ByTagPages(ownerId: int, perPage: int, tag: string, all: seq<Bookmark>, n: nat): seq<Bookmark>
    requires perPage >= 1
  {
    if n == 0 then [] else ByTagPages(ownerId, perPage, tag, all, n - 1) + ByTag(n, ownerId, perPage, tag, all)
  }

  lemma {:induction false} ByTagPagesArePages(ownerId: int, perPage: int, tag: string, all: seq<Bookmark>, n: nat)
    requires perPage >= 1
    ensures ByTagPages(ownerId, perPage, tag, all, n) == Pages(TagOrdered(all, ownerId, tag), perPage, n)
  {
    if n > 0 {
      ByTagPagesArePages(ownerId, perPage, tag, all, n - 1);
      assert ByTag(n, ownerId, perPage, tag, all) == Page(TagOrdered(all, ownerId, tag), n, perPage);
    }
  }

  /** Requesting every page of `by_tag` in turn yields each matching row
      as often as it is in the table, in non-increasing click order. */
  lemma ByTagPagesRebuild(ownerId: int, perPage: int, tag: string, all: seq<Bookmark>)
    requires perPage >= 1
    ensures IsOrderingOf(ClicksDesc,
      ByTagPages(ownerId, perPage, tag, all, PageCount(|TagRows(all, ownerId, tag)|, perPage)),
      TagRows(all, ownerId, tag))
  {
    var n := PageCount(|TagRows(all, ownerId, tag)|, perPage);
    ByTagPagesArePages(ownerId, perPage, tag, all, n);
    PagesOfOrdering(ClicksDesc, TagOrdered(all, ownerId, tag), TagRows(all, ownerId, tag), perPage);
  }

  /** Rows selected by `by_string`: the owner filter, then title LIKE
      `%text%` OR url LIKE `%text%`. */
  function StringRows(all: seq<Bookmark>, ownerId: int, text: string): (r: seq<Bookmark>)
    ensures forall b :: b in r <==>
      b in all && OwnedBy(b, ownerId) && (Like(b.title, Surround(text)) || Like(b.url, Surround(text)))
    ensures forall b :: multiset(r)[b] ==
                        if OwnedBy(b, ownerId) && (Like(b.title, Surround(text)) || Like(b.url, Surround(text)))
                        then multiset(all)[b] else 0
    ensures multiset(r) <= multiset(all)
  {
    var owned := Where(OwnerIs(ownerId), all);
    WhereRows(OwnerIs(ownerId), all);
    WhereRows(TitleOrUrlLike(Surround(text)), owned);
    Where(TitleOrUrlLike(Surround(text)), owned)
  }

  /** With wildcard-free text, `by_string` selects the owner's rows whose
      title or url contains the text; either field alone suffices. */
  lemma StringRowsAreSubstringMatches(all: seq<Bookmark>, ownerId: int, text: string)
    requires NoWildcards(text)
    ensures forall b :: b in StringRows(all, ownerId, text) <==>
      b in all && OwnedBy(b, ownerId) && (Contains(b.title, text) || Contains(b.url, text))
  {
    forall b: Bookmark
      ensures Like(b.title, Surround(text)) <==> Contains(b.title, text)
      ensures Like(b.url, Surround(text)) <==> Contains(b.url, text)
    {
      LikeSurroundContains(b.title, text);
      LikeSurroundContains(b.url, text);
    }
  }

  /** The ordered result of `by_string` before pagination. */
  function StringOrdered(all: seq<Bookmark>, ownerId: int, text: string): (r: seq<Bookmark>)
    ensures IsOrderingOf(ClicksDesc, r, StringRows(all, ownerId, text))
  {
    Sort(ClicksDesc, StringRows(all, ownerId, text))
  }

  /** `Bookmark.by_string(page, oID, per_page, string)`. */
  function ByString(page: int, ownerId: int, perPage: int, text: string, all: seq<Bookmark>): (r: seq<Bookmark>)
    requires page >= 1 && perPage >= 1
    ensures |r| <= perPage
    ensures forall b :: b in r ==>
      b in all && OwnedBy(b, ownerId) && (Like(b.title, Surround(text)) || Like(b.url, Surround(text)))
    ensures Sorted(ClicksDesc, r)
    ensures r == [] <==> page > PageCount(|StringRows(all, ownerId, text)|, perPage)
    ensures r == Page(StringOrdered(all, ownerId, text), page, perPage)
  {
    var rows := StringRows(all, ownerId, text);
    var ordered := StringOrdered(all, ownerId, text);
    PageOfOrdering(ClicksDesc, ordered, rows, page, perPage);
    Page(ordered, page, perPage)
  }

  /** Pages `1..n` of `by_string`, concatenated. */
  function ByStringPages(ownerId: int, perPage: int, text: string, all: seq<Bookmark>, n: nat): seq<Bookmark>
    requires perPage >= 1
  {
    if n == 0 then [] else ByStringPages(ownerId, perPage, text, all, n - 1) + ByString(n, ownerId, perPage, text, all)
  }

  lemma {:induction false} ByStringPagesArePages(ownerId: int, perPage: int, text: string, all: seq<Bookmark>, n: nat)
    requires perPage >= 1
    ensures ByStringPages(ownerId, perPage, text, all, n) == Pages(StringOrdered(all, ownerId, text), perPage, n)
  {
    if n > 0 {
      ByStringPagesArePages(ownerId, perPage, text, all, n - 1);
      assert ByString(n, ownerId, perPage, text, all) == Page(StringOrdered(all, ownerId, text), n, perPage);
    }
  }

  /** Requesting every page of `by_string` in turn yields each matching row
      as often as it is in the table, in non-increasing click order. */
  lemma ByStringPagesRebuild(ownerId: int, perPage: int, text: string, all: seq<Bookmark>)
    requires perPage >= 1
    ensures IsOrderingOf(ClicksDesc,
      ByStringPages(ownerId, perPage, text, all, PageCount(|StringRows(all, ownerId, text)|, perPage)),
      StringRows(all, ownerId, text))
  {
    var n := PageCount(|StringRows(all, ownerId, text)|, perPage);
    ByStringPagesArePages(ownerId, perPage, text, all, n);
    PagesOfOrdering(ClicksDesc, StringOrdered(all, ownerId, text), StringRows(all, ownerId, text), perPage);
  }
}
