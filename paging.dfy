/** The arithmetic of paging: how many listing pages `get_post_list` requests
    (lemmydl.py:166-170) and where `download_posts` stops within a page (lemmydl.py:118-122,
    163). */
module Paging {

  /** `posts_per_page`: the `limit` of every listing request, and the page size the cut-off
      in `download_posts` assumes. */
  const PostsPerPage: int := 20

  /** `int(math.ceil(count / 20))`: the least number of whole pages that hold `count` posts
      (zero or less when `count` is). */
  function PageCount(count: int): int {
    -((-count) / PostsPerPage)
  }

  /** `PageCount` is the ceiling of `count / 20`: `count` fits in that many pages and not in
      one fewer. */
  lemma PageCountBounds(count: int)
    ensures PostsPerPage * (PageCount(count) - 1) < count <= PostsPerPage * PageCount(count)
  {
  }

  /** `range(1, pages + 1)`: the page numbers requested, in order. */
  function PagesRequested(count: int): (r: seq<int>)
    ensures count <= 0 ==> r == []
    ensures count > 0 ==> |r| == PageCount(count) && forall i :: 0 <= i < |r| ==> r[i] == i + 1
  {
    var pages := PageCount(count);
    if pages <= 0 then [] else seq(pages, i requires 0 <= i < pages => i + 1)
  }

  /** The comparison that ends a page: the code compares with `>= 0`, the corrected version
      with `> 0`. */
  datatype Cutoff = AsWritten | Corrected

  /** `counter + (page * 20) - 20`: the place of the `counter`-th post of page `page`, counting
      from 1 across pages. */
  function Position(page: int, counter: int): int {
    counter + page * PostsPerPage - PostsPerPage
  }

  /** `download_posts` returns before handling the `counter`-th post of page `page`. */
  predicate Stops(cutoff: Cutoff, page: int, counter: int, count: int) {
    match cutoff
    case AsWritten => Position(page, counter) - count >= 0
    case Corrected => Position(page, counter) - count > 0
  }

  /** How many of the `n` posts handed to `download_posts` are handled: the counter starts at
      1, goes up by one for every post, skipped or not, and the first counter that stops the
      page ends it. */
  function Handled(cutoff: Cutoff, page: int, n: nat, count: int): (h: nat)
    ensures h <= n
    ensures forall c :: 1 <= c <= h ==> !Stops(cutoff, page, c, count)
    ensures h < n ==> Stops(cutoff, page, h + 1, count)
  {
    var limit := count - Position(page, 0) - (if cutoff.AsWritten? then 1 else 0);
    if limit <= 0 then 0 else if limit < n then limit else n
  }

  /** The code as written stops exactly where the corrected cut-off stops for one post less. */
  lemma AsWrittenIsOneLess(page: int, n: nat, count: int)
    ensures Handled(AsWritten, page, n, count) == Handled(Corrected, page, n, count - 1)
  {
  }

  /** When the `count`-th post falls on this page, the corrected cut-off handles it and
      stops after it, while the code as written stops just before it. */
  lemma LastWantedPost(page: int, n: nat, count: int)
    requires Position(page, 1) <= count <= Position(page, n)
    ensures Handled(Corrected, page, n, count) == count - Position(page, 0)
    ensures Handled(AsWritten, page, n, count) == count - Position(page, 0) - 1
  {
  }

  /** Posts handled over pages 1 to `pages` when every page holds a full 20 posts to
      download. */
  function TotalHandled(cutoff: Cutoff, count: int, pages: nat): int {
    if pages == 0 then 0
    else TotalHandled(cutoff, count, pages - 1) + Handled(cutoff, pages, PostsPerPage, count)
  }

  /** With the corrected cut-off, pages 1 to `pages` handle `count` posts, or all of theirs
      when they hold fewer. */
  lemma {:induction false} TotalHandledCorrected(count: int, pages: nat)
    ensures TotalHandled(Corrected, count, pages) ==
      if count <= 0 then 0 else if count < PostsPerPage * pages then count else PostsPerPage * pages
  {
    if pages > 0 {
      TotalHandledCorrected(count, pages - 1);
    }
  }

  /** With full pages, the corrected cut-off archives exactly `count` posts over the pages
      `get_post_list` requests. */
  lemma CorrectedHandlesCount(count: int)
    requires count > 0
    ensures TotalHandled(Corrected, count, PageCount(count)) == count
  {
    PageCountBounds(count);
    TotalHandledCorrected(count, PageCount(count));
  }

  lemma {:induction false} TotalHandledAsWritten(count: int, pages: nat)
    ensures TotalHandled(AsWritten, count, pages) == TotalHandled(Corrected, count - 1, pages)
  {
    if pages > 0 {
      TotalHandledAsWritten(count, pages - 1);
      AsWrittenIsOneLess(pages, PostsPerPage, count);
    }
  }

  /** As written, even with full pages only `count - 1` posts are archived: the `count`-th
      is never handled (a count of 25 archives 24 posts). */
  lemma AsWrittenHandlesOneLess(count: int)
    requires count > 0
    ensures TotalHandled(AsWritten, count, PageCount(count)) == count - 1
  {
    PageCountBounds(count);
    TotalHandledAsWritten(count, PageCount(count));
    TotalHandledCorrected(count - 1, PageCount(count));
  }
}
