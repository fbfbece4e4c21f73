/** `get_post_list` (lemmydl.py:165-181): requests the listing pages one after another, picks
    the media posts of each page and archives them. The Lemmy API is a parameter: `listing(page)`
    is what `lemmy.post.list` returns for that page, `None` when it returns nothing. */
module Fetcher {
  import opened Api
  import opened Strings
  import opened MediaFilter
  import opened FileSystem
  import opened Paging
  import opened Archive

  /** One call of `lemmy.post.list`: the page asked for and the page size. */
  datatype Request = Request(page: int, limit: int)

  /** What one run is asked for: about `count` posts, every post or only media posts
      (`--all`), the URL finder of post bodies, and the cut-off `download_posts` applies. */
  datatype Query = Query(count: int, all: bool, findUrls: string -> seq<string>, cutoff: Cutoff)

  /** The number of pages `range(1, pages + 1)` visits. */
  function PageTotal(count: int): (n: nat)
    ensures n == |PagesRequested(count)|
  {
    if PageCount(count) > 0 then PageCount(count) else 0
  }

  /** The calls for pages 1 to `k`, in order. */
  function RequestsUpTo(k: nat): seq<Request> {
    if k == 0 then [] else RequestsUpTo(k - 1) + [Request(k, PostsPerPage)]
  }

  /** The calls for the first `k` pages ask for pages 1 to `k`, each with the page size as
      limit; for all the pages, those are the pages `range(1, pages + 1)` gives. */
  lemma {:induction false} RequestsUpToPages(k: nat)
    ensures |RequestsUpTo(k)| == k
    ensures forall i :: 0 <= i < k ==> RequestsUpTo(k)[i] == Request(i + 1, PostsPerPage)
  {
    if k > 0 {
      RequestsUpToPages(k - 1);
    }
  }

  lemma RequestsArePagesRequested(count: int)
    ensures var r := RequestsUpTo(PageTotal(count));
      |r| == |PagesRequested(count)| &&
      forall i :: 0 <= i < |r| ==> r[i] == Request(PagesRequested(count)[i], PostsPerPage)
  {
    RequestsUpToPages(PageTotal(count));
  }

  /** What `download_posts` serialises for post views once `get_media_posts` has set their
      media. */
  function Annotated(views: seq<PostView>, findUrls: string -> seq<string>): seq<PostRecord> {
    seq(|views|, i requires 0 <= i < |views| =>
      PostRecord(views[i].post, views[i].community, MediaOf(views[i].post, findUrls)))
  }

  /** The records of one listing page that `download_posts` gets through: the media posts
      of the page, in order, up to the cut-off. */
  function PageRecords(views: seq<PostView>, page: int, q: Query): seq<PostRecord> {
    var sel := Selected(views, q.all, q.findUrls);
    Annotated(sel, q.findUrls)[..Handled(q.cutoff, page, |sel|, q.count)]
  }

  /** `download_posts` gets the page's media posts in the order of the listing: the records
      of a page are a subsequence of the page's annotated views, as many as the cut-off lets
      through of the posts the filter keeps. */
  lemma PageRecordsInOrder(views: seq<PostView>, page: int, q: Query)
    ensures var sel := Selected(views, q.all, q.findUrls);
      |PageRecords(views, page, q)| == Handled(q.cutoff, page, |sel|, q.count) &&
      IsSubsequence(PageRecords(views, page, q), Annotated(views, q.findUrls))
  {
    var f := q.findUrls;
    var sel := Selected(views, q.all, f);
    var annotate := (v: PostView) => PostRecord(v.post, v.community, MediaOf(v.post, f));
    assert Annotated(sel, f) == Map(sel, annotate);
    assert Annotated(views, f) == Map(views, annotate);
    SelectedIsSubsequence(views, q.all, f);
    SubsequenceMap(sel, views, annotate);
    SubsequencePrefix(Map(sel, annotate), Map(views, annotate), Handled(q.cutoff, page, |sel|, q.count));
  }

  /** What each page of the listing hands to `download_posts`: the page's records up to the
      cut-off, or `None` for a page the API returns nothing for. */
  function Batches(listing: int -> Option<seq<PostView>>, q: Query): (batch: int -> Option<seq<PostRecord>>)
    ensures forall page :: listing(page).None? ==> batch(page).None?
    ensures forall page :: listing(page).Some? ==> batch(page) == Some(PageRecords(listing(page).value, page, q))
  {
    (page: int) => if listing(page).None? then None else Some(PageRecords(listing(page).value, page, q))
  }

  /** The archive after pages 1 to `n`, and whether the run got through them: a page with
      nothing is passed over, and a failure ends the run. */
  function PagesArchived(fs: Fs, base: Path, env: Env, batch: int -> Option<seq<PostRecord>>, n: nat): Run
  {
    if n == 0 then Run(fs, true)
    else
      var r := PagesArchived(fs, base, env, batch, n - 1);
      if !r.ok then r else PageArchived(r.fs, base, env, batch, n)
  }

  /** One page: its records are archived, or nothing happens when the API returned nothing
      for it. */
  function PageArchived(fs: Fs, base: Path, env: Env, batch: int -> Option<seq<PostRecord>>, page: int): Run {
    if batch(page).None? then Run(fs, true) else PostsSaved(fs, base, batch(page).value, env)
  }

  /** The post views of the pages 1 to `n` of the listing. */
  function ListedViews(listing: int -> Option<seq<PostView>>, n: nat): set<PostView> {
    set page, v | 1 <= page <= n && listing(page).Some? && v in listing(page).value :: v
  }

  /** Every record archived from a page is a post the media filter keeps, with the media
      it found. */
  lemma PageRecordsSelected(views: seq<PostView>, page: int, q: Query)
    ensures var r := PageRecords(views, page, q);
      forall i :: 0 <= i < |r| ==>
        IsSelected(r[i].post, q.all, q.findUrls) && r[i].media == MediaOf(r[i].post, q.findUrls)
  {
    SelectedMembers(views, q.all, q.findUrls);
  }

  /** Once `get_media_posts` has run, the views' current values are their annotated
      records. */
  lemma AnnotatedRecords(views: seq<PostView>, findUrls: string -> seq<string>)
    requires forall v :: v in views ==> v.media == MediaOf(v.post, findUrls)
    ensures Records(views) == Annotated(views, findUrls)
  {
  }

  /** A page that fails ends the run: the later pages change nothing. */
  lemma {:induction false} PagesArchivedStopsAtFailure(fs: Fs, base: Path, env: Env,
      batch: int -> Option<seq<PostRecord>>, j: nat, k: nat)
    requires j <= k && !PagesArchived(fs, base, env, batch, j).ok
    ensures PagesArchived(fs, base, env, batch, k) == PagesArchived(fs, base, env, batch, j)
    decreases k
  {
    if j < k {
      PagesArchivedStopsAtFailure(fs, base, env, batch, j, k - 1);
    }
  }

  /** On a consistent file system, archiving pages keeps it consistent and never changes
      or removes what was there, whether or not the run fails. */
  lemma {:induction false} PagesArchivedExtends(fs: Fs, base: Path, env: Env,
      batch: int -> Option<seq<PostRecord>>, n: nat)
    requires Valid(fs)
    ensures var r := PagesArchived(fs, base, env, batch, n).fs; Valid(r) && Extends(fs, r)
  {
    if n > 0 {
      var r := PagesArchived(fs, base, env, batch, n - 1);
      PagesArchivedExtends(fs, base, env, batch, n - 1);
      if r.ok && batch(n).Some? {
        PostsSavedExtends(r.fs, base, batch(n).value, env);
      }
    }
  }

  /** Every record archived from pages 1 to `n` has its community and post path. */
  predicate PagesHavePaths(fs: Fs, base: Path, env: Env, batch: int -> Option<seq<PostRecord>>, n: nat)
  {
    n == 0 ||
    (PagesHavePaths(fs, base, env, batch, n - 1) &&
     (batch(n).Some? ==> AllHavePaths(fs, base, batch(n).value, env)))
  }

  lemma {:induction false} PagesHavePathsGrows(a: Fs, b: Fs, base: Path, env: Env,
      batch: int -> Option<seq<PostRecord>>, n: nat)
    requires Grows(a, b) && PagesHavePaths(a, base, env, batch, n)
    ensures PagesHavePaths(b, base, env, batch, n)
  {
    if n > 0 {
      PagesHavePathsGrows(a, b, base, env, batch, n - 1);
      if batch(n).Some? {
        AllHavePathsGrows(a, b, base, batch(n).value, env);
      }
    }
  }

  /** Archiving pages removes nothing, whether or not the run fails. */
  lemma {:induction false} PagesArchivedGrows(fs: Fs, base: Path, env: Env,
      batch: int -> Option<seq<PostRecord>>, n: nat)
    ensures Grows(fs, PagesArchived(fs, base, env, batch, n).fs)
  {
    if n > 0 {
      var r := PagesArchived(fs, base, env, batch, n - 1);
      PagesArchivedGrows(fs, base, env, batch, n - 1);
      if r.ok && batch(n).Some? {
        PostsSavedGrows(r.fs, base, batch(n).value, env);
      }
    }
  }

  /** One page that does not fail removes nothing and leaves each of its records with its
      paths. */
  lemma PageArchivedLeavesPaths(fs: Fs, base: Path, env: Env, batch: int -> Option<seq<PostRecord>>, page: int)
    requires PageArchived(fs, base, env, batch, page).ok
    ensures var r := PageArchived(fs, base, env, batch, page).fs;
      Grows(fs, r) && (batch(page).Some? ==> AllHavePaths(r, base, batch(page).value, env))
  {
    if batch(page).Some? {
      PostsSavedGrows(fs, base, batch(page).value, env);
      PostsSavedLeavesPaths(fs, base, batch(page).value, env);
    }
  }

  /** A run that gets through its pages leaves every archived record with its paths. */
  lemma {:induction false} PagesArchivedLeavesPaths(fs: Fs, base: Path, env: Env,
      batch: int -> Option<seq<PostRecord>>, n: nat)
    requires PagesArchived(fs, base, env, batch, n).ok
    ensures PagesHavePaths(PagesArchived(fs, base, env, batch, n).fs, base, env, batch, n)
  {
    if n > 0 {
      var r := PagesArchived(fs, base, env, batch, n - 1);
      PagesArchivedLeavesPaths(fs, base, env, batch, n - 1);
      PageArchivedLeavesPaths(r.fs, base, env, batch, n);
      PagesHavePathsGrows(r.fs, PageArchived(r.fs, base, env, batch, n).fs, base, env, batch, n - 1);
    }
  }

  /** Pages whose records all have their paths are passed over without a change. */
  lemma {:induction false} PagesArchivedSkipsSaved(fs: Fs, base: Path, env: Env,
      batch: int -> Option<seq<PostRecord>>, n: nat)
    requires PagesHavePaths(fs, base, env, batch, n)
    ensures PagesArchived(fs, base, env, batch, n) == Run(fs, true)
  {
    if n > 0 {
      PagesArchivedSkipsSaved(fs, base, env, batch, n - 1);
      if batch(n).Some? {
        PostsSavedSkipsSaved(fs, base, batch(n).value, env);
      }
    }
  }

  /** Running the archiver a second time over the same listing after a run that did not
      fail leaves the archive as it is. */
  lemma PagesArchivedRerun(fs: Fs, base: Path, env: Env, batch: int -> Option<seq<PostRecord>>, n: nat)
    requires PagesArchived(fs, base, env, batch, n).ok
    ensures var r := PagesArchived(fs, base, env, batch, n).fs;
      PagesArchived(r, base, env, batch, n) == Run(r, true)
  {
    PagesArchivedLeavesPaths(fs, base, env, batch, n);
    PagesArchivedSkipsSaved(PagesArchived(fs, base, env, batch, n).fs, base, env, batch, n);
  }

  /** The body of the loop for a page the API returned: `get_media_posts` sets the media of
      every view of the page, then `download_posts` archives the page's media posts. */
  method ArchivePage(archive: Archiver, page: int, views: seq<PostView>, q: Query) returns (ok: bool)
    modifies archive, set v | v in views
    ensures Run(archive.State(), ok) ==
      PostsSaved(old(archive.State()), archive.base, PageRecords(views, page, q), archive.env)
    ensures forall v :: v in views ==> v.media == MediaOf(v.post, q.findUrls)
  {
    var mediaPosts := GetMediaPosts(views, q.all, q.findUrls);
    SelectedMembers(views, q.all, q.findUrls);
    AnnotatedRecords(mediaPosts, q.findUrls);
    ok := archive.DownloadPosts(page, mediaPosts, q.count, q.cutoff);
  }

  /** The views of one page of the listing. */
  function PageViews(listing: int -> Option<seq<PostView>>, page: int): set<PostView> {
    if listing(page).None? then {} else set v | v in listing(page).value
  }

  /** One turn of the loop of `get_post_list` after the request: a page the API returned is
      archived, a page it returned nothing for is passed over. */
  method FetchPage(archive: Archiver, listing: int -> Option<seq<PostView>>, q: Query, page: int)
    returns (ok: bool)
    modifies archive, PageViews(listing, page)
    ensures Run(archive.State(), ok) ==
      PageArchived(old(archive.State()), archive.base, archive.env, Batches(listing, q), page)
  {
    var postList := listing(page);
    ok := true;
    if postList.Some? {
      ok := ArchivePage(archive, page, postList.value, q);
    }
  }

  /** `get_post_list(count, ...)`: requests pages 1, 2, ... of the listing with the page size
      as limit and archives the media posts of every page it gets; a page whose archiving
      fails ends the run there. */
  method GetPostList(archive: Archiver, listing: int -> Option<seq<PostView>>, q: Query)
    returns (requests: seq<Request>, ok: bool)
    modifies archive, ListedViews(listing, PageTotal(q.count))
    ensures ok ==> requests == RequestsUpTo(PageTotal(q.count))
    ensures !ok ==> exists k :: (0 < k <= PageTotal(q.count) && requests == RequestsUpTo(k) &&
      PagesArchived(old(archive.State()), archive.base, archive.env, Batches(listing, q), k - 1).ok &&
      !PagesArchived(old(archive.State()), archive.base, archive.env, Batches(listing, q), k).ok)
    ensures Run(archive.State(), ok) ==
      PagesArchived(old(archive.State()), archive.base, archive.env, Batches(listing, q), PageTotal(q.count))
  {
    ghost var fs0 := archive.State();
    ghost var n := PageTotal(q.count);
    var pages := PageCount(q.count);
    requests := [];
    ok := true;
    var page := 1;
    while page <= pages
      invariant 1 <= page <= n + 1
      invariant ok && requests == RequestsUpTo(page - 1)
      invariant Run(archive.State(), true) == PagesArchived(fs0, archive.base, archive.env, Batches(listing, q), page - 1)
    {
      requests := requests + [Request(page, PostsPerPage)];
      ok := FetchPage(archive, listing, q, page);
      if !ok {
        PagesArchivedStopsAtFailure(fs0, archive.base, archive.env, Batches(listing, q), page, n);
        assert requests == RequestsUpTo(page);
        return;
      }
      page := page + 1;
    }
  }
}
