/** `get_media_posts` (lemmydl.py:93-115): computes each post's media list from its primary
    URL and the URLs found in its body, writes it into the post view, and keeps the posts
    that have media (or every post, when all posts are wanted). The URL finder `find_urls` is
    a parameter: its regular expression is not part of this model. */
module MediaFilter {
  import opened Strings
  import opened Classifier
  import opened Api

  /** The URLs the filter inspects in a post's body: `find_urls(body)` when there is one. */
  function BodyUrls(p: Post, findUrls: string -> seq<string>): seq<string> {
    if p.body.Some? then findUrls(p.body.value) else []
  }

  /** The URLs a post's media list is chosen from: its primary URL, when it has one, then
      the URLs found in its body. */
  function Candidates(p: Post, findUrls: string -> seq<string>): seq<string> {
    (if p.url.Some? then [p.url.value] else []) + BodyUrls(p, findUrls)
  }

  /** The primary URL, when there is one and it is a media URL. */
  function PrimaryMedia(p: Post): seq<string> {
    if p.url.Some? && IsImageUrl(p.url.value) then [p.url.value] else []
  }

  /** The media list of a post, `post["media"]`: the media URLs among its candidates. */
  function MediaOf(p: Post, findUrls: string -> seq<string>): seq<string> {
    Filter(Candidates(p, findUrls), IsImageUrl)
  }

  /** The primary URL, when it is a media URL, followed by the body's media URLs. */
  lemma MediaOfSplit(p: Post, findUrls: string -> seq<string>)
    ensures MediaOf(p, findUrls) == PrimaryMedia(p) + Filter(BodyUrls(p, findUrls), IsImageUrl)
  {
    var prim := if p.url.Some? then [p.url.value] else [];
    FilterAppend(prim, BodyUrls(p, findUrls), IsImageUrl);
  }

  /** The media list holds only media URLs, the primary URL first when it is one, then the
      body's media URLs, each of them, in the order `find_urls` returns them. */
  lemma MediaOfSpec(p: Post, findUrls: string -> seq<string>)
    ensures var r := MediaOf(p, findUrls);
      (forall i :: 0 <= i < |r| ==> IsImageUrl(r[i])) &&
      (p.url.Some? && IsImageUrl(p.url.value) ==> r != [] && r[0] == p.url.value) &&
      |PrimaryMedia(p)| <= |r| && IsSubsequence(r[|PrimaryMedia(p)|..], BodyUrls(p, findUrls)) &&
      (forall i :: 0 <= i < |BodyUrls(p, findUrls)| && IsImageUrl(BodyUrls(p, findUrls)[i]) ==>
        BodyUrls(p, findUrls)[i] in r)
  {
    var body := BodyUrls(p, findUrls);
    var found := Filter(body, IsImageUrl);
    var r := MediaOf(p, findUrls);
    MediaOfSplit(p, findUrls);
    FilterMembers(body, IsImageUrl);
    FilterIsSubsequence(body, IsImageUrl);
    assert r[|PrimaryMedia(p)|..] == found;
  }

  /** Some URL of `urls` is a media URL. */
  predicate HasImageUrl(urls: seq<string>) {
    urls != [] && (IsImageUrl(urls[|urls| - 1]) || HasImageUrl(urls[..|urls| - 1]))
  }

  lemma {:induction false} HasImageUrlIffFound(urls: seq<string>)
    ensures HasImageUrl(urls) <==> Filter(urls, IsImageUrl) != []
  {
    if urls != [] {
      HasImageUrlIffFound(urls[..|urls| - 1]);
    }
  }

  /** Whether `get_media_posts` keeps a post (its `use_post` flag): all posts are wanted or
      its media list is not empty. */
  predicate IsSelected(p: Post, all: bool, findUrls: string -> seq<string>) {
    all || MediaOf(p, findUrls) != []
  }

  /** The `use_post` flag is set exactly when all posts are wanted, or the primary URL is a
      media URL, or some URL found in the body is. */
  lemma SelectedIffHasMedia(p: Post, all: bool, findUrls: string -> seq<string>)
    ensures IsSelected(p, all, findUrls) <==>
      all || (p.url.Some? && IsImageUrl(p.url.value)) || HasImageUrl(BodyUrls(p, findUrls))
  {
    HasImageUrlIffFound(BodyUrls(p, findUrls));
    MediaOfSplit(p, findUrls);
  }

  /** The `use_post` test as a function of a post view. */
  function Keep(all: bool, findUrls: string -> seq<string>): PostView -> bool {
    (v: PostView) => IsSelected(v.post, all, findUrls)
  }

  /** The list `get_media_posts` returns: the kept posts, in their original order. */
  function Selected(views: seq<PostView>, all: bool, findUrls: string -> seq<string>): seq<PostView> {
    Filter(views, Keep(all, findUrls))
  }

  /** `get_media_posts` returns the posts it keeps in their original order. */
  lemma SelectedIsSubsequence(views: seq<PostView>, all: bool, findUrls: string -> seq<string>)
    ensures IsSubsequence(Selected(views, all, findUrls), views)
  {
    FilterIsSubsequence(views, Keep(all, findUrls));
  }

  /** `get_media_posts` keeps exactly the selected posts. */
  lemma SelectedMembers(views: seq<PostView>, all: bool, findUrls: string -> seq<string>)
    ensures forall i :: 0 <= i < |Selected(views, all, findUrls)| ==>
      Selected(views, all, findUrls)[i] in views && IsSelected(Selected(views, all, findUrls)[i].post, all, findUrls)
    ensures forall i :: 0 <= i < |views| && IsSelected(views[i].post, all, findUrls) ==>
      views[i] in Selected(views, all, findUrls)
  {
    FilterMembers(views, Keep(all, findUrls));
  }

  lemma SelectedStep(views: seq<PostView>, i: nat, all: bool, findUrls: string -> seq<string>)
    requires i < |views|
    ensures Selected(views[..i + 1], all, findUrls) ==
      Selected(views[..i], all, findUrls) + (if IsSelected(views[i].post, all, findUrls) then [views[i]] else [])
  {
    assert views[..i + 1][..i] == views[..i];
  }

  /** The body of the loop of `get_media_posts` for one post, up to writing `media`: the
      media list collected and the `use_post` flag. */
  method CollectMedia(p: Post, all: bool, findUrls: string -> seq<string>)
    returns (imageUrls: seq<string>, usePost: bool)
    ensures imageUrls == MediaOf(p, findUrls)
    ensures usePost == IsSelected(p, all, findUrls)
  {
    imageUrls := [];
    usePost := false;
    if all {
      usePost := true;
    }
    if p.url.Some? {
      if IsImageUrl(p.url.value) {
        imageUrls := imageUrls + [p.url.value];
        usePost := true;
      }
    }
    ghost var found: seq<string> := [];
    if p.body.Some? {
      var urls := findUrls(p.body.value);
      var j := 0;
      while j < |urls|
        invariant 0 <= j <= |urls|
        invariant found == Filter(urls[..j], IsImageUrl)
        invariant imageUrls == PrimaryMedia(p) + found
        invariant usePost == (all || imageUrls != [])
      {
        FilterStep(urls, j, IsImageUrl);
        if IsImageUrl(urls[j]) {
          imageUrls := imageUrls + [urls[j]];
          found := found + [urls[j]];
          usePost := true;
        }
        j := j + 1;
      }
      assert urls[..j] == urls;
    }
    MediaOfSplit(p, findUrls);
  }

  /** `get_media_posts(post_list)`: sets `media` on every post view of the page, kept or not,
      and returns the kept ones. */
  method GetMediaPosts(views: seq<PostView>, all: bool, findUrls: string -> seq<string>)
    returns (mediaPosts: seq<PostView>)
    modifies set v | v in views
    ensures forall v :: v in views ==> v.media == MediaOf(v.post, findUrls)
    ensures mediaPosts == Selected(views, all, findUrls)
  {
    mediaPosts := [];
    var i := 0;
    while i < |views|
      invariant 0 <= i <= |views|
      invariant mediaPosts == Selected(views[..i], all, findUrls)
      invariant forall j :: 0 <= j < i ==> views[j].media == MediaOf(views[j].post, findUrls)
    {
      var view := views[i];
      var usePost := Annotate(view, all, findUrls);
      SelectedStep(views, i, all, findUrls);
      if usePost {
        mediaPosts := mediaPosts + [view];
      }
      i := i + 1;
    }
    assert views[..i] == views;
  }

  method Annotate(view: PostView, all: bool, findUrls: string -> seq<string>) returns (usePost: bool)
    modifies view
    ensures view.media == MediaOf(view.post, findUrls)
    ensures usePost == IsSelected(view.post, all, findUrls)
  {
    var imageUrls;
    imageUrls, usePost := CollectMedia(view.post, all, findUrls);
    view.media := imageUrls;
  }

  /** A post whose primary URL ends in `.mp4` and whose body yields no URLs is kept, with
      exactly that one media reference. */
  lemma Mp4PostKeptWithOneReference(p: Post, findUrls: string -> seq<string>, stem: string)
    requires p.url == Some(stem + ".mp4")
    requires BodyUrls(p, findUrls) == []
    ensures MediaOf(p, findUrls) == [stem + ".mp4"]
    ensures IsSelected(p, false, findUrls)
  {
    Mp4IsImageUrl(stem);
    assert Filter(BodyUrls(p, findUrls), IsImageUrl) == [];
  }

  lemma Mp4IsImageUrl(stem: string)
    ensures IsImageUrl(stem + ".mp4")
  {
    assert stem + "." + "mp4" == stem + ".mp4";
    Mp4IsListed();
    DottedExtensionAccepted(stem, "mp4");
  }

  /** `find_urls` as written: the first character of each regex match. */
  function FindUrlsAsWritten(regex: string -> seq<string>): string -> seq<string> {
    body => FirstCharacters(regex(body))
  }

  /** As written, a post body never contributes media: every "URL" `find_urls` returns is a
      single character, which is never a media URL. */
  lemma {:induction false} BodyNeverContributesAsWritten(p: Post, regex: string -> seq<string>)
    ensures MediaOf(p, FindUrlsAsWritten(regex)) == PrimaryMedia(p)
  {
    var urls := BodyUrls(p, FindUrlsAsWritten(regex));
    forall i | 0 <= i < |urls|
      ensures !IsImageUrl(urls[i])
    {
      ShortUrlIsNotImage(urls[i]);
    }
    FilterKeepsNone(urls, IsImageUrl);
    MediaOfSplit(p, FindUrlsAsWritten(regex));
  }

  /** With `find_urls` returning the whole matches, a media URL in the body is archived:
      a post with no primary URL whose body holds one media URL is kept with that URL as
      its media. */
  lemma BodyMediaKeptWhenWholeMatches(p: Post, regex: string -> seq<string>, url: string)
    requires p.url == None && p.body.Some?
    requires regex(p.body.value) == [url] && IsImageUrl(url)
    ensures MediaOf(p, regex) == [url]
    ensures IsSelected(p, false, regex)
  {
    assert [url][..0] == [] && [url][0] == url;
    assert Filter([url], IsImageUrl) == [url];
  }

  /** The same post under `find_urls` as written is dropped. */
  lemma BodyMediaDroppedAsWritten(p: Post, regex: string -> seq<string>, url: string)
    requires p.url == None && p.body.Some?
    requires regex(p.body.value) == [url] && IsImageUrl(url)
    ensures !IsSelected(p, false, FindUrlsAsWritten(regex))
  {
    BodyNeverContributesAsWritten(p, regex);
  }
}
