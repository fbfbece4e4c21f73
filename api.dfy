/** The parts of the Lemmy API's listing entries that the archiver reads (lemmydl.py:100-105,
    124-139): a post view is a dictionary with a "post" and a "community" entry, to which the
    media filter adds a "media" entry in place. */
module Api {

  datatype Option<T> = None | Some(value: T)

  /** `post_view["post"]`; `url` and `body` are keys that may be absent. */
  datatype Post = Post(id: int, name: string, url: Option<string>, body: Option<string>)

  /** `post_view["community"]`, also the blob written to `community.json`. */
  datatype Community = Community(id: int, name: string)

  /** One entry of a post listing. Its "post" and "community" parts are never changed;
      `media` is the entry `get_media_posts` writes into every entry it looks at. */
  class PostView {
    const post: Post
    const community: Community
    var media: seq<string>

    constructor (post: Post, community: Community)
      ensures this.post == post && this.community == community && media == []
    {
      this.post := post;
      this.community := community;
      media := [];
    }
  }

  /** The value of a post view after filtering: what `json.dumps(post)` serialises. */
  datatype PostRecord = PostRecord(post: Post, community: Community, media: seq<string>)

  /** The current values of a list of post views. */
  function Records(views: seq<PostView>): (r: seq<PostRecord>)
    reads set v | v in views
    ensures |r| == |views|
    ensures forall i :: 0 <= i < |views| ==>
      r[i] == PostRecord(views[i].post, views[i].community, views[i].media)
  {
    if views == [] then []
    else
      var last := views[|views| - 1];
      Records(views[..|views| - 1]) + [PostRecord(last.post, last.community, last.media)]
  }
}
