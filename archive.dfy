/** The archive writer, `download_posts` (lemmydl.py:117-163): every handled post gets a
    directory `<base>/<community>/<id>_<title>` holding its media files, `<title>.json` and
    `comments.json`; a community directory gets `community.json` when it is created. A post
    whose directory already exists is skipped. The functions give the file system state each
    step leads to; the `Archiver` class performs the steps on its own state. */
module Archive {
  import opened Api
  import opened Strings
  import opened Sanitizer
  import opened Classifier
  import opened FileSystem
  import opened Paging

  /** What the writer takes from its surroundings: `clean_text` under the configured
      `dont_clean_text` setting (see `Settings`), the comment listing the server returns for
      a post id (`lemmy.comment.list`, as JSON text) and what downloading a URL yields
      (`None` when the request fails). */
  datatype Env = Env(
    clean: string -> string,
    comments: int -> string,
    fetch: string -> Option<seq<bv8>>)

  /** The environment of a run: names are cleaned by `clean_text` (Sanitizer.CleanText). */
  function Settings(dontClean: bool, nfkd: string -> string, comments: int -> string,
                    fetch: string -> Option<seq<bv8>>): (env: Env)
    ensures forall t :: env.clean(t) == CleanText(t, dontClean, nfkd)
  {
    Env((t: string) => CleanText(t, dontClean, nfkd), comments, fetch)
  }

  const CommunityFile: string := "community.json"
  const CommentsFile: string := "comments.json"

  /** `Path(base_directory, clean_text(community_name))` */
  function CommunityPath(base: Path, c: Community, env: Env): Path {
    Join(base, env.clean(c.name))
  }

  /** `str(id) + "_" + clean_text(name)` */
  function PostDirName(p: Post, env: Env): string {
    Decimal(p.id) + "_" + env.clean(p.name)
  }

  function PostPath(cpath: Path, p: Post, env: Env): Path {
    cpath + [PostDirName(p, env)]
  }

  /** `clean_text(name) + ".json"` */
  function PostJsonName(p: Post, env: Env): string {
    env.clean(p.name) + ".json"
  }

  /** Two posts of one community share a directory only if they share an id: the id and the
      title are separated by the first `_`, which `str(id)` never contains. */
  lemma PostDirNameDeterminesId(p: Post, q: Post, env: Env)
    requires PostDirName(p, env) == PostDirName(q, env)
    ensures p.id == q.id
  {
    var a, b := Decimal(p.id), Decimal(q.id);
    DecimalChars(p.id);
    DecimalChars(q.id);
    var s := PostDirName(p, env);
    assert s[|a|] == '_' && s[|b|] == '_';
    if |a| == |b| {
      assert a == s[..|a|] == b;
      DecimalInjective(p.id, q.id);
    }
  }

  /** With cleaning on, the community directory, the post directory and the post's JSON file
      are each named by one plain entry: the cleaned titles are clean segments, so no name
      holds a `/` or is `.` or `..`, and the post's names are never empty. Treating each name
      as a single path component is faithful exactly in this setting. */
  lemma CleanedNamesArePlain(nfkd: string -> string, comments: int -> string,
                             fetch: string -> Option<seq<bv8>>, c: Community, p: Post)
    ensures var env := Settings(false, nfkd, comments, fetch);
      IsCleanSegment(env.clean(c.name)) && IsCleanSegment(env.clean(p.name)) &&
      IsPlainName(env.clean(c.name)) &&
      IsPlainName(PostDirName(p, env)) && PostDirName(p, env) != [] &&
      IsPlainName(PostJsonName(p, env)) && PostJsonName(p, env) != []
  {
    var env := Settings(false, nfkd, comments, fetch);
    CleanSegmentIsPlain(env.clean(c.name));
    PostNamesArePlain(p, env);
  }

  /** A post whose cleaned title is a clean segment gets a plain, non-empty directory name
      and JSON file name. */
  lemma PostNamesArePlain(p: Post, env: Env)
    requires IsCleanSegment(env.clean(p.name))
    ensures IsPlainName(PostDirName(p, env)) && PostDirName(p, env) != []
    ensures IsPlainName(PostJsonName(p, env)) && PostJsonName(p, env) != []
  {
    var pn := env.clean(p.name);
    CleanSegmentIsPlain(pn);
    DecimalChars(p.id);
    assert '/' !in Decimal(p.id);
    assert PostDirName(p, env) == Decimal(p.id) + "_" + pn;
    assert PostDirName(p, env)[0] == Decimal(p.id)[0] != '.';
    assert PostJsonName(p, env) == pn + ".json";
  }

  /** A clean segment holds only letters, digits, `_` and `-`, so it is a plain name. */
  lemma CleanSegmentIsPlain(s: string)
    requires IsCleanSegment(s)
    ensures IsPlainName(s)
  {
  }

  /** A post directory is never named `community.json`: it starts with a digit or `-`. */
  lemma PostDirNameIsNotCommunityFile(p: Post, env: Env)
    ensures PostDirName(p, env) != CommunityFile
  {
    assert PostDirName(p, env)[0] == Decimal(p.id)[0];
  }

  /** `community_path.mkdir(parents=True)` followed by writing `community.json`. */
  function CreateCommunity(fs: Fs, cpath: Path, c: Community): Run {
    var r := MakeDirs(fs, cpath);
    if !r.ok then r else WriteText(r.fs, cpath + [CommunityFile], CommunityJson(c))
  }

  /** The loop over `post["media"]`: each URL is downloaded into the post directory under
      `url.split("/")[-1]`; a failed download writes nothing and the loop goes on. */
  function DownloadMedia(fs: Fs, ppath: Path, media: seq<string>, env: Env): (r: Fs)
    ensures r.dirs == fs.dirs && fs.files.Keys <= r.files.Keys
  {
    if media == [] then fs
    else
      var url := media[|media| - 1];
      Download(DownloadMedia(fs, ppath, media[..|media| - 1], env), Join(ppath, FileName(url)), env.fetch(url))
  }

  /** Creating the post directory and filling it: media, then `<title>.json`, then
      `comments.json`. */
  function CreatePost(fs: Fs, ppath: Path, rec: PostRecord, env: Env): Run {
    var r := MakeDirs(fs, ppath);
    if !r.ok then r
    else
      var downloaded := DownloadMedia(r.fs, ppath, rec.media, env);
      var w := WriteText(downloaded, ppath + [PostJsonName(rec.post, env)], PostJson(rec));
      if !w.ok then w
      else WriteText(w.fs, ppath + [CommentsFile], CommentsJson(env.comments(rec.post.id)))
  }

  /** The community directory is created, with its `community.json`, only when its path
      does not exist. */
  function CommunityReady(fs: Fs, cpath: Path, c: Community): Run {
    if Exists(fs, cpath) then Run(fs, true) else CreateCommunity(fs, cpath, c)
  }

  /** One iteration of `download_posts` for a post it does not stop at. */
  function PostSaved(fs: Fs, base: Path, rec: PostRecord, env: Env): Run {
    var cpath := CommunityPath(base, rec.community, env);
    var r := CommunityReady(fs, cpath, rec.community);
    if !r.ok then r
    else
      var ppath := PostPath(cpath, rec.post, env);
      if Exists(r.fs, ppath) then r else CreatePost(r.fs, ppath, rec, env)
  }

  /** The posts saved one after the other; the first failure ends the run. */
  function PostsSaved(fs: Fs, base: Path, recs: seq<PostRecord>, env: Env): Run {
    if recs == [] then Run(fs, true)
    else
      var r := PostsSaved(fs, base, recs[..|recs| - 1], env);
      if !r.ok then r else PostSaved(r.fs, base, recs[|recs| - 1], env)
  }

  /** Nothing is ever removed: directories and file names only accumulate. */
  predicate Grows(a: Fs, b: Fs) {
    a.dirs <= b.dirs && a.files.Keys <= b.files.Keys
  }

  /** `b` has every directory of `a` and every file of `a` with the same contents. */
  predicate Extends(a: Fs, b: Fs) {
    a.dirs <= b.dirs && forall q :: q in a.files ==> q in b.files && b.files[q] == a.files[q]
  }

  lemma PostSavedGrows(fs: Fs, base: Path, rec: PostRecord, env: Env)
    ensures Grows(fs, PostSaved(fs, base, rec, env).fs)
  {
  }

  /** A post whose community and post directories both exist is skipped: nothing changes. */
  lemma PostSavedSkipsExisting(fs: Fs, base: Path, rec: PostRecord, env: Env)
    requires Exists(fs, CommunityPath(base, rec.community, env))
    requires Exists(fs, PostPath(CommunityPath(base, rec.community, env), rec.post, env))
    ensures PostSaved(fs, base, rec, env) == Run(fs, true)
  {
  }

  /** After a post is saved its community path and post path exist. */
  lemma PostSavedLeavesPaths(fs: Fs, base: Path, rec: PostRecord, env: Env)
    requires PostSaved(fs, base, rec, env).ok
    ensures var r, cpath := PostSaved(fs, base, rec, env).fs, CommunityPath(base, rec.community, env);
      Exists(r, cpath) && Exists(r, PostPath(cpath, rec.post, env))
  {
  }

  /** `q` names an entry directly inside directory `dir`. */
  predicate ChildOf(q: Path, dir: Path) {
    |q| == |dir| + 1 && q[..|dir|] == dir
  }

  /** Preparing the community leaves a missing post path missing, and keeps the file
      system valid. */
  lemma CommunityReadyKeepsPostMissing(fs: Fs, cpath: Path, c: Community, p: Post, env: Env)
    requires !Exists(fs, PostPath(cpath, p, env))
    ensures !Exists(CommunityReady(fs, cpath, c).fs, PostPath(cpath, p, env))
    ensures Valid(fs) ==> Valid(CommunityReady(fs, cpath, c).fs)
  {
    PostDirNameIsNotCommunityFile(p, env);
    assert PostPath(cpath, p, env)[|cpath|] == PostDirName(p, env);
    if Valid(fs) && !Exists(fs, cpath) {
      MakeDirsKeepsValid(fs, cpath);
      var r := MakeDirs(fs, cpath);
      if r.ok {
        WriteTextKeepsValid(r.fs, cpath + [CommunityFile], CommunityJson(c));
      }
    }
  }

  /** `community.json` is written exactly when the community directory is created: an
      existing community keeps whatever its `community.json` held (or its absence), and a
      created one gets the listing's community. */
  lemma CommunityFileOnlyWhenCreated(fs: Fs, base: Path, rec: PostRecord, env: Env)
    ensures var r, cpath := PostSaved(fs, base, rec, env), CommunityPath(base, rec.community, env);
      var f := cpath + [CommunityFile];
      (Exists(fs, cpath) ==> (f in r.fs.files <==> f in fs.files) && (f in fs.files ==> r.fs.files[f] == fs.files[f])) &&
      (!Exists(fs, cpath) && r.ok ==> f in r.fs.files && r.fs.files[f] == CommunityJson(rec.community))
  {
    var cpath := CommunityPath(base, rec.community, env);
    var f := cpath + [CommunityFile];
    var r1 := CommunityReady(fs, cpath, rec.community);
    var ppath := PostPath(cpath, rec.post, env);
    PostDirNameIsNotCommunityFile(rec.post, env);
    if r1.ok && !Exists(r1.fs, ppath) {
      CreatePostStaysInside(r1.fs, ppath, rec, env);
      assert f[..|cpath|] == cpath && ppath[|cpath|] != f[|cpath|];
      assert !ChildOf(f, ppath);
    }
  }

  /** Creating a post adds or changes files only directly inside its directory. */
  lemma CreatePostStaysInside(fs: Fs, ppath: Path, rec: PostRecord, env: Env)
    ensures var r := CreatePost(fs, ppath, rec, env).fs;
      forall q :: !ChildOf(q, ppath) ==> (q in r.files <==> q in fs.files) && (q in fs.files ==> r.files[q] == fs.files[q])
  {
    var m := MakeDirs(fs, ppath);
    if m.ok {
      DownloadMediaStaysInside(m.fs, ppath, rec.media, env);
    }
  }

  lemma {:induction false} DownloadMediaStaysInside(fs: Fs, ppath: Path, media: seq<string>, env: Env)
    requires IsDir(fs, ppath)
    ensures var r := DownloadMedia(fs, ppath, media, env);
      forall q :: !ChildOf(q, ppath) ==> (q in r.files <==> q in fs.files) && (q in fs.files ==> r.files[q] == fs.files[q])
  {
    if media != [] {
      var url := media[|media| - 1];
      DownloadMediaStaysInside(fs, ppath, media[..|media| - 1], env);
      var name := FileName(url);
      if name != [] {
        assert ChildOf(Join(ppath, name), ppath);
      }
    }
  }

  /** A newly created post directory holds `<title>.json` with the post's record and
      `comments.json` with its comments, unless the title cleans to `comments`, when the
      second overwrites the first. */
  lemma NewPostWritten(fs: Fs, base: Path, rec: PostRecord, env: Env)
    requires !Exists(fs, PostPath(CommunityPath(base, rec.community, env), rec.post, env))
    requires PostSaved(fs, base, rec, env).ok
    ensures var r, ppath := PostSaved(fs, base, rec, env).fs, PostPath(CommunityPath(base, rec.community, env), rec.post, env);
      ppath in r.dirs &&
      ppath + [CommentsFile] in r.files && r.files[ppath + [CommentsFile]] == CommentsJson(env.comments(rec.post.id)) &&
      ppath + [PostJsonName(rec.post, env)] in r.files &&
      (env.clean(rec.post.name) != "comments" ==> r.files[ppath + [PostJsonName(rec.post, env)]] == PostJson(rec)) &&
      (env.clean(rec.post.name) == "comments" ==> r.files[ppath + [PostJsonName(rec.post, env)]] == CommentsJson(env.comments(rec.post.id)))
  {
    var cpath := CommunityPath(base, rec.community, env);
    CommunityReadyKeepsPostMissing(fs, cpath, rec.community, rec.post, env);
    var title := env.clean(rec.post.name);
    JsonNameIsCommentsFile(title);
  }

  /** `<title>.json` is `comments.json` exactly for the title `comments`. */
  lemma JsonNameIsCommentsFile(title: string)
    ensures title + ".json" == CommentsFile <==> title == "comments"
  {
    if title + ".json" == CommentsFile {
      assert title == (title + ".json")[..|title|];
    }
  }

  /** With every entry of `media` saved under a different name, a downloaded entry is in
      the post directory under its file name. */
  lemma {:induction false} DownloadMediaSaves(fs: Fs, ppath: Path, media: seq<string>, env: Env, i: nat)
    requires i < |media| && FileName(media[i]) != [] && env.fetch(media[i]).Some?
    requires IsDir(fs, ppath) && ppath + [FileName(media[i])] !in fs.dirs
    requires forall j :: i < j < |media| ==> FileName(media[j]) != FileName(media[i])
    ensures var r := DownloadMedia(fs, ppath, media, env);
      ppath + [FileName(media[i])] in r.files &&
      r.files[ppath + [FileName(media[i])]] == MediaFile(env.fetch(media[i]).value)
  {
    var init := media[..|media| - 1];
    var name := FileName(media[i]);
    var last := media[|media| - 1];
    var before := DownloadMedia(fs, ppath, init, env);
    var target := Join(ppath, FileName(last));
    assert DownloadMedia(fs, ppath, media, env) == Download(before, target, env.fetch(last));
    if i < |media| - 1 {
      assert init[i] == media[i];
      DownloadMediaSaves(fs, ppath, init, env, i);
      assert target != ppath + [name] by {
        if FileName(last) != [] {
          assert target[|ppath|] == FileName(last) != name;
        }
      }
    } else {
      assert Parent(ppath + [name]) == ppath && target == ppath + [name];
    }
  }

  /** The file name of an image URL is never empty and never one of the JSON files next
      to it. */
  lemma MediaNameIsNotJson(url: string, p: Post, env: Env)
    requires IsImageUrl(url)
    ensures FileName(url) != [] && FileName(url) != PostJsonName(p, env) && FileName(url) != CommentsFile
  {
    FileNameOfImageUrl(url);
    FileNameOfImageUrlIsNotJson(url, env.clean(p.name));
    FileNameOfImageUrlIsNotJson(url, "comments");
  }

  /** Creating a post in a valid file system saves each downloaded media file that no
      later URL of the post overwrites. */
  lemma CreatePostSavesMedia(fs: Fs, ppath: Path, rec: PostRecord, env: Env, i: nat)
    requires Valid(fs) && !Exists(fs, ppath)
    requires CreatePost(fs, ppath, rec, env).ok
    requires i < |rec.media| && IsImageUrl(rec.media[i]) && env.fetch(rec.media[i]).Some?
    requires forall j :: i < j < |rec.media| ==> FileName(rec.media[j]) != FileName(rec.media[i])
    ensures var r, f := CreatePost(fs, ppath, rec, env).fs, ppath + [FileName(rec.media[i])];
      f in r.files && r.files[f] == MediaFile(env.fetch(rec.media[i]).value)
  {
    var name := FileName(rec.media[i]);
    MediaNameIsNotJson(rec.media[i], rec.post, env);
    NothingInsideMissingDir(fs, ppath, name);
    var m := MakeDirs(fs, ppath);
    assert ppath + [name] !in m.fs.dirs;
    DownloadMediaSaves(m.fs, ppath, rec.media, env, i);
    assert ppath + [name] != ppath + [PostJsonName(rec.post, env)];
    assert ppath + [name] != ppath + [CommentsFile];
  }

  /** Every image URL of a post saved into a new directory, downloaded without error and
      not followed by another URL with the same file name, is in the directory. */
  lemma MediaSaved(fs: Fs, base: Path, rec: PostRecord, env: Env, i: nat)
    requires Valid(fs)
    requires !Exists(fs, PostPath(CommunityPath(base, rec.community, env), rec.post, env))
    requires PostSaved(fs, base, rec, env).ok
    requires i < |rec.media| && IsImageUrl(rec.media[i]) && env.fetch(rec.media[i]).Some?
    requires forall j :: i < j < |rec.media| ==> FileName(rec.media[j]) != FileName(rec.media[i])
    ensures var r, ppath := PostSaved(fs, base, rec, env).fs, PostPath(CommunityPath(base, rec.community, env), rec.post, env);
      var f := ppath + [FileName(rec.media[i])];
      f in r.files && r.files[f] == MediaFile(env.fetch(rec.media[i]).value)
  {
    var cpath := CommunityPath(base, rec.community, env);
    CommunityReadyKeepsPostMissing(fs, cpath, rec.community, rec.post, env);
    var r1 := CommunityReady(fs, cpath, rec.community);
    CreatePostSavesMedia(r1.fs, PostPath(cpath, rec.post, env), rec, env, i);
  }

  lemma {:induction false} DownloadMediaKeepsValid(fs: Fs, ppath: Path, media: seq<string>, env: Env)
    requires Valid(fs)
    ensures Valid(DownloadMedia(fs, ppath, media, env))
  {
    if media != [] {
      var url := media[|media| - 1];
      var before := DownloadMedia(fs, ppath, media[..|media| - 1], env);
      DownloadMediaKeepsValid(fs, ppath, media[..|media| - 1], env);
      DownloadKeepsValid(before, Join(ppath, FileName(url)), env.fetch(url));
    }
  }

  /** Creating a post in a valid file system where its directory is missing keeps the file
      system valid and every existing file as it was. */
  lemma CreatePostExtends(fs: Fs, ppath: Path, rec: PostRecord, env: Env)
    requires Valid(fs) && !Exists(fs, ppath)
    ensures var r := CreatePost(fs, ppath, rec, env).fs; Valid(r) && Extends(fs, r)
  {
    var m := MakeDirs(fs, ppath);
    MakeDirsKeepsValid(fs, ppath);
    if m.ok {
      var downloaded := DownloadMedia(m.fs, ppath, rec.media, env);
      DownloadMediaKeepsValid(m.fs, ppath, rec.media, env);
      WriteTextKeepsValid(downloaded, ppath + [PostJsonName(rec.post, env)], PostJson(rec));
      var w := WriteText(downloaded, ppath + [PostJsonName(rec.post, env)], PostJson(rec));
      if w.ok {
        WriteTextKeepsValid(w.fs, ppath + [CommentsFile], CommentsJson(env.comments(rec.post.id)));
      }
      CreatePostStaysInside(fs, ppath, rec, env);
    }
  }

  /** Saving a post never overwrites or removes a file that existed, and keeps the file
      system valid. */
  lemma PostSavedExtends(fs: Fs, base: Path, rec: PostRecord, env: Env)
    requires Valid(fs)
    ensures var r := PostSaved(fs, base, rec, env).fs; Valid(r) && Extends(fs, r)
  {
    var cpath := CommunityPath(base, rec.community, env);
    var r1 := CommunityReady(fs, cpath, rec.community);
    if !Exists(fs, cpath) {
      MakeDirsKeepsValid(fs, cpath);
      NothingInsideMissingDir(fs, cpath, CommunityFile);
      var m := MakeDirs(fs, cpath);
      if m.ok {
        WriteTextKeepsValid(m.fs, cpath + [CommunityFile], CommunityJson(rec.community));
      }
    }
    assert Valid(r1.fs) && Extends(fs, r1.fs);
    var ppath := PostPath(cpath, rec.post, env);
    if r1.ok && !Exists(r1.fs, ppath) {
      CreatePostExtends(r1.fs, ppath, rec, env);
    }
  }

  /** Creating a post whose path has no file on the way in a valid file system succeeds. */
  lemma CreatePostSucceeds(fs: Fs, ppath: Path, rec: PostRecord, env: Env)
    requires Valid(fs) && !Exists(fs, ppath) && !FileOnTheWay(fs, ppath)
    ensures CreatePost(fs, ppath, rec, env).ok
  {
    NothingInsideMissingDir(fs, ppath, PostJsonName(rec.post, env));
    NothingInsideMissingDir(fs, ppath, CommentsFile);
  }

  /** Preparing the community of a post whose path has no file on the way in a valid file
      system succeeds and puts no file on the way. */
  lemma CommunityReadySucceeds(fs: Fs, cpath: Path, c: Community, name: string)
    requires Valid(fs) && !FileOnTheWay(fs, cpath + [name]) && name != CommunityFile
    ensures var r := CommunityReady(fs, cpath, c);
      r.ok && Valid(r.fs) && !FileOnTheWay(r.fs, cpath + [name])
  {
    var ppath := cpath + [name];
    if !Exists(fs, cpath) {
      assert !FileOnTheWay(fs, cpath) by {
        forall k | 0 < k < |cpath|
          ensures cpath[..k] !in fs.files
        {
          assert cpath[..k] == ppath[..k];
        }
      }
      NothingInsideMissingDir(fs, cpath, CommunityFile);
      MakeDirsKeepsValid(fs, cpath);
      var m := MakeDirs(fs, cpath);
      WriteTextKeepsValid(m.fs, cpath + [CommunityFile], CommunityJson(c));
      var r := WriteText(m.fs, cpath + [CommunityFile], CommunityJson(c));
      forall k | 0 < k < |ppath|
        ensures ppath[..k] !in r.fs.files
      {
        assert ppath[..k] != cpath + [CommunityFile] by {
          if k == |ppath| - 1 {
            assert ppath[..k] == cpath;
          }
        }
      }
    }
  }

  /** A run stops at a post only when a file stands where one of the directories on its
      path should be (`mkdir` then raises); in a valid file system nothing else fails. */
  lemma PostSavedFailsOnlyOnFile(fs: Fs, base: Path, rec: PostRecord, env: Env)
    requires Valid(fs) && !PostSaved(fs, base, rec, env).ok
    ensures FileOnTheWay(fs, PostPath(CommunityPath(base, rec.community, env), rec.post, env))
  {
    var cpath := CommunityPath(base, rec.community, env);
    var ppath := PostPath(cpath, rec.post, env);
    if !FileOnTheWay(fs, ppath) {
      var r1 := CommunityReady(fs, cpath, rec.community);
      PostDirNameIsNotCommunityFile(rec.post, env);
      CommunityReadySucceeds(fs, cpath, rec.community, PostDirName(rec.post, env));
      if !Exists(r1.fs, ppath) {
        CreatePostSucceeds(r1.fs, ppath, rec, env);
      }
    }
  }

  /** The post's community path and post path both exist. */
  predicate HasPaths(fs: Fs, base: Path, rec: PostRecord, env: Env) {
    var cpath := CommunityPath(base, rec.community, env);
    Exists(fs, cpath) && Exists(fs, PostPath(cpath, rec.post, env))
  }

  lemma {:induction false} PostsSavedExtends(fs: Fs, base: Path, recs: seq<PostRecord>, env: Env)
    requires Valid(fs)
    ensures var r := PostsSaved(fs, base, recs, env).fs; Valid(r) && Extends(fs, r)
  {
    if recs != [] {
      var r := PostsSaved(fs, base, recs[..|recs| - 1], env);
      PostsSavedExtends(fs, base, recs[..|recs| - 1], env);
      if r.ok {
        PostSavedExtends(r.fs, base, recs[|recs| - 1], env);
      }
    }
  }

  /** A run over several posts removes nothing, whether or not it fails. */
  lemma {:induction false} PostsSavedGrows(fs: Fs, base: Path, recs: seq<PostRecord>, env: Env)
    ensures Grows(fs, PostsSaved(fs, base, recs, env).fs)
  {
    if recs != [] {
      var r := PostsSaved(fs, base, recs[..|recs| - 1], env);
      PostsSavedGrows(fs, base, recs[..|recs| - 1], env);
      PostSavedGrows(r.fs, base, recs[|recs| - 1], env);
    }
  }

  /** Every one of the posts has its community path and post path. */
  predicate AllHavePaths(fs: Fs, base: Path, recs: seq<PostRecord>, env: Env) {
    recs == [] ||
    (AllHavePaths(fs, base, recs[..|recs| - 1], env) && HasPaths(fs, base, recs[|recs| - 1], env))
  }

  lemma {:induction false} AllHavePathsGrows(a: Fs, b: Fs, base: Path, recs: seq<PostRecord>, env: Env)
    requires Grows(a, b) && AllHavePaths(a, base, recs, env)
    ensures AllHavePaths(b, base, recs, env)
  {
    if recs != [] {
      AllHavePathsGrows(a, b, base, recs[..|recs| - 1], env);
    }
  }

  /** After a run that did not fail, every post it saved has its community and post path. */
  lemma {:induction false} PostsSavedLeavesPaths(fs: Fs, base: Path, recs: seq<PostRecord>, env: Env)
    requires PostsSaved(fs, base, recs, env).ok
    ensures AllHavePaths(PostsSaved(fs, base, recs, env).fs, base, recs, env)
  {
    if recs != [] {
      var init := recs[..|recs| - 1];
      var r := PostsSaved(fs, base, init, env);
      PostsSavedLeavesPaths(fs, base, init, env);
      PostSavedGrows(r.fs, base, recs[|recs| - 1], env);
      PostSavedLeavesPaths(r.fs, base, recs[|recs| - 1], env);
      AllHavePathsGrows(r.fs, PostsSaved(fs, base, recs, env).fs, base, init, env);
    }
  }

  /** A run over posts whose paths all exist changes nothing. */
  lemma {:induction false} PostsSavedSkipsSaved(fs: Fs, base: Path, recs: seq<PostRecord>, env: Env)
    requires AllHavePaths(fs, base, recs, env)
    ensures PostsSaved(fs, base, recs, env) == Run(fs, true)
  {
    if recs != [] {
      PostsSavedSkipsSaved(fs, base, recs[..|recs| - 1], env);
      PostSavedSkipsExisting(fs, base, recs[|recs| - 1], env);
    }
  }

  /** Running the archiver again over the same posts after a run that did not fail leaves
      the archive as it is. */
  lemma PostsSavedRerun(fs: Fs, base: Path, recs: seq<PostRecord>, env: Env)
    requires PostsSaved(fs, base, recs, env).ok
    ensures var r := PostsSaved(fs, base, recs, env).fs; PostsSaved(r, base, recs, env) == Run(r, true)
  {
    PostsSavedLeavesPaths(fs, base, recs, env);
    PostsSavedSkipsSaved(PostsSaved(fs, base, recs, env).fs, base, recs, env);
  }

  /** One more post: the run so far, then that post unless the run has failed. */
  lemma PostsSavedStep(fs: Fs, base: Path, recs: seq<PostRecord>, i: nat, env: Env)
    requires i < |recs|
    ensures var r := PostsSaved(fs, base, recs[..i], env);
      PostsSaved(fs, base, recs[..i + 1], env) == if !r.ok then r else PostSaved(r.fs, base, recs[i], env)
  {
    assert recs[..i + 1][..i] == recs[..i];
  }

  /** Once a run has failed, later posts change nothing. */
  lemma {:induction false} PostsSavedStopsAtFailure(fs: Fs, base: Path, recs: seq<PostRecord>, env: Env, j: nat, k: nat)
    requires j <= k <= |recs| && !PostsSaved(fs, base, recs[..j], env).ok
    ensures PostsSaved(fs, base, recs[..k], env) == PostsSaved(fs, base, recs[..j], env)
    decreases k
  {
    if j < k {
      PostsSavedStopsAtFailure(fs, base, recs, env, j, k - 1);
      assert recs[..k][..k - 1] == recs[..k - 1];
    }
  }

  /** `base_directory` with the run's settings and the file system below it, changed in
      place by the writer's steps. */
  class Archiver {
    const base: Path
    const env: Env
    var dirs: set<Path>
    var files: map<Path, Blob>

    function State(): Fs
      reads this
    {
      Fs(dirs, files)
    }

    constructor (base: Path, env: Env, fs: Fs)
      ensures this.base == base && this.env == env && State() == fs
    {
      this.base := base;
      this.env := env;
      dirs := fs.dirs;
      files := fs.files;
    }

    /** `p.mkdir(parents=True)`; `ok == false` is the exception it raises. */
    method Mkdir(p: Path) returns (ok: bool)
      modifies this
      ensures Run(State(), ok) == MakeDirs(old(State()), p)
    {
      if Exists(State(), p) || FileOnTheWay(State(), p) {
        ok := false;
      } else {
        dirs := dirs + Ancestry(p);
        ok := true;
      }
    }

    /** `p.write_text(...)`; `ok == false` is the exception it raises. */
    method Write(p: Path, b: Blob) returns (ok: bool)
      modifies this
      ensures Run(State(), ok) == WriteText(old(State()), p, b)
    {
      ok := Writable(State(), p);
      if ok {
        files := files[p := b];
      }
    }

    /** `download_file(url, p)` */
    method DownloadFile(url: string, p: Path)
      modifies this
      ensures State() == Download(old(State()), p, env.fetch(url))
    {
      var data := env.fetch(url);
      if data.Some? && Writable(State(), p) {
        files := files[p := MediaFile(data.value)];
      }
    }

    /** Creates the community directory and its `community.json` unless the path exists. */
    method PrepareCommunity(cpath: Path, c: Community) returns (ok: bool)
      modifies this
      ensures Run(State(), ok) == CommunityReady(old(State()), cpath, c)
    {
      ok := true;
      if !Exists(State(), cpath) {
        ok := Mkdir(cpath);
        if ok {
          ok := Write(cpath + [CommunityFile], CommunityJson(c));
        }
      }
    }

    /** Creates the post directory, downloads the media into it and writes the post's
        JSON and its comments. */
    method CreatePostDir(ppath: Path, rec: PostRecord) returns (ok: bool)
      modifies this
      ensures Run(State(), ok) == CreatePost(old(State()), ppath, rec, env)
    {
      ok := Mkdir(ppath);
      if !ok {
        return;
      }
      ghost var made := State();
      for i := 0 to |rec.media|
        invariant State() == DownloadMedia(made, ppath, rec.media[..i], env)
      {
        var url := rec.media[i];
        DownloadFile(url, Join(ppath, FileName(url)));
        assert rec.media[..i + 1][..i] == rec.media[..i];
      }
      assert rec.media[..|rec.media|] == rec.media;
      ok := Write(ppath + [PostJsonName(rec.post, env)], PostJson(rec));
      if ok {
        ok := Write(ppath + [CommentsFile], CommentsJson(env.comments(rec.post.id)));
      }
    }

    /** The body of the loop in `download_posts` for a post it does not stop at. */
    method SavePost(view: PostView) returns (ok: bool)
      modifies this
      ensures Run(State(), ok) ==
        PostSaved(old(State()), base, PostRecord(view.post, view.community, view.media), env)
    {
      var rec := PostRecord(view.post, view.community, view.media);
      var cpath := CommunityPath(base, view.community, env);
      ok := PrepareCommunity(cpath, view.community);
      if !ok {
        return;
      }
      var ppath := PostPath(cpath, view.post, env);
      if !Exists(State(), ppath) {
        ok := CreatePostDir(ppath, rec);
      }
    }

    /** `download_posts(page, post_list, count)`: saves the posts in order until the
        cut-off stops the page or a step fails; the counter counts every post it passes,
        saved or skipped. */
    method DownloadPosts(page: int, posts: seq<PostView>, count: int, cutoff: Cutoff) returns (ok: bool)
      modifies this
      ensures Run(State(), ok) ==
        PostsSaved(old(State()), base, old(Records(posts))[..Handled(cutoff, page, |posts|, count)], env)
    {
      ghost var fs0 := State();
      ghost var recs := Records(posts);
      ghost var h := Handled(cutoff, page, |posts|, count);
      var counter := 1;
      ok := true;
      for i := 0 to |posts|
        invariant counter == i + 1 && i <= h
        invariant Run(State(), true) == PostsSaved(fs0, base, recs[..i], env)
      {
        if Stops(cutoff, page, counter, count) {
          assert i == h;
          return;
        }
        ok := SavePost(posts[i]);
        PostsSavedStep(fs0, base, recs, i, env);
        if !ok {
          PostsSavedStopsAtFailure(fs0, base, recs, env, i + 1, h);
          return;
        }
        counter := counter + 1;
      }
    }
  }
}
