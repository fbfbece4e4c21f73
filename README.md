# lemmydl, modelled in Dafny

`lemmydl.py` is a command-line tool. It logs in to a Lemmy instance, pages through a
community or a feed, and archives each post under `<output>/<community>/<id>_<title>/`. Each post
directory holds:

- the post's media files;
- the post's JSON;
- its comments.

This project models the logic at the centre of that script and proves what it does:

- **`clean_text`** (module `Sanitizer`). It turns community names and post titles into path
  segments. Unicode NFKD normalisation is a function parameter. The ASCII folding after it, the
  character removal, the collapsing of separator runs and the stripping of the ends are all
  modelled exactly. `\s` is the set of ASCII characters that Python's `\s` matches.
- **`is_image_url`** and the download file name `url.split("/")[-1]` (module `Classifier`).
  Python's `str.lower` is modelled as far as a comparison with the extension list can observe
  it. That covers ASCII letters and U+212A KELVIN SIGN.
- **`get_media_posts`** (module `MediaFilter`). A method over `PostView` objects writes each
  view's `media` list in place and returns the kept views. It is proved against the functions
  `MediaOf` and `Selected`. `find_urls` is a parameter.
- **Paging and the per-page cut-off** of `get_post_list` and `download_posts` (module
  `Paging`).
- **`download_posts`** (module `Archive`). It works over an abstract file system (module
  `FileSystem`): a set of directories plus a map from paths to written contents.
  - `pathlib`'s `mkdir(parents=True)` and `write_text` are modelled, including the cases where
    they raise.
  - `download_file` is modelled too. It swallows every error.
  - The `Archiver` class performs the steps on its own state. Each of its methods is proved
    equal to a function on `Fs` values, and the lemmas are stated about those functions.
- **`get_post_list`** (module `Fetcher`). It loops over the pages `1..ceil(count/20)`. For each
  page it takes the listing the API returns, filters it and hands it to the archive writer.
  - The listing, the comments and the downloads are parameters.
  - The method records the listing requests it makes, so that the pages asked for can be
    stated.
- **Instance URL normalisation** at lemmydl.py:289-291 (module `Instance`).

Where the code and its documented intent differ, the model follows the code:

- The cut-off in `download_posts` stops one post before the requested count (see Findings).
- `is_image_url` accepts a bare extension such as `mp4`: with no dot, the whole text is the
  last piece.
- `is_image_url` returns `None`, not `False`, for a rejected URL. The model uses `false`, and
  every use in the source is a truth test.
- `clean_text` can return the empty string, for example for a title made only of
  punctuation. The post directory is then `<id>_`, and the post JSON is named `.json`.
- A post whose title cleans to `comments` has its post JSON overwritten by `comments.json`
  (`Archive.NewPostWritten`).
- An instance address made only of slashes becomes `https://`
  (`Instance.OnlySlashesNotIdempotent`).

## Model

| member | source | states |
|---|---|---|
| Strings.Strip | lemmydl.py:78 | the result neither starts nor ends with a stripped character, and is the part of the text between the dropped prefix and suffix |
| Strings.StripDropped | lemmydl.py:78 | every character `strip` removes, at either end, is one of the stripped characters |
| Strings.StripUnchanged | lemmydl.py:289 | text that neither starts nor ends with a stripped character is returned unchanged |
| Strings.AfterLast | lemmydl.py:148 | `split(c)[-1]` is a suffix free of `c`, preceded by `c` whenever it is not the whole text |
| Strings.AfterLastUnique | lemmydl.py:148 | those three facts determine the last piece uniquely |
| Strings.Decimal | lemmydl.py:139 | `str(id)` is non-empty and starts with a digit or `-` |
| Strings.DecimalChars | lemmydl.py:139 | `str(id)` consists only of digits and `-` |
| Strings.DecimalInjective | lemmydl.py:139 | distinct ids have distinct decimal strings |
| Strings.FilterIsSubsequence | lemmydl.py:107-114 | a filtered list keeps the order of the elements it keeps |
| Strings.FilterMembers | lemmydl.py:107-114 | an element is in the filtered list exactly when it is in the input and passes the test |
| Strings.FilterMultiset | lemmydl.py:73 | dropping characters by a test keeps every kept character exactly as often as it occurs, and no other |
| Strings.FilterStep | lemmydl.py:107-110 | filtering one more element appends it exactly when it passes the test |
| Strings.SubsequencePrefix | lemmydl.py:117-122 | a prefix of an order-preserving subsequence is one too |
| Strings.SubsequenceMap | lemmydl.py:111-115 | mapping each element keeps an order-preserving subsequence one |
| Strings.TrimLeftFilter | lemmydl.py:78 | stripping characters on the left that a test rejects leaves the characters it keeps unchanged, in order |
| Strings.TrimRightFilter | lemmydl.py:78 | the same for stripping on the right |
| Strings.TrimLeftRun | lemmydl.py:78 | stripping on the left removes a whole leading run of stripped characters and stops at the first other one |
| Sanitizer.CleanText | lemmydl.py:64-78 | the result is all ASCII; with cleaning on, it holds only letters, digits, `_` and `-`, never two `-` in a row, and no `-` or `_` at either end |
| Sanitizer.AsciiOnly | lemmydl.py:73 | defines `encode('ascii', 'ignore').decode('ascii')`: the characters below 128, in order |
| Sanitizer.RemoveDisallowed | lemmydl.py:77 | defines `re.sub(r'[^\w\s-]', '', text)`: the ASCII letters, digits, `_`, whitespace and `-`, in order |
| Sanitizer.Slugify | lemmydl.py:77-78 | defines the cleaning steps after the folding: removal, then collapsing, then `strip('-_')` |
| Sanitizer.CollapseSeparators | lemmydl.py:78 | after `re.sub(r'[-\s]+', '-')` no whitespace is left and no two `-` are adjacent; the result is empty only for empty input, and starts with `-` exactly when the input starts with a separator |
| Sanitizer.CollapseKeepsNonSeparators | lemmydl.py:78 | collapsing changes only separators: every other character, `_` included, survives in order, and none is added |
| Sanitizer.CollapseRun | lemmydl.py:78 | a maximal run of whitespace and `-`, however long, becomes exactly one `-`, and the text on each side collapses on its own |
| Sanitizer.CollapseSeparatorFirst | lemmydl.py:78 | text that starts with a separator run collapses to `-` followed by the rest collapsed; a later run is collapsed behind it the same way |
| Sanitizer.CollapseOtherFirst | lemmydl.py:78 | text that starts with any other character keeps it in front of the collapsed rest |
| Sanitizer.SlugifyIsClean | lemmydl.py:77-78 | removing, collapsing and stripping yields a clean segment for every input |
| Sanitizer.CollapsedAreSegmentChars | lemmydl.py:77-78 | collapsing text that survived the removal leaves only letters, digits, `_` and `-` |
| Sanitizer.StripKeepsCleanness | lemmydl.py:78 | `strip('-_')` of such text without double hyphens is a clean segment |
| Sanitizer.NoDoubleHyphenAt | lemmydl.py:78 | no position of a collapsed text holds two `-` in a row |
| Sanitizer.TrimLeftKeepsNoDoubleHyphen | lemmydl.py:78 | stripping the left end keeps the absence of `--` |
| Sanitizer.TrimRightKeepsNoDoubleHyphen | lemmydl.py:78 | stripping the right end keeps the absence of `--` |
| Sanitizer.AsciiOnlyIsAscii | lemmydl.py:73 | `encode('ascii', 'ignore')` leaves only ASCII characters |
| Sanitizer.CollapseFixesCleanText | lemmydl.py:78 | collapsing leaves text without whitespace or `--` unchanged |
| Sanitizer.SlugifyFixesCleanSegment | lemmydl.py:77-78 | cleaning a clean segment again changes nothing |
| Sanitizer.CleanTextIdempotent | lemmydl.py:64-78 | `clean_text(clean_text(t)) == clean_text(t)`, with cleaning on or off, given that NFKD leaves ASCII text alone |
| Sanitizer.CollapseKeepsAlphanumerics | lemmydl.py:78 | collapsing keeps the letters and digits in order |
| Sanitizer.CleanTextKeepsAlphanumerics | lemmydl.py:69-78 | cleaning keeps exactly the letters and digits of the ASCII-folded text, in order and case: nothing is lower-cased, dropped or added |
| Sanitizer.DontCleanOnlyFolds | lemmydl.py:73-75 | with `dont_clean_text` set, the result is ASCII, is a subsequence of the normalised text, and holds each ASCII character exactly as often as the normalised text does and no other character; these facts determine the result |
| Classifier.ListedIsMembership | lemmydl.py:61 | the recursive list test is exactly `in` on the extension list |
| Classifier.Lower | lemmydl.py:61 | defines `str.lower` as far as a comparison with the extension list can observe it: `A`-`Z` become `a`-`z`, the Kelvin sign becomes `k`, every other character is kept |
| Classifier.Extension | lemmydl.py:61 | defines `url.split(".")[-1]`: the text after the last `.`, or the whole text |
| Classifier.IsImageUrl | lemmydl.py:60-62 | defines `is_image_url`: the lower-cased last `.` piece is one of the 21 listed extensions |
| Classifier.FileName | lemmydl.py:148 | defines the download file name `url.split("/")[-1]` |
| Classifier.MediaExtensionShape | lemmydl.py:61 | every accepted extension has 3 or 4 characters, all lower-case letters or digits |
| Classifier.LowerExtension | lemmydl.py:61 | lower-casing and taking the last `.` piece commute |
| Classifier.IsImageUrlIgnoresCase | lemmydl.py:60-62 | URLs that lower-case alike are classified alike |
| Classifier.UpperCaseExtensionAccepted | lemmydl.py:60-62 | `x.PNG` is accepted |
| Classifier.QueryStringRejected | lemmydl.py:60-62 | `a.png?x=1` is rejected |
| Classifier.Mp4IsListed | lemmydl.py:61 | `mp4` is one of the extensions |
| Classifier.BareExtensionAccepted | lemmydl.py:60-62 | a bare extension without a dot is accepted |
| Classifier.ExtensionAfterDot | lemmydl.py:61 | the last `.` piece of `stem.e` is `e` when `e` has no dot |
| Classifier.DottedExtensionAccepted | lemmydl.py:60-62 | every name ending in `.` and a listed extension is accepted |
| Classifier.AcceptedExtension | lemmydl.py:60-62 | an accepted URL's extension has 3 or 4 characters and no `/` |
| Classifier.FileNameOfImageUrl | lemmydl.py:148 | the file name of an accepted URL is non-empty and ends with the URL's extension, which lower-cases to a listed one |
| Classifier.NoExtensionEndsInN | lemmydl.py:61 | no listed extension ends in `n` |
| Classifier.JsonIsNotMediaExtension | lemmydl.py:61 | neither `son` nor `json` in any case is accepted |
| Classifier.FileNameOfImageUrlIsNotJson | lemmydl.py:148-155 | a media file name never has the form `<stem>.json` |
| Classifier.FirstCharacters | lemmydl.py:57 | `[x[0] for x in matches]` yields one string per match, each at most one character, the match's first |
| Classifier.ShortUrlIsNotImage | lemmydl.py:60-62 | a text of at most one character is never accepted |
| MediaFilter.MediaOfSplit | lemmydl.py:100-111 | `post["media"]` is the primary URL when it is media, followed by the body's media URLs |
| MediaFilter.MediaOf | lemmydl.py:96-111 | defines `post["media"]`: the candidates (primary URL, then body URLs) that `is_image_url` accepts, in order |
| MediaFilter.IsSelected | lemmydl.py:97-110 | defines the `use_post` flag: all posts are wanted or the media list is non-empty |
| MediaFilter.Selected | lemmydl.py:93-115 | defines the list `get_media_posts` returns: the views whose flag is set, in order |
| MediaFilter.MediaOfSpec | lemmydl.py:100-111 | every media entry is accepted by `is_image_url`; an accepted primary URL comes first; the rest is the body's media URLs, in `find_urls` order, all of them |
| MediaFilter.HasImageUrlIffFound | lemmydl.py:107-110 | some URL is media exactly when filtering the URLs by `is_image_url` leaves a non-empty list |
| MediaFilter.SelectedIffHasMedia | lemmydl.py:97-110 | `use_post` is set exactly when all posts are wanted, the primary URL is media, or some body URL is |
| MediaFilter.SelectedIsSubsequence | lemmydl.py:112-115 | the returned list is an order-preserving subsequence of the input |
| MediaFilter.SelectedMembers | lemmydl.py:112-115 | a post is returned exactly when `use_post` is set for it |
| MediaFilter.SelectedStep | lemmydl.py:112-114 | one more post extends the result by that post exactly when it is kept |
| MediaFilter.CollectMedia | lemmydl.py:96-110 | the loop for one post computes its media list and its `use_post` flag |
| MediaFilter.GetMediaPosts | lemmydl.py:93-115 | every view, kept or not, gets its media list; the result is the kept views in order |
| MediaFilter.Annotate | lemmydl.py:96-111 | one view gets its media list written, and its `use_post` flag is returned |
| MediaFilter.Mp4PostKeptWithOneReference | lemmydl.py:100-103 | a post with an `.mp4` URL and no body URLs is kept with exactly that media entry |
| MediaFilter.Mp4IsImageUrl | lemmydl.py:60-62 | every `<stem>.mp4` is accepted |
| MediaFilter.BodyNeverContributesAsWritten | lemmydl.py:53-57 | with `find_urls` as written, a post's media list is only its primary media URL |
| MediaFilter.BodyMediaKeptWhenWholeMatches | lemmydl.py:104-112 | when `find_urls` returns whole matches, a post whose only media URL is in its body is kept with that URL |
| MediaFilter.BodyMediaDroppedAsWritten | lemmydl.py:53-57 | the same post is dropped under `find_urls` as written |
| Paging.PageCountBounds | lemmydl.py:168 | the page count is the ceiling of count/20: the count fits in that many pages and not in one fewer |
| Paging.PageCount | lemmydl.py:168 | defines `int(math.ceil(count/20))` on exact integers |
| Paging.Stops | lemmydl.py:121 | defines the test that ends a page, as written (`>= 0`) or corrected (`> 0`) |
| Paging.PagesRequested | lemmydl.py:168-170 | the pages are 1, 2, ..., ceil(count/20), and there are none when count <= 0 |
| Paging.Handled | lemmydl.py:118-122 | the number of posts handled on a page: none of them stops the page, and the next one does |
| Paging.AsWrittenIsOneLess | lemmydl.py:121 | the `>= 0` test stops where the `> 0` test stops for a count one lower |
| Paging.LastWantedPost | lemmydl.py:118-122 | on the page holding the count-th post, the corrected cut-off handles up to and including it, and the code as written stops one before |
| Paging.TotalHandledCorrected | lemmydl.py:117-122 | over full pages, the corrected cut-off handles min(count, 20 * pages) posts |
| Paging.CorrectedHandlesCount | lemmydl.py:166-181 | over the pages requested, the corrected cut-off handles exactly `count` posts |
| Paging.TotalHandledAsWritten | lemmydl.py:121 | over full pages, the code as written handles what the corrected code handles for a count one lower |
| Paging.AsWrittenHandlesOneLess | lemmydl.py:166-181 | as written, the pages requested handle only `count - 1` posts |
| FileSystem.Join | lemmydl.py:126 | `Path(base, "")` is `base`; otherwise the name is appended as one component |
| FileSystem.IsPlainName | lemmydl.py:126-155 | defines a name the operating system resolves as one entry: no `/`, and neither `.` nor `..` |
| FileSystem.MakeDirs | lemmydl.py:129 | `mkdir(parents=True)` succeeds exactly when the path does not exist and no ancestor is a file; it then creates only the path and its ancestors and writes no file; on failure it changes nothing |
| FileSystem.WriteText | lemmydl.py:134 | `write_text` succeeds exactly when the parent is a directory and the path is not one; it replaces exactly that file; on failure it changes nothing |
| FileSystem.Download | lemmydl.py:80-91 | `download_file` never fails; it writes the data only when the request succeeded and the file can be opened, and otherwise changes nothing |
| FileSystem.MakeDirsKeepsValid | lemmydl.py:129 | mkdir keeps every directory's ancestors present |
| FileSystem.WriteTextKeepsValid | lemmydl.py:134 | writing keeps every file inside an existing directory |
| FileSystem.DownloadKeepsValid | lemmydl.py:85-87 | downloading keeps the file system consistent |
| FileSystem.NothingInsideMissingDir | lemmydl.py:128-134 | nothing exists directly inside a missing directory |
| Api.PostView.constructor | lemmydl.py:124-137 | a listing entry starts with its post and community and no media |
| Api.Records | lemmydl.py:156 | the value of each view that `json.dumps(post)` serialises: post, community and current media |
| Archive.CleanedNamesArePlain | lemmydl.py:126-155 | with cleaning on, the community name, the post directory `<id>_<title>` and the file `<title>.json` are each one plain entry (no `/`, not `.` or `..`), the cleaned titles are clean segments, and the post's names are non-empty; treating each name as one path component is faithful in this setting |
| Archive.PostNamesArePlain | lemmydl.py:139-155 | a post whose cleaned title is a clean segment gets a plain, non-empty directory name and JSON file name |
| Archive.PostDirName | lemmydl.py:139 | defines the post directory name `str(id) + "_" + clean_text(name)` |
| Archive.CreatePost | lemmydl.py:143-161 | defines the new post directory: mkdir, then the media downloads, `<title>.json` and `comments.json`, stopping at the first write that raises |
| Archive.CommunityReady | lemmydl.py:128-134 | defines the community step: mkdir and `community.json` only when the path is missing |
| Archive.PostSaved | lemmydl.py:124-161 | defines one iteration of `download_posts` for a post before the cut-off |
| Archive.PostsSaved | lemmydl.py:119-163 | defines the iterations over several posts, ending at the first that raises |
| Archive.DownloadMedia | lemmydl.py:147-152 | downloading the media creates no directory and removes no file |
| Archive.PostDirNameDeterminesId | lemmydl.py:139 | two posts get the same directory name only when they have the same id |
| Archive.PostDirNameIsNotCommunityFile | lemmydl.py:131-139 | a post directory is never named `community.json` |
| Archive.PostSavedGrows | lemmydl.py:124-161 | handling a post removes no directory and no file |
| Archive.PostSavedSkipsExisting | lemmydl.py:143 | a post whose directory exists is skipped: nothing changes |
| Archive.PostSavedLeavesPaths | lemmydl.py:126-144 | after a post is handled, its community path and post path exist |
| Archive.CommunityReadyKeepsPostMissing | lemmydl.py:128-134 | creating the community does not create the post's directory, and keeps the file system consistent |
| Archive.CommunityFileOnlyWhenCreated | lemmydl.py:128-134 | `community.json` is written exactly when the community directory is created; otherwise it is left as it was |
| Archive.CreatePostStaysInside | lemmydl.py:143-161 | creating a post writes only directly inside its own directory |
| Archive.DownloadMediaStaysInside | lemmydl.py:147-152 | downloading media writes only directly inside the post directory |
| Archive.NewPostWritten | lemmydl.py:155-161 | a new post directory holds `comments.json` with the comments and `<title>.json` with the post, unless the title cleans to `comments` |
| Archive.JsonNameIsCommentsFile | lemmydl.py:155-160 | `<title>.json` is `comments.json` exactly for the title `comments` |
| Archive.DownloadMediaSaves | lemmydl.py:147-152 | a successful download that no later URL of the post overwrites is in the directory under its file name |
| Archive.MediaNameIsNotJson | lemmydl.py:148-160 | a media file name is non-empty and is neither `<title>.json` nor `comments.json` |
| Archive.CreatePostSavesMedia | lemmydl.py:143-156 | after the JSON files are written, such a downloaded media file is still in the new directory |
| Archive.MediaSaved | lemmydl.py:137-161 | every downloaded media URL of a newly saved post that is not overwritten ends up in its directory |
| Archive.DownloadMediaKeepsValid | lemmydl.py:147-152 | downloading keeps the file system consistent |
| Archive.CreatePostExtends | lemmydl.py:143-161 | creating a post keeps the file system consistent and every existing file unchanged |
| Archive.PostSavedExtends | lemmydl.py:124-161 | handling a post never overwrites or removes an existing file |
| Archive.CreatePostSucceeds | lemmydl.py:143-161 | creating a post fails only when a file stands on its path |
| Archive.CommunityReadySucceeds | lemmydl.py:128-134 | preparing the community succeeds and puts no file on the post's path |
| Archive.PostSavedFailsOnlyOnFile | lemmydl.py:124-161 | a post stops the run only when a file stands where one of its directories belongs |
| Archive.PostsSavedExtends | lemmydl.py:119-163 | a run over several posts never changes an existing file |
| Archive.PostsSavedGrows | lemmydl.py:119-163 | a run over several posts removes nothing, whether or not it fails |
| Archive.AllHavePathsGrows | lemmydl.py:119-163 | posts whose paths exist keep them as the file system grows |
| Archive.PostsSavedLeavesPaths | lemmydl.py:119-163 | after a run that does not fail, every handled post has its community path and post path |
| Archive.PostsSavedSkipsSaved | lemmydl.py:119-163 | a run over posts whose paths all exist changes nothing |
| Archive.PostsSavedRerun | lemmydl.py:119-163 | rerunning over the same posts after a run that does not fail changes nothing |
| Archive.PostsSavedStep | lemmydl.py:119-163 | one more post is that post's step after the earlier ones, unless the run has failed |
| Archive.PostsSavedStopsAtFailure | lemmydl.py:119-163 | once a post fails, later posts change nothing |
| Archive.Archiver.constructor | lemmydl.py:274-277 | the archiver starts at the base directory with the given file system |
| Archive.Archiver.Mkdir | lemmydl.py:129 | its new state and result are those of `mkdir(parents=True)` |
| Archive.Archiver.Write | lemmydl.py:134 | its new state and result are those of `write_text` |
| Archive.Archiver.DownloadFile | lemmydl.py:152 | its new state is that of `download_file` with the fetched data |
| Archive.Archiver.PrepareCommunity | lemmydl.py:128-134 | the community directory and `community.json` are created only when the path is missing |
| Archive.Archiver.CreatePostDir | lemmydl.py:143-162 | the loop over the media and the two JSON writes produce the state of `CreatePost` |
| Archive.Archiver.SavePost | lemmydl.py:124-161 | one loop iteration produces the state of `PostSaved` |
| Archive.Archiver.DownloadPosts | lemmydl.py:117-163 | the new state is the archive of the posts before the cut-off, or up to the first failure, with the counter advancing for skipped posts as well |
| Fetcher.PageTotal | lemmydl.py:168-170 | the number of iterations is the number of pages requested |
| Fetcher.RequestsUpToPages | lemmydl.py:170-177 | the first `k` calls ask for pages 1 to `k`, each with limit 20 |
| Fetcher.RequestsArePagesRequested | lemmydl.py:166-177 | the calls made are one per requested page, in order, each with limit 20 |
| Fetcher.PageRecordsInOrder | lemmydl.py:112-122 | the records a page hands to `download_posts` are an order-preserving subsequence of the page's annotated views, and there are exactly as many as the cut-off lets through of the selected posts |
| Fetcher.PageRecords | lemmydl.py:178-181 | defines the records of one page that get through: the selected views with their media, up to the cut-off |
| Fetcher.PagesArchived | lemmydl.py:170-181 | defines the archive after pages 1 to `n`: a page with nothing is passed over, and a failure ends the run |
| Fetcher.PageRecordsSelected | lemmydl.py:179-181 | every archived record is a kept post, carrying its computed media list |
| Fetcher.AnnotatedRecords | lemmydl.py:111 | once filtered, a view's value carries the media that `get_media_posts` computed |
| Fetcher.PagesArchivedStopsAtFailure | lemmydl.py:170-181 | once a page fails, later pages change nothing |
| Fetcher.PagesArchivedExtends | lemmydl.py:170-181 | archiving pages keeps the file system consistent and never changes an existing file |
| Fetcher.PagesHavePathsGrows | lemmydl.py:170-181 | archived pages keep their paths as the file system grows |
| Fetcher.PagesArchivedGrows | lemmydl.py:170-181 | archiving pages removes nothing |
| Fetcher.PageArchivedLeavesPaths | lemmydl.py:178-181 | a page that does not fail leaves each of its records with its paths |
| Fetcher.PagesArchivedLeavesPaths | lemmydl.py:170-181 | a run that does not fail leaves every record of every page with its paths |
| Fetcher.PagesArchivedSkipsSaved | lemmydl.py:170-181 | pages whose records all have their paths change nothing |
| Fetcher.PagesArchivedRerun | lemmydl.py:170-181 | a second run over the same listing after a run that does not fail changes nothing |
| Fetcher.ArchivePage | lemmydl.py:179-181 | filtering and writing one page archives that page's records and sets every view's media |
| Fetcher.FetchPage | lemmydl.py:172-181 | one iteration of the page loop is one `PageArchived` step |
| Fetcher.GetPostList | lemmydl.py:165-181 | requests pages 1 to ceil(count/20) with limit 20, in order, stopping only at a failing page; the new archive is the result of archiving those pages |
| Instance.NormalizeInstance | lemmydl.py:289-291 | defines the instance address normalisation: `strip("/")`, then `https://` in front when `http` does not occur |
| Instance.SchemeContainsHttp | lemmydl.py:291 | `https://` + anything contains `http` |
| Instance.NormalizedContainsHttp | lemmydl.py:289-291 | the normalised address always contains `http` |
| Instance.SchemeAddedIffNoHttp | lemmydl.py:289-291 | the stripped address is kept exactly when it contains `http`, and gets the `https://` prefix exactly when it does not |
| Instance.NormalizedHasNoOuterSlash | lemmydl.py:289-291 | unless only slashes were given, the result neither starts nor ends with `/` |
| Instance.NormalizeIdempotent | lemmydl.py:289-291 | unless only slashes were given, normalising twice is normalising once |
| Instance.OnlySlashesNotIdempotent | lemmydl.py:289-291 | `/` becomes `https://`, which normalises again to `https:` |

## Left out

- The `find_urls` regular expression is not modelled. URL finding is a function parameter, and
  only the `x[0]` projection applied to its matches is modelled (see Findings). The pattern has
  no IGNORECASE flag, so its `[A-Z...]` classes do not match lower-case hosts or paths. That
  effect is not captured.
- Unicode NFKD normalisation is a function parameter. Idempotence of `clean_text` is proved
  only under the assumption that NFKD leaves ASCII text unchanged.
- All network I/O is left out: login, `lemmy.post.list`, `lemmy.comment.list`,
  `lemmy.community.get`, `discover_community` and the HTTP requests of `download_file`. Listing
  pages, comment lists and download results are function parameters. A timeout or other error
  in `download_file` is a `None` download.
- `download_file` writing part of a file before an error in mid-stream is not modelled. A
  download either writes the whole data or nothing.
- An exception from an API call is not modelled: the program stops there. Only the exceptions
  that `mkdir` and `write_text` raise in the archive writer are modelled, as a run that stops.
- `time.sleep` rate limiting is left out, as is all terminal output (`pprint`, `pprint_sl`,
  `pstr`, verbose logging).
- JSON serialisation is left out. A written file holds the value that was serialised
  (`FileSystem.Blob`), not its text.
- Paths are sequences of components, and each name is one component. With cleaning on, this is
  faithful (`Archive.CleanedNamesArePlain`). With `dont_clean_text` set, a name can contain `/`
  or be `..`; the operating system would then resolve it to a different place, which is not
  modelled.
- Paging.PageCount: computes the exact ceiling of count/20. It does not model the float
  rounding of `math.ceil(count/20)` for counts beyond 2^53.
- The `media_posts is not None` test in `get_post_list` is always true, so the model drops it.
- Fetcher.GetPostList: states the archive and the requests. It does not restate which views got
  their `media` written; `Fetcher.ArchivePage` states that page by page.
- The rest of `__main__` is not modelled. That covers argument parsing, the TOML
  configuration, output directory resolution, `password_command`, the sort and feed enums, and
  the parsing of the community id.

## Findings

| source | as written | input that shows it | evidently intended | confidence | as-written member | corrected member |
|---|---|---|---|---|---|---|
| lemmydl.py:121 | the page stops when `(counter + page*20 - 20) - count >= 0`, which is before the count-th post | `count = 20` with 20 media posts on page 1: posts 1 to 19 are archived, and post 20 never is | stop only after the count-th post (`> 0`), so that exactly `count` posts are archived | not executed | Paging.AsWrittenHandlesOneLess | Paging.CorrectedHandlesCount |
| lemmydl.py:57 | `[x[0] for x in url]` keeps only the first character of each match, because the pattern has no group | a post without a `url` whose body is `see https://EXAMPLE.COM/CAT.PNG`: the regex matches the whole address, but only `h` is returned, so the post is dropped | keep the whole match, so that media linked in the body is archived | not executed | MediaFilter.BodyMediaDroppedAsWritten | MediaFilter.BodyMediaKeptWhenWholeMatches |

The archive writer and the fetcher take the cut-off (`Paging.Cutoff`) and the URL finder as
parameters. The same methods therefore model both the code as written and the corrected
behaviour, and the corrected properties are proved about them.
