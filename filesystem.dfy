/** The part of the file system the archiver touches, as a value: the set of existing
    directories and the map from file paths to what was written into them. `pathlib`'s
    `exists`, `mkdir(parents=True)`, `write_text` and `download_file`'s `open(mode="wb")`
    (lemmydl.py:80-91, 126-161) are functions from one state to the next. */
module FileSystem {
  import opened Api

  /** A path, as its components below the file system root (the empty path). */
  type Path = seq<string>

  /** What a file holds: the JSON text `json.dumps` makes of a value, or downloaded bytes. */
  datatype Blob =
    | CommunityJson(community: Community)
    | PostJson(record: PostRecord)
    | CommentsJson(comments: string)
    | MediaFile(data: seq<bv8>)

  datatype Fs = Fs(dirs: set<Path>, files: map<Path, Blob>)

  /** The state after an operation, and whether it completed; `ok == false` means an
      exception escaped and the program stopped in that state. */
  datatype Run = Run(fs: Fs, ok: bool)

  /** `Path(p, name)`: joining the empty name leaves the path as it is. */
  function Join(p: Path, name: string): (r: Path)
    ensures name == [] ==> r == p
    ensures name != [] ==> |r| == |p| + 1 && r[..|p|] == p && r[|p|] == name
  {
    if name == [] then p else p + [name]
  }

  /** A name the operating system resolves as one entry below its parent directory: it
      holds no `/` and is neither `.` nor `..`. */
  predicate IsPlainName(name: string) {
    '/' !in name && name != "." && name != ".."
  }

  function Parent(p: Path): Path
    requires p != []
  {
    p[..|p| - 1]
  }

  predicate IsDir(fs: Fs, p: Path) {
    p == [] || p in fs.dirs
  }

  /** `p.exists()`; the root always exists. */
  predicate Exists(fs: Fs, p: Path) {
    IsDir(fs, p) || p in fs.files
  }

  /** Some proper ancestor of `p` is a file. */
  predicate FileOnTheWay(fs: Fs, p: Path) {
    exists k :: 0 < k < |p| && p[..k] in fs.files
  }

  /** Every ancestor of `p` other than the root, and `p` itself. */
  function Ancestry(p: Path): set<Path> {
    set k | 0 < k <= |p| :: p[..k]
  }

  /** `p.mkdir(parents=True)`: fails, changing nothing, when `p` exists or a file stands
      where an ancestor directory should be; otherwise creates `p` and its missing
      ancestors. */
  function MakeDirs(fs: Fs, p: Path): (r: Run)
    ensures r.ok <==> !Exists(fs, p) && !FileOnTheWay(fs, p)
    ensures !r.ok ==> r.fs == fs
    ensures r.ok ==> IsDir(r.fs, p) && r.fs.files == fs.files && fs.dirs <= r.fs.dirs
    ensures forall d :: d in r.fs.dirs && d !in fs.dirs ==> d <= p
  {
    if Exists(fs, p) || FileOnTheWay(fs, p) then Run(fs, false)
    else
      assert p[..|p|] == p;
      Run(Fs(fs.dirs + Ancestry(p), fs.files), true)
  }

  /** A file can be opened for writing at `p`: its parent directory exists and `p` is not
      itself a directory. */
  predicate Writable(fs: Fs, p: Path) {
    p != [] && IsDir(fs, Parent(p)) && p !in fs.dirs
  }

  /** `p.write_text(...)`: creates or replaces the file, or fails (`FileNotFoundError`,
      `IsADirectoryError`) changing nothing. */
  function WriteText(fs: Fs, p: Path, b: Blob): (r: Run)
    ensures r.ok <==> Writable(fs, p)
    ensures r.ok ==> r.fs.dirs == fs.dirs && p in r.fs.files && r.fs.files[p] == b
    ensures r.ok ==> forall q :: q != p ==> (q in r.fs.files <==> q in fs.files)
    ensures r.ok ==> forall q :: q in fs.files && q != p ==> r.fs.files[q] == fs.files[q]
    ensures !r.ok ==> r.fs == fs
  {
    if Writable(fs, p) then Run(Fs(fs.dirs, fs.files[p := b]), true) else Run(fs, false)
  }

  /** `download_file(url, p)` given what the request returned (`None` when it failed):
      every exception is caught, so it never stops the program; the file is written only
      when the download succeeded and the file could be opened. */
  function Download(fs: Fs, p: Path, data: Option<seq<bv8>>): (r: Fs)
    ensures r.dirs == fs.dirs
    ensures data.Some? && Writable(fs, p) ==> r.files == fs.files[p := MediaFile(data.value)]
    ensures !(data.Some? && Writable(fs, p)) ==> r == fs
  {
    if data.Some? && Writable(fs, p) then Fs(fs.dirs, fs.files[p := MediaFile(data.value)]) else fs
  }

  /** As on a real file system, every file lies in an existing directory and every
      directory's ancestors are directories. */
  predicate Valid(fs: Fs) {
    (forall f :: f in fs.files ==> f != [] && IsDir(fs, Parent(f))) &&
    (forall d, k {:trigger d[..k]} :: d in fs.dirs && 0 < k < |d| ==> d[..k] in fs.dirs)
  }

  lemma MakeDirsKeepsValid(fs: Fs, p: Path)
    requires Valid(fs)
    ensures Valid(MakeDirs(fs, p).fs)
  {
    var r := MakeDirs(fs, p).fs;
    forall d, k | d in r.dirs && 0 < k < |d|
      ensures d[..k] in r.dirs
    {
      if d !in fs.dirs {
        assert d[..k] == p[..k];
      }
    }
  }

  lemma WriteTextKeepsValid(fs: Fs, p: Path, b: Blob)
    requires Valid(fs)
    ensures Valid(WriteText(fs, p, b).fs)
  {
  }

  lemma DownloadKeepsValid(fs: Fs, p: Path, data: Option<seq<bv8>>)
    requires Valid(fs)
    ensures Valid(Download(fs, p, data))
  {
  }

  /** In a valid state nothing lies inside a directory that does not exist. */
  lemma NothingInsideMissingDir(fs: Fs, dir: Path, name: string)
    requires Valid(fs) && !IsDir(fs, dir)
    ensures dir + [name] !in fs.files && dir + [name] !in fs.dirs
  {
    assert (dir + [name])[..|dir|] == dir;
  }
}
