/** `is_image_url` (lemmydl.py:60-62), the download file name `url.split("/")[-1]`
    (lemmydl.py:148) and the projection `find_urls` applies to its regex matches
    (lemmydl.py:56-57). */
module Classifier {
  import opened Strings

  /** The 21 extensions `is_image_url` accepts, all lower case. */
  const MediaExtensions: seq<string> :=
    ["png", "webp", "jpg", "jpeg", "gif", "mp4", "mkv", "mp3", "ogg", "flac", "m4a", "mov",
     "opus", "apng", "avif", "jfif", "svg", "bmp", "ico", "tif", "tiff"]

  /** U+212A KELVIN SIGN, the one non-ASCII character that `str.lower` maps to an ASCII
      letter that occurs in an extension ("mkv"). */
  const KelvinSign: char := '\U{212A}'

  /** `str.lower` on one character, as far as the comparison with the extension list can
      observe: every other character either is unchanged or lowers to text with a
      non-ASCII character, which no extension contains. */
  function LowerChar(c: char): char {
    if 'A' <= c <= 'Z' then (c as int + 32) as char
    else if c == KelvinSign then 'k'
    else c
  }

  function Lower(s: string): string {
    seq(|s|, i requires 0 <= i < |s| => LowerChar(s[i]))
  }

  /** `url.split(".")[-1]` */
  function Extension(url: string): string {
    AfterLast(url, '.')
  }

  /** `e in list`, spelled out by recursion so that the verifier unfolds it only on demand
      (membership in the long literal list is otherwise case-split wherever it appears). */
  predicate Listed(e: string, list: seq<string>) {
    list != [] && (list[0] == e || Listed(e, list[1..]))
  }

  lemma {:induction false} ListedIsMembership(e: string, list: seq<string>)
    ensures Listed(e, list) <==> e in list
  {
    if list != [] {
      ListedIsMembership(e, list[1..]);
      assert list == [list[0]] + list[1..];
    }
  }

  /** `is_image_url(url)` is truthy: the last `.`-separated piece, lower-cased, is one of the
      media extensions. */
  predicate IsImageUrl(url: string) {
    Listed(Lower(Extension(url)), MediaExtensions)
  }

  /** `url.split("/")[-1]`, the name a media file is saved under. */
  function FileName(url: string): string {
    AfterLast(url, '/')
  }

  /** Every extension is three or four lower-case letters and digits. */
  lemma MediaExtensionShape(e: string)
    requires Listed(e, MediaExtensions)
    ensures 3 <= |e| <= 4
    ensures forall i :: 0 <= i < |e| ==> 'a' <= e[i] <= 'z' || '0' <= e[i] <= '9'
  {
    ListedIsMembership(e, MediaExtensions);
    InListShape(e);
  }

  lemma InListShape(e: string)
    requires e in MediaExtensions
    ensures 3 <= |e| <= 4
    ensures forall i :: 0 <= i < |e| ==> 'a' <= e[i] <= 'z' || '0' <= e[i] <= '9'
  {
  }

  /** Lower-casing commutes with taking the extension: no character lowers to `.`. */
  lemma LowerExtension(url: string)
    ensures Lower(Extension(url)) == Extension(Lower(url))
  {
    var e, lu := Extension(url), Lower(url);
    var le := Lower(e);
    assert le == lu[|lu| - |le|..];
    if |le| < |lu| {
      assert lu[|lu| - |le| - 1] == LowerChar(url[|url| - |e| - 1]);
    }
    AfterLastUnique(lu, '.', le);
  }

  /** The check ignores case: URLs that lower-case alike are classified alike
      (so `x.PNG` is accepted like `x.png`). */
  lemma IsImageUrlIgnoresCase(u: string, v: string)
    requires Lower(u) == Lower(v)
    ensures IsImageUrl(u) == IsImageUrl(v)
  {
    LowerExtension(u);
    LowerExtension(v);
  }

  /** Upper case is accepted. */
  lemma UpperCaseExtensionAccepted()
    ensures IsImageUrl("x.PNG")
  {
    AfterLastUnique("x.PNG", '.', "PNG");
    assert Lower("PNG") == "png";
    assert MediaExtensions[0] == "png";
    ListedIsMembership("png", MediaExtensions);
  }

  /** A query string after the extension makes the URL rejected. */
  lemma QueryStringRejected()
    ensures !IsImageUrl("a.png?x=1")
  {
    AfterLastUnique("a.png?x=1", '.', "png?x=1");
    if IsImageUrl("a.png?x=1") {
      MediaExtensionShape(Lower("png?x=1"));
    }
  }

  lemma Mp4IsListed()
    ensures Listed("mp4", MediaExtensions)
  {
    assert MediaExtensions[5] == "mp4";
    ListedIsMembership("mp4", MediaExtensions);
  }

  /** A bare extension with no dot at all is accepted: with no `.` the whole text is the
      last piece. */
  lemma BareExtensionAccepted(e: string)
    requires Listed(e, MediaExtensions)
    ensures IsImageUrl(e)
  {
    MediaExtensionShape(e);
    AfterLastUnique(e, '.', e);
    LowerKeepsLowercase(e);
  }

  /** Lower-casing keeps the length and leaves `/` where it is. */
  lemma LowerKeepsSlashes(s: string)
    ensures |Lower(s)| == |s|
    ensures forall i :: 0 <= i < |s| ==> (s[i] == '/' <==> Lower(s)[i] == '/')
  {
  }

  /** A name that ends in a dot and a media extension is accepted. */
  lemma DottedExtensionAccepted(stem: string, e: string)
    requires Listed(e, MediaExtensions)
    ensures IsImageUrl(stem + "." + e)
  {
    MediaExtensionShape(e);
    ExtensionAfterDot(stem, e);
    LowerKeepsLowercase(e);
  }

  /** The extension of `stem.e` is `e` when `e` has no dot. */
  lemma ExtensionAfterDot(stem: string, e: string)
    requires forall i :: 0 <= i < |e| ==> e[i] != '.'
    ensures Extension(stem + "." + e) == e
  {
    var url := stem + "." + e;
    assert forall i :: 0 <= i < |e| ==> e[i] == url[|url| - |e| + i];
    AfterLastUnique(url, '.', e);
  }

  lemma LowerKeepsLowercase(e: string)
    requires forall i :: 0 <= i < |e| ==> 'a' <= e[i] <= 'z' || '0' <= e[i] <= '9'
    ensures Lower(e) == e
  {
  }

  /** Every accepted URL's extension is three or four characters with no `/` in it. */
  lemma AcceptedExtension(url: string)
    requires IsImageUrl(url)
    ensures 3 <= |Extension(url)| <= 4 && '/' !in Extension(url)
  {
    var e := Extension(url);
    MediaExtensionShape(Lower(e));
    LowerKeepsSlashes(e);
  }

  /** The file an accepted URL is saved under is non-empty and ends with the URL's own
      extension, so it ends, ignoring case, with one of the media extensions. */
  lemma FileNameOfImageUrl(url: string)
    requires IsImageUrl(url)
    ensures var name, e := FileName(url), Extension(url);
      |e| <= |name| && name[|name| - |e|..] == e && Listed(Lower(e), MediaExtensions) && name != []
  {
    AcceptedExtension(url);
    var name, e := FileName(url), Extension(url);
    assert forall i :: 0 <= i < |e| ==> e[i] == url[|url| - |e| + i];
    assert forall i :: 0 <= i < |name| ==> name[i] == url[|url| - |name| + i];
    AfterLastWithin(url, '.', '/');
    assert name[|name| - |e|..] == e;
  }

  /** No media extension ends in `n`, so neither `son` nor `json` is one. */
  lemma NoExtensionEndsInN(e: string)
    requires e in MediaExtensions
    ensures e[|e| - 1] != 'n'
  {
  }

  lemma JsonIsNotMediaExtension(e: string)
    requires e == "son" || e == "json"
    ensures !Listed(Lower(e), MediaExtensions)
  {
    assert Lower(e) == e;
    ListedIsMembership(e, MediaExtensions);
    if e in MediaExtensions {
      NoExtensionEndsInN(e);
    }
  }

  /** A media file never takes the name of a JSON file the archive writes next to it: not
      `<title>.json` and not `comments.json`. */
  lemma FileNameOfImageUrlIsNotJson(url: string, stem: string)
    requires IsImageUrl(url)
    ensures FileName(url) != stem + ".json"
  {
    FileNameOfImageUrl(url);
    AcceptedExtension(url);
    var name, e := FileName(url), Extension(url);
    if name == stem + ".json" {
      assert e == name[|name| - |e|..];
      assert e == "son" || e == "json";
      JsonIsNotMediaExtension(e);
    }
  }

  /** `[x[0] for x in re.findall(regex, string)]`: the regex has no capturing group, so each
      match is the whole matched text and `x[0]` is only its first character. (Every match
      of the URL regex starts with `http` or `www.`, so none is empty; an empty one would
      give the empty string here.) */
  function FirstCharacters(matches: seq<string>): (r: seq<string>)
    ensures |r| == |matches|
    ensures forall i :: 0 <= i < |r| ==> |r[i]| <= 1 && (matches[i] != [] ==> r[i] == [matches[i][0]])
  {
    seq(|matches|, i requires 0 <= i < |matches| => if matches[i] == [] then [] else matches[i][..1])
  }

  /** A one-character string is never a media URL: every extension is longer. */
  lemma ShortUrlIsNotImage(url: string)
    requires |url| <= 1
    ensures !IsImageUrl(url)
  {
    if IsImageUrl(url) {
      MediaExtensionShape(Lower(Extension(url)));
    }
  }
}
