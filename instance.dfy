/** The instance address as the program normalises it before logging in (lemmydl.py:289-291):
    slashes are stripped from both ends, and `https://` is put in front unless the text
    already contains `http` somewhere. */
module Instance {
  import opened Strings

  const Scheme: string := "https://"

  function NormalizeInstance(url: string): string {
    var s := Strip(url, {'/'});
    if Contains(s, "http") then s else Scheme + s
  }

  lemma SchemeContainsHttp(s: string)
    ensures Contains(Scheme + s, "http")
  {
    assert "http" <= Scheme + s;
  }

  /** The normalised address always mentions `http`. */
  lemma NormalizedContainsHttp(url: string)
    ensures Contains(NormalizeInstance(url), "http")
  {
    SchemeContainsHttp(Strip(url, {'/'}));
  }

  /** The scheme is added exactly when the stripped text does not contain `http`; the text
      itself is kept either way, so a host name such as `myhttp.example` gets no scheme. */
  lemma SchemeAddedIffNoHttp(url: string)
    ensures var s := Strip(url, {'/'});
      (NormalizeInstance(url) == s <==> Contains(s, "http")) &&
      (NormalizeInstance(url) == Scheme + s <==> !Contains(s, "http"))
  {
  }

  /** When something other than slashes is left, the result neither starts nor ends with a
      slash. */
  lemma NormalizedHasNoOuterSlash(url: string)
    requires Strip(url, {'/'}) != []
    ensures var r := NormalizeInstance(url); r != [] && r[0] != '/' && r[|r| - 1] != '/'
  {
    var s := Strip(url, {'/'});
    SchemeAddedIffNoHttp(url);
    var r := NormalizeInstance(url);
    if r != s {
      assert r == Scheme + s;
      assert r[0] == 'h' && r[|r| - 1] == s[|s| - 1];
    }
  }

  /** When something other than slashes is left, normalising twice is normalising once. */
  lemma NormalizeIdempotent(url: string)
    requires Strip(url, {'/'}) != []
    ensures NormalizeInstance(NormalizeInstance(url)) == NormalizeInstance(url)
  {
    var r := NormalizeInstance(url);
    NormalizedHasNoOuterSlash(url);
    StripUnchanged(r, {'/'});
    NormalizedContainsHttp(url);
  }

  /** An address of slashes only becomes `https://`, which ends with a slash; normalising
      that again strips it to `https:`. */
  lemma OnlySlashesNotIdempotent()
    ensures NormalizeInstance("/") == Scheme
    ensures NormalizeInstance(Scheme) == "https:"
  {
    assert Strip("/", {'/'}) == [];
    assert !Contains([], "http");
    assert TrimLeft(Scheme, {'/'}) == Scheme;
    assert TrimRight(Scheme, {'/'}) == "https:" by {
      assert Scheme[..|Scheme| - 1] == "https:/";
      assert Scheme[..|Scheme| - 1][..|Scheme| - 2] == "https:";
    }
    SchemeContainsHttp([]);
    assert Contains("https:", "http") by {
      assert "http" <= "https:";
    }
  }
}
