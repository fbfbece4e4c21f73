/** `clean_text` (lemmydl.py:64-78): turns a community or post title into the path segment
    used for directory and file names. The text is NFKD-normalised and every non-ASCII code
    point dropped; unless cleaning is switched off, characters other than word characters,
    whitespace and hyphens are removed, each run of hyphens and whitespace becomes one `-`,
    and `-` and `_` are stripped from both ends. Case is kept. */
module Sanitizer {
  import opened Strings

  predicate IsAscii(c: char) {
    c as int < 128
  }

  predicate AllAscii(s: string) {
    forall i :: 0 <= i < |s| ==> IsAscii(s[i])
  }

  predicate IsAsciiAlphanumeric(c: char) {
    'a' <= c <= 'z' || 'A' <= c <= 'Z' || '0' <= c <= '9'
  }

  /** `\w` on ASCII text. */
  predicate IsWordChar(c: char) {
    IsAsciiAlphanumeric(c) || c == '_'
  }

  /** The ASCII characters that `\s` matches in a Python str pattern: space, tab, line feed,
      vertical tab, form feed, carriage return and the four separators U+001C..U+001F. */
  const Whitespace: set<char> :=
    {' ', '\t', '\n', '\U{0B}', '\U{0C}', '\r', '\U{1C}', '\U{1D}', '\U{1E}', '\U{1F}'}

  /** The class `[-\s]` whose runs are collapsed. */
  const Separators: set<char> := Whitespace + {'-'}

  /** The characters `.strip('-_')` removes from both ends. */
  const EdgeChars: set<char> := {'-', '_'}

  /** Characters the class `[^\w\s-]` does not match, i.e. those that survive the removal. */
  predicate IsKept(c: char) {
    IsWordChar(c) || c in Separators
  }

  /** Characters a cleaned segment may consist of. */
  predicate IsSegmentChar(c: char) {
    IsWordChar(c) || c == '-'
  }

  /** No two hyphens stand next to each other. */
  predicate NoDoubleHyphen(s: string) {
    |s| < 2 || (!(s[0] == '-' && s[1] == '-') && NoDoubleHyphen(s[1..]))
  }

  /** The same property stated position by position. */
  lemma {:induction false} NoDoubleHyphenAt(s: string, i: nat)
    requires NoDoubleHyphen(s) && i + 1 < |s|
    ensures !(s[i] == '-' && s[i + 1] == '-')
  {
    if i > 0 {
      NoDoubleHyphenAt(s[1..], i - 1);
    }
  }

  lemma {:induction false} NoDoubleHyphenInit(s: string)
    requires NoDoubleHyphen(s) && s != []
    ensures NoDoubleHyphen(s[..|s| - 1])
  {
    if |s| > 2 {
      NoDoubleHyphenInit(s[1..]);
      assert s[1..][..|s| - 2] == s[..|s| - 1][1..];
    }
  }

  lemma {:induction false} TrimLeftKeepsNoDoubleHyphen(s: string, cs: set<char>)
    requires NoDoubleHyphen(s)
    ensures NoDoubleHyphen(TrimLeft(s, cs))
  {
    if s != [] && s[0] in cs {
      TrimLeftKeepsNoDoubleHyphen(s[1..], cs);
    }
  }

  lemma {:induction false} TrimRightKeepsNoDoubleHyphen(s: string, cs: set<char>)
    requires NoDoubleHyphen(s)
    ensures NoDoubleHyphen(TrimRight(s, cs))
  {
    if s != [] && s[|s| - 1] in cs {
      NoDoubleHyphenInit(s);
      TrimRightKeepsNoDoubleHyphen(s[..|s| - 1], cs);
    }
  }

  /** What cleaning promises of its output: only letters, digits, `_` and `-`, never two
      hyphens in a row, and no `-` or `_` at either end. */
  predicate IsCleanSegment(s: string) {
    (forall i :: 0 <= i < |s| ==> IsSegmentChar(s[i])) &&
    NoDoubleHyphen(s) &&
    (s == [] || (s[0] !in EdgeChars && s[|s| - 1] !in EdgeChars))
  }

  /** `.encode('ascii', 'ignore').decode('ascii')`: drops every non-ASCII code point. */
  function AsciiOnly(s: string): string {
    Filter(s, IsAscii)
  }

  /** `re.sub(r'[^\w\s-]', '', s)` on ASCII text. */
  function RemoveDisallowed(s: string): string {
    Filter(s, IsKept)
  }

  /** `re.sub(r'[-\s]+', '-', s)`: every maximal run of separators becomes a single `-`. */
  function CollapseSeparators(s: string): (r: string)
    ensures forall i :: 0 <= i < |r| ==> r[i] == '-' || r[i] !in Separators
    ensures r == [] <==> s == []
    ensures r != [] ==> r[0] == (if s[0] in Separators then '-' else s[0])
    ensures NoDoubleHyphen(r)
    decreases |s|
  {
    if s == [] then []
    else if s[0] in Separators then "-" + CollapseSeparators(TrimLeft(s, Separators))
    else [s[0]] + CollapseSeparators(s[1..])
  }

  /** The cleaning steps after ASCII folding. */
  function Slugify(s: string): string {
    Strip(CollapseSeparators(RemoveDisallowed(s)), EdgeChars)
  }

  /** Whatever the input, the cleaning steps produce a clean segment. */
  lemma SlugifyIsClean(s: string)
    ensures IsCleanSegment(Slugify(s))
  {
    FilterSatisfies(s, IsKept);
    CollapsedAreSegmentChars(RemoveDisallowed(s));
    StripKeepsCleanness(CollapseSeparators(RemoveDisallowed(s)));
  }

  /** Collapsing only adds hyphens: a text of kept characters collapses to segment
      characters. */
  lemma {:induction false} CollapsedAreSegmentChars(kept: string)
    requires forall i :: 0 <= i < |kept| ==> IsKept(kept[i])
    ensures forall i :: 0 <= i < |CollapseSeparators(kept)| ==> IsSegmentChar(CollapseSeparators(kept)[i])
    decreases |kept|
  {
    if kept != [] {
      if kept[0] in Separators {
        CollapsedAreSegmentChars(TrimLeft(kept, Separators));
      } else {
        CollapsedAreSegmentChars(kept[1..]);
      }
    }
  }

  lemma {:induction false} StripKeepsCleanness(s: string)
    requires forall i :: 0 <= i < |s| ==> IsSegmentChar(s[i])
    requires NoDoubleHyphen(s)
    ensures IsCleanSegment(Strip(s, EdgeChars))
  {
    var l := TrimLeft(s, EdgeChars);
    TrimLeftKeepsNoDoubleHyphen(s, EdgeChars);
    TrimRightKeepsNoDoubleHyphen(l, EdgeChars);
  }

  /** `clean_text(text)`; `nfkd` stands for `unicodedata.normalize('NFKD', ·)` and
      `dontClean` for the `dont_clean_text` setting. The result is ASCII either way, and a
      clean path segment when cleaning is on. */
  function CleanText(text: string, dontClean: bool, nfkd: string -> string): (r: string)
    ensures AllAscii(r)
    ensures !dontClean ==> IsCleanSegment(r)
  {
    var folded := AsciiOnly(nfkd(text));
    AsciiOnlyIsAscii(nfkd(text));
    if dontClean then folded
    else
      var r := Slugify(folded);
      SlugifyIsClean(folded);
      SegmentCharsAreAscii(r);
      r
  }

  lemma SegmentCharsAreAscii(s: string)
    requires forall i :: 0 <= i < |s| ==> IsSegmentChar(s[i])
    ensures AllAscii(s)
  {
  }

  lemma {:induction false} AsciiOnlyIsAscii(s: string)
    ensures AllAscii(AsciiOnly(s))
  {
    if s != [] {
      AsciiOnlyIsAscii(s[..|s| - 1]);
    }
  }

  /** NFKD leaves ASCII text as it is. */
  ghost predicate FixesAscii(nfkd: string -> string) {
    forall s :: AllAscii(s) ==> nfkd(s) == s
  }

  lemma {:induction false} CollapseFixesCleanText(s: string)
    requires forall i :: 0 <= i < |s| ==> s[i] !in Whitespace
    requires NoDoubleHyphen(s)
    ensures CollapseSeparators(s) == s
    decreases |s|
  {
    if s != [] {
      if s[0] in Separators {
        assert TrimLeft(s, Separators) == s[1..];
      }
      CollapseFixesCleanText(s[1..]);
    }
  }

  /** Cleaning an already clean segment changes nothing. */
  lemma SlugifyFixesCleanSegment(s: string)
    requires IsCleanSegment(s)
    ensures Slugify(s) == s
  {
    SegmentCharsAreNotWhitespace(s);
    FilterKeepsAll(s, IsKept);
    assert RemoveDisallowed(s) == s;
    CollapseFixesCleanText(s);
    StripUnchanged(s, EdgeChars);
  }

  lemma SegmentCharsAreNotWhitespace(s: string)
    requires forall i :: 0 <= i < |s| ==> IsSegmentChar(s[i])
    ensures forall i :: 0 <= i < |s| ==> IsKept(s[i]) && s[i] !in Whitespace
  {
  }

  /** `clean_text` is idempotent. */
  lemma CleanTextIdempotent(text: string, dontClean: bool, nfkd: string -> string)
    requires FixesAscii(nfkd)
    ensures CleanText(CleanText(text, dontClean, nfkd), dontClean, nfkd)
         == CleanText(text, dontClean, nfkd)
  {
    var r := CleanText(text, dontClean, nfkd);
    assert nfkd(r) == r;
    FilterKeepsAll(r, IsAscii);
    if !dontClean {
      SlugifyFixesCleanSegment(r);
    }
  }

  lemma NoSeparatorIsAlphanumeric()
    ensures forall c :: c in Separators ==> !IsAsciiAlphanumeric(c)
    ensures forall c :: c in EdgeChars ==> !IsAsciiAlphanumeric(c)
  {
  }

  lemma {:induction false} CollapseKeepsAlphanumerics(s: string)
    ensures Filter(CollapseSeparators(s), IsAsciiAlphanumeric) == Filter(s, IsAsciiAlphanumeric)
    decreases |s|
  {
    if s != [] {
      if s[0] in Separators {
        var rest := TrimLeft(s, Separators);
        CollapseKeepsAlphanumerics(rest);
        NoSeparatorIsAlphanumeric();
        TrimLeftFilter(s, Separators, IsAsciiAlphanumeric);
        FilterAppend("-", CollapseSeparators(rest), IsAsciiAlphanumeric);
      } else {
        CollapseKeepsAlphanumerics(s[1..]);
        assert s == [s[0]] + s[1..];
        FilterAppend([s[0]], s[1..], IsAsciiAlphanumeric);
        FilterAppend([s[0]], CollapseSeparators(s[1..]), IsAsciiAlphanumeric);
      }
    }
  }

  predicate IsNonSeparator(c: char) {
    c !in Separators
  }

  /** Collapsing changes only separators: every other character, `_` included, is kept, in
      order. */
  lemma {:induction false} CollapseKeepsNonSeparators(s: string)
    ensures Filter(CollapseSeparators(s), IsNonSeparator) == Filter(s, IsNonSeparator)
    decreases |s|
  {
    if s != [] {
      if s[0] in Separators {
        var rest := TrimLeft(s, Separators);
        CollapseKeepsNonSeparators(rest);
        TrimLeftFilter(s, Separators, IsNonSeparator);
        FilterAppend("-", CollapseSeparators(rest), IsNonSeparator);
        assert Filter("-", IsNonSeparator) == [];
      } else {
        CollapseKeepsNonSeparators(s[1..]);
        assert s == [s[0]] + s[1..];
        FilterAppend([s[0]], s[1..], IsNonSeparator);
        FilterAppend([s[0]], CollapseSeparators(s[1..]), IsNonSeparator);
      }
    }
  }

  /** Text that starts with a separator collapses to one `-` and the collapsed rest; a run
      that follows it collapses the same way behind the shorter text. */
  lemma CollapseSeparatorFirst(a: string, run: string, b: string)
    requires a != [] && a[0] in Separators && a[|a| - 1] !in Separators
    requires var a' := TrimLeft(a, Separators);
      CollapseSeparators(a' + run + b) == CollapseSeparators(a') + "-" + CollapseSeparators(b)
    ensures CollapseSeparators(a + run + b) == CollapseSeparators(a) + "-" + CollapseSeparators(b)
  {
    var a' := TrimLeft(a, Separators);
    var x := run + b;
    TrimLeftDropped(a, Separators);
    TrimLeftAppend(a, x, Separators);
    assert a + run + b == a + x && a' + run + b == a' + x;
    AppendRegroup("-", CollapseSeparators(a'), "-", CollapseSeparators(b));
  }

  /** Text that starts with any other character keeps it in front of what the rest becomes. */
  lemma CollapseOtherFirst(a: string, run: string, b: string)
    requires a != [] && a[0] !in Separators
    requires CollapseSeparators(a[1..] + run + b) == CollapseSeparators(a[1..]) + "-" + CollapseSeparators(b)
    ensures CollapseSeparators(a + run + b) == CollapseSeparators(a) + "-" + CollapseSeparators(b)
  {
    DropFirstOfAppend(a, run, b);
    AppendRegroup([a[0]], CollapseSeparators(a[1..]), "-", CollapseSeparators(b));
  }

  /** A maximal run of whitespace and hyphens, however long, becomes exactly one `-`, and the
      text on either side is collapsed on its own. */
  lemma {:induction false} CollapseRun(a: string, run: string, b: string)
    requires run != [] && forall i :: 0 <= i < |run| ==> run[i] in Separators
    requires a == [] || a[|a| - 1] !in Separators
    requires b == [] || b[0] !in Separators
    ensures CollapseSeparators(a + run + b) == CollapseSeparators(a) + "-" + CollapseSeparators(b)
    decreases |a|
  {
    if a == [] {
      TrimLeftRun(run, b, Separators);
      assert a + run + b == run + b;
    } else if a[0] in Separators {
      var a' := TrimLeft(a, Separators);
      TrimLeftDropped(a, Separators);
      CollapseRun(a', run, b);
      CollapseSeparatorFirst(a, run, b);
    } else {
      CollapseRun(a[1..], run, b);
      CollapseOtherFirst(a, run, b);
    }
  }

  /** Cleaning keeps every letter and digit of the folded text, in order and in its case,
      and adds none. */
  lemma CleanTextKeepsAlphanumerics(text: string, nfkd: string -> string)
    ensures Filter(CleanText(text, false, nfkd), IsAsciiAlphanumeric)
         == Filter(AsciiOnly(nfkd(text)), IsAsciiAlphanumeric)
  {
    var folded := AsciiOnly(nfkd(text));
    var kept := RemoveDisallowed(folded);
    var collapsed := CollapseSeparators(kept);
    var left := TrimLeft(collapsed, EdgeChars);
    assert CleanText(text, false, nfkd) == TrimRight(left, EdgeChars);
    NoSeparatorIsAlphanumeric();
    TrimRightFilter(left, EdgeChars, IsAsciiAlphanumeric);
    TrimLeftFilter(collapsed, EdgeChars, IsAsciiAlphanumeric);
    CollapseKeepsAlphanumerics(kept);
    FilterFilter(folded, IsKept, IsAsciiAlphanumeric);
  }

  /** With `dont_clean_text` set only the ASCII folding applies: the result is the
      normalised text with its non-ASCII code points removed and nothing else changed. Being a
      subsequence with every ASCII character as often as in the input, it is determined. */
  lemma DontCleanOnlyFolds(text: string, nfkd: string -> string)
    ensures var r := CleanText(text, true, nfkd);
      IsSubsequence(r, nfkd(text)) &&
      (forall i :: 0 <= i < |nfkd(text)| && IsAscii(nfkd(text)[i]) ==> nfkd(text)[i] in r) &&
      (forall c :: multiset(r)[c] == if IsAscii(c) then multiset(nfkd(text))[c] else 0)
  {
    FilterMultiset(nfkd(text), IsAscii);
    FilterIsSubsequence(nfkd(text), IsAscii);
    FilterMembers(nfkd(text), IsAscii);
  }
}
