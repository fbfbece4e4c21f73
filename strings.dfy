/** Sequence and string helpers shared by the components: Python's filtering list
    comprehension, `str.lstrip`/`rstrip`/`strip` with a character set, the last piece of
    `str.split(sep)`, the `in` substring test and `str(int)`. */
module Strings {

  /** `[x for x in s if keep(x)]`, built from the back so that a loop that appends one
      element at a time extends it by at most that element. */
  function Filter<T>(s: seq<T>, keep: T -> bool): (r: seq<T>)
    ensures |r| <= |s|
  {
    if s == [] then []
    else Filter(s[..|s| - 1], keep) + (if keep(s[|s| - 1]) then [s[|s| - 1]] else [])
  }

  /** Every element of the filtered sequence is kept. */
  lemma {:induction false} FilterSatisfies<T>(s: seq<T>, keep: T -> bool)
    ensures forall i :: 0 <= i < |Filter(s, keep)| ==> keep(Filter(s, keep)[i])
  {
    if s != [] {
      FilterSatisfies(s[..|s| - 1], keep);
    }
  }

  /** An element is in the filtered sequence exactly when it is in the original and kept. */
  lemma {:induction false} FilterMembers<T>(s: seq<T>, keep: T -> bool)
    ensures forall i :: 0 <= i < |Filter(s, keep)| ==> Filter(s, keep)[i] in s && keep(Filter(s, keep)[i])
    ensures forall i :: 0 <= i < |s| && keep(s[i]) ==> s[i] in Filter(s, keep)
  {
    if s != [] {
      FilterMembers(s[..|s| - 1], keep);
      assert forall i :: 0 <= i < |s| - 1 ==> s[i] == s[..|s| - 1][i];
    }
  }

  /** `a` is obtained from `b` by deleting elements, keeping the order of the rest. */
  ghost predicate IsSubsequence<T>(a: seq<T>, b: seq<T>)
    decreases |b|
  {
    a == [] ||
    (b != [] &&
     (IsSubsequence(a, b[..|b| - 1]) ||
      (a[|a| - 1] == b[|b| - 1] && IsSubsequence(a[..|a| - 1], b[..|b| - 1]))))
  }

  lemma {:induction false} FilterIsSubsequence<T>(s: seq<T>, keep: T -> bool)
    ensures IsSubsequence(Filter(s, keep), s)
  {
    if s != [] {
      var init := s[..|s| - 1];
      FilterIsSubsequence(init, keep);
      var r := Filter(s, keep);
      if keep(s[|s| - 1]) {
        assert r == Filter(init, keep) + [s[|s| - 1]];
        assert r[..|r| - 1] == Filter(init, keep);
        assert IsSubsequence(r[..|r| - 1], s[..|s| - 1]);
      } else {
        assert r == Filter(init, keep);
      }
    }
  }

  /** Concatenation regroups freely. */
  /** Filtering one more element appends it exactly when it is kept. */
  lemma FilterStep<T>(s: seq<T>, i: nat, keep: T -> bool)
    requires i < |s|
    ensures Filter(s[..i + 1], keep) == Filter(s[..i], keep) + (if keep(s[i]) then [s[i]] else [])
  {
    assert s[..i + 1][..i] == s[..i];
  }

  lemma DropFirstOfAppend<T>(a: seq<T>, b: seq<T>, c: seq<T>)
    requires a != []
    ensures (a + b + c)[0] == a[0] && (a + b + c)[1..] == a[1..] + b + c
  {
    assert (a + b + c)[1..] == a[1..] + b + c;
  }

  lemma AppendRegroup<T>(a: seq<T>, b: seq<T>, c: seq<T>, d: seq<T>)
    ensures a + (b + c + d) == a + b + c + d
  {
  }

  /** Filtering keeps every occurrence of a kept element and none of the others. */
  lemma {:induction false} FilterMultiset<T>(s: seq<T>, keep: T -> bool)
    ensures forall x :: multiset(Filter(s, keep))[x] == if keep(x) then multiset(s)[x] else 0
  {
    if s != [] {
      var init := s[..|s| - 1];
      FilterMultiset(init, keep);
      assert s == init + [s[|s| - 1]];
    }
  }

  /** A prefix of a subsequence is a subsequence. */
  lemma {:induction false} SubsequencePrefix<T>(a: seq<T>, b: seq<T>, k: nat)
    requires IsSubsequence(a, b) && k <= |a|
    ensures IsSubsequence(a[..k], b)
    decreases |b|
  {
    if a[..k] != [] {
      var binit := b[..|b| - 1];
      if IsSubsequence(a, binit) {
        SubsequencePrefix(a, binit, k);
      } else if k == |a| {
        assert a[..k] == a;
      } else {
        var ainit := a[..|a| - 1];
        SubsequencePrefix(ainit, binit, k);
        assert ainit[..k] == a[..k];
      }
    }
  }

  /** `f` applied to every element of `s`. */
  function Map<A, B>(s: seq<A>, f: A -> B): (r: seq<B>)
    ensures |r| == |s| && forall i :: 0 <= i < |s| ==> r[i] == f(s[i])
  {
    seq(|s|, i requires 0 <= i < |s| => f(s[i]))
  }

  /** Mapping both sides keeps a subsequence a subsequence. */
  lemma {:induction false} SubsequenceMap<A, B>(a: seq<A>, b: seq<A>, f: A -> B)
    requires IsSubsequence(a, b)
    ensures IsSubsequence(Map(a, f), Map(b, f))
    decreases |b|
  {
    if a != [] {
      var binit := b[..|b| - 1];
      assert Map(b, f)[..|b| - 1] == Map(binit, f);
      if IsSubsequence(a, binit) {
        SubsequenceMap(a, binit, f);
      } else {
        var ainit := a[..|a| - 1];
        SubsequenceMap(ainit, binit, f);
        assert Map(a, f)[..|a| - 1] == Map(ainit, f);
      }
    }
  }

  lemma {:induction false} FilterAppend<T>(a: seq<T>, b: seq<T>, keep: T -> bool)
    ensures Filter(a + b, keep) == Filter(a, keep) + Filter(b, keep)
    decreases |b|
  {
    if b == [] {
      assert a + b == a;
    } else {
      var init := b[..|b| - 1];
      assert (a + b)[..|a + b| - 1] == a + init;
      FilterAppend(a, init, keep);
    }
  }

  /** A first element that is not kept does not show in the filtered sequence. */
  lemma FilterSkipsFirst<T>(s: seq<T>, keep: T -> bool)
    requires s != [] && !keep(s[0])
    ensures Filter(s, keep) == Filter(s[1..], keep)
  {
    assert s == [s[0]] + s[1..];
    FilterAppend([s[0]], s[1..], keep);
    assert Filter([s[0]], keep) == [];
  }

  lemma {:induction false} FilterKeepsAll<T>(s: seq<T>, keep: T -> bool)
    requires forall i :: 0 <= i < |s| ==> keep(s[i])
    ensures Filter(s, keep) == s
  {
    if s != [] {
      FilterKeepsAll(s[..|s| - 1], keep);
    }
  }

  lemma {:induction false} FilterKeepsNone<T>(s: seq<T>, keep: T -> bool)
    requires forall i :: 0 <= i < |s| ==> !keep(s[i])
    ensures Filter(s, keep) == []
  {
    if s != [] {
      FilterKeepsNone(s[..|s| - 1], keep);
    }
  }

  /** Filtering twice, the second time by a stronger condition, is filtering once by it. */
  lemma {:induction false} FilterFilter<T>(s: seq<T>, weak: T -> bool, strong: T -> bool)
    requires forall x :: strong(x) ==> weak(x)
    ensures Filter(Filter(s, weak), strong) == Filter(s, strong)
  {
    if s != [] {
      var init, x := s[..|s| - 1], s[|s| - 1];
      FilterFilter(init, weak, strong);
      FilterAppend(Filter(init, weak), if weak(x) then [x] else [], strong);
    }
  }

  /** `s.lstrip(cs)`: drops the longest prefix made of characters from `cs`. */
  function TrimLeft(s: string, cs: set<char>): (r: string)
    ensures |r| <= |s| && forall i :: 0 <= i < |r| ==> r[i] == s[|s| - |r| + i]
    ensures r == [] || r[0] !in cs
  {
    if s != [] && s[0] in cs then TrimLeft(s[1..], cs) else s
  }

  /** Everything `lstrip` drops is in `cs`. */
  lemma {:induction false} TrimLeftDropped(s: string, cs: set<char>)
    ensures forall i :: 0 <= i < |s| - |TrimLeft(s, cs)| ==> s[i] in cs
  {
    if s != [] && s[0] in cs {
      TrimLeftDropped(s[1..], cs);
      assert forall i :: 1 <= i < |s| ==> s[i] == s[1..][i - 1];
    }
  }

  /** Text whose last character is not stripped keeps everything after it: `lstrip` stops
      inside it. */
  lemma {:induction false} TrimLeftAppend(a: string, x: string, cs: set<char>)
    requires a != [] && a[|a| - 1] !in cs
    ensures TrimLeft(a + x, cs) == TrimLeft(a, cs) + x
  {
    if a[0] in cs {
      assert (a + x)[1..] == a[1..] + x;
      TrimLeftAppend(a[1..], x, cs);
    }
  }

  /** `lstrip` removes only characters from `cs`, so it keeps whatever a filter that rejects
      them keeps. */
  lemma {:induction false} TrimLeftFilter(s: string, cs: set<char>, keep: char -> bool)
    requires forall c :: c in cs ==> !keep(c)
    ensures Filter(TrimLeft(s, cs), keep) == Filter(s, keep)
  {
    if s != [] && s[0] in cs {
      TrimLeftFilter(s[1..], cs, keep);
      FilterSkipsFirst(s, keep);
    }
  }

  /** `rstrip` removes only characters from `cs`, so it keeps whatever a filter that rejects
      them keeps. */
  lemma {:induction false} TrimRightFilter(s: string, cs: set<char>, keep: char -> bool)
    requires forall c :: c in cs ==> !keep(c)
    ensures Filter(TrimRight(s, cs), keep) == Filter(s, keep)
  {
    if s != [] && s[|s| - 1] in cs {
      TrimRightFilter(s[..|s| - 1], cs, keep);
    }
  }

  /** A run of stripped characters before text that does not start with one is dropped
      entirely. */
  lemma {:induction false} TrimLeftRun(run: string, b: string, cs: set<char>)
    requires forall i :: 0 <= i < |run| ==> run[i] in cs
    requires b == [] || b[0] !in cs
    ensures TrimLeft(run + b, cs) == b
  {
    if run == [] {
      assert run + b == b;
    } else {
      assert (run + b)[1..] == run[1..] + b;
      TrimLeftRun(run[1..], b, cs);
    }
  }

  /** `s.rstrip(cs)`: drops the longest suffix made of characters from `cs`. */
  function TrimRight(s: string, cs: set<char>): (r: string)
    ensures |r| <= |s| && forall i :: 0 <= i < |r| ==> r[i] == s[i]
    ensures r == [] || r[|r| - 1] !in cs
  {
    if s != [] && s[|s| - 1] in cs then TrimRight(s[..|s| - 1], cs) else s
  }

  /** Everything `rstrip` drops is in `cs`. */
  lemma {:induction false} TrimRightDropped(s: string, cs: set<char>)
    ensures forall i :: |TrimRight(s, cs)| <= i < |s| ==> s[i] in cs
  {
    if s != [] && s[|s| - 1] in cs {
      TrimRightDropped(s[..|s| - 1], cs);
    }
  }

  /** `s.strip(cs)`: the part of `s` left between a prefix and a suffix made of characters
      from `cs`, neither of whose ends is in `cs`. */
  function Strip(s: string, cs: set<char>): (r: string)
    ensures r == [] || (r[0] !in cs && r[|r| - 1] !in cs)
    ensures var k := |s| - |TrimLeft(s, cs)|;
      k + |r| <= |s| && forall i :: 0 <= i < |r| ==> r[i] == s[k + i]
  {
    TrimRight(TrimLeft(s, cs), cs)
  }

  /** Everything `strip` drops, at either end, is in `cs`. */
  lemma StripDropped(s: string, cs: set<char>)
    ensures var k := |s| - |TrimLeft(s, cs)|;
      (forall i :: 0 <= i < k ==> s[i] in cs) &&
      (forall i :: k + |Strip(s, cs)| <= i < |s| ==> s[i] in cs)
  {
    var l := TrimLeft(s, cs);
    var r := TrimRight(l, cs);
    TrimLeftDropped(s, cs);
    TrimRightDropped(l, cs);
    forall i | |s| - |l| + |r| <= i < |s|
      ensures s[i] in cs
    {
      assert s[i] == l[i - (|s| - |l|)];
    }
  }

  /** Text that neither starts nor ends with a character from `cs` is left as it is. */
  lemma StripUnchanged(s: string, cs: set<char>)
    requires s == [] || (s[0] !in cs && s[|s| - 1] !in cs)
    ensures Strip(s, cs) == s
  {
    assert TrimLeft(s, cs) == s;
  }

  /** `s.split([c])[-1]`: the text after the last `c`, or all of `s` when it has none. */
  function AfterLast(s: string, c: char): (r: string)
    ensures |r| <= |s| && forall i :: 0 <= i < |r| ==> r[i] == s[|s| - |r| + i]
    ensures forall i :: 0 <= i < |r| ==> r[i] != c
    ensures |r| < |s| ==> s[|s| - |r| - 1] == c
  {
    if s == [] || s[|s| - 1] == c then [] else AfterLast(s[..|s| - 1], c) + [s[|s| - 1]]
  }

  /** The three facts AfterLast ensures determine its result. */
  lemma {:induction false} AfterLastUnique(s: string, c: char, t: string)
    requires |t| <= |s| && forall i :: 0 <= i < |t| ==> t[i] == s[|s| - |t| + i]
    requires forall i :: 0 <= i < |t| ==> t[i] != c
    requires |t| < |s| ==> s[|s| - |t| - 1] == c
    ensures t == AfterLast(s, c)
  {
    assert |t| > 0 ==> t[|t| - 1] == s[|s| - 1];
    if s != [] && s[|s| - 1] != c {
      AfterLastUnique(s[..|s| - 1], c, t[..|t| - 1]);
      assert t == t[..|t| - 1] + [s[|s| - 1]];
    }
  }

  /** When the text after the last `c` holds no `d`, it lies within the text after the
      last `d`. */
  lemma {:induction false} AfterLastWithin(s: string, c: char, d: char)
    requires forall i :: 0 <= i < |AfterLast(s, c)| ==> AfterLast(s, c)[i] != d
    ensures |AfterLast(s, c)| <= |AfterLast(s, d)|
  {
    if s != [] && s[|s| - 1] != c {
      var init := s[..|s| - 1];
      var a := AfterLast(init, c);
      assert AfterLast(s, c) == a + [s[|s| - 1]];
      assert forall i :: 0 <= i < |a| ==> a[i] == AfterLast(s, c)[i];
      assert AfterLast(s, c)[|a|] == s[|s| - 1];
      AfterLastWithin(init, c, d);
      assert AfterLast(s, d) == AfterLast(init, d) + [s[|s| - 1]];
    }
  }

  /** `t in s` on strings: `t` occurs in `s` as a contiguous piece. */
  predicate Contains(s: string, t: string) {
    t <= s || (s != [] && Contains(s[1..], t))
  }

  function DigitChar(d: nat): (c: char)
    requires d < 10
    ensures '0' <= c <= '9'
  {
    ('0' as int + d) as char
  }

  /** The decimal digits of `n`, most significant first. */
  function Digits(n: nat): (r: string)
    ensures r != [] && '0' <= r[0] <= '9'
  {
    if n < 10 then [DigitChar(n)] else Digits(n / 10) + [DigitChar(n % 10)]
  }

  lemma {:induction false} DigitsAreDigits(n: nat)
    ensures forall i :: 0 <= i < |Digits(n)| ==> '0' <= Digits(n)[i] <= '9'
  {
    if n >= 10 {
      DigitsAreDigits(n / 10);
    }
  }

  /** `str(n)` for a Python int: an optional minus sign, then the digits. */
  function Decimal(n: int): (r: string)
    ensures r != [] && (r[0] == '-' || '0' <= r[0] <= '9')
  {
    if n < 0 then "-" + Digits(-n) else Digits(n)
  }

  /** `str(n)` holds nothing but digits and the sign. */
  lemma DecimalChars(n: int)
    ensures forall i :: 0 <= i < |Decimal(n)| ==> Decimal(n)[i] == '-' || '0' <= Decimal(n)[i] <= '9'
  {
    if n < 0 {
      DigitsAreDigits(-n);
      assert forall i :: 1 <= i < |Decimal(n)| ==> Decimal(n)[i] == Digits(-n)[i - 1];
    } else {
      DigitsAreDigits(n);
    }
  }

  lemma {:induction false} DigitsInjective(a: nat, b: nat)
    requires Digits(a) == Digits(b)
    ensures a == b
  {
    if a >= 10 && b >= 10 {
      var da, db := Digits(a), Digits(b);
      assert da[..|da| - 1] == Digits(a / 10) && db[..|db| - 1] == Digits(b / 10);
      DigitsInjective(a / 10, b / 10);
    }
  }

  lemma DecimalInjective(a: int, b: int)
    requires Decimal(a) == Decimal(b)
    ensures a == b
  {
    if a < 0 && b < 0 {
      assert Digits(-a) == Decimal(a)[1..] == Decimal(b)[1..] == Digits(-b);
      DigitsInjective(-a, -b);
    } else if a >= 0 && b >= 0 {
      DigitsInjective(a, b);
    }
  }
}
