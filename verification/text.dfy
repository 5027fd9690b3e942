/** Character classes and string primitives that the Python code takes from
    `str` and `re`: whitespace and word characters, substring search,
    `strip()`, `split()`, `' '.join(...)`, `lower()`/`upper()` and string
    ordering. Character classes are the ASCII subset of Python's Unicode ones. */
module Text {
  import opened Wrappers

  /** `str.isspace()` on ASCII: space, tab, line feed, vertical tab, form feed,
      carriage return and the four information separators 0x1C-0x1F. */
  predicate IsSpace(c: char) {
    c == ' ' || ('\t' <= c <= '\r') || ('\U{1C}' <= c <= '\U{1F}')
  }

  /** Regular-expression `\w` on ASCII: letters, digits and underscore. */
  predicate IsWordChar(c: char) {
    ('a' <= c <= 'z') || ('A' <= c <= 'Z') || ('0' <= c <= '9') || c == '_'
  }

  /** A string `\w+` matches in full. */
  predicate IsWordRun(s: string) {
    |s| > 0 && forall k :: 0 <= k < |s| ==> IsWordChar(s[k])
  }

  /** Length of the run of word characters `s` starts with. */
  function WordRunLength(s: string): (n: nat)
    ensures n <= |s|
    ensures forall k :: 0 <= k < n ==> IsWordChar(s[k])
    ensures n < |s| ==> !IsWordChar(s[n])
    decreases |s|
  {
    if |s| == 0 || !IsWordChar(s[0]) then 0 else 1 + WordRunLength(s[1..])
  }

  lemma {:induction false} WordRunLengthOf(w: string, t: string)
    requires IsWordRun(w)
    requires |t| == 0 || !IsWordChar(t[0])
    ensures WordRunLength(w + t) == |w|
    decreases |w|
  {
    if |w| > 1 {
      assert (w + t)[1..] == w[1..] + t;
      WordRunLengthOf(w[1..], t);
    } else {
      assert (w + t)[1..] == t;
    }
  }

  /** A string that `str.split()` returns as one piece: non-empty, no whitespace. */
  predicate IsWord(s: string) {
    |s| > 0 && forall k :: 0 <= k < |s| ==> !IsSpace(s[k])
  }

  lemma WordRunIsWord(s: string)
    requires IsWordRun(s)
    ensures IsWord(s)
    ensures '<' !in s && '>' !in s && ':' !in s && '\n' !in s && '/' !in s
  {
  }

  /* ---------------------------------------------------------------------- */
  /* Case mapping                                                            */

  function ToLowerChar(c: char): char {
    if 'A' <= c <= 'Z' then (c as int + 32) as char else c
  }

  function ToUpperChar(c: char): char {
    if 'a' <= c <= 'z' then (c as int - 32) as char else c
  }

  /** `str.lower()` on ASCII letters. */
  function Lower(s: string): string {
    seq(|s|, i requires 0 <= i < |s| => ToLowerChar(s[i]))
  }

  /** `str.upper()` on ASCII letters. */
  function Upper(s: string): string {
    seq(|s|, i requires 0 <= i < |s| => ToUpperChar(s[i]))
  }

  /* ---------------------------------------------------------------------- */
  /* Substring search                                                        */

  /** `s.startswith(pat)`. */
  predicate StartsWith(s: string, pat: string) {
    |pat| <= |s| && s[..|pat|] == pat
  }

  /** `pat in s`: some suffix of `s` starts with `pat`. */
  predicate Contains(s: string, pat: string)
    decreases |s|
  {
    StartsWith(s, pat) || (|s| > 0 && Contains(s[1..], pat))
  }

  /** `s.find(pat)`: the index of the first occurrence of `pat`, or `None`
      for Python's -1. */
  function FindIn(s: string, pat: string): (r: Option<nat>)
    ensures r.Some? ==> r.value + |pat| <= |s|
    ensures r.None? <==> !Contains(s, pat)
    decreases |s|
  {
    if StartsWith(s, pat) then Some(0)
    else if |s| == 0 then None
    else
      match FindIn(s[1..], pat)
      case None => None
      case Some(k) => Some(k + 1)
  }

  /** The pattern does occur where `FindIn` says it does. */
  lemma {:induction false} FindInAt(s: string, pat: string)
    requires FindIn(s, pat).Some?
    ensures StartsWith(s[FindIn(s, pat).value..], pat)
    decreases |s|
  {
    if !StartsWith(s, pat) {
      var k := FindIn(s[1..], pat).value;
      FindInAt(s[1..], pat);
      assert s[1..][k..] == s[k + 1..];
    } else {
      assert s[0..] == s;
    }
  }

  /** An occurrence at `j` is an occurrence. */
  lemma {:induction false} ContainsAt(s: string, pat: string, j: nat)
    requires j <= |s| && StartsWith(s[j..], pat)
    ensures Contains(s, pat)
    decreases j
  {
    if j > 0 {
      assert s[1..][j - 1..] == s[j..];
      ContainsAt(s[1..], pat, j - 1);
    } else {
      assert s[0..] == s;
    }
  }

  /** An occurrence in a suffix is an occurrence in the whole string. */
  lemma {:induction false} ContainsSuffix(s: string, pat: string, k: nat)
    requires k <= |s| && Contains(s[k..], pat)
    ensures Contains(s, pat)
    decreases k
  {
    if k > 0 {
      assert s[1..][k - 1..] == s[k..];
      ContainsSuffix(s[1..], pat, k - 1);
    } else {
      assert s[0..] == s;
    }
  }

  /** Every character of an occurring pattern occurs in the text. */
  lemma {:induction false} ContainsChars(s: string, pat: string, k: nat)
    requires Contains(s, pat) && k < |pat|
    ensures pat[k] in s
    decreases |s|
  {
    if StartsWith(s, pat) {
      assert s[..|pat|][k] == s[k];
    } else {
      ContainsChars(s[1..], pat, k);
      var j :| 0 <= j < |s[1..]| && s[1..][j] == pat[k];
      assert s[j + 1] == pat[k];
    }
  }

  /** The occurrence `FindIn` reports is the first: no earlier index starts one. */
  lemma {:induction false} FindInFirst(s: string, pat: string, j: nat)
    requires j <= |s| && StartsWith(s[j..], pat)
    ensures FindIn(s, pat).Some? && FindIn(s, pat).value <= j
    decreases j
  {
    ContainsAt(s, pat, j);
    if j > 0 && !StartsWith(s, pat) {
      assert s[1..][j - 1..] == s[j..];
      FindInFirst(s[1..], pat, j - 1);
    } else if j == 0 {
      assert s[0..] == s;
    }
  }

  /** The text before the first occurrence does not contain the pattern. */
  lemma {:induction false} FindInPrefixFree(s: string, pat: string)
    requires |pat| > 0 && FindIn(s, pat).Some?
    ensures !Contains(s[..FindIn(s, pat).value], pat)
    decreases |s|
  {
    var k := FindIn(s, pat).value;
    if k > 0 {
      FindInPrefixFree(s[1..], pat);
      var p := s[..k];
      assert p[1..] == s[1..][..k - 1];
      if |pat| <= |p| {
        assert s[..|pat|] == p[..|pat|];
      }
    }
  }

  /** A pattern whose only `<` is its first character cannot overlap the
      boundary of a text that does not contain it: in `a + (pat + rest)`
      the first occurrence is the one placed after `a`. */
  lemma {:induction false} NoStraddle(a: string, pat: string, rest: string)
    requires |pat| > 0 && pat[0] == '<' && '<' !in pat[1..]
    requires !Contains(a, pat)
    ensures FindIn(a + (pat + rest), pat) == Some(|a|)
    decreases |a|
  {
    var x := pat + rest;
    if |a| == 0 {
      assert a + x == x;
      assert x[..|pat|] == pat;
    } else {
      NotStartedBefore(a, pat, x);
      assert (a + x)[1..] == a[1..] + x;
      NoStraddle(a[1..], pat, rest);
    }
  }

  /** The step of `NoStraddle`: the combined text does not start with `pat`. */
  lemma NotStartedBefore(a: string, pat: string, x: string)
    requires |a| > 0 && |pat| > 0 && pat[0] == '<' && '<' !in pat[1..]
    requires !Contains(a, pat)
    requires |x| > 0 && x[0] == '<'
    ensures !StartsWith(a + x, pat)
  {
    var s := a + x;
    if |pat| <= |a| {
      assert s[..|pat|] == a[..|pat|];
    } else if |pat| <= |s| {
      assert s[..|pat|][|a|] == '<';
      assert pat[|a|] == pat[1..][|a| - 1];
    }
  }

  /** Where the pieces of `a + (b + c)` lie. */
  lemma SplitAt(a: string, b: string, c: string)
    ensures (a + (b + c))[..|a|] == a
    ensures (a + (b + c))[|a|..] == b + c
    ensures (a + (b + c))[|a| + |b|..] == c
  {
  }

  /** Three pieces read one after another from the start of `s`. */
  lemma ConcatPrefix(s: string, a: string, b: string, c: string)
    requires |a| + |b| + |c| <= |s|
    requires s[..|a|] == a && s[|a|..][..|b|] == b && s[|a|..][|b|..][..|c|] == c
    ensures s[..|a| + |b| + |c|] == a + (b + c)
  {
    var p := a + (b + c);
    forall i | 0 <= i < |p|
      ensures s[..|a| + |b| + |c|][i] == p[i]
    {
      if i < |a| {
        assert s[..|a|][i] == s[i];
      } else if i < |a| + |b| {
        assert s[|a|..][..|b|][i - |a|] == s[i];
      } else {
        assert s[|a|..][|b|..][..|c|][i - |a| - |b|] == s[i];
      }
    }
  }

  lemma SplitAfter(a: string, b: string, c: string, d: string)
    ensures (a + (b + (c + d)))[|a| + |b| + |c|..] == d
  {
  }

  /** `s.find(c)` for a single character, in terms of indices. */
  lemma {:induction false} FindInChar(s: string, c: char)
    ensures FindIn(s, [c]).None? ==> c !in s
    ensures FindIn(s, [c]).Some? ==>
              var k := FindIn(s, [c]).value;
              k < |s| && s[k] == c && c !in s[..k]
    decreases |s|
  {
    if |s| > 0 {
      FindInChar(s[1..], c);
      assert StartsWith(s, [c]) <==> s[0] == c;
      if FindIn(s, [c]).Some? && s[0] != c {
        var k := FindIn(s, [c]).value;
        assert s[..k] == [s[0]] + s[1..][..k - 1];
      }
    }
  }

  /* ---------------------------------------------------------------------- */
  /* strip()                                                                 */

  /** No whitespace at either end: what `str.strip()` returns. */
  predicate IsTrimmed(s: string) {
    |s| == 0 || (!IsSpace(s[0]) && !IsSpace(s[|s| - 1]))
  }

  predicate AllSpace(s: string) {
    forall k :: 0 <= k < |s| ==> IsSpace(s[k])
  }

  /** Number of whitespace characters `s` starts with. */
  function LeadingSpaces(s: string): (n: nat)
    ensures n <= |s|
    decreases |s|
  {
    if |s| > 0 && IsSpace(s[0]) then 1 + LeadingSpaces(s[1..]) else 0
  }

  /** Number of whitespace characters `s` ends with. */
  function TrailingSpaces(s: string): (n: nat)
    ensures n <= |s|
    decreases |s|
  {
    if |s| > 0 && IsSpace(s[|s| - 1]) then 1 + TrailingSpaces(s[..|s| - 1]) else 0
  }

  lemma AllSpaceCons(c: char, t: string)
    requires IsSpace(c) && AllSpace(t)
    ensures AllSpace([c] + t) && AllSpace(t + [c])
  {
    assert forall k :: 1 <= k < |t| + 1 ==> ([c] + t)[k] == t[k - 1];
    assert forall k :: 0 <= k < |t| ==> (t + [c])[k] == t[k];
  }

  /** The leading run is all whitespace and is followed by a non-space. */
  lemma {:induction false} LeadingSpacesSpec(s: string)
    ensures AllSpace(s[..LeadingSpaces(s)])
    ensures LeadingSpaces(s) < |s| ==> !IsSpace(s[LeadingSpaces(s)])
    decreases |s|
  {
    if |s| > 0 && IsSpace(s[0]) {
      var t := s[1..];
      LeadingSpacesSpec(t);
      var n := LeadingSpaces(t);
      AllSpaceCons(s[0], t[..n]);
      assert s[..n + 1] == [s[0]] + t[..n];
      if n < |t| {
        assert s[n + 1] == t[n];
      }
    }
  }

  /** The trailing run is all whitespace and is preceded by a non-space. */
  lemma {:induction false} TrailingSpacesSpec(s: string)
    ensures AllSpace(s[|s| - TrailingSpaces(s)..])
    ensures TrailingSpaces(s) < |s| ==> !IsSpace(s[|s| - 1 - TrailingSpaces(s)])
    decreases |s|
  {
    if |s| > 0 && IsSpace(s[|s| - 1]) {
      var t := s[..|s| - 1];
      TrailingSpacesSpec(t);
      var n := TrailingSpaces(t);
      AllSpaceCons(s[|s| - 1], t[|t| - n..]);
      assert s[|s| - 1 - n..] == t[|t| - n..] + [s[|s| - 1]];
      if n < |t| {
        assert s[|s| - 2 - n] == t[|t| - 1 - n];
      }
    }
  }

  /** Text made of whitespace only is one leading run. */
  lemma {:induction false} LeadingAllSpace(s: string)
    requires AllSpace(s)
    ensures LeadingSpaces(s) == |s|
    decreases |s|
  {
    if |s| > 0 {
      LeadingAllSpace(s[1..]);
    }
  }

  /** Whitespace after a non-space end is exactly the trailing run. */
  lemma {:induction false} TrailingAfter(s: string, w: string)
    requires |s| == 0 || !IsSpace(s[|s| - 1])
    requires AllSpace(w)
    ensures TrailingSpaces(s + w) == |w|
    decreases |w|
  {
    if |w| > 0 {
      assert (s + w)[..|s + w| - 1] == s + w[..|w| - 1];
      TrailingAfter(s, w[..|w| - 1]);
    } else {
      assert s + w == s;
    }
  }

  /** `str.strip()`: what is left between the leading and the trailing
      whitespace. */
  function Strip(s: string): (r: string)
    ensures |r| <= |s|
    ensures IsTrimmed(r)
  {
    var t := s[LeadingSpaces(s)..];
    LeadingSpacesSpec(s);
    TrailingSpacesSpec(t);
    assert |t| > 0 ==> t[0] == s[LeadingSpaces(s)];
    t[..|t| - TrailingSpaces(t)]
  }

  /** `strip()` removes whitespace only, and all of it at both ends: the
      text is whitespace, the result, whitespace. */
  lemma StripSpec(s: string)
    ensures var a := LeadingSpaces(s);
            var r := Strip(s);
            && a + |r| <= |s|
            && s[a..a + |r|] == r
            && AllSpace(s[..a]) && AllSpace(s[a + |r|..])
  {
    var a := LeadingSpaces(s);
    var t := s[a..];
    LeadingSpacesSpec(s);
    TrailingSpacesSpec(t);
    var r := Strip(s);
    var b := |t| - TrailingSpaces(t);
    assert r == t[..b];
    assert s[a..a + b] == t[..b];
    assert s[a + b..] == t[b..];
  }

  /** A trimmed string is its own `strip()`, and only all-whitespace text
      strips to nothing. */
  lemma StripFixes(s: string)
    ensures IsTrimmed(s) ==> Strip(s) == s
    ensures AllSpace(s) <==> Strip(s) == []
  {
    StripSpec(s);
    var a := LeadingSpaces(s);
    var r := Strip(s);
    if IsTrimmed(s) && |s| > 0 {
      assert a == 0;
      assert s[a..] == s;
      assert TrailingSpaces(s) == 0;
    }
    if |r| == 0 {
      forall k | 0 <= k < |s|
        ensures IsSpace(s[k])
      {
        if k < a {
          assert s[..a][k] == s[k];
        } else {
          assert s[a..][k - a] == s[k];
        }
      }
    }
    if AllSpace(s) {
      LeadingAllSpace(s);
    }
  }

  /** Whitespace appended to a trimmed string is what `strip()` removes. */
  lemma StripTrailingSpace(s: string, w: string)
    requires IsTrimmed(s) && AllSpace(w)
    ensures Strip(s + w) == s
  {
    var x := s + w;
    if |s| > 0 {
      assert x[0] == s[0];
      assert LeadingSpaces(x) == 0;
      assert x[0..] == x;
      TrailingAfter(s, w);
      assert x[..|x| - |w|] == s;
    } else {
      assert x == w;
      StripFixes(x);
    }
  }

  /* ---------------------------------------------------------------------- */
  /* split() and ' '.join(...)                                               */

  /** Length of the run of non-whitespace characters `s` starts with. */
  function NonSpaceRun(s: string): (n: nat)
    ensures n <= |s|
    ensures forall k :: 0 <= k < n ==> !IsSpace(s[k])
    ensures n < |s| ==> IsSpace(s[n])
    decreases |s|
  {
    if |s| == 0 || IsSpace(s[0]) then 0 else 1 + NonSpaceRun(s[1..])
  }

  /** `str.split()` with no separator: the maximal non-whitespace runs, in order. */
  function Words(s: string): (ws: seq<string>)
    ensures forall k :: 0 <= k < |ws| ==> IsWord(ws[k])
    ensures |ws| == 0 <==> AllSpace(s)
    decreases |s|
  {
    if |s| == 0 then []
    else if IsSpace(s[0]) then Words(s[1..])
    else
      var n := NonSpaceRun(s);
      [s[..n]] + Words(s[n..])
  }

  /** A word followed by nothing or by whitespace is split off whole. */
  lemma {:induction false} WordsCons(w: string, t: string)
    requires IsWord(w)
    requires |t| == 0 || IsSpace(t[0])
    ensures Words(w + t) == [w] + Words(t)
  {
    var s := w + t;
    NonSpaceRunOf(w, t);
    assert s[..|w|] == w;
    assert s[|w|..] == t;
  }

  lemma {:induction false} NonSpaceRunOf(w: string, t: string)
    requires forall k :: 0 <= k < |w| ==> !IsSpace(w[k])
    requires |t| == 0 || IsSpace(t[0])
    ensures NonSpaceRun(w + t) == |w|
    decreases |w|
  {
    if |w| > 0 {
      assert (w + t)[1..] == w[1..] + t;
      NonSpaceRunOf(w[1..], t);
    } else {
      assert w + t == t;
    }
  }

  /** `' '.join(ws)`. */
  function JoinSpaced(ws: seq<string>): string
    decreases |ws|
  {
    if |ws| == 0 then ""
    else if |ws| == 1 then ws[0]
    else ws[0] + " " + JoinSpaced(ws[1..])
  }

  /** Splitting a space-joined list of words gives the words back. */
  lemma {:induction false} WordsOfJoin(ws: seq<string>)
    requires forall k :: 0 <= k < |ws| ==> IsWord(ws[k])
    ensures Words(JoinSpaced(ws)) == ws
    decreases |ws|
  {
    if |ws| == 0 {
    } else if |ws| == 1 {
      WordsCons(ws[0], "");
      assert ws[0] + "" == ws[0];
    } else {
      var rest := JoinSpaced(ws[1..]);
      assert ws[0] + " " + rest == ws[0] + (" " + rest);
      WordsCons(ws[0], " " + rest);
      assert (" " + rest)[1..] == rest;
      WordsOfJoin(ws[1..]);
      assert ws == [ws[0]] + ws[1..];
    }
  }

  /* ---------------------------------------------------------------------- */
  /* String ordering                                                         */

  /** Python's `str < str`: lexicographic by code point, a proper prefix first. */
  predicate Less(a: string, b: string)
    decreases |a|
  {
    |b| > 0 && (|a| == 0 || a[0] < b[0] || (a[0] == b[0] && Less(a[1..], b[1..])))
  }

  lemma {:induction false} LessIrreflexive(a: string)
    ensures !Less(a, a)
    decreases |a|
  {
    if |a| > 0 {
      LessIrreflexive(a[1..]);
    }
  }

  lemma {:induction false} LessTransitive(a: string, b: string, c: string)
    requires Less(a, b) && Less(b, c)
    ensures Less(a, c)
    decreases |a|
  {
    if |a| > 0 && a[0] == b[0] && b[0] == c[0] {
      LessTransitive(a[1..], b[1..], c[1..]);
    }
  }

  lemma {:induction false} LessTotal(a: string, b: string)
    requires a != b
    ensures Less(a, b) || Less(b, a)
    decreases |a|
  {
    if |a| > 0 && |b| > 0 && a[0] == b[0] {
      assert a == [a[0]] + a[1..] && b == [b[0]] + b[1..];
      LessTotal(a[1..], b[1..]);
    }
  }
}
