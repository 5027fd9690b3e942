/** The inline-to-standoff converter (convert_inline_to_standoff.py): finds
    every `<BIBL>...</BIBL>` block of a text, emits the block's own content
    with all markup removed, then one entry per `<X>...</X>` pair inside the
    block, and serialises the entries as `tag: content` lines.

    The two regular expressions of the Python code are written out as explicit
    leftmost, non-overlapping scanners over the text. */
module Standoff {
  import opened Wrappers
  import opened Text

  /** One standoff entry: a tag name and the text it annotated. */
  datatype Entry = Entry(tag: string, content: string)

  const BiblTag: string := "BIBL"
  const BiblOpen: string := "<BIBL>"
  const BiblClose: string := "</BIBL>"

  /** The opening tag `<name>`. */
  function OpenTag(name: string): string {
    "<" + name + ">"
  }

  /** The closing tag `</name>` that the back-reference `</\1>` requires. */
  function CloseTag(name: string): string {
    "</" + name + ">"
  }

  /** Only the first character of a closing tag is a `<`, so two of them
      can never overlap. */
  lemma CloseTagShape(name: string)
    requires IsWordRun(name)
    ensures |CloseTag(name)| == |name| + 3
    ensures CloseTag(name)[0] == '<' && '<' !in CloseTag(name)[1..]
  {
    WordRunIsWord(name);
    assert CloseTag(name)[1..] == "/" + name + ">";
  }

  lemma BiblDelimiters()
    ensures BiblOpen == OpenTag(BiblTag) && BiblClose == CloseTag(BiblTag)
    ensures BiblOpen[0] == '<' && '<' !in BiblOpen[1..]
    ensures BiblClose[0] == '<' && '<' !in BiblClose[1..]
  {
    assert BiblOpen[1..] == "BIBL>";
    assert BiblClose[1..] == "/BIBL>";
  }

  /* ---------------------------------------------------------------------- */
  /* clean_inner_tags: re.sub(r"<[^>]+>", "", content)                       */

  /** A span `<[^>]+>` starts at index `i` of `s`: a `<`, at least one
      character other than `>`, then a `>`. */
  predicate TagSpanAt(s: string, i: nat) {
    i + 3 <= |s| && s[i] == '<' && s[i + 1] != '>' && exists j :: i + 2 <= j < |s| && s[j] == '>'
  }

  /** `a` can be obtained from `b` by deleting characters. */
  predicate IsSubsequence(a: string, b: string)
    decreases |b|
  {
    |a| == 0 ||
    (|b| > 0 && ((a[0] == b[0] && IsSubsequence(a[1..], b[1..])) || IsSubsequence(a, b[1..])))
  }

  lemma {:induction false} SubsequenceOfSuffix(a: string, b: string, k: nat)
    requires k <= |b| && IsSubsequence(a, b[k..])
    ensures IsSubsequence(a, b)
    decreases k
  {
    if k > 0 {
      assert b[k - 1..][1..] == b[k..];
      SubsequenceOfSuffix(a, b, k - 1);
    }
  }

  /** The regular expression's decision at the start of `s`: the first `>`
      after the `<` closes the span, and it must not be the very next
      character. */
  lemma TagSpanByFind(s: string)
    requires |s| > 0
    ensures TagSpanAt(s, 0) <==>
            (s[0] == '<' && FindIn(s[1..], ">").Some? && FindIn(s[1..], ">").value >= 1)
  {
    var t := s[1..];
    FindInChar(t, '>');
    assert ">" == ['>'];
    assert forall j :: 1 <= j < |s| ==> s[j] == t[j - 1];
    if FindIn(t, ">").Some? {
      var k := FindIn(t, ">").value;
      assert forall j :: 0 <= j < k ==> t[..k][j] == t[j];
    }
  }

  /** Every character of a subsequence occurs in the original. */
  lemma {:induction false} SubsequenceMembers(a: string, b: string)
    requires IsSubsequence(a, b)
    ensures forall i :: 0 <= i < |a| ==> a[i] in b
    decreases |b|
  {
    if |a| > 0 {
      if a[0] == b[0] && IsSubsequence(a[1..], b[1..]) {
        SubsequenceMembers(a[1..], b[1..]);
        forall i | 1 <= i < |a|
          ensures a[i] in b
        {
          assert a[i] == a[1..][i - 1];
          var j :| 0 <= j < |b[1..]| && b[1..][j] == a[i];
          assert b[j + 1] == a[i];
        }
      } else {
        SubsequenceMembers(a, b[1..]);
        forall i | 0 <= i < |a|
          ensures a[i] in b
        {
          var j :| 0 <= j < |b[1..]| && b[1..][j] == a[i];
          assert b[j + 1] == a[i];
        }
      }
    }
  }

  /** `clean_inner_tags`: removes, left to right, every span `<[^>]+>`. */
  function CleanInnerTags(s: string): (r: string)
    ensures |r| <= |s|
    decreases |s|
  {
    if |s| == 0 then []
    else if s[0] == '<' && FindIn(s[1..], ">").Some? && FindIn(s[1..], ">").value >= 1 then
      CleanInnerTags(s[FindIn(s[1..], ">").value + 2..])
    else
      [s[0]] + CleanInnerTags(s[1..])
  }

  /** Cleaning only deletes characters. */
  lemma {:induction false} CleanDeletes(s: string)
    ensures IsSubsequence(CleanInnerTags(s), s)
    ensures forall i :: 0 <= i < |CleanInnerTags(s)| ==> CleanInnerTags(s)[i] in s
    decreases |s|
  {
    if |s| > 0 {
      if s[0] == '<' && FindIn(s[1..], ">").Some? && FindIn(s[1..], ">").value >= 1 {
        var e := FindIn(s[1..], ">").value + 2;
        CleanDeletes(s[e..]);
        SubsequenceOfSuffix(CleanInnerTags(s[e..]), s, e);
      } else {
        CleanDeletes(s[1..]);
        assert CleanInnerTags(s)[1..] == CleanInnerTags(s[1..]);
      }
    }
    SubsequenceMembers(CleanInnerTags(s), s);
  }

  /** No span `<[^>]+>` is left anywhere in the result. */
  lemma {:induction false} CleanNoSpans(s: string)
    ensures forall i :: 0 <= i < |CleanInnerTags(s)| ==> !TagSpanAt(CleanInnerTags(s), i)
    decreases |s|
  {
    if |s| > 0 {
      if s[0] == '<' && FindIn(s[1..], ">").Some? && FindIn(s[1..], ">").value >= 1 {
        CleanNoSpans(s[FindIn(s[1..], ">").value + 2..]);
      } else {
        var rest := CleanInnerTags(s[1..]);
        var r := [s[0]] + rest;
        assert CleanInnerTags(s) == r;
        CleanNoSpans(s[1..]);
        assert forall i :: 1 <= i < |r| ==> r[i] == rest[i - 1];
        assert forall i :: 1 <= i < |r| ==> TagSpanAt(r, i) == TagSpanAt(rest, i - 1);
        if s[0] == '<' && |r| >= 3 {
          FindInChar(s[1..], '>');
          assert ">" == ['>'];
          if FindIn(s[1..], ">").None? {
            CleanDeletes(s[1..]);
            assert '>' !in rest;
          } else {
            assert s[1..][0] == '>';
            assert rest[0] == '>';
          }
        }
      }
    }
  }

  /** A string with no `<[^>]+>` span is left unchanged. */
  lemma {:induction false} CleanFixpoint(s: string)
    requires forall i :: 0 <= i < |s| ==> !TagSpanAt(s, i)
    ensures CleanInnerTags(s) == s
    decreases |s|
  {
    if |s| > 0 {
      TagSpanByFind(s);
      forall i | 0 <= i < |s[1..]|
        ensures !TagSpanAt(s[1..], i)
      {
        assert TagSpanAt(s[1..], i) ==> TagSpanAt(s, i + 1);
      }
      CleanFixpoint(s[1..]);
    }
  }

  /** Text without `<` is left as it is. */
  lemma CleanPlain(s: string)
    requires '<' !in s
    ensures CleanInnerTags(s) == s
  {
    CleanFixpoint(s);
  }

  /** Cleaning twice is cleaning once. */
  lemma CleanIdempotent(s: string)
    ensures CleanInnerTags(CleanInnerTags(s)) == CleanInnerTags(s)
  {
    CleanNoSpans(s);
    CleanFixpoint(CleanInnerTags(s));
  }

  /** Text without `<` passes through cleaning unchanged, whatever follows. */
  lemma {:induction false} CleanText(gap: string, rest: string)
    requires '<' !in gap
    ensures CleanInnerTags(gap + rest) == gap + CleanInnerTags(rest)
    decreases |gap|
  {
    if |gap| > 0 {
      assert (gap + rest)[0] == gap[0];
      assert (gap + rest)[1..] == gap[1..] + rest;
      CleanText(gap[1..], rest);
      assert gap + CleanInnerTags(rest) == [gap[0]] + (gap[1..] + CleanInnerTags(rest));
    } else {
      assert gap + rest == rest;
    }
  }

  /** A whole span `<...>` (at least one character inside, none of them `>`). */
  predicate IsTagSpan(t: string) {
    |t| >= 3 && t[0] == '<' && t[|t| - 1] == '>' && '>' !in t[1..|t| - 1]
  }

  /** A span at the front is deleted and cleaning goes on behind it. */
  lemma CleanSpan(span: string, rest: string)
    requires IsTagSpan(span)
    ensures CleanInnerTags(span + rest) == CleanInnerTags(rest)
  {
    var s := span + rest;
    var t := s[1..];
    var k := |span| - 2;
    assert t[k] == '>';
    assert t[..k] == span[1..|span| - 1];
    assert ">" == ['>'];
    assert t[k..][..1] == ">";
    FindInFirst(t, ">", k);
    FindInChar(t, '>');
    assert FindIn(t, ">").value == k;
    assert s[k + 2..] == rest;
  }

  /** Opening and closing tags are spans that cleaning deletes. */
  lemma TagsAreSpans(name: string)
    requires IsWordRun(name)
    ensures IsTagSpan(OpenTag(name)) && IsTagSpan(CloseTag(name))
  {
    WordRunIsWord(name);
    assert OpenTag(name)[1..|OpenTag(name)| - 1] == name;
    assert CloseTag(name)[1..|CloseTag(name)| - 1] == "/" + name;
    assert forall k :: 0 <= k < |name| ==> IsWordChar(name[k]);
  }

  /* ---------------------------------------------------------------------- */
  /* extract_bibl_tags: finditer(r"(<BIBL>(.*?)</BIBL>)", DOTALL)            */

  /** Some `<BIBL>` in `t` is followed, later on, by a `</BIBL>`. */
  predicate HasBlock(t: string) {
    exists o :: 0 <= o <= |t| && StartsWith(t[o..], BiblOpen) && Contains(t[o + |BiblOpen|..], BiblClose)
  }

  /** The contents of the `<BIBL>` blocks, in text order: from the first
      `<BIBL>` to the first `</BIBL>` after it, then again after that. */
  function BlockContents(t: string): seq<string>
    decreases |t|
  {
    match FindIn(t, BiblOpen)
    case None => []
    case Some(o) =>
      var u := t[o + |BiblOpen|..];
      match FindIn(u, BiblClose)
      case None => []
      case Some(c) => [u[..c]] + BlockContents(u[c + |BiblClose|..])
  }

  /** No block content contains `</BIBL>`: the lazy `.*?` stops at the first one. */
  lemma {:induction false} BlocksUnclosed(t: string)
    ensures forall k :: 0 <= k < |BlockContents(t)| ==> !Contains(BlockContents(t)[k], BiblClose)
    decreases |t|
  {
    match FindIn(t, BiblOpen)
    case None =>
    case Some(o) =>
      var u := t[o + |BiblOpen|..];
      match FindIn(u, BiblClose)
      case None =>
      case Some(c) =>
        FindInPrefixFree(u, BiblClose);
        BlocksUnclosed(u[c + |BiblClose|..]);
  }

  /** The scanner finds nothing exactly when no `<BIBL>` is followed by a
      `</BIBL>`. */
  lemma BlocksNone(t: string)
    ensures BlockContents(t) == [] <==> !HasBlock(t)
  {
    match FindIn(t, BiblOpen)
    case None =>
      forall o | 0 <= o <= |t| && StartsWith(t[o..], BiblOpen)
        ensures false
      {
        ContainsAt(t, BiblOpen, o);
      }
    case Some(o) =>
      FindInAt(t, BiblOpen);
      var u := t[o + |BiblOpen|..];
      if FindIn(u, BiblClose).None? {
        forall o' | 0 <= o' <= |t| && StartsWith(t[o'..], BiblOpen)
          ensures !Contains(t[o' + |BiblOpen|..], BiblClose)
        {
          FindInFirst(t, BiblOpen, o');
          var d := o' - o;
          assert u[d..] == t[o' + |BiblOpen|..];
          if Contains(t[o' + |BiblOpen|..], BiblClose) {
            ContainsSuffix(u, BiblClose, d);
          }
        }
      }
  }

  /** A block after text free of `<BIBL>` is the first block found, and its
      content ends at the first `</BIBL>`. */
  lemma BlocksCons(gap: string, c: string, rest: string)
    requires !Contains(gap, BiblOpen)
    requires !Contains(c, BiblClose)
    ensures BlockContents(gap + (BiblOpen + (c + (BiblClose + rest)))) == [c] + BlockContents(rest)
  {
    var x := c + (BiblClose + rest);
    BiblDelimiters();
    NoStraddle(gap, BiblOpen, x);
    SplitAt(gap, BiblOpen, x);
    NoStraddle(c, BiblClose, rest);
    SplitAt(c, BiblClose, rest);
  }

  /** Text between blocks; `gaps[k]` precedes block `k` and the last gap
      follows the last block. */
  function RenderBlocks(gaps: seq<string>, cs: seq<string>): string
    requires |gaps| == |cs| + 1
    decreases |cs|
  {
    if |cs| == 0 then gaps[0]
    else gaps[0] + (BiblOpen + (cs[0] + (BiblClose + RenderBlocks(gaps[1..], cs[1..]))))
  }

  /** Whatever lies outside the blocks, the scanner recovers exactly the
      block contents, in order. */
  lemma {:induction false} BlocksOfRender(gaps: seq<string>, cs: seq<string>)
    requires |gaps| == |cs| + 1
    requires forall k :: 0 <= k < |gaps| ==> !Contains(gaps[k], BiblOpen)
    requires forall k :: 0 <= k < |cs| ==> !Contains(cs[k], BiblClose)
    ensures BlockContents(RenderBlocks(gaps, cs)) == cs
    decreases |cs|
  {
    if |cs| > 0 {
      BlocksCons(gaps[0], cs[0], RenderBlocks(gaps[1..], cs[1..]));
      BlocksOfRender(gaps[1..], cs[1..]);
    }
  }

  /* ---------------------------------------------------------------------- */
  /* extract_inner_tags: finditer(r"<(\w+)>(.*?)</\1>", DOTALL)              */

  /** A match of the inner-tag expression at the start of a string: the tag
      name, the content between the tags and the length matched. */
  datatype TagMatch = TagMatch(name: string, content: string, len: nat)

  /** The rest of a match once `<name>` has been read from a text whose
      remainder is `body`: the content is the shortest one followed by
      `</name>`. */
  function MatchBody(name: string, body: string): (m: Option<TagMatch>)
    ensures m.Some? ==> m.value.name == name && |m.value.content| <= |body|
    ensures m.Some? ==> m.value.len == |name| + 2 + |m.value.content| + |CloseTag(name)|
    ensures m.Some? ==> |m.value.content| + |CloseTag(name)| <= |body|
  {
    match FindIn(body, CloseTag(name))
    case None => None
    case Some(c) => Some(TagMatch(name, body[..c], |name| + 2 + c + |CloseTag(name)|))
  }

  /** The match of `<(\w+)>(.*?)</\1>` that starts at index 0 of `s`: the
      name is the whole word run after `<` and must be followed by `>`. */
  function MatchTag(s: string): (m: Option<TagMatch>)
    ensures m.Some? ==> IsWordRun(m.value.name)
    ensures m.Some? ==> 0 < m.value.len <= |s|
  {
    if |s| == 0 || s[0] != '<' then None
    else
      var n := WordRunLength(s[1..]);
      if n == 0 || n + 1 >= |s| || s[n + 1] != '>' then None
      else
        var name := s[1..n + 1];
        assert forall k :: 0 <= k < n ==> name[k] == s[1..][k];
        MatchBody(name, s[n + 2..])
  }

  /** The text starts with the opening tag of the name read from it. */
  lemma OpenTagAt(s: string, name: string)
    requires |name| + 2 <= |s| && s[0] == '<' && s[1..|name| + 1] == name && s[|name| + 1] == '>'
    ensures s[..|name| + 2] == OpenTag(name)
  {
    forall i | 1 <= i <= |name|
      ensures s[..|name| + 2][i] == OpenTag(name)[i]
    {
      assert s[1..|name| + 1][i - 1] == s[i];
    }
  }

  /** What a successful match has read from the text. */
  lemma MatchTagRead(s: string)
    requires MatchTag(s).Some?
    ensures var m := MatchTag(s).value;
            && |m.name| + 2 <= |s|
            && s[..|m.name| + 2] == OpenTag(m.name)
            && MatchBody(m.name, s[|m.name| + 2..]) == Some(m)
  {
    var n := WordRunLength(s[1..]);
    OpenTagAt(s, s[1..n + 1]);
  }

  /** A successful `MatchBody` reads a content free of the closing tag, then
      the closing tag. */
  lemma MatchBodyRead(name: string, body: string)
    requires MatchBody(name, body).Some?
    ensures var m := MatchBody(name, body).value;
            && body[..|m.content|] == m.content
            && body[|m.content|..][..|CloseTag(name)|] == CloseTag(name)
            && !Contains(m.content, CloseTag(name))
  {
    FindInAt(body, CloseTag(name));
    if |CloseTag(name)| > 0 {
      FindInPrefixFree(body, CloseTag(name));
    }
  }

  /** A match is an opening tag, a content free of the closing tag, and the
      closing tag, at the start of the scanned text. */
  lemma MatchTagShape(s: string)
    requires MatchTag(s).Some?
    ensures var m := MatchTag(s).value;
            && m.len == |OpenTag(m.name)| + |m.content| + |CloseTag(m.name)|
            && s[..m.len] == OpenTag(m.name) + (m.content + CloseTag(m.name))
            && !Contains(m.content, CloseTag(m.name))
  {
    var m := MatchTag(s).value;
    MatchTagRead(s);
    MatchBodyRead(m.name, s[|m.name| + 2..]);
    ConcatPrefix(s, OpenTag(m.name), m.content, CloseTag(m.name));
  }

  /** `extract_inner_tags`: the inner-tag matches of `s`, left to right and
      non-overlapping, each content trimmed. Where no match starts, the scan
      moves on by one character. */
  function InnerTags(s: string): seq<Entry>
    decreases |s|
  {
    if |s| == 0 then []
    else
      match MatchTag(s)
      case Some(m) => [Entry(m.name, Strip(m.content))] + InnerTags(s[m.len..])
      case None => InnerTags(s[1..])
  }

  /** Every reported tag is closed somewhere in the scanned text. */
  lemma {:induction false} InnerTagsClosed(s: string)
    ensures forall k :: 0 <= k < |InnerTags(s)| ==> Contains(s, CloseTag(InnerTags(s)[k].tag))
    decreases |s|
  {
    if |s| > 0 {
      match MatchTag(s)
      case Some(m) =>
        var n := |m.name|;
        var body := s[n + 2..];
        assert FindIn(body, CloseTag(m.name)).Some?;
        ContainsSuffix(s, CloseTag(m.name), n + 2);
        InnerTagsClosed(s[m.len..]);
        forall pat | Contains(s[m.len..], pat)
          ensures Contains(s, pat)
        {
          ContainsSuffix(s, pat, m.len);
        }
      case None =>
        InnerTagsClosed(s[1..]);
        forall pat | Contains(s[1..], pat)
          ensures Contains(s, pat)
        {
          ContainsSuffix(s, pat, 1);
        }
    }
  }

  /** Text without `<` never starts a match and is skipped. */
  lemma {:induction false} InnerSkipsText(gap: string, t: string)
    requires '<' !in gap
    ensures InnerTags(gap + t) == InnerTags(t)
    decreases |gap|
  {
    if |gap| > 0 {
      assert (gap + t)[0] == gap[0];
      assert (gap + t)[1..] == gap[1..] + t;
      InnerSkipsText(gap[1..], t);
    } else {
      assert gap + t == t;
    }
  }

  /** What the scanner reads from an opening tag at the start of a text. */
  lemma OpenTagPrefix(name: string, x: string)
    requires IsWordRun(name)
    ensures var s := OpenTag(name) + x;
            && |s| > |name| + 1 && s[0] == '<'
            && WordRunLength(s[1..]) == |name|
            && s[1..|name| + 1] == name && s[|name| + 1] == '>'
            && s[|name| + 2..] == x
            && s[1..] == (name + ">") + x
  {
    var s := OpenTag(name) + x;
    assert s[1..] == name + (">" + x);
    WordRunLengthOf(name, ">" + x);
  }

  /** After an opening tag the scanner goes on with the text behind it. */
  lemma MatchTagOpen(name: string, x: string)
    requires IsWordRun(name)
    ensures MatchTag(OpenTag(name) + x) == MatchBody(name, x)
  {
    OpenTagPrefix(name, x);
  }

  /** `MatchBody` where the closing tag is first found at `c`. */
  lemma MatchBodyAt(name: string, body: string, content: string)
    requires FindIn(body, CloseTag(name)) == Some(|content|) && body[..|content|] == content
    ensures MatchBody(name, body) == Some(TagMatch(name, content, |name| + 2 + |content| + |CloseTag(name)|))
  {
  }

  /** The content ends at the first `</name>`. */
  lemma MatchBodyOf(name: string, content: string, rest: string)
    requires IsWordRun(name)
    requires !Contains(content, CloseTag(name))
    ensures MatchBody(name, content + (CloseTag(name) + rest))
            == Some(TagMatch(name, content, |name| + 2 + |content| + |CloseTag(name)|))
  {
    CloseTagShape(name);
    NoStraddle(content, CloseTag(name), rest);
    SplitAt(content, CloseTag(name), rest);
    MatchBodyAt(name, content + (CloseTag(name) + rest), content);
  }

  /** How the inner-tag expression matches a well-paired tag: the name is
      read up to the `>`, and the content ends at the first `</name>`. */
  lemma MatchTagOf(e: Entry, rest: string)
    requires IsWordRun(e.tag)
    requires !Contains(e.content, CloseTag(e.tag))
    ensures MatchTag(OpenTag(e.tag) + (e.content + (CloseTag(e.tag) + rest)))
            == Some(TagMatch(e.tag, e.content, |e.tag| + 2 + |e.content| + |CloseTag(e.tag)|))
  {
    MatchTagOpen(e.tag, e.content + (CloseTag(e.tag) + rest));
    MatchBodyOf(e.tag, e.content, rest);
  }

  /** One step of the scan at a text where a match starts. */
  lemma InnerStep(s: string, m: TagMatch, rest: string)
    requires MatchTag(s) == Some(m) && s[m.len..] == rest
    ensures InnerTags(s) == [Entry(m.name, Strip(m.content))] + InnerTags(rest)
  {
  }

  /** A tag pair whose content holds no `</name>` is matched whole; its
      content is kept verbatim (nested markup included) before trimming. */
  lemma InnerCons(e: Entry, rest: string)
    requires IsWordRun(e.tag)
    requires !Contains(e.content, CloseTag(e.tag))
    ensures InnerTags(OpenTag(e.tag) + (e.content + (CloseTag(e.tag) + rest)))
            == [Entry(e.tag, Strip(e.content))] + InnerTags(rest)
  {
    var m := TagMatch(e.tag, e.content, |e.tag| + 2 + |e.content| + |CloseTag(e.tag)|);
    MatchTagOf(e, rest);
    SplitAfter(OpenTag(e.tag), e.content, CloseTag(e.tag), rest);
    InnerStep(OpenTag(e.tag) + (e.content + (CloseTag(e.tag) + rest)), m, rest);
  }

  /** An opening tag that is never closed does not hide the pairs after it:
      the scan moves past it. */
  lemma InnerSkipsUnclosed(name: string, t: string)
    requires IsWordRun(name)
    requires !Contains(t, CloseTag(name))
    ensures InnerTags(OpenTag(name) + t) == InnerTags(t)
  {
    OpenTagPrefix(name, t);
    WordRunIsWord(name);
    InnerSkipsText(name + ">", t);
  }

  /** Entries with their contents trimmed. */
  function Trimmed(es: seq<Entry>): (r: seq<Entry>)
    ensures |r| == |es|
    ensures forall k :: 0 <= k < |es| ==> r[k] == Entry(es[k].tag, Strip(es[k].content))
  {
    seq(|es|, k requires 0 <= k < |es| => Entry(es[k].tag, Strip(es[k].content)))
  }

  /** Inline markup for a list of entries, with plain text between them. */
  function RenderTags(gaps: seq<string>, es: seq<Entry>): string
    requires |gaps| == |es| + 1
    decreases |es|
  {
    if |es| == 0 then gaps[0]
    else gaps[0] + (OpenTag(es[0].tag) + (es[0].content + (CloseTag(es[0].tag) + RenderTags(gaps[1..], es[1..]))))
  }

  /** Rendering entries as inline markup and scanning it gives the entries
      back, in order, with their contents trimmed. */
  lemma {:induction false} InnerTagsOfRender(gaps: seq<string>, es: seq<Entry>)
    requires |gaps| == |es| + 1
    requires forall k :: 0 <= k < |gaps| ==> '<' !in gaps[k]
    requires forall k :: 0 <= k < |es| ==>
               IsWordRun(es[k].tag) && !Contains(es[k].content, CloseTag(es[k].tag))
    ensures InnerTags(RenderTags(gaps, es)) == Trimmed(es)
    decreases |es|
  {
    if |es| == 0 {
      InnerSkipsText(gaps[0], "");
      assert gaps[0] + "" == gaps[0];
    } else {
      var e := es[0];
      var rest := RenderTags(gaps[1..], es[1..]);
      InnerSkipsText(gaps[0], OpenTag(e.tag) + (e.content + (CloseTag(e.tag) + rest)));
      InnerCons(e, rest);
      InnerTagsOfRender(gaps[1..], es[1..]);
      TrimmedCons(es);
    }
  }

  lemma TrimmedCons(es: seq<Entry>)
    requires |es| > 0
    ensures Trimmed(es) == [Entry(es[0].tag, Strip(es[0].content))] + Trimmed(es[1..])
  {
    var r := [Entry(es[0].tag, Strip(es[0].content))] + Trimmed(es[1..]);
    assert forall k :: 1 <= k < |es| ==> r[k] == Trimmed(es[1..])[k - 1];
  }

  /* ---------------------------------------------------------------------- */
  /* Entries of a text                                                       */

  /** The entries of one block: the block's own cleaned content first, then
      its inner tags. */
  function BlockEntries(c: string): seq<Entry> {
    [Entry(BiblTag, Strip(CleanInnerTags(c)))] + InnerTags(c)
  }

  function EntriesOf(cs: seq<string>): seq<Entry>
    decreases |cs|
  {
    if |cs| == 0 then [] else BlockEntries(cs[0]) + EntriesOf(cs[1..])
  }

  /** `extract_bibl_tags`. */
  function ExtractBibl(t: string): seq<Entry> {
    EntriesOf(BlockContents(t))
  }

  /** Every entry has a word-character tag and a trimmed content. */
  predicate WellShaped(es: seq<Entry>) {
    forall k :: 0 <= k < |es| ==> IsWordRun(es[k].tag) && IsTrimmed(es[k].content)
  }

  lemma WellShapedAppend(a: seq<Entry>, b: seq<Entry>)
    requires WellShaped(a) && WellShaped(b)
    ensures WellShaped(a + b)
  {
    forall k | 0 <= k < |a + b|
      ensures IsWordRun((a + b)[k].tag) && IsTrimmed((a + b)[k].content)
    {
      if k >= |a| {
        assert (a + b)[k] == b[k - |a|];
      } else {
        assert (a + b)[k] == a[k];
      }
    }
  }

  lemma ShapeCons(e: Entry, es: seq<Entry>)
    requires IsWordRun(e.tag) && IsTrimmed(e.content) && WellShaped(es)
    ensures WellShaped([e] + es)
  {
    WellShapedAppend([e], es);
  }

  /** Every inner tag has a word-character name and a trimmed content. */
  lemma {:induction false} InnerTagsShape(s: string)
    ensures WellShaped(InnerTags(s))
    decreases |s|
  {
    if |s| > 0 {
      match MatchTag(s)
      case Some(m) =>
        InnerTagsShape(s[m.len..]);
        ShapeCons(Entry(m.name, Strip(m.content)), InnerTags(s[m.len..]));
      case None =>
        InnerTagsShape(s[1..]);
    }
  }

  lemma BlockEntriesShape(c: string)
    ensures WellShaped(BlockEntries(c)) && |BlockEntries(c)| >= 1
  {
    assert IsWordRun(BiblTag);
    InnerTagsShape(c);
    ShapeCons(Entry(BiblTag, Strip(CleanInnerTags(c))), InnerTags(c));
  }

  lemma {:induction false} EntriesShape(cs: seq<string>)
    ensures WellShaped(EntriesOf(cs))
    ensures |EntriesOf(cs)| >= |cs|
    decreases |cs|
  {
    if |cs| > 0 {
      EntriesShape(cs[1..]);
      BlockEntriesShape(cs[0]);
      WellShapedAppend(BlockEntries(cs[0]), EntriesOf(cs[1..]));
    }
  }

  /** Number of entries carrying `tag`. */
  function CountTag(es: seq<Entry>, tag: string): nat
    decreases |es|
  {
    if |es| == 0 then 0 else (if es[0].tag == tag then 1 else 0) + CountTag(es[1..], tag)
  }

  lemma {:induction false} CountTagAppend(a: seq<Entry>, b: seq<Entry>, tag: string)
    ensures CountTag(a + b, tag) == CountTag(a, tag) + CountTag(b, tag)
    decreases |a|
  {
    if |a| > 0 {
      assert (a + b)[1..] == a[1..] + b;
      CountTagAppend(a[1..], b, tag);
    } else {
      assert a + b == b;
    }
  }

  lemma {:induction false} CountAbsent(es: seq<Entry>, tag: string)
    requires forall k :: 0 <= k < |es| ==> es[k].tag != tag
    ensures CountTag(es, tag) == 0
    decreases |es|
  {
    if |es| > 0 {
      CountAbsent(es[1..], tag);
    }
  }

  lemma CountHead(x: string, inner: seq<Entry>)
    requires forall k :: 0 <= k < |inner| ==> inner[k].tag != BiblTag
    ensures CountTag([Entry(BiblTag, x)] + inner, BiblTag) == 1
  {
    CountAbsent(inner, BiblTag);
    CountTagAppend([Entry(BiblTag, x)], inner, BiblTag);
  }

  /** A block yields exactly one `BIBL` entry: no inner pair can be named
      `BIBL`, because a block never contains `</BIBL>`. */
  lemma BlockBiblCount(c: string)
    requires !Contains(c, BiblClose)
    ensures CountTag(BlockEntries(c), BiblTag) == 1
  {
    BiblDelimiters();
    InnerTagsClosed(c);
    CountHead(Strip(CleanInnerTags(c)), InnerTags(c));
  }

  lemma CountEntriesCons(cs: seq<string>, tag: string, a: nat, b: nat)
    requires |cs| > 0
    requires CountTag(BlockEntries(cs[0]), tag) == a && CountTag(EntriesOf(cs[1..]), tag) == b
    ensures CountTag(EntriesOf(cs), tag) == a + b
  {
    CountTagAppend(BlockEntries(cs[0]), EntriesOf(cs[1..]), tag);
  }

  lemma {:induction false} BiblCountOf(cs: seq<string>)
    requires forall k :: 0 <= k < |cs| ==> !Contains(cs[k], BiblClose)
    ensures CountTag(EntriesOf(cs), BiblTag) == |cs|
    decreases |cs|
  {
    if |cs| > 0 {
      BlockBiblCount(cs[0]);
      BiblCountOf(cs[1..]);
      CountEntriesCons(cs, BiblTag, 1, |cs| - 1);
    }
  }

  /** The extractor's promises: one `BIBL` entry per block, all contents
      trimmed, and nothing at all for a text without a complete block. */
  lemma ExtractBiblShape(t: string)
    ensures var r := ExtractBibl(t);
            && CountTag(r, BiblTag) == |BlockContents(t)|
            && WellShaped(r)
            && (r == [] <==> !HasBlock(t))
  {
    var cs := BlockContents(t);
    BlocksUnclosed(t);
    BlocksNone(t);
    BiblCountOf(cs);
    EntriesShape(cs);
  }

  /** A block's entries come first, then those of the text after it; text
      before the block that holds no `<BIBL>` contributes nothing. */
  lemma ExtractCons(gap: string, c: string, rest: string)
    requires !Contains(gap, BiblOpen)
    requires !Contains(c, BiblClose)
    ensures ExtractBibl(gap + (BiblOpen + (c + (BiblClose + rest)))) == BlockEntries(c) + ExtractBibl(rest)
  {
    BlocksCons(gap, c, rest);
    assert ([c] + BlockContents(rest))[1..] == BlockContents(rest);
  }

  /** Text outside the blocks never affects the entries. */
  lemma ExtractOfRender(gaps: seq<string>, cs: seq<string>)
    requires |gaps| == |cs| + 1
    requires forall k :: 0 <= k < |gaps| ==> !Contains(gaps[k], BiblOpen)
    requires forall k :: 0 <= k < |cs| ==> !Contains(cs[k], BiblClose)
    ensures ExtractBibl(RenderBlocks(gaps, cs)) == EntriesOf(cs)
  {
    BlocksOfRender(gaps, cs);
  }

  /* ---------------------------------------------------------------------- */
  /* Worked examples                                                         */

  /** Text without `<` contains no tag. */
  lemma NoTagIn(x: string, name: string)
    requires '<' !in x
    ensures !Contains(x, CloseTag(name))
  {
    if Contains(x, CloseTag(name)) {
      ContainsChars(x, CloseTag(name), 0);
    }
  }

  /** A block holding one inner pair followed by plain text, as in
      `<BIBL><AUTHOR>Smith</AUTHOR> 1990</BIBL>`: the `BIBL` entry keeps the
      text inside the pair with only the tags removed, and the pair follows. */
  lemma BlockOfOnePair(name: string, x: string, y: string)
    requires IsWordRun(name)
    requires '<' !in x && '<' !in y
    requires !Contains(OpenTag(name) + (x + (CloseTag(name) + y)), BiblClose)
    ensures ExtractBibl(BiblOpen + (OpenTag(name) + (x + (CloseTag(name) + y))) + BiblClose)
            == [Entry(BiblTag, Strip(x + y)), Entry(name, Strip(x))]
  {
    var c := OpenTag(name) + (x + (CloseTag(name) + y));
    assert BiblOpen + c + BiblClose == "" + (BiblOpen + (c + (BiblClose + "")));
    ExtractCons("", c, "");
    assert ExtractBibl("") == [];
    TagsAreSpans(name);
    CleanSpan(OpenTag(name), x + (CloseTag(name) + y));
    CleanText(x, CloseTag(name) + y);
    CleanSpan(CloseTag(name), y);
    CleanText(y, "");
    assert x + (y + "") == x + y;
    NoTagIn(x, name);
    InnerCons(Entry(name, x), y);
    InnerSkipsText(y, "");
    assert y + "" == y;
    assert CleanInnerTags(c) == x + y;
    assert InnerTags(c) == [Entry(name, Strip(x))];
    assert BlockEntries(c) == [Entry(BiblTag, Strip(x + y)), Entry(name, Strip(x))];
  }

  /** Text without a `B` holds no `</BIBL>`. */
  lemma NoBiblCloseIn(c: string)
    requires 'B' !in c
    ensures !Contains(c, BiblClose)
  {
    if Contains(c, BiblClose) {
      ContainsChars(c, BiblClose, 2);
    }
  }

  /** The concrete block above: the `BIBL` entry reads `Smith 1990`. */
  lemma ExampleBlock()
    ensures ExtractBibl(BiblOpen + (OpenTag("AUTHOR") + ("Smith" + (CloseTag("AUTHOR") + " 1990"))) + BiblClose)
            == [Entry("BIBL", "Smith 1990"), Entry("AUTHOR", "Smith")]
  {
    assert IsWordRun("AUTHOR");
    NoBiblCloseIn(OpenTag("AUTHOR") + ("Smith" + (CloseTag("AUTHOR") + " 1990")));
    BlockOfOnePair("AUTHOR", "Smith", " 1990");
    ExampleStrip("Smith", " 1990");
  }

  /** Both texts of the example are already trimmed. */
  lemma ExampleStrip(x: string, y: string)
    requires x == "Smith" && y == " 1990"
    ensures Strip(x + y) == "Smith 1990" && Strip(x) == "Smith"
  {
    assert x + y == "Smith 1990";
    StripFixes(x + y);
    StripFixes(x);
  }

  /* ---------------------------------------------------------------------- */
  /* The standoff line format                                                */

  /** One output line: `f"{entry[0]}: {entry[1]}\n"`. */
  function FormatLine(e: Entry): string {
    e.tag + ": " + e.content + "\n"
  }

  /** The lines of the standoff file, one per entry, in entry order. */
  function Serialise(es: seq<Entry>): string
    decreases |es|
  {
    if |es| == 0 then "" else FormatLine(es[0]) + Serialise(es[1..])
  }
}
