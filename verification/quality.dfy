/** The annotation quality report of evaluate_tsv.py: the `&` escaping, the
    analysis record built around an XML parser that is a parameter here, and
    the summary column written for each row. */
module Quality {
  import opened Wrappers
  import opened Text
  import opened Sums
  import Overlap

  /* ---------------------------------------------------------------------- */
  /* Escaping                                                                */

  const Amp: string := "&amp;"

  /** `text.replace('&', '&amp;')`. */
  function Escape(s: string): string
    decreases |s|
  {
    if |s| == 0 then ""
    else if s[0] == '&' then Amp + Escape(s[1..])
    else [s[0]] + Escape(s[1..])
  }

  /** The inverse replacement, `&amp;` back to `&`, left to right. */
  function Unescape(s: string): string
    decreases |s|
  {
    if |s| == 0 then ""
    else if StartsWith(s, Amp) then "&" + Unescape(s[|Amp|..])
    else [s[0]] + Unescape(s[1..])
  }

  /** Every `&` starts an `&amp;`. */
  predicate AmpersandsEscaped(s: string) {
    forall i :: 0 <= i < |s| && s[i] == '&' ==> StartsWith(s[i..], Amp)
  }

  /** Unescaping undoes escaping, so no text is lost. */
  lemma {:induction false} EscapeRoundTrip(s: string)
    ensures Unescape(Escape(s)) == s
    decreases |s|
  {
    if |s| > 0 {
      var t := Escape(s[1..]);
      EscapeRoundTrip(s[1..]);
      if s[0] == '&' {
        var e := Amp + t;
        assert e[..|Amp|] == Amp;
        assert e[|Amp|..] == t;
        assert Unescape(e) == "&" + Unescape(t);
      } else {
        var e := [s[0]] + t;
        assert e[0] != Amp[0];
        assert !StartsWith(e, Amp);
        assert e[1..] == t;
      }
      assert s == [s[0]] + s[1..];
    }
  }

  /** Text without `&` is left alone. */
  lemma {:induction false} EscapeIdentity(s: string)
    requires '&' !in s
    ensures Escape(s) == s
    decreases |s|
  {
    if |s| > 0 {
      EscapeIdentity(s[1..]);
      assert s == [s[0]] + s[1..];
    }
  }

  /** Each `&` grows by four characters. */
  lemma {:induction false} EscapeLength(s: string)
    ensures |Escape(s)| == |s| + 4 * multiset(s)['&']
    decreases |s|
  {
    if |s| > 0 {
      EscapeLength(s[1..]);
      assert s == [s[0]] + s[1..];
      assert multiset(s) == multiset{s[0]} + multiset(s[1..]);
    }
  }

  /** Prefixing `&amp;`, or one character other than `&`, keeps every `&`
      escaped. */
  lemma EscapedCons(h: string, t: string)
    requires h == Amp || (|h| == 1 && h[0] != '&')
    requires AmpersandsEscaped(t)
    ensures AmpersandsEscaped(h + t)
  {
    var e := h + t;
    forall i | 0 <= i < |e| && e[i] == '&'
      ensures StartsWith(e[i..], Amp)
    {
      if i < |h| {
        assert i == 0 && h == Amp;
        assert e[i..][..|Amp|] == Amp;
      } else {
        assert e[i..] == t[i - |h|..];
      }
    }
  }

  /** Every `&` of the escaped text starts `&amp;`. */
  lemma {:induction false} EscapeEscapesAll(s: string)
    ensures AmpersandsEscaped(Escape(s))
    decreases |s|
  {
    if |s| > 0 {
      EscapeEscapesAll(s[1..]);
      if s[0] == '&' {
        EscapedCons(Amp, Escape(s[1..]));
      } else {
        EscapedCons([s[0]], Escape(s[1..]));
      }
    }
  }

  /* ---------------------------------------------------------------------- */
  /* Sorting and counting tags                                               */

  /** Strictly increasing under Python's string order, so free of duplicates. */
  predicate StrictlySorted(xs: seq<string>) {
    forall i, j :: 0 <= i < j < |xs| ==> Less(xs[i], xs[j])
  }

  /** Put `x` in its place in a sorted list, unless it is already there. */
  function Insert(x: string, xs: seq<string>): seq<string>
    decreases |xs|
  {
    if |xs| == 0 then [x]
    else if x == xs[0] then xs
    else if Less(x, xs[0]) then [x] + xs
    else [xs[0]] + Insert(x, xs[1..])
  }

  lemma {:induction false} InsertSpec(x: string, xs: seq<string>)
    requires StrictlySorted(xs)
    ensures StrictlySorted(Insert(x, xs))
    ensures Elements(Insert(x, xs)) == Elements(xs) + {x}
    decreases |xs|
  {
    if |xs| == 0 {
    } else if x == xs[0] {
      assert xs[0] in Elements(xs);
    } else if Less(x, xs[0]) {
      forall y | y in Elements(xs)
        ensures Less(x, y)
      {
        FirstIsLeast(xs, y);
        if y != xs[0] {
          LessTransitive(x, xs[0], y);
        }
      }
      SortedCons(x, xs);
      assert Elements([x] + xs) == {x} + Elements(xs);
    } else {
      LessTotal(x, xs[0]);
      RestElements(xs);
      InsertSpec(x, xs[1..]);
      var rest := Insert(x, xs[1..]);
      forall y | y in Elements(rest)
        ensures Less(xs[0], y)
      {
        if y != x {
          FirstIsLeast(xs, y);
        }
      }
      SortedCons(xs[0], rest);
      assert Elements([xs[0]] + rest) == {xs[0]} + Elements(rest);
    }
  }

  /** A value below every element of a sorted list may go in front. */
  lemma SortedCons(x: string, xs: seq<string>)
    requires StrictlySorted(xs)
    requires forall y :: y in Elements(xs) ==> Less(x, y)
    ensures StrictlySorted([x] + xs)
  {
    var r := [x] + xs;
    forall i, j | 0 <= i < j < |r|
      ensures Less(r[i], r[j])
    {
      if i == 0 {
        assert r[j] == xs[j - 1] && xs[j - 1] in Elements(xs);
      } else {
        assert r[i] == xs[i - 1] && r[j] == xs[j - 1];
      }
    }
  }

  /** Only the empty list has no elements. */
  lemma EmptyElements(xs: seq<string>)
    ensures |xs| == 0 <==> Elements(xs) == {}
  {
    if |xs| > 0 {
      assert xs[0] in Elements(xs);
    }
  }

  /** `sorted(set(tags))`. */
  function SortedTags(ts: seq<string>): seq<string>
    decreases |ts|
  {
    if |ts| == 0 then [] else Insert(ts[0], SortedTags(ts[1..]))
  }

  /** The sorted tag list holds each tag once, in order. */
  lemma {:induction false} SortedTagsSpec(ts: seq<string>)
    ensures StrictlySorted(SortedTags(ts))
    ensures Elements(SortedTags(ts)) == Elements(ts)
    decreases |ts|
  {
    if |ts| > 0 {
      SortedTagsSpec(ts[1..]);
      InsertSpec(ts[0], SortedTags(ts[1..]));
      assert Elements(ts) == Elements(ts[1..]) + {ts[0]};
    }
  }

  /** There is only one strictly sorted list of a given set of tags, so the
      sorted list does not depend on the order the tags were found in. */
  lemma {:induction false} SortedUnique(a: seq<string>, b: seq<string>)
    requires StrictlySorted(a) && StrictlySorted(b)
    requires Elements(a) == Elements(b)
    ensures a == b
    decreases |a|
  {
    EmptyElements(a);
    EmptyElements(b);
    if |a| > 0 {
      assert a[0] in Elements(b);
      assert b[0] in Elements(a);
      FirstIsLeast(a, b[0]);
      FirstIsLeast(b, a[0]);
      if a[0] != b[0] {
        LessTransitive(a[0], b[0], a[0]);
        LessIrreflexive(a[0]);
      }
      RestElements(a);
      RestElements(b);
      SortedUnique(a[1..], b[1..]);
      assert a == [a[0]] + a[1..] && b == [b[0]] + b[1..];
    }
  }

  /** The first element of a strictly sorted list is below every other. */
  lemma FirstIsLeast(a: seq<string>, x: string)
    requires StrictlySorted(a) && x in Elements(a)
    ensures a[0] == x || Less(a[0], x)
  {
    var k :| 0 <= k < |a| && a[k] == x;
    if k > 0 {
      assert Less(a[0], a[k]);
    }
  }

  /** The tail of a strictly sorted list is its set minus the first element. */
  lemma RestElements(a: seq<string>)
    requires StrictlySorted(a) && |a| > 0
    ensures StrictlySorted(a[1..])
    ensures Elements(a[1..]) == Elements(a) - {a[0]}
  {
    forall x | x in Elements(a[1..])
      ensures x != a[0]
    {
      var k :| 0 <= k < |a[1..]| && a[1..][k] == x;
      assert Less(a[0], a[k + 1]);
      LessIrreflexive(a[0]);
    }
    assert a == [a[0]] + a[1..];
    assert Elements(a) == {a[0]} + Elements(a[1..]);
  }

  /** `dict(Counter(tags))`. */
  function CountTags(ts: seq<string>): map<string, nat>
    decreases |ts|
  {
    if |ts| == 0 then map[]
    else
      var m := CountTags(ts[1..]);
      m[ts[0] := (if ts[0] in m then m[ts[0]] else 0) + 1]
  }

  /** The counts as a function, zero for a tag never seen. */
  function Tally(m: map<string, nat>): string -> nat {
    k => if k in m then m[k] else 0
  }

  /** The counter has exactly the tags seen, each with its number of
      occurrences. */
  lemma {:induction false} CountTagsSpec(ts: seq<string>)
    ensures CountTags(ts).Keys == Elements(ts)
    ensures forall t :: t in CountTags(ts) ==> CountTags(ts)[t] == multiset(ts)[t]
    decreases |ts|
  {
    if |ts| > 0 {
      CountTagsSpec(ts[1..]);
      assert ts == [ts[0]] + ts[1..];
      assert multiset(ts) == multiset{ts[0]} + multiset(ts[1..]);
      assert Elements(ts) == Elements(ts[1..]) + {ts[0]};
    }
  }

  /** Counting one more occurrence of `x` adds one to the total. */
  lemma TallyStep(m: map<string, nat>, x: string)
    ensures var n := m[x := (if x in m then m[x] else 0) + 1];
            Sum(n.Keys, Tally(n)) == Sum(m.Keys, Tally(m)) + 1
  {
    var n := m[x := (if x in m then m[x] else 0) + 1];
    SumCongruent(m.Keys - {x}, Tally(n), Tally(m));
    if x in m {
      assert n.Keys == m.Keys;
      SumRemove(n.Keys, Tally(n), x);
      SumRemove(m.Keys, Tally(m), x);
    } else {
      assert n.Keys == m.Keys + {x};
      assert m.Keys - {x} == m.Keys;
      SumInsert(m.Keys, Tally(n), x);
    }
  }

  /** The counts add up to the number of tags counted. */
  lemma {:induction false} CountTagsTotal(ts: seq<string>)
    ensures Sum(CountTags(ts).Keys, Tally(CountTags(ts))) == |ts|
    decreases |ts|
  {
    if |ts| > 0 {
      CountTagsTotal(ts[1..]);
      TallyStep(CountTags(ts[1..]), ts[0]);
    }
  }

  /* ---------------------------------------------------------------------- */
  /* The analysis                                                            */

  /** The tag of the element the text is wrapped in. */
  const Root: string := "root"

  /** What `ET.fromstring` gives: a parse error with its message, or the tags
      of all elements of the tree in document order, the root first. */
  datatype ParseOutcome = ParseError(message: string) | Parsed(tags: seq<string>)

  /** The analysis dictionary. */
  datatype Analysis = Analysis(
    wellFormed: bool,
    errorMessage: Option<string>,
    overlapping: bool,
    tagsUsed: seq<string>,
    tagCounts: map<string, nat>)

  /** What is handed to the parser: the escaped text inside a root element. */
  function Wrap(s: string): string {
    "<" + Root + ">" + Escape(s) + "</" + Root + ">"
  }

  /** The tags other than `root`. */
  function NonRoot(ts: seq<string>): seq<string>
    decreases |ts|
  {
    if |ts| == 0 then []
    else (if ts[0] == Root then [] else [ts[0]]) + NonRoot(ts[1..])
  }

  lemma {:induction false} NonRootCounts(ts: seq<string>)
    ensures multiset(NonRoot(ts)) == multiset(ts)[Root := 0]
    decreases |ts|
  {
    if |ts| > 0 {
      NonRootCounts(ts[1..]);
      assert ts == [ts[0]] + ts[1..];
      assert multiset(ts) == multiset{ts[0]} + multiset(ts[1..]);
    }
  }

  lemma {:induction false} NonRootLength(ts: seq<string>)
    ensures |NonRoot(ts)| == |ts| - multiset(ts)[Root]
    decreases |ts|
  {
    if |ts| > 0 {
      NonRootLength(ts[1..]);
      assert ts == [ts[0]] + ts[1..];
      assert multiset(ts) == multiset{ts[0]} + multiset(ts[1..]);
    }
  }

  /** Dropping `root` removes exactly its occurrences and keeps every other
      tag as often as it occurs. */
  lemma NonRootSpec(ts: seq<string>)
    ensures forall t :: t != Root ==> multiset(NonRoot(ts))[t] == multiset(ts)[t]
    ensures Elements(NonRoot(ts)) == Elements(ts) - {Root}
    ensures |NonRoot(ts)| == |ts| - multiset(ts)[Root]
  {
    NonRootCounts(ts);
    NonRootLength(ts);
    var r := NonRoot(ts);
    forall t
      ensures t in Elements(r) <==> t in Elements(ts) - {Root}
    {
      assert t in r <==> multiset(r)[t] > 0;
      assert t in ts <==> multiset(ts)[t] > 0;
    }
  }

  /** `analyze_annotations`. A parse error gives the record of defaults with
      the message; otherwise the overlap check runs on the text as given, and
      an error it raises reaches the caller. */
  function AnalyzeAnnotations(xml: string, parse: string -> ParseOutcome): Result<Analysis, string> {
    match parse(Wrap(xml))
    case ParseError(msg) => Success(Analysis(false, Some(msg), true, [], map[]))
    case Parsed(tags) =>
      var all := NonRoot(tags);
      match Overlap.Overlaps(xml)
      case Failure(e) => Failure(e)
      case Success(overlapping) =>
        Success(Analysis(true, None, overlapping, SortedTags(all), CountTags(all)))
  }

  /** The parser sees only the wrapped, escaped text. */
  lemma ParserInput(xml: string, p: string -> ParseOutcome, q: string -> ParseOutcome)
    requires p(Wrap(xml)) == q(Wrap(xml))
    ensures AnalyzeAnnotations(xml, p) == AnalyzeAnnotations(xml, q)
  {
  }

  /** After a parse error: not well-formed, overlapping, no tags, the message. */
  lemma AnalyzeParseError(xml: string, parse: string -> ParseOutcome, msg: string)
    requires parse(Wrap(xml)) == ParseError(msg)
    ensures AnalyzeAnnotations(xml, parse).Success?
    ensures var a := AnalyzeAnnotations(xml, parse).value;
            !a.wellFormed && a.errorMessage == Some(msg) && a.overlapping
            && a.tagsUsed == [] && a.tagCounts == map[]
  {
  }

  /** After a successful parse: the overlap answer for the text as given,
      the distinct non-root tags in sorted order, and their counts, which add
      up to the number of elements other than `root`. */
  lemma AnalyzeParsed(xml: string, parse: string -> ParseOutcome, tags: seq<string>)
    requires parse(Wrap(xml)) == Parsed(tags)
    ensures AnalyzeAnnotations(xml, parse).Failure? <==> Overlap.Overlaps(xml).Failure?
    ensures AnalyzeAnnotations(xml, parse).Success? ==>
              var a := AnalyzeAnnotations(xml, parse).value;
              && a.wellFormed && a.errorMessage == None
              && a.overlapping == Overlap.Overlaps(xml).value
              && StrictlySorted(a.tagsUsed)
              && Elements(a.tagsUsed) == a.tagCounts.Keys == Elements(tags) - {Root}
              && (forall t :: t in a.tagCounts ==> a.tagCounts[t] == multiset(tags)[t])
              && Sum(a.tagCounts.Keys, Tally(a.tagCounts)) == |tags| - multiset(tags)[Root]
  {
    var all := NonRoot(tags);
    NonRootSpec(tags);
    SortedTagsSpec(all);
    CountTagsSpec(all);
    CountTagsTotal(all);
    forall t | t in CountTags(all)
      ensures CountTags(all)[t] == multiset(tags)[t]
    {
      assert t in all;
    }
  }

  /* ---------------------------------------------------------------------- */
  /* The summary column                                                      */

  const Ok: string := "OK"
  const ErrorPrefix: string := "XML_ERROR: "
  const OverlapNote: string := "Overlapping tags detected"

  /** Python's `f"{x}"` of an optional message. */
  function MessageText(m: Option<string>): string {
    match m
    case None => "None"
    case Some(s) => s
  }

  /** The summary: an XML error first, then overlapping tags, else OK. */
  function Summary(a: Analysis): string {
    if !a.wellFormed then ErrorPrefix + MessageText(a.errorMessage)
    else if a.overlapping then OverlapNote
    else Ok
  }

  /** The three summaries are told apart, and an XML error wins over an
      overlap. */
  lemma SummaryCases(a: Analysis)
    ensures Summary(a) == Ok <==> a.wellFormed && !a.overlapping
    ensures Summary(a) == OverlapNote <==> a.wellFormed && a.overlapping
    ensures StartsWith(Summary(a), ErrorPrefix) <==> !a.wellFormed
  {
    assert Ok[0] != ErrorPrefix[0] && OverlapNote[0] != ErrorPrefix[0];
    assert Ok != OverlapNote;
    if !a.wellFormed {
      var s := Summary(a);
      assert s[..|ErrorPrefix|] == ErrorPrefix;
      assert s[0] == 'X';
    }
  }

  /** A text the parser rejects is summarised by the parser's message. */
  lemma ParseErrorSummary(xml: string, parse: string -> ParseOutcome, msg: string)
    requires parse(Wrap(xml)) == ParseError(msg)
    ensures AnalyzeAnnotations(xml, parse).Success?
    ensures Summary(AnalyzeAnnotations(xml, parse).value) == ErrorPrefix + msg
  {
  }

  /** Properly nested markup that parses is summarised as OK. */
  lemma WellNestedSummary(ns: seq<Overlap.Node>, parse: string -> ParseOutcome, tags: seq<string>)
    requires forall c :: c in ns ==> Overlap.WellNested(c)
    requires parse(Wrap(Overlap.RenderAll(ns))) == Parsed(tags)
    ensures AnalyzeAnnotations(Overlap.RenderAll(ns), parse).Success?
    ensures Summary(AnalyzeAnnotations(Overlap.RenderAll(ns), parse).value) == Ok
  {
    Overlap.WellNestedNoOverlap(ns);
  }
}
