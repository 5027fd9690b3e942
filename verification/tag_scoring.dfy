/** The standoff reader and tag-set scorer (compare_llms.py): reads a
    standoff file back into a map from tag name to the list of its values,
    and scores a predicted map against a ground-truth map by precision,
    recall and F1.

    The counts are sums over the keys of a map, which Python visits in
    insertion order; none of the sums depends on that order, so they are
    stated as sums over the key set. */
module TagScoring {
  import opened Wrappers
  import opened Text
  import opened Sums
  import Standoff

  /** `{tag: [value, ...]}` as `read_tags` builds it. */
  type TagBag = map<string, seq<string>>

  /** The separator between the key and the value of a line. */
  const Sep: string := ": "

  /* ---------------------------------------------------------------------- */
  /* Lines of a text file                                                    */

  /** `for line in file`: the text cut after every newline, each line keeping
      its newline; a last line without one is kept as it is. */
  function SplitLines(s: string): (ls: seq<string>)
    decreases |s|
  {
    if |s| == 0 then []
    else
      match FindIn(s, "\n")
      case None => [s]
      case Some(k) => [s[..k + 1]] + SplitLines(s[k + 1..])
  }

  /** The lines written back to back. */
  function Concat(ls: seq<string>): string
    decreases |ls|
  {
    if |ls| == 0 then "" else ls[0] + Concat(ls[1..])
  }

  /** Only the end of a line can be a newline. */
  predicate IsLine(l: string) {
    |l| > 0 && '\n' !in l[..|l| - 1]
  }

  /** The line ends with its newline. */
  predicate EndsLine(l: string) {
    |l| > 0 && l[|l| - 1] == '\n'
  }

  /** Cutting into lines loses nothing, every line is non-empty, and only
      the last line may lack its newline. */
  lemma {:induction false} SplitLinesSpec(s: string)
    ensures Concat(SplitLines(s)) == s
    ensures forall i :: 0 <= i < |SplitLines(s)| ==> IsLine(SplitLines(s)[i])
    ensures forall i :: 0 <= i < |SplitLines(s)| - 1 ==> EndsLine(SplitLines(s)[i])
    decreases |s|
  {
    if |s| > 0 {
      FindInChar(s, '\n');
      match FindIn(s, "\n")
      case None =>
      case Some(k) =>
        var t := s[k + 1..];
        SplitLinesSpec(t);
        var l := s[..k + 1];
        assert l[..|l| - 1] == s[..k];
        assert l + t == s;
        var ls := SplitLines(s);
        assert ls == [l] + SplitLines(t);
        forall i | 1 <= i < |ls|
          ensures ls[i] == SplitLines(t)[i - 1]
        {
        }
    }
  }

  /** A complete line in front of the text is cut off as one line. */
  lemma SplitLinesCons(l: string, rest: string)
    requires IsLine(l) && EndsLine(l)
    ensures SplitLines(l + rest) == [l] + SplitLines(rest)
  {
    var s := l + rest;
    assert s[..|l| - 1] == l[..|l| - 1];
    assert s[|l| - 1] == '\n';
    FindInChar(s, '\n');
    assert FindIn(s, "\n") == Some(|l| - 1);
    assert s[..|l|] == l && s[|l|..] == rest;
  }

  /* ---------------------------------------------------------------------- */
  /* read_tags                                                               */

  /** `line.split(": ", 1)` when `": " in line`, else `None`. */
  function SplitPair(line: string): Option<(string, string)> {
    match FindIn(line, Sep)
    case None => None
    case Some(k) => Some((line[..k], line[k + 2..]))
  }

  /** The split is at the first separator: the key holds none and key,
      separator and value put back together give the line. */
  lemma SplitPairSpec(line: string)
    ensures SplitPair(line).None? <==> !Contains(line, Sep)
    ensures SplitPair(line).Some? ==>
              var (key, value) := SplitPair(line).value;
              key + Sep + value == line && !Contains(key, Sep)
  {
    if FindIn(line, Sep).Some? {
      var k := FindIn(line, Sep).value;
      FindInAt(line, Sep);
      FindInPrefixFree(line, Sep);
      assert line[k..][..2] == Sep;
      assert line[..k] + Sep + line[k + 2..] == line;
    }
  }

  /** One iteration of the loop of `read_tags`: append the stripped value
      to the key's list, creating the list when the key is new. */
  function AddLine(d: TagBag, line: string): TagBag {
    match SplitPair(line)
    case None => d
    case Some((key, value)) =>
      if key in d then d[key := d[key] + [Strip(value)]]
      else d[key := [Strip(value)]]
  }

  /** `read_tags` over the lines of the file, in file order. */
  function ReadTags(lines: seq<string>): TagBag
    decreases |lines|
  {
    if |lines| == 0 then map[]
    else AddLine(ReadTags(lines[..|lines| - 1]), lines[|lines| - 1])
  }

  /** What one line contributes to the list of `key`. */
  function ValueFor(line: string, key: string): seq<string> {
    match SplitPair(line)
    case Some((k, v)) => if k == key then [Strip(v)] else []
    case None => []
  }

  /** The stripped values of the lines with key `key`, in file order. */
  function ValuesOf(lines: seq<string>, key: string): seq<string>
    decreases |lines|
  {
    if |lines| == 0 then []
    else ValuesOf(lines[..|lines| - 1], key) + ValueFor(lines[|lines| - 1], key)
  }

  /** Every list of the map is non-empty. */
  predicate WellFormedBag(d: TagBag) {
    forall k :: k in d ==> |d[k]| > 0
  }

  /** The keys `read_tags` stores are exactly the keys some line carries,
      and each key maps to the stripped values of its lines in file order. */
  lemma {:induction false} ReadTagsValues(lines: seq<string>)
    ensures forall key :: key in ReadTags(lines) <==> ValuesOf(lines, key) != []
    ensures forall key :: key in ReadTags(lines) ==> ReadTags(lines)[key] == ValuesOf(lines, key)
    decreases |lines|
  {
    if |lines| > 0 {
      var init := lines[..|lines| - 1];
      ReadTagsValues(init);
      AddLineValues(ReadTags(init), init, lines[|lines| - 1]);
    }
  }

  /** One more line extends the list of its key by its stripped value and
      leaves every other list as it is. */
  lemma AddLineValues(d: TagBag, init: seq<string>, line: string)
    requires forall key :: key in d <==> ValuesOf(init, key) != []
    requires forall key :: key in d ==> d[key] == ValuesOf(init, key)
    ensures forall key :: key in AddLine(d, line) <==> ValuesOf(init, key) + ValueFor(line, key) != []
    ensures forall key :: key in AddLine(d, line) ==> AddLine(d, line)[key] == ValuesOf(init, key) + ValueFor(line, key)
  {
  }

  /** Every list `read_tags` stores is non-empty. */
  lemma ReadTagsWellFormed(lines: seq<string>)
    ensures WellFormedBag(ReadTags(lines))
  {
    ReadTagsValues(lines);
  }

  /* ---------------------------------------------------------------------- */
  /* Reading back what the converter wrote                                   */

  /** The lines the converter writes, one per entry. */
  function Lines(es: seq<Standoff.Entry>): (ls: seq<string>)
    ensures |ls| == |es|
  {
    seq(|es|, i requires 0 <= i < |es| => Standoff.FormatLine(es[i]))
  }

  /** The contents of the entries tagged `tag`, in entry order. */
  function ContentsOf(es: seq<Standoff.Entry>, tag: string): seq<string>
    decreases |es|
  {
    if |es| == 0 then []
    else ContentsOf(es[..|es| - 1], tag) + (if es[|es| - 1].tag == tag then [es[|es| - 1].content] else [])
  }

  /** An entry that can be written and read back unchanged. */
  predicate Readable(e: Standoff.Entry) {
    IsWordRun(e.tag) && IsTrimmed(e.content) && '\n' !in e.content
  }

  /** A written line is one line of the file. */
  lemma FormatLineIsLine(e: Standoff.Entry)
    requires Readable(e)
    ensures IsLine(Standoff.FormatLine(e)) && EndsLine(Standoff.FormatLine(e))
  {
    var l := Standoff.FormatLine(e);
    assert l[..|l| - 1] == e.tag + Sep + e.content;
    WordRunIsWord(e.tag);
  }

  /** Splitting a written line gives back the tag and the content. */
  lemma SplitFormatLine(e: Standoff.Entry)
    requires Readable(e)
    ensures SplitPair(Standoff.FormatLine(e)) == Some((e.tag, e.content + "\n"))
    ensures Strip(e.content + "\n") == e.content
  {
    var rest := e.content + "\n";
    assert Standoff.FormatLine(e) == e.tag + (Sep + rest);
    WordRunIsWord(e.tag);
    SepAfterKey(e.tag, rest);
    SplitAt(e.tag, Sep, rest);
    assert AllSpace("\n");
    StripTrailingSpace(e.content, "\n");
  }

  /** A key without `:` is cut off at the separator that follows it. */
  lemma SepAfterKey(key: string, rest: string)
    requires ':' !in key
    ensures FindIn(key + (Sep + rest), Sep) == Some(|key|)
  {
    var l := key + (Sep + rest);
    SplitAt(key, Sep, rest);
    assert l[|key|..][..2] == Sep;
    FindInFirst(l, Sep, |key|);
    var k := FindIn(l, Sep).value;
    FindInAt(l, Sep);
    assert l[k] == l[k..][..2][0] == ':';
    assert forall i :: 0 <= i < |key| ==> l[i] == key[i];
  }

  /** The file the converter writes is cut into exactly its lines. */
  lemma {:induction false} SplitSerialised(es: seq<Standoff.Entry>)
    requires forall k :: 0 <= k < |es| ==> Readable(es[k])
    ensures SplitLines(Standoff.Serialise(es)) == Lines(es)
    decreases |es|
  {
    if |es| > 0 {
      FormatLineIsLine(es[0]);
      SplitSerialised(es[1..]);
      SplitLinesCons(Standoff.FormatLine(es[0]), Standoff.Serialise(es[1..]));
      assert Lines(es) == [Standoff.FormatLine(es[0])] + Lines(es[1..]);
    }
  }

  /** Per tag, the values read from the written lines are the contents. */
  lemma {:induction false} ValuesOfLines(es: seq<Standoff.Entry>, tag: string)
    requires forall k :: 0 <= k < |es| ==> Readable(es[k])
    ensures ValuesOf(Lines(es), tag) == ContentsOf(es, tag)
    decreases |es|
  {
    if |es| > 0 {
      var init := es[..|es| - 1];
      ValuesOfLines(init, tag);
      assert Lines(es)[..|es| - 1] == Lines(init);
      SplitFormatLine(es[|es| - 1]);
    }
  }

  /** Reading back the converter's output gives, per tag, exactly the
      extracted contents in order, when no content spans two lines. */
  lemma ReadBack(es: seq<Standoff.Entry>)
    requires Standoff.WellShaped(es)
    requires forall k :: 0 <= k < |es| ==> '\n' !in es[k].content
    ensures var d := ReadTags(SplitLines(Standoff.Serialise(es)));
            && (forall tag :: tag in d <==> ContentsOf(es, tag) != [])
            && (forall tag :: tag in d ==> d[tag] == ContentsOf(es, tag))
  {
    SplitSerialised(es);
    ReadTagsValues(Lines(es));
    forall tag
      ensures ValuesOf(Lines(es), tag) == ContentsOf(es, tag)
    {
      ValuesOfLines(es, tag);
    }
  }

  /* ---------------------------------------------------------------------- */
  /* compare_tags                                                            */

  /** The three ratios `compare_tags` returns. */
  datatype Scores = Scores(precision: real, recall: real, f1: real)

  /** What one ground-truth key adds to `correct`: the number of distinct
      values it shares with the prediction for the same key. */
  function CorrectAt(G: TagBag, P: TagBag): string -> nat {
    k => if k in G && k in P then |Elements(G[k]) * Elements(P[k])| else 0
  }

  /** What one ground-truth key adds to `total`: its distinct values when the
      prediction has the key, but all its values, duplicates included, when
      it does not. */
  function GroundAt(G: TagBag, P: TagBag): string -> nat {
    k => if k in G then (if k in P then |Elements(G[k])| else |G[k]|) else 0
  }

  /** What one predicted key absent from the ground truth adds to `total`. */
  function ExtraAt(G: TagBag, P: TagBag): string -> nat {
    k => if k in P && k !in G then |P[k]| else 0
  }

  /** The number of values of one key, duplicates included. */
  function SizeAt(P: TagBag): string -> nat {
    k => if k in P then |P[k]| else 0
  }

  ghost function Correct(G: TagBag, P: TagBag): nat {
    Sum(G.Keys, CorrectAt(G, P))
  }

  ghost function Total(G: TagBag, P: TagBag): nat {
    Sum(G.Keys, GroundAt(G, P)) + Sum(P.Keys, ExtraAt(G, P))
  }

  /** `sum(len(v) for v in predictions.values())`. */
  ghost function Predicted(P: TagBag): nat {
    Sum(P.Keys, SizeAt(P))
  }

  /** Precision: correct over predicted values when there are predictions,
      else zero. */
  function Precision(correct: nat, predicted: nat, anyPredictions: bool): real
    requires anyPredictions ==> predicted > 0
  {
    if anyPredictions then correct as real / predicted as real else 0.0
  }

  /** Recall: correct over `total`, zero when `total` is. */
  function Recall(correct: nat, total: nat): real {
    if total > 0 then correct as real / total as real else 0.0
  }

  /** F1: the harmonic mean of precision and recall, zero when both are. */
  function F1(p: real, r: real): real {
    if p + r != 0.0 then 2.0 * (p * r) / (p + r) else 0.0
  }

  /** The ratios from the three counts; `anyPredictions` is the truth value
      of the prediction map. Precision divides by the predicted count
      whenever the map is non-empty, which raises when every list is empty. */
  function Ratios(correct: nat, total: nat, predicted: nat, anyPredictions: bool): Result<Scores, string> {
    if anyPredictions && predicted == 0 then Failure("division by zero")
    else
      var p := Precision(correct, predicted, anyPredictions);
      var r := Recall(correct, total);
      Success(Scores(p, r, F1(p, r)))
  }

  /** `compare_tags(ground_truth, predictions)`. */
  ghost function Score(G: TagBag, P: TagBag): Result<Scores, string> {
    Ratios(Correct(G, P), Total(G, P), Predicted(P), P != map[])
  }

  /** The first loop of `compare_tags`, over the ground-truth keys. */
  method GroundPass(G: TagBag, P: TagBag) returns (correct: nat, total: nat)
    ensures correct == Sum(G.Keys, CorrectAt(G, P))
    ensures total == Sum(G.Keys, GroundAt(G, P))
  {
    correct, total := 0, 0;
    var todo := G.Keys;
    while todo != {}
      invariant todo <= G.Keys
      invariant correct == Sum(G.Keys - todo, CorrectAt(G, P))
      invariant total == Sum(G.Keys - todo, GroundAt(G, P))
      decreases todo
    {
      var k :| k in todo;
      if k in P {
        correct := correct + |Elements(G[k]) * Elements(P[k])|;
        total := total + |Elements(G[k])|;
      } else {
        total := total + |G[k]|;
      }
      SumInsert(G.Keys - todo, CorrectAt(G, P), k);
      SumInsert(G.Keys - todo, GroundAt(G, P), k);
      assert G.Keys - (todo - {k}) == (G.Keys - todo) + {k};
      todo := todo - {k};
    }
    assert G.Keys - todo == G.Keys;
  }

  /** The second loop of `compare_tags`: the predicted keys the ground truth
      lacks. */
  method ExtraPass(G: TagBag, P: TagBag) returns (extra: nat)
    ensures extra == Sum(P.Keys, ExtraAt(G, P))
  {
    extra := 0;
    var todo := P.Keys;
    while todo != {}
      invariant todo <= P.Keys
      invariant extra == Sum(P.Keys - todo, ExtraAt(G, P))
      decreases todo
    {
      var k :| k in todo;
      if k !in G {
        extra := extra + |P[k]|;
      }
      SumInsert(P.Keys - todo, ExtraAt(G, P), k);
      assert P.Keys - (todo - {k}) == (P.Keys - todo) + {k};
      todo := todo - {k};
    }
    assert P.Keys - todo == P.Keys;
  }

  /** The precision denominator: every predicted value, duplicates included. */
  method PredictedCount(P: TagBag) returns (predicted: nat)
    ensures predicted == Predicted(P)
  {
    predicted := 0;
    var todo := P.Keys;
    while todo != {}
      invariant todo <= P.Keys
      invariant predicted == Sum(P.Keys - todo, SizeAt(P))
      decreases todo
    {
      var k :| k in todo;
      predicted := predicted + |P[k]|;
      SumInsert(P.Keys - todo, SizeAt(P), k);
      assert P.Keys - (todo - {k}) == (P.Keys - todo) + {k};
      todo := todo - {k};
    }
    assert P.Keys - todo == P.Keys;
  }

  /** `compare_tags(ground_truth, predictions)`. */
  method CompareTags(G: TagBag, P: TagBag) returns (r: Result<Scores, string>)
    ensures r == Score(G, P)
  {
    var correct, total := GroundPass(G, P);
    var extra := ExtraPass(G, P);
    var predicted := PredictedCount(P);
    r := Ratios(correct, total + extra, predicted, P != map[]);
  }

  /* ---------------------------------------------------------------------- */
  /* Properties of the scores                                                */

  /** The shared values are at most the values of either side. */
  lemma SharedCard(a: set<string>, b: set<string>)
    ensures |a * b| <= |a| && |a * b| <= |b|
  {
    assert |a - b| == |a| - |a * b|;
    assert |b - a| == |b| - |b * a|;
    assert a * b == b * a;
  }

  /** No key shares more distinct values than either side has, so `correct`
      bounds neither denominator from above. */
  lemma CountBounds(G: TagBag, P: TagBag)
    ensures Correct(G, P) <= Total(G, P)
    ensures Correct(G, P) <= Predicted(P)
  {
    CorrectBelowTotal(G, P);
    CorrectBelowPredicted(G, P);
  }

  lemma CorrectBelowTotal(G: TagBag, P: TagBag)
    ensures Correct(G, P) <= Total(G, P)
  {
    forall k | k in G.Keys
      ensures CorrectAt(G, P)(k) <= GroundAt(G, P)(k)
    {
      if k in P {
        SharedCard(Elements(G[k]), Elements(P[k]));
      }
    }
    SumMonotone(G.Keys, CorrectAt(G, P), GroundAt(G, P));
  }

  lemma CorrectBelowPredicted(G: TagBag, P: TagBag)
    ensures Correct(G, P) <= Predicted(P)
  {
    var both := G.Keys * P.Keys;
    SumZeroOutside(both, G.Keys, CorrectAt(G, P));
    SharedBelowSize(G, P);
    SumMonotone(both, CorrectAt(G, P), SizeAt(P));
    SumDisjointUnion(both, P.Keys - both, SizeAt(P));
    assert both + (P.Keys - both) == P.Keys;
  }

  lemma SharedBelowSize(G: TagBag, P: TagBag)
    ensures forall k :: k in G.Keys * P.Keys ==> CorrectAt(G, P)(k) <= SizeAt(P)(k)
  {
    forall k | k in G.Keys * P.Keys
      ensures CorrectAt(G, P)(k) <= SizeAt(P)(k)
    {
      ElementsCard(P[k]);
      SharedCard(Elements(G[k]), Elements(P[k]));
    }
  }

  lemma MulPos(a: real, b: real)
    requires a >= 0.0 && b >= 0.0
    ensures a * b >= 0.0
    ensures a * b > 0.0 <==> a > 0.0 && b > 0.0
  {
  }

  /** `n / d` with `0 <= n <= d` is a ratio, positive exactly when `n` is
      and one exactly when `n` is `d`. */
  lemma DivAtMostOne(n: real, d: real)
    requires 0.0 <= n <= d && d > 0.0
    ensures 0.0 <= n / d <= 1.0
    ensures n / d > 0.0 <==> n > 0.0
    ensures n / d == 1.0 <==> n == d
  {
    assert n / d * d == n;
  }

  /** `pr` lies between zero and the arithmetic mean of two ratios. */
  lemma ProductOfRatios(p: real, r: real)
    requires 0.0 <= p <= 1.0 && 0.0 <= r <= 1.0
    ensures 0.0 <= p * r && 2.0 * (p * r) <= p + r
    ensures p * r > 0.0 <==> p > 0.0 && r > 0.0
  {
    MulPos(p, 1.0 - r);
    MulPos(r, 1.0 - p);
    MulPos(p, r);
    assert p * (1.0 - r) == p - p * r;
    assert r * (1.0 - p) == r - r * p;
    assert r * p == p * r;
  }

  /** F1 of two ratios is a ratio, positive exactly when both are. */
  lemma F1Bounds(p: real, r: real)
    requires 0.0 <= p <= 1.0 && 0.0 <= r <= 1.0
    ensures 0.0 <= F1(p, r) <= 1.0
    ensures F1(p, r) > 0.0 <==> p > 0.0 && r > 0.0
  {
    if p + r != 0.0 {
      ProductOfRatios(p, r);
      DivAtMostOne(2.0 * (p * r), p + r);
    }
  }

  /** Precision is a ratio, positive exactly when there are predictions and
      something is correct. */
  lemma PrecisionBounds(correct: nat, predicted: nat, anyPredictions: bool)
    requires correct <= predicted && (anyPredictions ==> predicted > 0)
    ensures 0.0 <= Precision(correct, predicted, anyPredictions) <= 1.0
    ensures Precision(correct, predicted, anyPredictions) > 0.0 <==> anyPredictions && correct > 0
  {
    if anyPredictions {
      DivAtMostOne(correct as real, predicted as real);
    }
  }

  /** Recall is a ratio, positive exactly when something is correct. */
  lemma RecallBounds(correct: nat, total: nat)
    requires correct <= total
    ensures 0.0 <= Recall(correct, total) <= 1.0
    ensures Recall(correct, total) > 0.0 <==> correct > 0
  {
    if total > 0 {
      DivAtMostOne(correct as real, total as real);
    }
  }

  /** The ratios fail only on the division by zero; otherwise each lies in
      `[0, 1]`, precision and recall are positive exactly when something is
      correct, and F1 is positive exactly when both are. */
  lemma RatiosBounds(correct: nat, total: nat, predicted: nat, anyPredictions: bool)
    requires correct <= total && correct <= predicted
    ensures Ratios(correct, total, predicted, anyPredictions).Success?
            <==> !anyPredictions || predicted > 0
    ensures Ratios(correct, total, predicted, anyPredictions).Success? ==>
              var sc := Ratios(correct, total, predicted, anyPredictions).value;
              && 0.0 <= sc.precision <= 1.0
              && 0.0 <= sc.recall <= 1.0
              && 0.0 <= sc.f1 <= 1.0
              && (sc.precision > 0.0 <==> anyPredictions && correct > 0)
              && (sc.recall > 0.0 <==> correct > 0)
              && (sc.f1 > 0.0 <==> sc.precision > 0.0 && sc.recall > 0.0)
  {
    if !anyPredictions || predicted > 0 {
      PrecisionBounds(correct, predicted, anyPredictions);
      RecallBounds(correct, total);
      F1Bounds(Precision(correct, predicted, anyPredictions), Recall(correct, total));
    }
  }

  /** `compare_tags` raises only when the predictions are non-empty but hold
      no value at all; otherwise its three results lie in `[0, 1]`. */
  lemma ScoreBounds(G: TagBag, P: TagBag)
    ensures Score(G, P).Success? <==> P == map[] || Predicted(P) > 0
    ensures Score(G, P).Success? ==>
              var sc := Score(G, P).value;
              && 0.0 <= sc.precision <= 1.0
              && 0.0 <= sc.recall <= 1.0
              && 0.0 <= sc.f1 <= 1.0
              && (sc.recall > 0.0 <==> Correct(G, P) > 0)
  {
    CountBounds(G, P);
    RatiosBounds(Correct(G, P), Total(G, P), Predicted(P), P != map[]);
  }

  /** Predictions read by `read_tags` never make `compare_tags` raise. */
  lemma ReadPredictionsScore(G: TagBag, P: TagBag)
    requires WellFormedBag(P)
    ensures Score(G, P).Success?
  {
    if P != map[] {
      var k :| k in P;
      SumPositive(P.Keys, SizeAt(P), k);
    }
    ScoreBounds(G, P);
  }

  /** Empty predictions score zero throughout. */
  lemma EmptyPredictions(G: TagBag)
    ensures Score(G, map[]) == Success(Scores(0.0, 0.0, 0.0))
  {
    SumZero(G.Keys, CorrectAt(G, map[]));
  }

  /** Against an empty ground truth nothing is correct and `total` is the
      number of predicted values, so precision and recall are zero. */
  lemma EmptyGroundTruth(P: TagBag)
    ensures Correct(map[], P) == 0
    ensures Total(map[], P) == Predicted(P)
    ensures Score(map[], P).Success? ==>
              Score(map[], P).value.precision == 0.0 && Score(map[], P).value.recall == 0.0
  {
    EmptyGroundCounts(P);
    NothingCorrect(Total(map[], P), Predicted(P), P != map[]);
  }

  lemma EmptyGroundCounts(P: TagBag)
    ensures Correct(map[], P) == 0
    ensures Total(map[], P) == Predicted(P)
  {
    SumCongruent(P.Keys, ExtraAt(map[], P), SizeAt(P));
  }

  /** With nothing correct, precision and recall are zero. */
  lemma NothingCorrect(total: nat, predicted: nat, anyPredictions: bool)
    ensures Ratios(0, total, predicted, anyPredictions).Success? ==>
              Ratios(0, total, predicted, anyPredictions).value.precision == 0.0
              && Ratios(0, total, predicted, anyPredictions).value.recall == 0.0
  {
  }

  /** A predicted key the ground truth lacks adds its values to `total` and
      to the predicted count, and nothing to `correct`. */
  lemma ExtraKey(G: TagBag, P: TagBag, k: string, vs: seq<string>)
    requires k !in G && k !in P
    ensures Correct(G, P[k := vs]) == Correct(G, P)
    ensures Total(G, P[k := vs]) == Total(G, P) + |vs|
    ensures Predicted(P[k := vs]) == Predicted(P) + |vs|
  {
    var Q := P[k := vs];
    GroundUnchanged(G, P, k, vs);
    assert Q.Keys == P.Keys + {k};
    ExtraGrows(G, P, k, vs);
    SizeGrows(P, k, vs);
  }

  /** The ground-truth pass does not see a key outside the ground truth. */
  lemma GroundUnchanged(G: TagBag, P: TagBag, k: string, vs: seq<string>)
    requires k !in G
    ensures Sum(G.Keys, CorrectAt(G, P[k := vs])) == Sum(G.Keys, CorrectAt(G, P))
    ensures Sum(G.Keys, GroundAt(G, P[k := vs])) == Sum(G.Keys, GroundAt(G, P))
  {
    SumCongruent(G.Keys, CorrectAt(G, P[k := vs]), CorrectAt(G, P));
    SumCongruent(G.Keys, GroundAt(G, P[k := vs]), GroundAt(G, P));
  }

  lemma ExtraGrows(G: TagBag, P: TagBag, k: string, vs: seq<string>)
    requires k !in G && k !in P
    ensures Sum(P.Keys + {k}, ExtraAt(G, P[k := vs])) == Sum(P.Keys, ExtraAt(G, P)) + |vs|
  {
    SumInsert(P.Keys, ExtraAt(G, P[k := vs]), k);
    SumCongruent(P.Keys, ExtraAt(G, P[k := vs]), ExtraAt(G, P));
  }

  lemma SizeGrows(P: TagBag, k: string, vs: seq<string>)
    requires k !in P
    ensures Sum(P.Keys + {k}, SizeAt(P[k := vs])) == Sum(P.Keys, SizeAt(P)) + |vs|
  {
    SumInsert(P.Keys, SizeAt(P[k := vs]), k);
    SumCongruent(P.Keys, SizeAt(P[k := vs]), SizeAt(P));
  }

  /** Whether a ground-truth key is predicted decides how its values count
      in `total`: `[x, x]` counts twice while the prediction lacks the key,
      but once as soon as it predicts anything for it. */
  lemma TotalCountsDistinctWhenPredicted(a: string, x: string, z: string)
    ensures Total(map[a := [x, x]], map[]) == 2
    ensures Total(map[a := [x, x]], map[a := [z]]) == 1
  {
    var G := map[a := [x, x]];
    var P := map[a := [z]];
    assert G.Keys == {a} && P.Keys == {a};
    assert Elements([x, x]) == {x};
    SumRemove(G.Keys, GroundAt(G, map[]), a);
    SumRemove(G.Keys, GroundAt(G, P), a);
    SumRemove(P.Keys, ExtraAt(G, P), a);
    assert G.Keys - {a} == {};
  }

  /** Against itself every key is predicted, so `correct` and `total` both
      count the distinct values of each key. */
  lemma SelfCounts(G: TagBag)
    ensures Correct(G, G) == Sum(G.Keys, GroundAt(G, G))
    ensures Total(G, G) == Sum(G.Keys, GroundAt(G, G))
  {
    forall k | k in G.Keys
      ensures CorrectAt(G, G)(k) == GroundAt(G, G)(k)
    {
      assert Elements(G[k]) * Elements(G[k]) == Elements(G[k]);
    }
    SumCongruent(G.Keys, CorrectAt(G, G), GroundAt(G, G));
    SumZero(G.Keys, ExtraAt(G, G));
  }

  /** The distinct values of each key add up to the predicted count exactly
      when no key repeats a value. */
  lemma DistinctCount(G: TagBag)
    ensures Sum(G.Keys, GroundAt(G, G)) <= Predicted(G)
    ensures Sum(G.Keys, GroundAt(G, G)) == Predicted(G) <==> forall k :: k in G ==> NoDuplicates(G[k])
  {
    forall k | k in G.Keys
      ensures GroundAt(G, G)(k) <= SizeAt(G)(k)
      ensures GroundAt(G, G)(k) == SizeAt(G)(k) <==> NoDuplicates(G[k])
    {
      ElementsCard(G[k]);
    }
    SumMonotone(G.Keys, GroundAt(G, G), SizeAt(G));
    if forall k :: k in G ==> NoDuplicates(G[k]) {
      SumCongruent(G.Keys, GroundAt(G, G), SizeAt(G));
    }
  }

  /** A non-empty map as `read_tags` builds it, scored against itself, has
      recall 1, and precision 1 exactly when no key repeats a value, since
      the precision denominator counts duplicates. */
  lemma SelfScore(G: TagBag)
    requires G != map[] && WellFormedBag(G)
    ensures Score(G, G).Success?
    ensures Score(G, G).value.recall == 1.0
    ensures Score(G, G).value.precision == 1.0 <==> forall k :: k in G ==> NoDuplicates(G[k])
  {
    ReadPredictionsScore(G, G);
    SelfCounts(G);
    DistinctCount(G);
    var k :| k in G;
    assert G[k][0] in Elements(G[k]);
    SumPositive(G.Keys, GroundAt(G, G), k);
    var c := Correct(G, G);
    DivAtMostOne(c as real, Total(G, G) as real);
    DivAtMostOne(c as real, Predicted(G) as real);
  }

  /** Both lists of every key hold the same values the same number of
      times. */
  predicate SameValues(A: TagBag, B: TagBag) {
    A.Keys == B.Keys && forall k :: k in A ==> multiset(A[k]) == multiset(B[k])
  }

  lemma ElementsOfMultiset(xs: seq<string>, ys: seq<string>)
    requires multiset(xs) == multiset(ys)
    ensures Elements(xs) == Elements(ys) && |xs| == |ys|
  {
    assert |xs| == |multiset(xs)|;
    assert |ys| == |multiset(ys)|;
    forall x
      ensures x in Elements(xs) <==> x in Elements(ys)
    {
      assert x in xs <==> x in multiset(xs);
      assert x in ys <==> x in multiset(ys);
    }
  }

  /** Every key has the same distinct values and the same number of values
      on both sides. */
  predicate Alike(A: TagBag, B: TagBag) {
    A.Keys == B.Keys && forall k :: k in A ==> Elements(A[k]) == Elements(B[k]) && |A[k]| == |B[k]|
  }

  lemma SameValuesAlike(A: TagBag, B: TagBag)
    requires SameValues(A, B)
    ensures Alike(A, B)
  {
    forall k | k in A
      ensures Elements(A[k]) == Elements(B[k]) && |A[k]| == |B[k]|
    {
      ElementsOfMultiset(A[k], B[k]);
    }
  }

  lemma AlikeCorrect(G1: TagBag, G2: TagBag, P1: TagBag, P2: TagBag)
    requires Alike(G1, G2) && Alike(P1, P2)
    ensures Correct(G1, P1) == Correct(G2, P2)
  {
    SumCongruent(G1.Keys, CorrectAt(G1, P1), CorrectAt(G2, P2));
  }

  lemma AlikeTotal(G1: TagBag, G2: TagBag, P1: TagBag, P2: TagBag)
    requires Alike(G1, G2) && Alike(P1, P2)
    ensures Total(G1, P1) == Total(G2, P2)
  {
    SumCongruent(G1.Keys, GroundAt(G1, P1), GroundAt(G2, P2));
    SumCongruent(P1.Keys, ExtraAt(G1, P1), ExtraAt(G2, P2));
  }

  lemma AlikePredicted(P1: TagBag, P2: TagBag)
    requires Alike(P1, P2)
    ensures Predicted(P1) == Predicted(P2)
  {
    SumCongruent(P1.Keys, SizeAt(P1), SizeAt(P2));
  }

  /** Positions do not matter: reordering the values within any key of
      either map leaves the scores as they are. */
  lemma PermutationInvariant(G1: TagBag, G2: TagBag, P1: TagBag, P2: TagBag)
    requires SameValues(G1, G2) && SameValues(P1, P2)
    ensures Score(G1, P1) == Score(G2, P2)
  {
    SameValuesAlike(G1, G2);
    SameValuesAlike(P1, P2);
    AlikeCorrect(G1, G2, P1, P2);
    AlikeTotal(G1, G2, P1, P2);
    AlikePredicted(P1, P2);
    assert P1 == map[] <==> P2 == map[];
  }

  /** Two ground-truth keys `a`, `d` with one value each, against a
      prediction that gets `a` right and adds an unknown key `t`: one value
      correct out of three in `total` and two predicted. */
  lemma TwoKeyCounts(a: string, d: string, t: string, x: string, y: string, z: string)
    requires a != d && a != t && d != t
    ensures var G := map[a := [x], d := [y]];
            var P := map[a := [x], t := [z]];
            Correct(G, P) == 1 && Total(G, P) == 3 && Predicted(P) == 2
  {
    var G := map[a := [x], d := [y]];
    var P := map[a := [x], t := [z]];
    assert G.Keys == {a, d} && P.Keys == {a, t};
    assert Elements([x]) == {x};
    SumPair(a, d, CorrectAt(G, P));
    SumPair(a, d, GroundAt(G, P));
    SumPair(a, t, ExtraAt(G, P));
    SumPair(a, t, SizeAt(P));
  }

  /** The worked scoring example: precision 1/2, recall 1/3, F1 2/5. */
  lemma ScoringExample()
    ensures Score(map["AUTHOR" := ["Smith"], "DATE" := ["1990"]],
                  map["AUTHOR" := ["Smith"], "TITLE" := ["X"]])
            == Success(Scores(0.5, 1.0 / 3.0, 0.4))
  {
    assert "AUTHOR"[0] != "DATE"[0] && "AUTHOR"[0] != "TITLE"[0] && "DATE"[0] != "TITLE"[0];
    TwoKeyCounts("AUTHOR", "DATE", "TITLE", "Smith", "1990", "X");
  }
}
