/** The overlap check of the annotation quality analyser
    (`check_overlapping_tags` in evaluate_tsv.py): a left-to-right scan that
    keeps a stack of the names of the tags still open. An opening tag pushes
    the first whitespace-separated word between `<` and the next `>`; a
    closing tag must repeat the name on top of the stack verbatim or the
    scan answers "overlapping" at once; names left open at the end count as
    overlapping too.

    The scan visits every character, including those inside a tag that was
    just read, exactly as its `for i, char in enumerate(...)` loop does.
    An opening tag with nothing but whitespace between `<` and `>` makes the
    Python code index an empty list; the model returns that error. */
module Overlap {
  import opened Wrappers
  import opened Text
  import Standoff

  /** The message of the `IndexError` raised by `[...].split()[0]` on a blank tag. */
  const IndexError: string := "list index out of range"

  /** The scan from some position on: `t` is the rest of the string and
      `stack` the names pushed and not yet popped, innermost last. */
  function Scan(t: string, stack: seq<string>): Result<bool, string>
    decreases |t|
  {
    if |t| == 0 then Success(|stack| > 0)
    else if t[0] == '<' && |t| > 1 && FindIn(t, ">").Some? then
      FindInChar(t, '>');
      var end := FindIn(t, ">").value;
      if t[1] != '/' then
        var words := Words(t[1..end]);
        if |words| == 0 then Failure(IndexError)
        else Scan(t[1..], stack + [words[0]])
      else if |stack| == 0 || stack[|stack| - 1] != t[2..end] then Success(true)
      else Scan(t[1..], stack[..|stack| - 1])
    else Scan(t[1..], stack)
  }

  /** `check_overlapping_tags(xml_string)`. */
  function Overlaps(s: string): Result<bool, string> {
    Scan(s, [])
  }

  /** The loop of `check_overlapping_tags`, index by index over the whole string. */
  method CheckOverlappingTags(s: string) returns (r: Result<bool, string>)
    ensures r == Overlaps(s)
  {
    var tags: seq<string> := [];
    var i := 0;
    while i < |s|
      invariant 0 <= i <= |s|
      invariant Scan(s[i..], tags) == Scan(s, [])
      decreases |s| - i
    {
      var t := s[i..];
      assert t[1..] == s[i + 1..];
      if s[i] == '<' {
        if i + 1 < |s| && s[i + 1] != '/' {
          var found := FindIn(t, ">");
          if found.Some? {
            FindInChar(t, '>');
            var end := i + found.value;
            assert s[i + 1..end] == t[1..found.value];
            var words := Words(s[i + 1..end]);
            if |words| == 0 {
              return Failure(IndexError);
            }
            tags := tags + [words[0]];
          }
        } else if i + 1 < |s| && s[i + 1] == '/' {
          var found := FindIn(t, ">");
          if found.Some? {
            FindInChar(t, '>');
            var end := i + found.value;
            assert s[i + 2..end] == t[2..found.value];
            var closing := s[i + 2..end];
            if |tags| == 0 || tags[|tags| - 1] != closing {
              return Success(true);
            }
            tags := tags[..|tags| - 1];
          }
        }
      }
      i := i + 1;
    }
    return Success(|tags| > 0);
  }

  /* ---------------------------------------------------------------------- */
  /* One piece at a time                                                     */

  /** Text without `<` is passed over without touching the stack. */
  lemma {:induction false} ScanText(x: string, rest: string, stack: seq<string>)
    requires '<' !in x
    ensures Scan(x + rest, stack) == Scan(rest, stack)
    decreases |x|
  {
    if |x| > 0 {
      assert (x + rest)[0] == x[0];
      assert (x + rest)[1..] == x[1..] + rest;
      ScanText(x[1..], rest, stack);
    } else {
      assert x + rest == rest;
    }
  }

  /** What may stand between `<` and `>` of a tag the scan reads whole. */
  predicate InTag(inner: string) {
    '<' !in inner && '>' !in inner
  }

  /** The first `>` of `<inner>rest` closes the tag. */
  lemma TagEnd(inner: string, rest: string)
    requires InTag(inner)
    ensures var t := "<" + inner + ">" + rest;
            FindIn(t, ">") == Some(|inner| + 1)
  {
    var t := "<" + inner + ">" + rest;
    FindInChar(t, '>');
    assert t[|inner| + 1] == '>';
    assert forall k :: 1 <= k < |inner| + 1 ==> t[k] == inner[k - 1];
  }

  /** An opening tag pushes the first word of what it holds, then the scan
      goes on after it. */
  lemma ScanOpen(inner: string, rest: string, stack: seq<string>)
    requires InTag(inner) && !AllSpace(inner)
    requires inner[0] != '/'
    ensures Scan("<" + inner + ">" + rest, stack) == Scan(rest, stack + [Words(inner)[0]])
  {
    var t := "<" + inner + ">" + rest;
    TagEnd(inner, rest);
    assert t[1..|inner| + 1] == inner;
    assert t[1..] == inner + (">" + rest);
    ScanText(inner + ">", rest, stack + [Words(inner)[0]]);
    assert inner + (">" + rest) == inner + ">" + rest;
  }

  /** A closing tag pops the top of the stack when it names it verbatim,
      and otherwise ends the scan with "overlapping". */
  lemma ScanClose(name: string, rest: string, stack: seq<string>)
    requires InTag(name)
    ensures Scan(Standoff.CloseTag(name) + rest, stack)
            == if |stack| == 0 || stack[|stack| - 1] != name then Success(true)
               else Scan(rest, stack[..|stack| - 1])
  {
    assert Standoff.CloseTag(name) == "<" + ("/" + name) + ">";
    if |stack| == 0 || stack[|stack| - 1] != name {
      ScanCloseMismatch("/" + name, rest, stack);
    } else {
      ScanCloseMatch("/" + name, rest, stack);
    }
  }

  lemma ScanCloseMismatch(inner: string, rest: string, stack: seq<string>)
    requires InTag(inner) && |inner| > 0 && inner[0] == '/'
    requires |stack| == 0 || stack[|stack| - 1] != inner[1..]
    ensures Scan("<" + inner + ">" + rest, stack) == Success(true)
  {
    var t := "<" + inner + ">" + rest;
    TagEnd(inner, rest);
    assert t[2..|inner| + 1] == inner[1..];
  }

  lemma ScanCloseMatch(inner: string, rest: string, stack: seq<string>)
    requires InTag(inner) && |inner| > 0 && inner[0] == '/'
    requires |stack| > 0 && stack[|stack| - 1] == inner[1..]
    ensures Scan("<" + inner + ">" + rest, stack) == Scan(rest, stack[..|stack| - 1])
  {
    var t := "<" + inner + ">" + rest;
    TagEnd(inner, rest);
    TagPieces(inner, rest);
    PopStep(t, |inner| + 1, stack);
    ScanText(inner + ">", rest, stack[..|stack| - 1]);
  }

  /** Where the pieces of `<inner>rest` lie. */
  lemma TagPieces(inner: string, rest: string)
    requires |inner| > 0
    ensures var t := "<" + inner + ">" + rest;
            && t[1] == inner[0]
            && t[2..|inner| + 1] == inner[1..]
            && t[1..] == inner + ">" + rest
  {
    var t := "<" + inner + ">" + rest;
    assert t[1..] == inner + ">" + rest;
    assert t[2..|inner| + 1] == inner[1..];
  }

  /** A closing tag that names the top of the stack pops it. */
  lemma PopStep(t: string, end: nat, stack: seq<string>)
    requires |t| > 1 && t[0] == '<' && t[1] == '/'
    requires FindIn(t, ">") == Some(end) && 2 <= end
    requires |stack| > 0 && stack[|stack| - 1] == t[2..end]
    ensures Scan(t, stack) == Scan(t[1..], stack[..|stack| - 1])
  {
  }

  /** A tag with only whitespace inside makes `check_overlapping_tags` raise. */
  lemma ScanBlank(inner: string, rest: string, stack: seq<string>)
    requires AllSpace(inner)
    ensures Scan("<" + inner + ">" + rest, stack) == Failure(IndexError)
  {
    var t := "<" + inner + ">" + rest;
    assert '<' !in inner && '>' !in inner by {
      assert forall k :: 0 <= k < |inner| ==> IsSpace(inner[k]);
    }
    TagEnd(inner, rest);
    assert t[1..|inner| + 1] == inner;
    assert t[1] != '/';
  }

  /** Text without a `>` reads no tag at all, so the answer is whether
      anything was left open before it. */
  lemma {:induction false} ScanNoClose(t: string, stack: seq<string>)
    requires '>' !in t
    ensures Scan(t, stack) == Success(|stack| > 0)
    decreases |t|
  {
    if |t| > 0 {
      if FindIn(t, ">").Some? {
        FindInChar(t, '>');
      }
      ScanNoClose(t[1..], stack);
    }
  }

  /* ---------------------------------------------------------------------- */
  /* Whole documents                                                         */

  /** A tag name the scan reads back as it is: one word, free of `<` and
      `>`, and not starting with `/`. */
  predicate IsName(name: string) {
    IsWord(name) && InTag(name) && name[0] != '/'
  }

  /** Markup as a tree: text, or an element around its children. */
  datatype Node = Text(text: string) | Element(name: string, children: seq<Node>)

  /** Text holds no `<` and every element has a proper name. */
  predicate WellNested(n: Node)
    decreases n
  {
    match n
    case Text(x) => '<' !in x
    case Element(name, children) => IsName(name) && forall c :: c in children ==> WellNested(c)
  }

  /** The markup of a tree: `<name>`, the children, `</name>`. */
  function Render(n: Node): string
    decreases n, 1
  {
    match n
    case Text(x) => x
    case Element(name, children) =>
      Standoff.OpenTag(name) + RenderAll(children) + Standoff.CloseTag(name)
  }

  function RenderAll(ns: seq<Node>): string
    decreases ns, 0
  {
    if |ns| == 0 then "" else Render(ns[0]) + RenderAll(ns[1..])
  }

  /** The name of a tag is the first word of what it holds. */
  lemma NameIsFirstWord(name: string, attrs: string)
    requires IsName(name)
    requires |attrs| == 0 || IsSpace(attrs[0])
    ensures |Words(name + attrs)| > 0 && Words(name + attrs)[0] == name
  {
    WordsCons(name, attrs);
  }

  /** A well-nested tree leaves the stack as it found it. */
  lemma {:induction false} ScanNode(n: Node, rest: string, stack: seq<string>)
    requires WellNested(n)
    ensures Scan(Render(n) + rest, stack) == Scan(rest, stack)
    decreases n, 1
  {
    match n
    case Text(x) =>
      ScanText(x, rest, stack);
    case Element(name, children) =>
      var inner := RenderAll(children);
      var close := Standoff.CloseTag(name) + rest;
      assert Render(n) + rest == "<" + name + ">" + (inner + close);
      NameIsFirstWord(name, "");
      assert name + "" == name;
      ScanOpen(name, inner + close, stack);
      ScanNodes(children, close, stack + [name]);
      ScanClose(name, rest, stack + [name]);
      assert (stack + [name])[..|stack|] == stack;
  }

  lemma {:induction false} ScanNodes(ns: seq<Node>, rest: string, stack: seq<string>)
    requires forall c :: c in ns ==> WellNested(c)
    ensures Scan(RenderAll(ns) + rest, stack) == Scan(rest, stack)
    decreases ns, 0
  {
    if |ns| > 0 {
      var tail := RenderAll(ns[1..]) + rest;
      assert RenderAll(ns) + rest == Render(ns[0]) + tail;
      ScanNode(ns[0], tail, stack);
      ScanNodes(ns[1..], rest, stack);
    } else {
      assert RenderAll(ns) + rest == rest;
    }
  }

  /** Properly nested markup has no overlap. */
  lemma WellNestedNoOverlap(ns: seq<Node>)
    requires forall c :: c in ns ==> WellNested(c)
    ensures Overlaps(RenderAll(ns)) == Success(false)
  {
    ScanNodes(ns, "", []);
    assert RenderAll(ns) + "" == RenderAll(ns);
  }

  /** Text without `<` has no overlap. */
  lemma NoMarkup(x: string)
    requires '<' !in x
    ensures Overlaps(x) == Success(false)
  {
    ScanText(x, "", []);
    assert x + "" == x;
  }

  /** Crossing tags, as in `<a><b></a></b>`, overlap. */
  lemma Crossing(a: string, b: string, rest: string)
    requires IsName(a) && IsName(b) && a != b
    ensures Overlaps(Standoff.OpenTag(a) + (Standoff.OpenTag(b) + (Standoff.CloseTag(a) + rest)))
            == Success(true)
  {
    var tail := Standoff.CloseTag(a) + rest;
    NameIsFirstWord(a, "");
    NameIsFirstWord(b, "");
    assert a + "" == a && b + "" == b;
    ScanOpen(a, Standoff.OpenTag(b) + tail, []);
    assert [] + [a] == [a];
    ScanOpen(b, tail, [a]);
    assert [a] + [b] == [a, b];
    ScanClose(a, rest, [a, b]);
  }

  /** A closing tag with nothing open overlaps. */
  lemma StrayClose(name: string, rest: string)
    requires InTag(name)
    ensures Overlaps(Standoff.CloseTag(name) + rest) == Success(true)
  {
    ScanClose(name, rest, []);
  }

  /** A tag still open at the end overlaps, whatever well-nested markup
      follows it. */
  lemma Unclosed(name: string, ns: seq<Node>)
    requires IsName(name) && forall c :: c in ns ==> WellNested(c)
    ensures Overlaps(Standoff.OpenTag(name) + RenderAll(ns)) == Success(true)
  {
    NameIsFirstWord(name, "");
    assert name + "" == name;
    ScanOpen(name, RenderAll(ns), []);
    assert [] + [name] == [name];
    ScanNodes(ns, "", [name]);
    assert RenderAll(ns) + "" == RenderAll(ns);
  }

  /** Attributes after the name do not change what is pushed. */
  lemma OpenWithAttributes(name: string, attrs: string, rest: string, stack: seq<string>)
    requires IsName(name) && InTag(attrs)
    requires |attrs| == 0 || IsSpace(attrs[0])
    ensures Scan("<" + (name + attrs) + ">" + rest, stack) == Scan(rest, stack + [name])
  {
    NameIsFirstWord(name, attrs);
    ScanOpen(name + attrs, rest, stack);
  }

  /** `<x/>` is not read as self-closing: it pushes `x/`, which nothing
      closes, so the answer is "overlapping". */
  lemma SelfClosing(name: string)
    requires IsName(name)
    ensures Overlaps("<" + name + "/>") == Success(true)
  {
    var inner := name + "/";
    assert "<" + name + "/>" == "<" + inner + ">" + "";
    assert IsWord(inner) && InTag(inner) && inner[0] == name[0];
    WordsCons(inner, "");
    assert inner + "" == inner;
    ScanOpen(inner, "", []);
  }

  /** A closing tag is compared verbatim: `</a >` does not close `<a>`. */
  lemma SpaceInClose(name: string)
    requires IsName(name)
    ensures Overlaps(Standoff.OpenTag(name) + Standoff.CloseTag(name + " ")) == Success(true)
  {
    NameIsFirstWord(name, "");
    assert name + "" == name;
    ScanOpen(name, Standoff.CloseTag(name + " "), []);
    assert name + " " != name;
    ScanClose(name + " ", "", [name]);
    assert Standoff.CloseTag(name + " ") + "" == Standoff.CloseTag(name + " ");
  }

  /** A blank tag after well-nested markup makes `check_overlapping_tags` raise. */
  lemma BlankTag(ns: seq<Node>, blank: string, rest: string)
    requires forall c :: c in ns ==> WellNested(c)
    requires AllSpace(blank)
    ensures Overlaps(RenderAll(ns) + ("<" + blank + ">" + rest)) == Failure(IndexError)
  {
    ScanNodes(ns, "<" + blank + ">" + rest, []);
    ScanBlank(blank, rest, []);
  }
}
