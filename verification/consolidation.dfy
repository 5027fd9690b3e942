/** The helpers of results/format_output.py that build the consolidated
    dataset: whitespace normalisation, the element-to-dictionary transform
    with lower-cased keys, and the numbering that sends the Nth faulty record
    to the correction file `line_N.json`. */
module Consolidation {
  import opened Wrappers
  import opened Text
  import opened Sums

  /* ---------------------------------------------------------------------- */
  /* normalize_xml                                                           */

  /** `' '.join(xml_string.split())`. */
  function NormalizeXml(s: string): string {
    JoinSpaced(Words(s))
  }

  /** No whitespace at either end, and inside only single spaces between
      non-space characters. */
  predicate Normalized(s: string) {
    && IsTrimmed(s)
    && forall i :: 0 <= i < |s| && IsSpace(s[i]) ==> s[i] == ' ' && i + 1 < |s| && !IsSpace(s[i + 1])
  }

  /** A word, a space and a normalized non-empty text are normalized. */
  lemma JoinStep(w: string, rest: string)
    requires IsWord(w) && Normalized(rest) && |rest| > 0
    ensures Normalized(w + (" " + rest))
    ensures (w + (" " + rest))[0] == w[0]
  {
    var s := w + (" " + rest);
    assert forall i :: 0 <= i < |w| ==> s[i] == w[i];
    forall i | 0 <= i < |s| && IsSpace(s[i])
      ensures s[i] == ' ' && i + 1 < |s| && !IsSpace(s[i + 1])
    {
      if i > |w| {
        assert s[i] == rest[i - |w| - 1];
        assert i + 1 < |s| ==> s[i + 1] == rest[i - |w|];
      } else {
        assert s[i + 1] == rest[0];
      }
    }
    assert s[|s| - 1] == rest[|rest| - 1];
  }

  /** Space-joined words are normalized. */
  lemma {:induction false} JoinNormalized(ws: seq<string>)
    requires forall k :: 0 <= k < |ws| ==> IsWord(ws[k])
    ensures Normalized(JoinSpaced(ws))
    ensures |ws| > 0 ==> |JoinSpaced(ws)| > 0
    decreases |ws|
  {
    if |ws| == 1 {
      assert JoinSpaced(ws) == ws[0];
    } else if |ws| > 1 {
      JoinNormalized(ws[1..]);
      var rest := JoinSpaced(ws[1..]);
      assert JoinSpaced(ws) == ws[0] + (" " + rest);
      JoinStep(ws[0], rest);
    }
  }

  /** The result is normalized and holds the same words in the same order;
      only whitespace input gives the empty string. */
  lemma NormalizeSpec(s: string)
    ensures Normalized(NormalizeXml(s))
    ensures Words(NormalizeXml(s)) == Words(s)
    ensures NormalizeXml(s) == "" <==> AllSpace(s)
  {
    JoinNormalized(Words(s));
    WordsOfJoin(Words(s));
  }

  /** Normalizing twice is normalizing once. */
  lemma NormalizeIdempotent(s: string)
    ensures NormalizeXml(NormalizeXml(s)) == NormalizeXml(s)
  {
    WordsOfJoin(Words(s));
  }

  /* ---------------------------------------------------------------------- */
  /* _element_to_dict_lowercase                                              */

  /** A parsed XML element: tag, optional text, children in document order. */
  datatype Element = Element(tag: string, text: Option<string>, children: seq<Element>)

  /** The JSON values the transform builds. A dictionary is a list of
      fields in insertion order, as Python's `dict` keeps them. */
  datatype JValue = JString(s: string) | JObject(fields: seq<Field>) | JList(items: seq<JValue>)
  datatype Field = Field(key: string, value: JValue)

  /** The keys of a dictionary, in insertion order. */
  function Keys(fields: seq<Field>): seq<string>
    decreases |fields|
  {
    if |fields| == 0 then [] else [fields[0].key] + Keys(fields[1..])
  }

  /** No key occurs twice, as in any Python `dict`. */
  predicate DistinctKeys(fields: seq<Field>)
    decreases |fields|
  {
    |fields| == 0 || (fields[0].key !in Keys(fields[1..]) && DistinctKeys(fields[1..]))
  }

  /** `d.get(k)`. */
  function Lookup(fields: seq<Field>, k: string): Option<JValue>
    decreases |fields|
  {
    if |fields| == 0 then None
    else if fields[0].key == k then Some(fields[0].value)
    else Lookup(fields[1..], k)
  }

  /** Turning an entry into a list on its second value, then appending. */
  function Promote(prev: JValue, v: JValue): JValue {
    if prev.JList? then JList(prev.items + [v]) else JList([prev, v])
  }

  /** One step of the loop over the children: a new key is added at the
      end, an existing one is promoted to a list in place. */
  function AddChild(fields: seq<Field>, k: string, v: JValue): seq<Field>
    decreases |fields|
  {
    if |fields| == 0 then [Field(k, v)]
    else if fields[0].key == k then [Field(k, Promote(fields[0].value, v))] + fields[1..]
    else [fields[0]] + AddChild(fields[1..], k, v)
  }

  /** `_element_to_dict_lowercase(element)`: a dictionary with one key. */
  function ElementToDict(e: Element): JValue {
    JObject([Field(Lower(e.tag), ValueOf(e))])
  }

  /** The value under that key: the grouped children, or the stripped text
      of a leaf. An element's value is never a list, and a string value has
      no whitespace at either end. */
  function ValueOf(e: Element): (v: JValue)
    ensures !v.JList?
    ensures v.JString? ==> IsTrimmed(v.s)
    decreases e, 1
  {
    if |e.children| > 0 then JObject(Group(e.children))
    else JString(match e.text case None => "" case Some(t) => Strip(t))
  }

  /** The dictionary of the children, built left to right. */
  function Group(cs: seq<Element>): seq<Field>
    decreases cs, 0
  {
    if |cs| == 0 then []
    else
      var c := cs[|cs| - 1];
      AddChild(Group(cs[..|cs| - 1]), Lower(c.tag), ValueOf(c))
  }

  /** The values of the children whose lower-cased tag is `k`, in order. */
  function ValuesWith(cs: seq<Element>, k: string): seq<JValue>
    decreases |cs|
  {
    if |cs| == 0 then []
    else
      var c := cs[|cs| - 1];
      ValuesWith(cs[..|cs| - 1], k) + (if Lower(c.tag) == k then [ValueOf(c)] else [])
  }

  /** What a key holds for its values: the one value, or the list of all. */
  function Collected(vs: seq<JValue>): JValue {
    if |vs| == 1 then vs[0] else JList(vs)
  }

  lemma {:induction false} LookupKeys(fields: seq<Field>, k: string)
    ensures Lookup(fields, k).Some? <==> k in Keys(fields)
    decreases |fields|
  {
    if |fields| > 0 {
      LookupKeys(fields[1..], k);
      assert Keys(fields) == [fields[0].key] + Keys(fields[1..]);
    }
  }

  /** Adding a child changes the entry of its key only, keeps the keys
      distinct and adds the key if it was new. */
  lemma {:induction false} AddChildSpec(fields: seq<Field>, k: string, v: JValue)
    requires DistinctKeys(fields)
    ensures DistinctKeys(AddChild(fields, k, v))
    ensures forall j :: j in Keys(AddChild(fields, k, v)) <==> j in Keys(fields) || j == k
    ensures Lookup(AddChild(fields, k, v), k)
            == Some(match Lookup(fields, k) case None => v case Some(prev) => Promote(prev, v))
    ensures forall j :: j != k ==> Lookup(AddChild(fields, k, v), j) == Lookup(fields, j)
    decreases |fields|
  {
    if |fields| > 0 && fields[0].key != k {
      AddChildSpec(fields[1..], k, v);
      assert AddChild(fields, k, v)[1..] == AddChild(fields[1..], k, v);
    }
  }

  /** The values collected for a key, with one more child. */
  lemma CollectStep(vs: seq<JValue>, v: JValue, prev: Option<JValue>)
    requires |vs| == 0 <==> prev.None?
    requires prev.Some? ==> prev.value == Collected(vs)
    requires forall i :: 0 <= i < |vs| ==> !vs[i].JList?
    ensures Collected(vs + [v]) == match prev case None => v case Some(o) => Promote(o, v)
  {
    if |vs| == 1 {
      assert !vs[0].JList?;
    }
  }

  /** The values gathered for a key are element values, so never lists. */
  lemma {:induction false} ValuesWithNoList(cs: seq<Element>, k: string)
    ensures forall i :: 0 <= i < |ValuesWith(cs, k)| ==> !ValuesWith(cs, k)[i].JList?
    decreases |cs|
  {
    if |cs| > 0 {
      ValuesWithNoList(cs[..|cs| - 1], k);
    }
  }

  /** Some child carries the tag `k`, lower-cased. */
  ghost predicate HasTag(cs: seq<Element>, k: string) {
    exists j :: 0 <= j < |cs| && Lower(cs[j].tag) == k
  }

  /** The lower-cased child tags, each kept at its first occurrence only. */
  ghost function FirstTags(cs: seq<Element>): seq<string>
    decreases |cs|
  {
    if |cs| == 0 then []
    else
      var n := |cs| - 1;
      var k := Lower(cs[n].tag);
      FirstTags(cs[..n]) + (if HasTag(cs[..n], k) then [] else [k])
  }

  /** A new key goes at the end; an existing key keeps its place. */
  lemma {:induction false} AddChildKeys(fields: seq<Field>, k: string, v: JValue)
    ensures Keys(AddChild(fields, k, v)) == if k in Keys(fields) then Keys(fields) else Keys(fields) + [k]
    decreases |fields|
  {
    if |fields| > 0 {
      assert Keys(fields) == [fields[0].key] + Keys(fields[1..]);
      if fields[0].key != k {
        AddChildKeys(fields[1..], k, v);
        assert AddChild(fields, k, v)[1..] == AddChild(fields[1..], k, v);
      } else {
        assert AddChild(fields, k, v)[1..] == fields[1..];
      }
    }
  }

  /** Some value is gathered for `k` exactly when some child has that
      lower-cased tag. */
  lemma {:induction false} ValuesWithSome(cs: seq<Element>, k: string)
    ensures |ValuesWith(cs, k)| > 0 <==> HasTag(cs, k)
    decreases |cs|
  {
    if |cs| > 0 {
      var n := |cs| - 1;
      ValuesWithSome(cs[..n], k);
      assert forall j :: 0 <= j < n ==> cs[..n][j] == cs[j];
    }
  }

  /** The children's dictionary has one key per distinct lower-cased child
      tag (in order of first occurrence, by GroupKeys), each holding the one value of that
      tag or, for a tag that occurs more than once, the list of all its
      values in document order. Tags differing only in case are merged. */
  lemma {:induction false} GroupSpec(cs: seq<Element>)
    ensures DistinctKeys(Group(cs))
    ensures forall k :: k in Keys(Group(cs)) <==> |ValuesWith(cs, k)| > 0
    ensures forall k :: Lookup(Group(cs), k)
                          == if |ValuesWith(cs, k)| == 0 then None else Some(Collected(ValuesWith(cs, k)))
    decreases |cs|
  {
    if |cs| > 0 {
      var init := cs[..|cs| - 1];
      GroupSpec(init);
      var c := cs[|cs| - 1];
      AddChildSpec(Group(init), Lower(c.tag), ValueOf(c));
      forall k
        ensures k in Keys(Group(cs)) <==> |ValuesWith(cs, k)| > 0
        ensures Lookup(Group(cs), k)
                == if |ValuesWith(cs, k)| == 0 then None else Some(Collected(ValuesWith(cs, k)))
      {
        GroupStep(cs, k);
      }
    }
  }

  /** The keys of the children's dictionary are the lower-cased child tags
      in order of first occurrence. */
  lemma {:induction false} GroupKeys(cs: seq<Element>)
    ensures Keys(Group(cs)) == FirstTags(cs)
    decreases |cs|
  {
    if |cs| > 0 {
      var n := |cs| - 1;
      var init := cs[..n];
      var k := Lower(cs[n].tag);
      GroupKeys(init);
      GroupHasKey(init, k);
      AddChildKeys(Group(init), k, ValueOf(cs[n]));
      assert Group(cs) == AddChild(Group(init), k, ValueOf(cs[n]));
    }
  }

  /** A tag is a key of the children's dictionary exactly when some child
      carries it, lower-cased. */
  lemma GroupHasKey(cs: seq<Element>, k: string)
    ensures k in Keys(Group(cs)) <==> HasTag(cs, k)
  {
    GroupSpec(cs);
    ValuesWithSome(cs, k);
  }

  /** One child more, seen from one key. */
  lemma GroupStep(cs: seq<Element>, k: string)
    requires |cs| > 0
    requires var init := cs[..|cs| - 1];
             && (k in Keys(Group(init)) <==> |ValuesWith(init, k)| > 0)
             && Lookup(Group(init), k)
                == if |ValuesWith(init, k)| == 0 then None else Some(Collected(ValuesWith(init, k)))
    requires var c := cs[|cs| - 1]; var g := Group(cs[..|cs| - 1]);
             && (forall j :: j in Keys(Group(cs)) <==> j in Keys(g) || j == Lower(c.tag))
             && Lookup(Group(cs), Lower(c.tag))
                == Some(match Lookup(g, Lower(c.tag)) case None => ValueOf(c) case Some(prev) => Promote(prev, ValueOf(c)))
             && forall j :: j != Lower(c.tag) ==> Lookup(Group(cs), j) == Lookup(g, j)
    ensures k in Keys(Group(cs)) <==> |ValuesWith(cs, k)| > 0
    ensures Lookup(Group(cs), k)
            == if |ValuesWith(cs, k)| == 0 then None else Some(Collected(ValuesWith(cs, k)))
  {
    var init := cs[..|cs| - 1];
    var c := cs[|cs| - 1];
    var vs := ValuesWith(init, k);
    if k == Lower(c.tag) {
      assert ValuesWith(cs, k) == vs + [ValueOf(c)];
      ValuesWithNoList(init, k);
      CollectStep(vs, ValueOf(c), Lookup(Group(init), k));
    } else {
      assert ValuesWith(cs, k) == vs;
    }
  }

  /** The number of children with a given lower-cased tag. */
  lemma {:induction false} ValuesWithCount(cs: seq<Element>, k: string)
    ensures |ValuesWith(cs, k)| == |set i | 0 <= i < |cs| && Lower(cs[i].tag) == k|
    decreases |cs|
  {
    if |cs| > 0 {
      var n := |cs| - 1;
      ValuesWithCount(cs[..n], k);
      var before := set i | 0 <= i < n && Lower(cs[..n][i].tag) == k;
      var all := set i | 0 <= i < |cs| && Lower(cs[i].tag) == k;
      if Lower(cs[n].tag) == k {
        assert all == before + {n};
      } else {
        assert all == before;
      }
    }
  }

  /** A leaf maps its lower-cased tag to its stripped text, or to "" when it
      has none. */
  lemma LeafDict(e: Element)
    requires |e.children| == 0
    ensures ElementToDict(e).fields == [Field(Lower(e.tag), JString(if e.text.Some? then Strip(e.text.value) else ""))]
    ensures IsTrimmed(ValueOf(e).s)
  {
  }

  /** An element with children maps its lower-cased tag to the dictionary
      of its children; its own text is dropped. */
  lemma ParentDict(e: Element, text: Option<string>)
    requires |e.children| > 0
    ensures ElementToDict(e) == ElementToDict(Element(e.tag, text, e.children))
    ensures Keys(ElementToDict(e).fields) == [Lower(e.tag)]
    ensures ValueOf(e) == JObject(Group(e.children))
  {
  }

  /* ---------------------------------------------------------------------- */
  /* Faulty records and their correction files                               */

  /** A row of the ground data: column name to cell. */
  datatype Record = Record(cells: map<string, string>)

  const IdColumn: string := "id"
  const FlagColumn: string := "quality_xml_well_formed"

  /** `record.get(column, "")`. */
  function Get(r: Record, column: string): string {
    if column in r.cells then r.cells[column] else ""
  }

  /** `record.get("quality_xml_well_formed", "").upper() == "FALSE"`. */
  predicate IsFaulty(r: Record) {
    Upper(Get(r, FlagColumn)) == "FALSE"
  }

  /** The flag is compared without regard to case: a record is faulty
      exactly when its flag, lower-cased, is "false". */
  lemma FaultyCaseInsensitive(r: Record)
    ensures IsFaulty(r) <==> Lower(Get(r, FlagColumn)) == "false"
  {
    var f := Get(r, FlagColumn);
    var u := "FALSE";
    var l := "false";
    if |f| == 5 {
      forall i | 0 <= i < 5
        ensures ToUpperChar(f[i]) == u[i] <==> ToLowerChar(f[i]) == l[i]
      {
      }
      assert Upper(f) == u <==> forall i :: 0 <= i < 5 ==> Upper(f)[i] == u[i];
      assert Lower(f) == l <==> forall i :: 0 <= i < 5 ==> Lower(f)[i] == l[i];
    } else {
      assert |Upper(f)| != |u|;
      assert |Lower(f)| != |l|;
    }
  }

  /** The faulty records in file order. */
  function Faulty(rs: seq<Record>): seq<Record>
    decreases |rs|
  {
    if |rs| == 0 then []
    else Faulty(rs[..|rs| - 1]) + (if IsFaulty(rs[|rs| - 1]) then [rs[|rs| - 1]] else [])
  }

  /** `faulty_record_to_line`: the id of the Nth faulty record maps to N,
      a later record overwriting an earlier one with the same id. */
  function LineMap(faulty: seq<Record>): map<string, nat>
    decreases |faulty|
  {
    if |faulty| == 0 then map[]
    else LineMap(faulty[..|faulty| - 1])[Get(faulty[|faulty| - 1], IdColumn) := |faulty|]
  }

  /** Exactly the ids of faulty records are mapped. */
  lemma {:induction false} LineMapKeys(faulty: seq<Record>)
    ensures LineMap(faulty).Keys == set j | 0 <= j < |faulty| :: Get(faulty[j], IdColumn)
    decreases |faulty|
  {
    if |faulty| > 0 {
      var n := |faulty| - 1;
      LineMapKeys(faulty[..n]);
      assert (set j | 0 <= j < |faulty| :: Get(faulty[j], IdColumn))
          == (set j | 0 <= j < n :: Get(faulty[..n][j], IdColumn)) + {Get(faulty[n], IdColumn)};
    }
  }

  /** Each id maps to one plus the position of the last faulty record with
      that id. */
  lemma {:induction false} LineMapValues(faulty: seq<Record>)
    ensures forall id :: id in LineMap(faulty) ==>
              var n := LineMap(faulty)[id];
              && 1 <= n <= |faulty|
              && Get(faulty[n - 1], IdColumn) == id
              && forall j :: n <= j < |faulty| ==> Get(faulty[j], IdColumn) != id
    decreases |faulty|
  {
    if |faulty| > 0 {
      var init := faulty[..|faulty| - 1];
      LineMapValues(init);
      assert forall j :: 0 <= j < |init| ==> init[j] == faulty[j];
    }
  }

  /** With distinct ids, the Nth faulty record (from 1) maps to N. */
  lemma LineOfNth(faulty: seq<Record>, i: nat)
    requires i < |faulty|
    requires forall a, b :: 0 <= a < b < |faulty| ==> Get(faulty[a], IdColumn) != Get(faulty[b], IdColumn)
    ensures Get(faulty[i], IdColumn) in LineMap(faulty)
    ensures LineMap(faulty)[Get(faulty[i], IdColumn)] == i + 1
  {
    var id := Get(faulty[i], IdColumn);
    LineMapKeys(faulty);
    LineMapValues(faulty);
    assert forall a :: 0 <= a < |faulty| && Get(faulty[a], IdColumn) == id ==> a == i;
  }

  /** The faulty records are exactly the records that are faulty, and they
      keep their file order: a faulty record preceded by `k` faulty records
      is the faulty record at index `k`. */
  lemma {:induction false} FaultySpec(rs: seq<Record>)
    ensures forall r :: r in Faulty(rs) <==> r in rs && IsFaulty(r)
    ensures |Faulty(rs)| <= |rs|
    ensures forall j :: 0 <= j < |rs| && IsFaulty(rs[j]) ==>
              |Faulty(rs[..j])| < |Faulty(rs)| && Faulty(rs)[|Faulty(rs[..j])|] == rs[j]
    decreases |rs|
  {
    if |rs| > 0 {
      var n := |rs| - 1;
      var init := rs[..n];
      FaultySpec(init);
      assert rs == init + [rs[n]];
      forall j | 0 <= j < |rs| && IsFaulty(rs[j])
        ensures |Faulty(rs[..j])| < |Faulty(rs)| && Faulty(rs)[|Faulty(rs[..j])|] == rs[j]
      {
        if j < n {
          assert init[..j] == rs[..j] && init[j] == rs[j];
        } else {
          assert rs[..j] == init;
        }
      }
    }
  }

  /** With distinct ids, the faulty record at position `j` of the data reads
      `line_N.json`, where N counts the faulty records up to and including
      it. */
  lemma FaultyRecordFile(rs: seq<Record>, j: nat)
    requires j < |rs| && IsFaulty(rs[j])
    requires var f := Faulty(rs);
             forall a, b :: 0 <= a < b < |f| ==> Get(f[a], IdColumn) != Get(f[b], IdColumn)
    ensures CorrectionFor(rs, rs[j]) == Some(CorrectionFile(|Faulty(rs[..j])| + 1))
  {
    FaultySpec(rs);
    NthFaultyFile(rs, |Faulty(rs[..j])|);
  }

  /* ---------------------------------------------------------------------- */
  /* File names                                                              */

  function DigitChar(d: nat): char
    requires d < 10
  {
    ('0' as int + d) as char
  }

  /** `str(n)`. */
  function Decimal(n: nat): string
    decreases n
  {
    if n < 10 then [DigitChar(n)] else Decimal(n / 10) + [DigitChar(n % 10)]
  }

  /** `int(s)` for a string of digits. */
  function ParseDecimal(s: string): nat
    decreases |s|
  {
    if |s| == 0 then 0
    else
      var c := s[|s| - 1];
      ParseDecimal(s[..|s| - 1]) * 10 + (if '0' <= c <= '9' then c as int - '0' as int else 0)
  }

  /** Reading a number back from its decimal digits gives the number. */
  lemma {:induction false} DecimalRoundTrip(n: nat)
    ensures ParseDecimal(Decimal(n)) == n
    decreases n
  {
    if n >= 10 {
      DecimalRoundTrip(n / 10);
      var s := Decimal(n / 10) + [DigitChar(n % 10)];
      assert s[..|s| - 1] == Decimal(n / 10);
    }
  }

  const FilePrefix: string := "line_"
  const FileSuffix: string := ".json"

  /** `f"line_{n}.json"`. */
  function CorrectionFile(n: nat): string {
    FilePrefix + Decimal(n) + FileSuffix
  }

  /** Different line numbers name different files. */
  lemma CorrectionFileInjective(a: nat, b: nat)
    requires CorrectionFile(a) == CorrectionFile(b)
    ensures a == b
  {
    var fa := CorrectionFile(a);
    var fb := CorrectionFile(b);
    assert fa[|FilePrefix|..|fa| - |FileSuffix|] == Decimal(a);
    assert fb[|FilePrefix|..|fb| - |FileSuffix|] == Decimal(b);
    DecimalRoundTrip(a);
    DecimalRoundTrip(b);
  }

  /** The correction file looked up for a record of the ground data: only a
      faulty record whose id was numbered gets one. */
  function CorrectionFor(rs: seq<Record>, r: Record): Option<string> {
    var lines := LineMap(Faulty(rs));
    var id := Get(r, IdColumn);
    if IsFaulty(r) && id in lines then Some(CorrectionFile(lines[id])) else None
  }

  /** Every faulty record of the data is given a correction file, and no
      other record is. */
  lemma CorrectionForFaulty(rs: seq<Record>, r: Record)
    requires r in rs
    ensures CorrectionFor(rs, r).Some? <==> IsFaulty(r)
  {
    FaultySpec(rs);
    LineMapKeys(Faulty(rs));
    if IsFaulty(r) {
      var j :| 0 <= j < |Faulty(rs)| && Faulty(rs)[j] == r;
      assert Get(Faulty(rs)[j], IdColumn) == Get(r, IdColumn);
    }
  }

  const XmlColumnError: string := "Could not determine XML column in ground data"

  /** The correction file each record of the data reads, in data order.
      `header` is the TSV header, the key order of every record. Before any
      record is looked at, the XML column is taken to be the second key of
      the first record; with no records, fewer than two columns or an empty
      second column name, the whole run raises `ValueError`. */
  function CorrectionFiles(header: seq<string>, rs: seq<Record>): Result<seq<Option<string>>, string> {
    if |rs| == 0 || |header| < 2 || header[1] == "" then Failure(XmlColumnError)
    else Success(seq(|rs|, j requires 0 <= j < |rs| => CorrectionFor(rs, rs[j])))
  }

  /** The run raises exactly when no XML column can be found; otherwise
      every record is kept, and exactly the faulty ones get a file. */
  lemma CorrectionFilesSpec(header: seq<string>, rs: seq<Record>)
    ensures CorrectionFiles(header, rs).Failure? <==> |rs| == 0 || |header| < 2 || header[1] == ""
    ensures CorrectionFiles(header, rs).Failure? ==> CorrectionFiles(header, rs).error == XmlColumnError
    ensures CorrectionFiles(header, rs).Success? ==>
              var fs := CorrectionFiles(header, rs).value;
              && |fs| == |rs|
              && forall j :: 0 <= j < |rs| ==> (fs[j].Some? <==> IsFaulty(rs[j]))
  {
    forall j | 0 <= j < |rs|
      ensures CorrectionFor(rs, rs[j]).Some? <==> IsFaulty(rs[j])
    {
      CorrectionForFaulty(rs, rs[j]);
    }
  }

  /** With distinct ids, the Nth faulty record reads `line_N.json`, so no
      two faulty records share a correction file. */
  lemma NthFaultyFile(rs: seq<Record>, i: nat)
    requires i < |Faulty(rs)|
    requires var f := Faulty(rs);
             forall a, b :: 0 <= a < b < |f| ==> Get(f[a], IdColumn) != Get(f[b], IdColumn)
    ensures CorrectionFor(rs, Faulty(rs)[i]) == Some(CorrectionFile(i + 1))
  {
    FaultySpec(rs);
    LineOfNth(Faulty(rs), i);
  }
}
