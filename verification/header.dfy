/**
 The four-line header of a dictionary file (`#Title`, `#Pair`,
 `#Description`, `#Regex filter`) and the split of a file into header and
 body, as `TextSearch.load_dictionaries` does it.
 */
module Header {
  import opened Wrappers
  import opened Text
  import opened OrderedMap

  const TitleField: string := "#Title"
  const PairField: string := "#Pair"
  const DescriptionField: string := "#Description"
  const RegexField: string := "#Regex filter"

  /** The header values a dictionary file declares. */
  datatype Header = Header(title: string, pair: string, description: string, regexFilter: string)

  /** A file that parsed: its header and the text after the header. */
  datatype Parsed = Parsed(header: Header, body: string)

  /** Why a header is rejected; the loader reports every one as the file's name. */
  datatype HeaderError =
    | BadLine(line: nat, parts: nat)   // `dict()` got an element that is not a key/value pair
    | MissingField(name: string)       // `KeyError` on one of the four field names

  /** A newline occurs in `l` at most as its last character. */
  predicate OneRawLine(l: string) {
    forall k :: 0 <= k < |l| - 1 ==> l[k] != '\n'
  }

  /** `l` ends in a newline. */
  predicate Ended(l: string) {
    |l| > 0 && l[|l| - 1] == '\n'
  }

  /** `readline()`: the text up to and including the first newline, and what follows. */
  function ReadLine(s: string): (r: (string, string))
    ensures r.0 + r.1 == s
    ensures OneRawLine(r.0)
    ensures !Ended(r.0) ==> r.1 == ""
    ensures |s| > 0 ==> |r.0| > 0
  {
    if |s| == 0 then ("", "")
    else if s[0] == '\n' then ("\n", s[1..])
    else
      var (line, rest) := ReadLine(s[1..]);
      ([s[0]] + line, rest)
  }

  /**
   The four raw header lines, read one after another, and the rest of the
   file. Each line holds a newline at most as its last character; a line
   that does not end in one reached the end of the file, so the lines after
   it and the rest are empty.
   */
  function SplitHeader(content: string): (r: (seq<string>, string))
    ensures |r.0| == 4
    ensures r.0[0] + r.0[1] + r.0[2] + r.0[3] + r.1 == content
    ensures forall i :: 0 <= i < 4 ==> OneRawLine(r.0[i])
    ensures forall i :: 0 <= i < 4 && !Ended(r.0[i]) ==>
      r.1 == "" && forall m :: i < m < 4 ==> r.0[m] == ""
  {
    var r0 := ReadLine(content);
    var r1 := ReadLine(r0.1);
    var r2 := ReadLine(r1.1);
    var r3 := ReadLine(r2.1);
    Glue(r0.0, r1.0, r2.0, r3.0, r3.1, r2.1, r1.1, r0.1);
    EndOfFile(r0.0, r0.1, r1, r2, r3);
    ([r0.0, r1.0, r2.0, r3.0], r3.1)
  }

  /** Once a line does not end in a newline, every later `readline()` and the `read()` give "". */
  lemma EndOfFile(l0: string, rest0: string, r1: (string, string), r2: (string, string), r3: (string, string))
    requires !Ended(l0) ==> rest0 == ""
    requires r1 == ReadLine(rest0) && r2 == ReadLine(r1.1) && r3 == ReadLine(r2.1)
    ensures forall i :: 0 <= i < 4 && !Ended([l0, r1.0, r2.0, r3.0][i]) ==>
      r3.1 == "" && forall m :: i < m < 4 ==> [l0, r1.0, r2.0, r3.0][m] == ""
  {
    assert ReadLine("") == ("", "");
  }

  lemma Glue(a: string, b: string, c: string, d: string, e: string, de: string, cde: string, bcde: string)
    requires d + e == de && c + de == cde && b + cde == bcde
    ensures a + b + c + d + e == a + bcde
  {
  }

  /** One header line: stripped, then split on `:`; it must give a key and a value. */
  function ParseLine(raw: string): Result<(string, string), nat> {
    var parts := Split(Strip(raw), ':');
    if |parts| == 2 then Success((parts[0], parts[1])) else Failure(|parts|)
  }

  /**
   A header line is accepted exactly when its stripped text holds one `:`;
   the key and value are then the text on either side of it.
   */
  lemma ParseLineSpec(raw: string)
    ensures ParseLine(raw).Success? <==> Count(Strip(raw), ':') == 1
    ensures ParseLine(raw).Success? ==>
      var (k, v) := ParseLine(raw).value;
      k + ":" + v == Strip(raw) && ':' !in k && ':' !in v
    ensures ParseLine(raw).Failure? ==> ParseLine(raw).error == Count(Strip(raw), ':') + 1
  {
    var parts := Split(Strip(raw), ':');
    SplitCount(Strip(raw), ':');
    if |parts| == 2 {
      JoinSplit(Strip(raw), ':');
      SplitPartsFree(Strip(raw), ':');
      assert Join(parts[1..], ':') == parts[1];
    }
  }

  /** The loop over the header lines with a line parser `parse`, stopping at the first line that is not a pair. */
  function ParseLinesWith(parse: string -> Result<(string, string), nat>, lines: seq<string>, from: nat)
    : (r: Result<seq<(string, string)>, HeaderError>)
    requires from <= |lines|
    ensures r.Success? ==> |r.value| == |lines| - from
    decreases |lines| - from
  {
    if from == |lines| then Success([])
    else
      var head := parse(lines[from]);
      if head.Failure? then Failure(BadLine(from, head.error))
      else
        var rest := ParseLinesWith(parse, lines, from + 1);
        if rest.Failure? then rest else Success([head.value] + rest.value)
  }

  /** Parse the header lines in order, stopping at the first one that is not a pair. */
  function ParseLines(lines: seq<string>, from: nat): Result<seq<(string, string)>, HeaderError>
    requires from <= |lines|
  {
    ParseLinesWith(ParseLine, lines, from)
  }

  /**
   The loop succeeds exactly when every line parses, giving the lines' pairs
   in order; otherwise the error names the first line that is not a pair.
   */
  lemma {:induction false} ParseLinesWithSpec(parse: string -> Result<(string, string), nat>, lines: seq<string>, from: nat)
    requires from <= |lines|
    ensures ParseLinesWith(parse, lines, from).Success? <==> forall i :: from <= i < |lines| ==> parse(lines[i]).Success?
    ensures ParseLinesWith(parse, lines, from).Success? ==>
      forall i :: 0 <= i < |lines| - from ==> parse(lines[from + i]) == Success(ParseLinesWith(parse, lines, from).value[i])
    ensures ParseLinesWith(parse, lines, from).Failure? ==>
      var e := ParseLinesWith(parse, lines, from).error;
      && e.BadLine? && from <= e.line < |lines|
      && parse(lines[e.line]).Failure?
      && forall i :: from <= i < e.line ==> parse(lines[i]).Success?
    decreases |lines| - from
  {
    if from < |lines| && parse(lines[from]).Success? {
      ParseLinesWithSpec(parse, lines, from + 1);
      var r := ParseLinesWith(parse, lines, from);
      var rest := ParseLinesWith(parse, lines, from + 1);
      if rest.Success? {
        assert r.value == [parse(lines[from]).value] + rest.value;
        forall i | 0 <= i < |lines| - from
          ensures parse(lines[from + i]) == Success(r.value[i])
        {
          if i > 0 {
            assert r.value[i] == rest.value[i - 1];
            assert lines[from + i] == lines[(from + 1) + (i - 1)];
          }
        }
      }
    }
  }

  /** `ParseLinesWithSpec` for the header's own line parser. */
  lemma ParseLinesSpec(lines: seq<string>)
    ensures ParseLines(lines, 0).Success? <==> forall i :: 0 <= i < |lines| ==> ParseLine(lines[i]).Success?
    ensures ParseLines(lines, 0).Success? ==>
      |ParseLines(lines, 0).value| == |lines|
      && forall i :: 0 <= i < |lines| ==> ParseLine(lines[i]) == Success(ParseLines(lines, 0).value[i])
  {
    var r := ParseLines(lines, 0);
    assert r.Success? <==> forall i :: 0 <= i < |lines| ==> ParseLine(lines[i]).Success? by {
      ParseLinesWithSpec(ParseLine, lines, 0);
    }
    if r.Success? {
      ParseLinesWithSpec(ParseLine, lines, 0);
      forall i | 0 <= i < |lines|
        ensures ParseLine(lines[i]) == Success(r.value[i])
      {
        assert ParseLine(lines[0 + i]) == Success(r.value[i]);
      }
    }
  }

  /** `dict(pairs)`: later pairs overwrite earlier ones with the same key. */
  function DictOf(pairs: seq<(string, string)>): (d: OMap<string, string>)
    ensures Distinct(d)
  {
    PutAll([], pairs)
  }

  /** A key of `dict(pairs)` maps to the value of the last pair that carries it. */
  lemma DictOfLast(pairs: seq<(string, string)>, k: string)
    ensures Get(DictOf(pairs), k).Some? <==> exists i :: 0 <= i < |pairs| && pairs[i].0 == k
    ensures Get(DictOf(pairs), k).Some? ==>
      exists i :: 0 <= i < |pairs| && pairs[i] == (k, Get(DictOf(pairs), k).value)
        && forall j :: i < j < |pairs| ==> pairs[j].0 != k
  {
    PutAllLast([], pairs, k);
  }

  /** Look up a field of the header dictionary, raising `KeyError` if it is absent. */
  function Field(d: OMap<string, string>, name: string): Result<string, HeaderError> {
    match Get(d, name)
    case None => Failure(MissingField(name))
    case Some(v) => Success(v)
  }

  /**
   A whole file: four header lines then the body. The record's values are
   looked up in the order Python evaluates them: the three right-hand-side
   fields first, then `#Title` used as the key.
   */
  function ParseFile(content: string): Result<Parsed, HeaderError> {
    var (lines, body) := SplitHeader(content);
    var pairs := ParseLines(lines, 0);
    if pairs.Failure? then Failure(pairs.error) else Assemble(DictOf(pairs.value), body)
  }

  /** The record built from the header dictionary, or the first `KeyError`. */
  function Assemble(d: OMap<string, string>, body: string): (r: Result<Parsed, HeaderError>)
    ensures r.Success? <==>
      Get(d, TitleField).Some? && Get(d, PairField).Some?
      && Get(d, DescriptionField).Some? && Get(d, RegexField).Some?
    ensures r.Success? ==> r.value == Parsed(Header(Get(d, TitleField).value, Get(d, PairField).value,
      Get(d, DescriptionField).value, Get(d, RegexField).value), body)
  {
    match Field(d, PairField)
    case Failure(e) => Failure(e)
    case Success(pair) =>
      match Field(d, DescriptionField)
      case Failure(e) => Failure(e)
      case Success(description) =>
        match Field(d, RegexField)
        case Failure(e) => Failure(e)
        case Success(regex) =>
          match Field(d, TitleField)
          case Failure(e) => Failure(e)
          case Success(title) => Success(Parsed(Header(title, pair, description, regex), body))
  }

  /** The key/value pair a header line carries, when it carries one. */
  function LinePair(raw: string): Option<(string, string)> {
    match ParseLine(raw)
    case Success(kv) => Some(kv)
    case Failure(_) => None
  }

  /** Header line `i` of `content` carries `name` with value `v`, and no later header line carries `name`. */
  predicate CarriesLast(content: string, name: string, v: string) {
    var lines := SplitHeader(content).0;
    exists i :: 0 <= i < 4 && LinePair(lines[i]) == Some((name, v))
      && forall j :: i < j < 4 ==> LinePair(lines[j]).None? || LinePair(lines[j]).value.0 != name
  }

  predicate Declares(content: string, name: string) {
    var lines := SplitHeader(content).0;
    exists i :: 0 <= i < 4 && LinePair(lines[i]).Some? && LinePair(lines[i]).value.0 == name
  }

  /**
   A file loads exactly when each of its first four lines holds one `:` and
   all four field names occur among their keys.
   */
  lemma ParseFileAccepts(content: string)
    ensures ParseFile(content).Success? <==>
      (forall i :: 0 <= i < 4 ==> Count(Strip(SplitHeader(content).0[i]), ':') == 1)
      && Declares(content, TitleField) && Declares(content, PairField)
      && Declares(content, DescriptionField) && Declares(content, RegexField)
  {
    var lines := SplitHeader(content).0;
    LinesAccepted(lines);
    var r := ParseLines(lines, 0);
    if r.Success? {
      FieldOfDict(content, r.value, TitleField);
      FieldOfDict(content, r.value, PairField);
      FieldOfDict(content, r.value, DescriptionField);
      FieldOfDict(content, r.value, RegexField);
    }
  }

  /** The four header lines parse exactly when each holds one `:`. */
  lemma LinesAccepted(lines: seq<string>)
    requires |lines| == 4
    ensures ParseLines(lines, 0).Success? <==> forall i :: 0 <= i < 4 ==> Count(Strip(lines[i]), ':') == 1
  {
    forall i | 0 <= i < 4
      ensures ParseLine(lines[i]).Success? <==> Count(Strip(lines[i]), ':') == 1
    {
      ParseLineSpec(lines[i]);
    }
    ParseLinesSpec(lines);
  }

  /**
   A loaded record holds, for every field, the value of the last header line
   naming it, and its body is all the text after the fourth line.
   */
  lemma ParseFileFields(content: string)
    requires ParseFile(content).Success?
    ensures CarriesLast(content, TitleField, ParseFile(content).value.header.title)
    ensures CarriesLast(content, PairField, ParseFile(content).value.header.pair)
    ensures CarriesLast(content, DescriptionField, ParseFile(content).value.header.description)
    ensures CarriesLast(content, RegexField, ParseFile(content).value.header.regexFilter)
    ensures var lines := SplitHeader(content).0;
      lines[0] + lines[1] + lines[2] + lines[3] + ParseFile(content).value.body == content
  {
    var (lines, body) := SplitHeader(content);
    var r := ParseLines(lines, 0);
    FieldOfDict(content, r.value, TitleField);
    FieldOfDict(content, r.value, PairField);
    FieldOfDict(content, r.value, DescriptionField);
    FieldOfDict(content, r.value, RegexField);
  }

  /** What one field lookup in the header dictionary finds, in terms of the header lines. */
  lemma FieldOfDict(content: string, pairs: seq<(string, string)>, name: string)
    requires ParseLines(SplitHeader(content).0, 0) == Success(pairs)
    ensures Get(DictOf(pairs), name).Some? <==> Declares(content, name)
    ensures Get(DictOf(pairs), name).Some? ==> CarriesLast(content, name, Get(DictOf(pairs), name).value)
  {
    var lines := SplitHeader(content).0;
    ParseLinesSpec(lines);
    assert forall i :: 0 <= i < 4 ==> LinePair(lines[i]) == Some(pairs[i]);
    var d := DictOf(pairs);
    DictOfLast(pairs, name);
    if Get(d, name).Some? {
      var i :| 0 <= i < |pairs| && pairs[i] == (name, Get(d, name).value)
        && forall j :: i < j < |pairs| ==> pairs[j].0 != name;
      assert LinePair(lines[i]) == Some((name, Get(d, name).value));
    }
    if Declares(content, name) {
      var i :| 0 <= i < 4 && LinePair(lines[i]).Some? && LinePair(lines[i]).value.0 == name;
      assert pairs[i].0 == name;
    }
  }

  /** A header value the format can carry: no `:`, no newline, no trailing whitespace. */
  predicate PlainValue(v: string) {
    ':' !in v && '\n' !in v && (|v| == 0 || !IsSpace(v[|v| - 1]))
  }

  /** One header line as a dictionary author writes it. */
  function HeaderLine(name: string, v: string): string {
    name + ":" + v + "\n"
  }

  /** The file text a dictionary author writes for a header and a body. */
  function Render(h: Header, body: string): string {
    HeaderLine(TitleField, h.title)
    + (HeaderLine(PairField, h.pair)
    + (HeaderLine(DescriptionField, h.description)
    + (HeaderLine(RegexField, h.regexFilter)
    + body)))
  }

  /** Reading a newline-terminated line returns exactly that line. */
  lemma {:induction false} ReadLineOf(line: string, rest: string)
    requires '\n' !in line
    ensures ReadLine(line + "\n" + rest) == (line + "\n", rest)
  {
    if |line| > 0 {
      ReadLineOf(line[1..], rest);
      assert (line + "\n" + rest)[1..] == line[1..] + "\n" + rest;
      assert [line[0]] + (line[1..] + "\n") == line + "\n";
    } else {
      assert line + "\n" + rest == "\n" + rest;
    }
  }

  /** Stripping a rendered line removes only its newline. */
  lemma StripRenderedLine(name: string, v: string)
    requires |name| > 0 && name[0] == '#'
    requires PlainValue(v)
    ensures Strip(name + ":" + v + "\n") == name + ":" + v
  {
    var s := name + ":" + v + "\n";
    var t := name + ":" + v;
    assert s[0] == '#';
    assert LeadCount(s, IsSpace) == 0;
    assert s[0..] == s;
    assert s[|s| - 1] == '\n';
    assert t[|t| - 1] == (if |v| == 0 then ':' else v[|v| - 1]);
    assert TrailCount(s, IsSpace) == 1 by {
      assert s[..|s| - 1] == t;
      assert TrailCount(t, IsSpace) == 0;
    }
  }

  /** A rendered header line parses back to its field name and value. */
  lemma ParseRenderedLine(name: string, v: string)
    requires |name| > 0 && name[0] == '#' && ':' !in name
    requires PlainValue(v)
    ensures ParseLine(name + ":" + v + "\n") == Success((name, v))
  {
    StripRenderedLine(name, v);
    SplitJoin([name, v], ':');
    assert Join([name, v], ':') == name + ":" + v by {
      assert Join([name, v][1..], ':') == v;
    }
  }

  /** The four lines of a rendered file, newline included. */
  function RenderedLines(h: Header): seq<string> {
    [HeaderLine(TitleField, h.title), HeaderLine(PairField, h.pair),
     HeaderLine(DescriptionField, h.description), HeaderLine(RegexField, h.regexFilter)]
  }

  /** The pairs a rendered header holds, in file order. */
  function RenderedPairs(h: Header): seq<(string, string)> {
    [(TitleField, h.title), (PairField, h.pair), (DescriptionField, h.description), (RegexField, h.regexFilter)]
  }

  /** A rendered file reads back as its four lines and the body. */
  lemma RenderSplits(h: Header, body: string)
    requires PlainValue(h.title) && PlainValue(h.pair)
    requires PlainValue(h.description) && PlainValue(h.regexFilter)
    ensures SplitHeader(Render(h, body)) == (RenderedLines(h), body)
  {
    var r3 := HeaderLine(RegexField, h.regexFilter) + body;
    var r2 := HeaderLine(DescriptionField, h.description) + r3;
    var r1 := HeaderLine(PairField, h.pair) + r2;
    ReadHeaderLine(TitleField, h.title, r1);
    ReadHeaderLine(PairField, h.pair, r2);
    ReadHeaderLine(DescriptionField, h.description, r3);
    ReadHeaderLine(RegexField, h.regexFilter, body);
  }

  lemma ReadHeaderLine(name: string, v: string, rest: string)
    requires '\n' !in name && '\n' !in v
    ensures ReadLine(HeaderLine(name, v) + rest) == (HeaderLine(name, v), rest)
  {
    ReadLineOf(name + ":" + v, rest);
  }

  /** The rendered lines parse into the rendered pairs. */
  lemma RenderedLinesParse(h: Header)
    requires PlainValue(h.title) && PlainValue(h.pair)
    requires PlainValue(h.description) && PlainValue(h.regexFilter)
    ensures ParseLines(RenderedLines(h), 0) == Success(RenderedPairs(h))
  {
    var lines := RenderedLines(h);
    var pairs := RenderedPairs(h);
    forall i | 0 <= i < 4
      ensures ParseLine(lines[i]) == Success(pairs[i])
    {
      ParseRenderedLine(pairs[i].0, pairs[i].1);
    }
    ParseLinesAll(lines, pairs);
  }

  /** Lines that each parse make `ParseLines` return their pairs. */
  lemma ParseLinesAll(lines: seq<string>, pairs: seq<(string, string)>)
    requires |pairs| == |lines|
    requires forall i :: 0 <= i < |lines| ==> ParseLine(lines[i]) == Success(pairs[i])
    ensures ParseLines(lines, 0) == Success(pairs)
  {
    var r := ParseLines(lines, 0);
    ParseLinesSpec(lines);
    assert r.Success?;
    assert forall i :: 0 <= i < |pairs| ==> Success(r.value[i]) == ParseLine(lines[0 + i]);
    assert r.value == pairs;
  }

  /** With distinct keys, `dict(pairs)` keeps every pair, in order. */
  lemma {:induction false} DictOfDistinct(pairs: seq<(string, string)>)
    requires Distinct(pairs)
    ensures DictOf(pairs) == pairs
  {
    if |pairs| > 0 {
      var init := pairs[..|pairs| - 1];
      DictOfDistinct(init);
      assert !HasKey(init, pairs[|pairs| - 1].0);
      assert init + [pairs[|pairs| - 1]] == pairs;
    }
  }

  /** The rendered pairs, as a header dictionary, assemble into the header. */
  lemma AssembleRendered(h: Header, body: string)
    ensures Assemble(RenderedPairs(h), body) == Success(Parsed(h, body))
  {
    var pairs := RenderedPairs(h);
    assert TitleField[1] == 'T' && PairField[1] == 'P' && DescriptionField[1] == 'D' && RegexField[1] == 'R';
    assert pairs[0].0 == TitleField && pairs[1].0 == PairField;
    assert pairs[2].0 == DescriptionField && pairs[3].0 == RegexField;
    assert IndexOf(pairs, TitleField) == 0;
    assert IndexOf(pairs, PairField) == 1;
    assert IndexOf(pairs, DescriptionField) == 2;
    assert IndexOf(pairs, RegexField) == 3;
  }

  lemma RenderedPairsDistinct(h: Header)
    ensures Distinct(RenderedPairs(h))
  {
    assert TitleField[1] == 'T' && PairField[1] == 'P' && DescriptionField[1] == 'D' && RegexField[1] == 'R';
  }

  /** Round trip: a header written in the file format is read back verbatim, with the body untouched. */
  lemma RenderParse(h: Header, body: string)
    requires PlainValue(h.title) && PlainValue(h.pair)
    requires PlainValue(h.description) && PlainValue(h.regexFilter)
    ensures ParseFile(Render(h, body)) == Success(Parsed(h, body))
  {
    var pairs := RenderedPairs(h);
    RenderSplits(h, body);
    RenderedLinesParse(h);
    RenderedPairsDistinct(h);
    DictOfDistinct(pairs);
    AssembleRendered(h, body);
    ParseFileVia(Render(h, body), RenderedLines(h), body, pairs);
  }

  /** `ParseFile` in terms of the split and the parsed lines. */
  lemma ParseFileVia(content: string, lines: seq<string>, body: string, pairs: seq<(string, string)>)
    requires SplitHeader(content) == (lines, body)
    requires ParseLines(lines, 0) == Success(pairs)
    ensures ParseFile(content) == Assemble(DictOf(pairs), body)
  {
  }
}
