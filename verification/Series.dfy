/** Whole sample lines and the flat keys of series
    (crates/application/src/metrics/render.rs, apps/load/src/prom.rs). */
module SeriesModel {
  import opened Prelude
  import opened LabelsModel
  import opened Texts

  // ---------------------------------------------------------------- sample lines

  function Braced(body: string): string {
    "{" + body + "}"
  }

  /** A written sample, without its line end; `number` is the text of its value. */
  function Line(name: string, labels: seq<Label>, number: string): string {
    name + (if labels == [] then "" else Braced(Render(labels))) + [' '] + number
  }

  /** What the text of a value means; finite values are read by a given parser. */
  datatype Number<F> = PositiveInfinity | NegativeInfinity | Parsed(value: F)

  datatype Sample<F> = Sample(name: string, labels: map<string, string>, number: Number<F>)

  function ReadNumber<F>(text: string, parse: string -> Option<F>): Option<Number<F>> {
    if text == "+Inf" then Some(PositiveInfinity)
    else if text == "-Inf" then Some(NegativeInfinity)
    else
      match parse(text)
      case None => None
      case Some(value) => Some(Parsed(value))
  }

  /** Position of the last `c`, or the length when there is none. */
  function LastIndexOf(s: string, c: char): (k: nat)
    ensures k <= |s| && (k < |s| ==> s[k] == c)
  {
    if s == "" then 0
    else if s[|s| - 1] == c then |s| - 1
    else
      var k := LastIndexOf(s[..|s| - 1], c);
      if k == |s| - 1 then |s| else k
  }

  function ReadSeries(series: string): Option<(string, map<string, string>)> {
    var brace := IndexOf(series, '{');
    if brace == |series| then Some((series, map[]))
    else
      var rest := series[brace + 1..];
      if rest == "" || rest[|rest| - 1] != '}' then None
      else
        match ReadLabels(rest[..|rest| - 1], map[])
        case None => None
        case Some(labels) => Some((series[..brace], labels))
  }

  /** One line of `parse`; a line that is no sample is skipped. */
  function ReadLine<F>(line: string, parse: string -> Option<F>): Option<Sample<F>> {
    var text := Trim(line);
    if text == "" || text[0] == '#' then None
    else
      var space := LastIndexOf(text, ' ');
      if space == |text| then None
      else
        match ReadNumber(text[space + 1..], parse)
        case None => None
        case Some(number) =>
          match ReadSeries(text[..space])
          case None => None
          case Some((name, labels)) => Some(Sample(name, labels, number))
  }

  lemma {:induction false} LastIndexOfLast(before: string, c: char, after: string)
    requires c !in after
    ensures LastIndexOf(before + [c] + after, c) == |before|
  {
    var s := before + [c] + after;
    if after == "" {
      assert s[|s| - 1] == c;
    } else {
      var shorter := after[..|after| - 1];
      assert s[..|s| - 1] == before + [c] + shorter;
      assert s[|s| - 1] == after[|after| - 1] && after[|after| - 1] in after;
      LastIndexOfLast(before, c, shorter);
    }
  }

  lemma BracedIsFound(name: string, body: string)
    requires '{' !in name
    ensures
      var s := name + Braced(body);
      var rest := s[|name| + 1..];
      && IndexOf(s, '{') == |name| < |s| && s[..|name|] == name
      && rest != "" && rest[|rest| - 1] == '}' && rest[..|rest| - 1] == body
  {
    var s := name + Braced(body);
    assert s == name + ['{'] + (body + "}");
    IndexOfFirst(name, '{', body + "}");
    assert s[|name| + 1..] == body + "}";
  }

  lemma BracedReads(name: string, body: string, m: map<string, string>)
    requires '{' !in name && ReadLabels(body, map[]) == Some(m)
    ensures ReadSeries(name + Braced(body)) == Some((name, m))
  {
    BracedIsFound(name, body);
  }

  lemma SeriesReadsBack(name: string, labels: seq<Label>)
    requires '{' !in name && PlainKeys(labels)
    ensures ReadSeries(name + if labels == [] then "" else Braced(Render(labels))) == Some((name, MapOf(labels)))
  {
    if labels == [] {
      assert name + "" == name;
      IndexOfNone(name, '{');
    } else {
      LabelsReadBack(labels);
      BracedReads(name, Render(labels), MapOf(labels));
    }
  }

  lemma NothingToTrim(s: string)
    requires s != "" && !IsSpace(s[0]) && !IsSpace(s[|s| - 1])
    ensures Trim(s) == s
  {
  }

  lemma ReadKnownLine<F>(series: string, number: string, name: string, m: map<string, string>, parse: string -> Option<F>)
    requires ReadSeries(series) == Some((name, m)) && ' ' !in number
    requires Trim(series + [' '] + number) == series + [' '] + number && (series != "" ==> series[0] != '#')
    requires series != "" && ReadNumber(number, parse).Some?
    ensures ReadLine(series + [' '] + number, parse) == Some(Sample(name, m, ReadNumber(number, parse).value))
  {
    var line := series + [' '] + number;
    LastIndexOfLast(series, ' ', number);
    assert line[0] == series[0];
    assert line[..|series|] == series && line[|series| + 1..] == number;
  }

  /** A line the writer writes for a metric name, any label values and a number the reader
      understands is read back as exactly that sample. */
  lemma LineReadsBack<F>(name: string, labels: seq<Label>, number: string, parse: string -> Option<F>)
    requires name != "" && !IsSpace(name[0]) && name[0] != '#' && '{' !in name && PlainKeys(labels)
    requires number != "" && ' ' !in number && !IsSpace(number[|number| - 1]) && ReadNumber(number, parse).Some?
    ensures ReadLine(Line(name, labels, number), parse) ==
      Some(Sample(name, MapOf(labels), ReadNumber(number, parse).value))
  {
    var series := name + if labels == [] then "" else Braced(Render(labels));
    SeriesReadsBack(name, labels);
    NothingToTrim(series + [' '] + number);
    ReadKnownLine(series, number, name, MapOf(labels), parse);
  }

  /** Infinities have their own texts; any other number is up to the parser. */
  lemma NumbersExactly<F>(text: string, parse: string -> Option<F>)
    ensures ReadNumber("+Inf", parse) == Some(PositiveInfinity) && ReadNumber("-Inf", parse) == Some(NegativeInfinity)
    ensures text != "+Inf" && text != "-Inf" ==>
      ReadNumber(text, parse) == if parse(text).None? then None else Some(Parsed(parse(text).value))
  {
  }

  /** Blank lines, comments and lines without a space, outer white space aside, are no samples. */
  lemma NoSamples<F>(line: string, before: string, after: string, parse: string -> Option<F>)
    requires AllSpaces(before) && AllSpaces(after)
    requires line != "" ==> !IsSpace(line[0]) && !IsSpace(line[|line| - 1])
    requires line == "" || line[0] == '#' || ' ' !in line
    ensures ReadLine(before + (line + after), parse) == None
  {
    if line == "" {
      assert line + after == after && AllSpaces(before + after);
      AllGo(before + after);
    } else {
      LeadingSpacesGo(before, line + after);
      TrailingSpacesGo(line, after);
      if ' ' !in line {
        assert LastIndexOf(line, ' ') == |line|;
      }
    }
  }

  lemma {:induction false} AllGo(spaces: string)
    requires AllSpaces(spaces)
    ensures Trim(spaces) == ""
  {
    assert spaces + "" == spaces;
    LeadingSpacesGo(spaces, "");
  }

  // ---------------------------------------------------------------- flat keys

  function Join(parts: seq<string>): string
    requires parts != []
  {
    if |parts| == 1 then parts[0] else parts[0] + [','] + Join(parts[1..])
  }

  function Split(s: string): (parts: seq<string>)
    ensures parts != []
    decreases |s|
  {
    var comma := IndexOf(s, ',');
    if comma == |s| then [s] else [s[..comma]] + Split(s[comma + 1..])
  }

  function PartOf(l: Label): string {
    l.key + ['='] + l.value
  }

  function Parts(labels: seq<Label>): (parts: seq<string>)
    ensures |parts| == |labels|
  {
    if labels == [] then [] else [PartOf(labels[0])] + Parts(labels[1..])
  }

  /** The flat key of a series. */
  function FlatKey(name: string, labels: seq<Label>): string {
    if labels == [] then name else name + ['{'] + (Join(Parts(labels)) + ['}'])
  }

  function PairsIn(parts: seq<string>): seq<Label> {
    if parts == [] then []
    else
      var eq := IndexOf(parts[0], '=');
      (if eq == |parts[0]| then [] else [Label(parts[0][..eq], parts[0][eq + 1..])]) + PairsIn(parts[1..])
  }

  /** What stands behind the brace, without the closing one. */
  function BodyOf(rest: string): string {
    if rest != "" && rest[|rest| - 1] == '}' then rest[..|rest| - 1] else rest
  }

  function SplitKey(key: string): (string, map<string, string>) {
    var brace := IndexOf(key, '{');
    if brace == |key| then (key, map[]) else (key[..brace], MapOf(PairsIn(Split(BodyOf(key[brace + 1..])))))
  }

  predicate CleanLabel(l: Label) {
    '=' !in l.key && ',' !in l.key && ',' !in l.value
  }

  predicate CleanLabels(labels: seq<Label>) {
    forall i :: 0 <= i < |labels| ==> CleanLabel(labels[i])
  }

  predicate DistinctKeys(labels: seq<Label>) {
    forall i, j :: 0 <= i < j < |labels| ==> labels[i].key != labels[j].key
  }

  predicate NoCommas(parts: seq<string>) {
    forall i :: 0 <= i < |parts| ==> ',' !in parts[i]
  }

  lemma SplitOnce(first: string, rest: string)
    requires ',' !in first
    ensures Split(first + [','] + rest) == [first] + Split(rest)
  {
    var s := first + [','] + rest;
    IndexOfFirst(first, ',', rest);
    assert s[..|first|] == first && s[|first| + 1..] == rest;
  }

  lemma {:induction false} SplitOfJoin(parts: seq<string>)
    requires parts != [] && NoCommas(parts)
    ensures Split(Join(parts)) == parts
  {
    if |parts| == 1 {
      IndexOfNone(parts[0], ',');
    } else {
      SplitOfJoin(parts[1..]);
      SplitOnce(parts[0], Join(parts[1..]));
      assert [parts[0]] + parts[1..] == parts;
    }
  }

  lemma {:induction false} PairsOfParts(labels: seq<Label>)
    requires CleanLabels(labels)
    ensures PairsIn(Parts(labels)) == labels && NoCommas(Parts(labels))
  {
    if labels != [] {
      var l := labels[0];
      PairsOfParts(labels[1..]);
      IndexOfFirst(l.key, '=', l.value);
      assert PartOf(l)[..|l.key|] == l.key && PartOf(l)[|l.key| + 1..] == l.value;
      assert Parts(labels)[1..] == Parts(labels[1..]);
      assert [l] + labels[1..] == labels;
    }
  }

  lemma {:induction false} SplitHasNoCommas(s: string)
    ensures NoCommas(Split(s))
    decreases |s|
  {
    var comma := IndexOf(s, ',');
    NotBeforeIndex(s, ',');
    if comma == |s| {
      assert s[..comma] == s;
    } else {
      SplitHasNoCommas(s[comma + 1..]);
    }
  }

  lemma {:induction false} PairsAreClean(parts: seq<string>)
    requires NoCommas(parts)
    ensures CleanLabels(PairsIn(parts))
  {
    if parts != [] {
      PairsAreClean(parts[1..]);
      NotBeforeIndex(parts[0], '=');
      assert forall c <- parts[0] :: c != ',';
    }
  }

  predicate CleanMap(m: map<string, string>) {
    forall k <- m :: CleanLabel(Label(k, m[k]))
  }

  lemma {:induction false} CollectStaysClean(m: map<string, string>, labels: seq<Label>)
    requires CleanMap(m) && CleanLabels(labels)
    ensures CleanMap(Collect(m, labels))
    decreases |labels|
  {
    if labels != [] {
      CollectStaysClean(m[labels[0].key := labels[0].value], labels[1..]);
    }
  }

  lemma {:induction false} CollectKeeps(m: map<string, string>, labels: seq<Label>, k: string)
    requires forall i :: 0 <= i < |labels| ==> labels[i].key != k
    ensures k in Collect(m, labels) <==> k in m
    ensures k in m ==> Collect(m, labels)[k] == m[k]
    decreases |labels|
  {
    if labels != [] {
      CollectKeeps(m[labels[0].key := labels[0].value], labels[1..], k);
    }
  }

  lemma {:induction false} CollectLast(m: map<string, string>, labels: seq<Label>, i: nat)
    requires i < |labels| && forall j :: i < j < |labels| ==> labels[j].key != labels[i].key
    ensures labels[i].key in Collect(m, labels) && Collect(m, labels)[labels[i].key] == labels[i].value
    decreases |labels|
  {
    var n := m[labels[0].key := labels[0].value];
    if i == 0 {
      CollectKeeps(n, labels[1..], labels[0].key);
    } else {
      CollectLast(n, labels[1..], i - 1);
    }
  }

  /** Of several labels with one key the last counts, and no other key is in the map. */
  lemma LastLabelCounts(labels: seq<Label>, i: nat, k: string)
    requires i < |labels| && forall j :: i < j < |labels| ==> labels[j].key != labels[i].key
    ensures labels[i].key in MapOf(labels) && MapOf(labels)[labels[i].key] == labels[i].value
    ensures (forall j :: 0 <= j < |labels| ==> labels[j].key != k) ==> k !in MapOf(labels)
  {
    CollectLast(map[], labels, i);
    if forall j :: 0 <= j < |labels| ==> labels[j].key != k {
      CollectKeeps(map[], labels, k);
    }
  }

  lemma SplitsAtTheBrace(name: string, rest: string)
    requires '{' !in name
    ensures SplitKey(name + ['{'] + rest) == (name, MapOf(PairsIn(Split(BodyOf(rest)))))
  {
    var s := name + ['{'] + rest;
    IndexOfFirst(name, '{', rest);
    assert s[..|name|] == name && s[|name| + 1..] == rest;
  }

  lemma BracedSplits(name: string, body: string)
    requires '{' !in name
    ensures SplitKey(name + ['{'] + (body + ['}'])) == (name, MapOf(PairsIn(Split(body))))
  {
    SplitsAtTheBrace(name, body + ['}']);
    assert (body + ['}'])[..|body|] == body;
  }

  lemma CleanKeySplitsBack(name: string, labels: seq<Label>)
    requires '{' !in name && CleanLabels(labels)
    ensures SplitKey(FlatKey(name, labels)) == (name, MapOf(labels))
  {
    if labels == [] {
      IndexOfNone(name, '{');
    } else {
      BracedSplits(name, Join(Parts(labels)));
      PairsOfParts(labels);
      SplitOfJoin(Parts(labels));
    }
  }

  /** A part without an equals sign names no label and is dropped. */
  lemma PartWithoutEqualsIsDropped(part: string, rest: seq<string>)
    requires '=' !in part
    ensures PairsIn([part] + rest) == PairsIn(rest)
  {
    IndexOfNone(part, '=');
    assert ([part] + rest)[1..] == rest;
  }

  /** A key whose brace is not closed splits as if it were. */
  lemma UnclosedSplits(name: string, body: string)
    requires '{' !in name && (body == "" || body[|body| - 1] != '}')
    ensures SplitKey(name + ['{'] + body) == SplitKey(name + ['{'] + (body + ['}']))
  {
    BracedSplits(name, body);
    SplitsAtTheBrace(name, body);
  }

  lemma PairsOfTextAreClean(body: string)
    ensures CleanMap(MapOf(PairsIn(Split(body))))
  {
    SplitHasNoCommas(body);
    PairsAreClean(Split(body));
    CollectStaysClean(map[], PairsIn(Split(body)));
  }

  lemma SplitKeyIsClean(key: string)
    ensures '{' !in SplitKey(key).0 && CleanMap(SplitKey(key).1)
  {
    var brace := IndexOf(key, '{');
    NotBeforeIndex(key, '{');
    if brace == |key| {
      assert key[..brace] == key;
    } else {
      PairsOfTextAreClean(BodyOf(key[brace + 1..]));
    }
  }

  /** A flat key splits back into its name and labels exactly when the name has no `{`,
      no key has `=` or `,`, and no value has `,`. */
  lemma SplitKeyExactly(name: string, labels: seq<Label>)
    requires DistinctKeys(labels)
    ensures SplitKey(FlatKey(name, labels)) == (name, MapOf(labels)) <==> '{' !in name && CleanLabels(labels)
  {
    if '{' !in name && CleanLabels(labels) {
      CleanKeySplitsBack(name, labels);
    }
    SplitKeyIsClean(FlatKey(name, labels));
    forall i | 0 <= i < |labels|
      ensures labels[i].key in MapOf(labels) && MapOf(labels)[labels[i].key] == labels[i].value
    {
      CollectLast(map[], labels, i);
    }
  }

  /** A label value with a comma: the flat key does not split back. */
  lemma CommaInAValueIsLost()
    ensures SplitKey(FlatKey("n", [Label("k", "a,b")])) != ("n", MapOf([Label("k", "a,b")]))
  {
    var labels := [Label("k", "a,b")];
    assert ',' in labels[0].value by {
      assert labels[0].value[1] == ',';
    }
    SplitKeyExactly("n", labels);
  }
}
