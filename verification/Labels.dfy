/** Metric series as text: the exposition writer's label escapes
    (crates/application/src/metrics/render.rs) and the load harness's reader and flat
    keys (apps/load/src/prom.rs). */
module LabelsModel {
  import opened Prelude
  import opened Texts

  /** A label and its value, in the order they are written. */
  datatype Label = Label(key: string, value: string)

  /** Later labels replace earlier ones of the same key. */
  function MapOf(labels: seq<Label>): map<string, string> {
    Collect(map[], labels)
  }

  function Collect(m: map<string, string>, labels: seq<Label>): map<string, string>
    decreases |labels|
  {
    if labels == [] then m else Collect(m[labels[0].key := labels[0].value], labels[1..])
  }

  // ---------------------------------------------------------------- text

  /** `char::is_whitespace`. */
  predicate IsSpace(c: char) {
    || '\t' <= c <= '\r' || c == ' ' || c == '\U{85}' || c == '\U{A0}' || c == '\U{1680}'
    || '\U{2000}' <= c <= '\U{200A}' || c == '\U{2028}' || c == '\U{2029}' || c == '\U{202F}'
    || c == '\U{205F}' || c == '\U{3000}'
  }

  function TrimCommas(s: string): string {
    if s != "" && s[0] == ',' then TrimCommas(s[1..]) else s
  }

  function TrimStart(s: string): string {
    if s != "" && IsSpace(s[0]) then TrimStart(s[1..]) else s
  }

  function TrimEnd(s: string): string {
    if s != "" && IsSpace(s[|s| - 1]) then TrimEnd(s[..|s| - 1]) else s
  }

  function Trim(s: string): string {
    TrimEnd(TrimStart(s))
  }

  // ---------------------------------------------------------------- escapes

  function EscapeChar(c: char): string {
    if c == '\\' then "\\\\" else if c == '"' then "\\\"" else if c == '\n' then "\\n" else [c]
  }

  function Escaped(v: string): string {
    if v == "" then "" else EscapeChar(v[0]) + Escaped(v[1..])
  }

  lemma Regroup(a: string, b: string, c: string)
    ensures a + b + c == a + (b + c)
  {
  }

  lemma EscapedFrom(v: string, i: nat)
    requires i < |v|
    ensures Escaped(v[i..]) == EscapeChar(v[i]) + Escaped(v[i + 1..])
  {
    var rest := v[i..];
    assert rest[0] == v[i] && rest[1..] == v[i + 1..];
  }

  /** The text so far and the escapes of the rest make up the whole. */
  predicate EscapedSoFar(v: string, i: nat, s: string) {
    i <= |v| && s + Escaped(v[i..]) == Escaped(v)
  }

  lemma EscapeStart(v: string)
    ensures EscapedSoFar(v, 0, "")
  {
    assert v[0..] == v;
  }

  lemma EscapeStep(v: string, i: nat, s: string)
    requires i < |v| && EscapedSoFar(v, i, s)
    ensures EscapedSoFar(v, i + 1, s + EscapeChar(v[i]))
  {
    EscapedFrom(v, i);
    Regroup(s, EscapeChar(v[i]), Escaped(v[i + 1..]));
  }

  lemma EscapeEnd(v: string, s: string)
    requires EscapedSoFar(v, |v|, s)
    ensures s == Escaped(v)
  {
  }

  /** The loop of the writer's `escape`. */
  method Escape(v: string) returns (s: string)
    ensures s == Escaped(v)
  {
    s := "";
    EscapeStart(v);
    for i := 0 to |v|
      invariant EscapedSoFar(v, i, s)
    {
      EscapeStep(v, i, s);
      s := s + EscapeChar(v[i]);
    }
    EscapeEnd(v, s);
  }

  function Unescaped(v: string): string {
    if v == "" then ""
    else if v[0] != '\\' then [v[0]] + Unescaped(v[1..])
    else if |v| == 1 then "\\"
    else [if v[1] == 'n' then '\n' else v[1]] + Unescaped(v[2..])
  }

  lemma UnescapeStep(v: string, i: nat)
    requires i < |v|
    ensures v[i] != '\\' ==> Unescaped(v[i..]) == [v[i]] + Unescaped(v[i + 1..])
    ensures v[i] == '\\' && i + 1 == |v| ==> Unescaped(v[i..]) == "\\"
    ensures v[i] == '\\' && i + 1 < |v| ==>
      Unescaped(v[i..]) == [if v[i + 1] == 'n' then '\n' else v[i + 1]] + Unescaped(v[i + 2..])
  {
    var rest := v[i..];
    assert rest[0] == v[i] && rest[1..] == v[i + 1..];
    if i + 1 < |v| {
      assert rest[1] == v[i + 1] && rest[2..] == v[i + 2..];
    }
  }

  /** The text so far and the reading of the rest make up the whole. */
  predicate UnescapedSoFar(v: string, i: nat, out: string) {
    i <= |v| && out + Unescaped(v[i..]) == Unescaped(v)
  }

  lemma UnescapeStart(v: string)
    ensures UnescapedSoFar(v, 0, "")
  {
    assert v[0..] == v;
  }

  lemma ReadPlain(v: string, i: nat, out: string)
    requires i < |v| && v[i] != '\\' && UnescapedSoFar(v, i, out)
    ensures UnescapedSoFar(v, i + 1, out + [v[i]])
  {
    UnescapeStep(v, i);
    Regroup(out, [v[i]], Unescaped(v[i + 1..]));
  }

  lemma ReadEscape(v: string, i: nat, out: string)
    requires i + 1 < |v| && v[i] == '\\' && UnescapedSoFar(v, i, out)
    ensures UnescapedSoFar(v, i + 2, out + [if v[i + 1] == 'n' then '\n' else v[i + 1]])
  {
    UnescapeStep(v, i);
    Regroup(out, [if v[i + 1] == 'n' then '\n' else v[i + 1]], Unescaped(v[i + 2..]));
  }

  lemma ReadTrailing(v: string, i: nat, out: string)
    requires i + 1 == |v| && v[i] == '\\' && UnescapedSoFar(v, i, out)
    ensures UnescapedSoFar(v, |v|, out + "\\")
  {
    UnescapeStep(v, i);
    assert v[|v|..] == "";
  }

  lemma UnescapeEnd(v: string, out: string)
    requires UnescapedSoFar(v, |v|, out)
    ensures out == Unescaped(v)
  {
  }

  /** The loop of the reader's `unescape`. */
  method Unescape(v: string) returns (out: string)
    ensures out == Unescaped(v)
  {
    out := "";
    var i := 0;
    UnescapeStart(v);
    while i < |v|
      invariant UnescapedSoFar(v, i, out)
    {
      var c := v[i];
      i := i + 1;
      if c == '\\' {
        if i < |v| {
          ReadEscape(v, i - 1, out);
          out := out + [if v[i] == 'n' then '\n' else v[i]];
          i := i + 1;
        } else {
          ReadTrailing(v, i - 1, out);
          out := out + "\\";
        }
      } else {
        ReadPlain(v, i - 1, out);
        out := out + [c];
      }
    }
    UnescapeEnd(v, out);
  }

  lemma UnescapeOfOne(c: char, tail: string)
    ensures Unescaped(EscapeChar(c) + tail) == [c] + Unescaped(tail)
  {
    var e := EscapeChar(c);
    assert (e + tail)[|e|..] == tail;
    assert (e + tail)[0] == e[0] && (|e| == 2 ==> (e + tail)[1] == e[1]);
  }

  lemma {:induction false} UnescapeOfEscape(v: string)
    ensures Unescaped(Escaped(v)) == v
  {
    if v != "" {
      UnescapeOfOne(v[0], Escaped(v[1..]));
      UnescapeOfEscape(v[1..]);
      assert [v[0]] + v[1..] == v;
    }
  }

  function Specials(v: string): nat {
    if v == "" then 0 else Specials(v[..|v| - 1]) + if v[|v| - 1] in "\\\"\n" then 1 else 0
  }

  lemma {:induction false} EscapedAppends(v: string, c: char)
    ensures Escaped(v + [c]) == Escaped(v) + EscapeChar(c)
  {
    if v == "" {
      assert [c][1..] == "" && "" + [c] == [c];
    } else {
      EscapedAppends(v[1..], c);
      assert (v + [c])[1..] == v[1..] + [c];
      Regroup(EscapeChar(v[0]), Escaped(v[1..]), EscapeChar(c));
    }
  }

  /** Every quote of the text stands behind a backslash. */
  predicate QuotesAreEscaped(s: string) {
    forall i :: 0 <= i < |s| && s[i] == '"' ==> i > 0 && s[i - 1] == '\\'
  }

  /** A written value stays on its line and inside its quotes. */
  lemma {:induction false} EscapedIsOneLine(v: string)
    ensures '\n' !in Escaped(v) && QuotesAreEscaped(Escaped(v))
  {
    if v != "" {
      EscapedIsOneLine(v[..|v| - 1]);
      EscapedAppends(v[..|v| - 1], v[|v| - 1]);
      assert v == v[..|v| - 1] + [v[|v| - 1]];
    }
  }

  /** Only backslashes, quotes and line ends cost a character more. */
  lemma {:induction false} EscapedLength(v: string)
    ensures |Escaped(v)| == |v| + Specials(v)
  {
    if v != "" {
      EscapedLength(v[..|v| - 1]);
      EscapedAppends(v[..|v| - 1], v[|v| - 1]);
      assert v == v[..|v| - 1] + [v[|v| - 1]];
    }
  }

  lemma {:induction false} PlainIsPassed(plain: string, t: string)
    requires '\\' !in plain
    ensures Unescaped(plain + t) == plain + Unescaped(t)
  {
    if plain == "" {
      assert plain + t == t;
    } else {
      PlainIsPassed(plain[1..], t);
      assert (plain + t)[1..] == plain[1..] + t;
      assert plain == [plain[0]] + plain[1..];
      Regroup([plain[0]], plain[1..], Unescaped(t));
    }
  }

  /** Unescaping, by what comes first: a text without backslashes is its own, a backslash before
      `n` is a line end, before any other character that character, and at the end itself. */
  lemma UnescapesExactly(plain: string, c: char, rest: string)
    requires '\\' !in plain
    ensures Unescaped(plain) == plain
    ensures Unescaped(plain + "\\") == plain + "\\"
    ensures Unescaped(plain + (['\\', c] + rest)) == plain + ([if c == 'n' then '\n' else c] + Unescaped(rest))
  {
    assert plain + "" == plain;
    PlainIsPassed(plain, "");
    PlainIsPassed(plain, "\\");
    PlainIsPassed(plain, ['\\', c] + rest);
    assert (['\\', c] + rest)[2..] == rest;
  }

  // ---------------------------------------------------------------- reading labels

  /** Position of the quote that closes the value at `j`, past the end when there is none. */
  function QuoteEnd(s: string, j: nat): (k: nat)
    ensures k >= j
    decreases |s| - j
  {
    if j >= |s| || s[j] == '"' then j
    else if s[j] == '\\' then QuoteEnd(s, j + 2)
    else QuoteEnd(s, j + 1)
  }

  lemma {:induction false} QuoteEndShifts(before: string, s: string, j: nat)
    ensures QuoteEnd(before + s, |before| + j) == |before| + QuoteEnd(s, j)
    decreases |s| - j
  {
    if j < |s| && s[j] != '"' {
      QuoteEndShifts(before, s, if s[j] == '\\' then j + 2 else j + 1);
    }
  }

  function KeyOf(text: string): string {
    Trim(TrimCommas(text))
  }

  /** White space by code points (`White_Space` of Unicode). */
  lemma SpacesExactly(c: char)
    ensures IsSpace(c) <==>
      c as int in {9, 10, 11, 12, 13, 32, 0x85, 0xA0, 0x1680, 0x2000, 0x2001, 0x2002, 0x2003, 0x2004, 0x2005, 0x2006, 0x2007,
                   0x2008, 0x2009, 0x200A, 0x2028, 0x2029, 0x202F, 0x205F, 0x3000}
  {
  }

  predicate AllSpaces(s: string) { forall i :: 0 <= i < |s| ==> IsSpace(s[i]) }

  predicate AllCommas(s: string) { forall i :: 0 <= i < |s| ==> s[i] == ',' }

  lemma {:induction false} CommasGo(commas: string, s: string)
    requires AllCommas(commas) && (s != "" ==> s[0] != ',')
    ensures TrimCommas(commas + s) == s
  {
    if commas == "" {
      assert commas + s == s;
    } else {
      assert (commas + s)[1..] == commas[1..] + s;
      CommasGo(commas[1..], s);
    }
  }

  lemma {:induction false} LeadingSpacesGo(spaces: string, s: string)
    requires AllSpaces(spaces) && (s != "" ==> !IsSpace(s[0]))
    ensures TrimStart(spaces + s) == s
  {
    if spaces == "" {
      assert spaces + s == s;
    } else {
      assert (spaces + s)[1..] == spaces[1..] + s;
      LeadingSpacesGo(spaces[1..], s);
    }
  }

  lemma {:induction false} TrailingSpacesGo(s: string, spaces: string)
    requires AllSpaces(spaces) && (s != "" ==> !IsSpace(s[|s| - 1]))
    ensures TrimEnd(s + spaces) == s
  {
    if spaces == "" {
      assert s + spaces == s;
    } else {
      assert (s + spaces)[..|s + spaces| - 1] == s + spaces[..|spaces| - 1];
      TrailingSpacesGo(s, spaces[..|spaces| - 1]);
    }
  }

  /** The commas in front of a key and the white space around it are not part of it. */
  lemma KeyIsTrimmed(commas: string, before: string, k: string, after: string)
    requires AllCommas(commas) && AllSpaces(before) && AllSpaces(after)
    requires k != "" && k[0] != ',' && !IsSpace(k[0]) && !IsSpace(k[|k| - 1])
    ensures KeyOf(commas + (before + (k + after))) == k
  {
    var text := before + (k + after);
    assert before != "" ==> text[0] == before[0];
    CommasGo(commas, text);
    LeadingSpacesGo(before, k + after);
    TrailingSpacesGo(k, after);
  }

  /** The texts of a key and of a value, and what follows the closing quote. */
  datatype Read = Read(key: string, value: string, rest: string)

  /** The next `key="value"` pair. */
  function ReadPair(s: string): (r: Option<Read>)
    ensures r.Some? ==> |r.value.rest| < |s|
  {
    var eq := IndexOf(s, '=');
    if eq + 1 >= |s| || s[eq + 1] != '"' then None
    else
      var end := QuoteEnd(s, eq + 2);
      if end >= |s| then None else Some(Read(s[..eq], s[eq + 2..end], s[end + 1..]))
  }

  /** Pair after pair until the text is used up. */
  function ReadLabels(s: string, m: map<string, string>): Option<map<string, string>>
    decreases |s|
  {
    if s == "" then Some(m)
    else
      match ReadPair(s)
      case None => None
      case Some(r) => ReadLabels(r.rest, m[KeyOf(r.key) := Unescaped(r.value)])
  }

  /** Text that is left and has no pair in it is refused: without an equals sign, without an
      opening quote right behind it, or without a closing one. */
  lemma BrokenPairsAreRefused(s: string, m: map<string, string>)
    requires s != ""
    ensures
      var eq := IndexOf(s, '=');
      eq == |s| || eq + 1 == |s| || s[eq + 1] != '"' || QuoteEnd(s, eq + 2) >= |s| ==> ReadLabels(s, m) == None
  {
  }

  method FindQuote(body: string, from: nat) returns (j: nat)
    ensures j == QuoteEnd(body, from)
  {
    j := from;
    while j < |body|
      invariant QuoteEnd(body, j) == QuoteEnd(body, from)
    {
      if body[j] == '\\' {
        j := j + 2;
        continue;
      }
      if body[j] == '"' {
        break;
      }
      j := j + 1;
    }
  }

  lemma SliceOfSlice(s: string, i: nat, a: nat, b: nat)
    requires i <= |s| && a <= b <= |s| - i
    ensures s[i..][a..b] == s[i + a..i + b]
  {
  }

  lemma DropOfDrop(s: string, i: nat, a: nat)
    requires i <= |s| && a <= |s| - i
    ensures s[i..][a..] == s[i + a..]
  {
  }

  lemma PairIs(s: string, eq: nat, end: nat)
    requires eq == IndexOf(s, '=') && eq + 1 < |s| && s[eq + 1] == '"' && end == QuoteEnd(s, eq + 2)
    ensures ReadPair(s) == if end >= |s| then None else Some(Read(s[..eq], s[eq + 2..end], s[end + 1..]))
  {
  }

  lemma QuoteEndInRest(body: string, i: nat, j: nat)
    requires i <= |body|
    ensures QuoteEnd(body, i + j) == i + QuoteEnd(body[i..], j)
  {
    QuoteEndShifts(body[..i], body[i..], j);
    assert body[..i] + body[i..] == body;
  }

  /** The pair at `i`, by the positions the reader computes: `eq` of the equals sign, `j`
      of the closing quote. */
  lemma PairAt(body: string, i: nat, eq: nat, j: nat)
    requires i <= eq && eq + 1 < |body| && eq - i == IndexOf(body[i..], '=')
    requires body[eq + 1] == '"' && j == QuoteEnd(body, eq + 2)
    ensures j >= |body| ==> ReadPair(body[i..]) == None
    ensures j < |body| ==> ReadPair(body[i..]) == Some(Read(body[i..eq], body[eq + 2..j], body[j + 1..]))
  {
    QuoteEndInRest(body, i, eq - i + 2);
    PairIs(body[i..], eq - i, j - i);
    if j < |body| {
      SlicesOfRest(body, i, eq, j);
    }
  }

  lemma SlicesOfRest(body: string, i: nat, eq: nat, j: nat)
    requires i <= eq && eq + 2 <= j < |body|
    ensures body[i..][..eq - i] == body[i..eq] && body[i..][eq - i + 2..j - i] == body[eq + 2..j]
    ensures body[i..][j - i + 1..] == body[j + 1..]
  {
  }

  lemma NoPairAt(body: string, i: nat, eq: nat)
    requires i <= eq <= |body| && eq - i == IndexOf(body[i..], '=')
    requires eq + 1 >= |body| || body[eq + 1] != '"'
    ensures ReadPair(body[i..]) == None
  {
  }

  /** One turn of the loop of `parse_labels`: the pair at `i` and the position behind it. */
  method ParsePair(body: string, i: nat) returns (pair: Option<Label>, next: nat)
    requires i < |body|
    ensures pair.None? ==> ReadPair(body[i..]) == None
    ensures pair.Some? ==>
      && i < next <= |body| && ReadPair(body[i..]).Some?
      && var r := ReadPair(body[i..]).value;
         r.rest == body[next..] && pair.value == Label(KeyOf(r.key), Unescaped(r.value))
  {
    var eq := IndexOf(body[i..], '=') + i;
    if eq == |body| {
      NoPairAt(body, i, eq);
      return None, i;
    }
    var key := KeyOf(body[i..eq]);
    if eq + 1 >= |body| || body[eq + 1] != '"' {
      NoPairAt(body, i, eq);
      return None, i;
    }
    var j := FindQuote(body, eq + 2);
    PairAt(body, i, eq, j);
    if j >= |body| {
      return None, i;
    }
    var value := Unescape(body[eq + 2..j]);
    return Some(Label(key, value)), j + 1;
  }

  /** `parse_labels`. It ends on every text. */
  method ParseLabels(body: string) returns (labels: Option<map<string, string>>)
    ensures labels == ReadLabels(body, map[])
  {
    var found: map<string, string> := map[];
    var i := 0;
    assert body[0..] == body;
    while i < |body|
      invariant i <= |body|
      invariant ReadLabels(body[i..], found) == ReadLabels(body, map[])
    {
      ghost var rest := body[i..];
      assert rest != "";
      var pair, next := ParsePair(body, i);
      if pair.None? {
        assert ReadLabels(rest, found) == None;
        return None;
      }
      assert ReadLabels(rest, found) == ReadLabels(body[next..], found[pair.value.key := pair.value.value]);
      found := found[pair.value.key := pair.value.value];
      i := next;
    }
    return Some(found);
  }

  // ---------------------------------------------------------------- round trip of a body

  function Pair(l: Label): string {
    l.key + "=\"" + (Escaped(l.value) + "\"")
  }

  /** The labels behind the first one, each with its comma. */
  function RenderRest(labels: seq<Label>): string {
    if labels == [] then "" else "," + (Pair(labels[0]) + RenderRest(labels[1..]))
  }

  function Render(labels: seq<Label>): string {
    if labels == [] then "" else Pair(labels[0]) + RenderRest(labels[1..])
  }

  /** Keys the reader gives back as they were written. */
  predicate PlainKey(k: string) {
    '=' !in k && KeyOf(k) == k
  }

  predicate PlainKeys(labels: seq<Label>) {
    forall i :: 0 <= i < |labels| ==> PlainKey(labels[i].key)
  }

  lemma {:induction false} QuoteEndOfEscaped(v: string, tail: string)
    ensures QuoteEnd(Escaped(v) + ("\"" + tail), 0) == |Escaped(v)|
  {
    if v != "" {
      var e, rest := EscapeChar(v[0]), Escaped(v[1..]) + ("\"" + tail);
      QuoteEndOfEscaped(v[1..], tail);
      QuoteEndShifts(e, rest, 0);
      assert Escaped(v) + ("\"" + tail) == e + rest;
    }
  }

  lemma Regrouped(lead: string, key: string, value: string, tail: string)
    ensures lead + ((key + "=\"" + (value + "\"")) + tail) == (lead + key) + ['='] + ("\"" + (value + ("\"" + tail)))
  {
  }

  /** Where the parts of a pair lie in its text. */
  lemma PartsOfPair(head: string, value: string, tail: string)
    ensures
      var quoted := value + ("\"" + tail);
      var s := head + ['='] + ("\"" + quoted);
      var open := |head| + 2;
      && s[..|head|] == head && s[open - 1] == '"' && s == (head + "=\"") + quoted
      && s[open..open + |value|] == value && s[open + |value| + 1..] == tail
  {
    var quoted := value + ("\"" + tail);
    var s := head + ['='] + ("\"" + quoted);
    var open := |head| + 2;
    assert s[open..] == quoted;
    SliceOfSlice(s, open, 0, |value|);
    assert quoted[0..|value|] == value;
    DropOfDrop(s, open, |value| + 1);
    assert quoted[|value| + 1..] == tail;
  }

  /** Reading a text whose key and closing quote are known. */
  lemma ReadKnownPair(head: string, value: string, tail: string)
    requires '=' !in head && QuoteEnd(value + ("\"" + tail), 0) == |value|
    ensures ReadPair(head + ['='] + ("\"" + (value + ("\"" + tail)))) == Some(Read(head, value, tail))
  {
    IndexOfFirst(head, '=', "\"" + (value + ("\"" + tail)));
    PartsOfPair(head, value, tail);
    QuoteEndShifts(head + "=\"", value + ("\"" + tail), 0);
  }

  lemma ReadOnePair(lead: string, l: Label, tail: string)
    requires (lead == "" || lead == ",") && PlainKey(l.key)
    ensures ReadPair(lead + (Pair(l) + tail)) == Some(Read(lead + l.key, Escaped(l.value), tail))
  {
    Regrouped(lead, l.key, Escaped(l.value), tail);
    QuoteEndOfEscaped(l.value, tail);
    ReadKnownPair(lead + l.key, Escaped(l.value), tail);
  }

  /** One rendered pair at the head of a text. */
  lemma ReadOneLabel(lead: string, l: Label, tail: string, m: map<string, string>)
    requires (lead == "" || lead == ",") && PlainKey(l.key)
    ensures ReadLabels(lead + (Pair(l) + tail), m) == ReadLabels(tail, m[l.key := l.value])
  {
    ReadOnePair(lead, l, tail);
    UnescapeOfEscape(l.value);
    LeadIsTrimmed(lead, l.key);
  }

  lemma LeadIsTrimmed(lead: string, k: string)
    requires (lead == "" || lead == ",") && PlainKey(k)
    ensures KeyOf(lead + k) == k
  {
    if lead == "" {
      assert lead + k == k;
    } else {
      assert (lead + k)[1..] == k;
    }
  }

  lemma {:induction false} RestReadsBack(labels: seq<Label>, m: map<string, string>)
    requires PlainKeys(labels)
    ensures ReadLabels(RenderRest(labels), m) == Some(Collect(m, labels))
    decreases |labels|
  {
    if labels != [] {
      ReadOneLabel(",", labels[0], RenderRest(labels[1..]), m);
      RestReadsBack(labels[1..], m[labels[0].key := labels[0].value]);
    }
  }

  /** Any values, and keys without `=`, leading commas or outer white space: what the
      writer renders the reader gives back. */
  lemma LabelsReadBack(labels: seq<Label>)
    requires PlainKeys(labels)
    ensures ReadLabels(Render(labels), map[]) == Some(MapOf(labels))
  {
    if labels != [] {
      var l, rest := labels[0], labels[1..];
      ReadOneLabel("", l, RenderRest(rest), map[]);
      assert "" + (Pair(l) + RenderRest(rest)) == Render(labels);
      RestReadsBack(rest, map[][l.key := l.value]);
    }
  }
}
