/** How the gateway turns the playout server's replies to `CLS` (the media list) and `TLS`
    (the template list) into the JSON arrays its `/caspar/files` and `/caspar/templates`
    routes answer with. */
module AmcpReplies {
  import opened JsCore

  /** One entry of `/caspar/files`: `{name, type, size, updated}`. */
  datatype MediaRecord = MediaRecord(name: string, kind: string, size: Number, updated: string)

  /** One entry of `/caspar/templates`: `{name, size: 0, updated: ''}`. */
  datatype TemplateRecord = TemplateRecord(name: string, size: nat, updated: string)

  // ---------------------------------------------------------------------------
  // the pattern "([^"]+)"

  /** The index of the closing quote of a match of `"([^"]+)"` that starts at `p`, if one
      starts there. */
  function QuotedAt(s: string, p: nat): (q: Option<nat>)
    requires p <= |s|
    ensures q.Some? ==> p + 1 < q.value < |s| && s[p] == '"' && s[q.value] == '"' && '"' !in s[p + 1..q.value]
  {
    if p < |s| && s[p] == '"' then
      var j := IndexOf(s[p + 1..], '"');
      if j > 0 then
        assert s[p + 1..p + 1 + j] == s[p + 1..][..j];
        Some(p + 1 + j)
      else
        None
    else None
  }

  /** No match starts at `p` exactly when there is no quote there, no later quote to close
      it, or the closing quote comes right after it (the capture would be empty). */
  lemma QuotedAtNone(s: string, p: nat)
    requires p <= |s|
    ensures QuotedAt(s, p).None? <==> p == |s| || s[p] != '"' || '"' !in s[p + 1..] || s[p + 1] == '"'
  {
    if p < |s| && s[p] == '"' && '"' in s[p + 1..] {
      var j := IndexOf(s[p + 1..], '"');
      assert j >= 0;
      assert j == 0 <==> s[p + 1] == '"';
    }
  }

  /** The capture of the leftmost match of `"([^"]+)"` at or after `p`. */
  function FirstQuoted(s: string, p: nat): (name: Option<string>)
    requires p <= |s|
    ensures name.Some? ==> |name.value| > 0 && '"' !in name.value
    decreases |s| - p
  {
    if p == |s| then None
    else match QuotedAt(s, p)
      case Some(q) => Some(s[p + 1..q])
      case None => FirstQuoted(s, p + 1)
  }

  // ---------------------------------------------------------------------------
  // CLS: the pattern "([^"]+)"\s+(\w+)\s+(\d+)\s+(\d+)

  /** `\s+` followed by a run of `p` characters, from `i`: where that run starts and ends.
      Both runs are taken whole; they cannot be shortened, since the character after a
      shorter run could not start the next part. */
  function SpaceThen(s: string, i: nat, p: CharClass): (r: Option<(nat, nat)>)
    requires i <= |s|
    ensures r.Some? ==> i < r.value.0 < r.value.1 <= |s|
  {
    var w := Span(s, i, Space);
    var n := Span(s, i + w, p);
    if w == 0 || n == 0 then None else Some((i + w, i + w + n))
  }

  /** The run `SpaceThen` finds is all of class `p`. */
  lemma SpaceThenRun(s: string, i: nat, p: CharClass)
    requires i <= |s| && SpaceThen(s, i, p).Some?
    ensures var r := SpaceThen(s, i, p).value; AllOf(s[r.0..r.1], p)
  {
    var w := Span(s, i, Space);
    SpanRun(s, i + w, p);
  }

  predicate AllOf(t: string, p: CharClass) {
    forall i :: 0 <= i < |t| ==> In(t[i], p)
  }

  /** The shape every listed media entry has: a name free of quotes, a `\w+` type, a
      parsed size and a `\d+` stamp. */
  predicate WellFormedMedia(m: MediaRecord) {
    && |m.name| > 0 && '"' !in m.name
    && |m.kind| > 0 && AllOf(m.kind, Word)
    && m.size.Num? && m.size.value >= 0
    && |m.updated| > 0 && AllOf(m.updated, Digit)
  }

  /** The entry read from the captured runs. The size run is all digits, so `parseInt`
      reads it as its decimal value (`MediaSizeIsParseInt`). */
  function MediaFields(name: string, kind: string, size: string, updated: string): MediaRecord {
    MediaRecord(name, kind, Num(DigitsValue(size)), updated)
  }

  /** The size of an entry is `parseInt` of the digits its line holds. */
  lemma MediaSizeIsParseInt(name: string, kind: string, size: string, updated: string)
    requires |size| > 0 && AllOf(size, Digit)
    ensures MediaFields(name, kind, size, updated).size == ParseInt(size)
  {
    ParseIntOfDigits(size);
  }

  /** A match of the `CLS` line pattern that starts at `p`: the quoted name, then the
      type, the size and the stamp, each after white space. */
  function MediaAt(s: string, p: nat): Option<MediaRecord>
    requires p <= |s|
  {
    match QuotedAt(s, p)
    case None => None
    case Some(q) =>
      match SpaceThen(s, q + 1, Word)
      case None => None
      case Some(kind) =>
        match SpaceThen(s, kind.1, Digit)
        case None => None
        case Some(size) =>
          match SpaceThen(s, size.1, Digit)
          case None => None
          case Some(updated) =>
            Some(MediaFields(s[p + 1..q], s[kind.0..kind.1], s[size.0..size.1], s[updated.0..updated.1]))
  }

  /** Every match has the shape of a listed entry. */
  lemma MediaAtWellFormed(s: string, p: nat)
    requires p <= |s| && MediaAt(s, p).Some?
    ensures WellFormedMedia(MediaAt(s, p).value)
  {
    var q := QuotedAt(s, p).value;
    var kind := SpaceThen(s, q + 1, Word).value;
    var size := SpaceThen(s, kind.1, Digit).value;
    var updated := SpaceThen(s, size.1, Digit).value;
    SpaceThenRun(s, q + 1, Word);
    SpaceThenRun(s, kind.1, Digit);
    SpaceThenRun(s, size.1, Digit);
  }

  /** The leftmost match at or after `p`. */
  function FirstMedia(s: string, p: nat): Option<MediaRecord>
    requires p <= |s|
    decreases |s| - p
  {
    if p == |s| then None
    else match MediaAt(s, p)
      case Some(r) => Some(r)
      case None => FirstMedia(s, p + 1)
  }

  /** What a line yields is a match found somewhere in it. */
  lemma {:induction false} FirstMediaFound(s: string, p: nat)
    requires p <= |s| && FirstMedia(s, p).Some?
    ensures exists k :: p <= k < |s| && MediaAt(s, k) == FirstMedia(s, p)
    ensures WellFormedMedia(FirstMedia(s, p).value)
    decreases |s| - p
  {
    if MediaAt(s, p).Some? {
      MediaAtWellFormed(s, p);
    } else {
      FirstMediaFound(s, p + 1);
    }
  }

  /** One line of a `CLS` reply: lines without a double quote are dropped, and so are
      lines the pattern does not match. */
  function MediaLine(line: string): Option<MediaRecord> {
    if '"' in line then FirstMedia(line, 0) else None
  }

  /** The records a reply's lines yield, line by line, in order. */
  function Collect<T>(parse: string -> Option<T>, lines: seq<string>): seq<T> {
    if lines == [] then [] else Listed(parse(lines[0])) + Collect(parse, lines[1..])
  }

  function ParseMediaLines(lines: seq<string>): seq<MediaRecord> {
    Collect(MediaLine, lines)
  }

  /** The `/caspar/files` array for a raw `CLS` reply. */
  function ParseMediaList(raw: string): seq<MediaRecord> {
    ParseMediaLines(SplitLines(raw))
  }

  // ---------------------------------------------------------------------------
  // TLS

  /** A `TLS` line survives the filter unless it trims to nothing or its trimmed text
      starts with `200`, `4` or `5` (status lines). */
  predicate KeptTemplateLine(line: string) {
    var t := Trim(line);
    |t| > 0 && !StartsWith(t, "200") && !StartsWith(t, "4") && !StartsWith(t, "5")
  }

  /** One line of a `TLS` reply: the first quoted name when the line has one, otherwise
      the whole trimmed line. */
  function TemplateLine(line: string): (r: Option<TemplateRecord>)
    ensures r.Some? <==> KeptTemplateLine(line)
    ensures r.Some? ==> r.value.size == 0 && r.value.updated == "" && |r.value.name| > 0
    ensures r.Some? ==> r.value.name == (if FirstQuoted(line, 0).Some? then FirstQuoted(line, 0).value else Trim(line))
  {
    if !KeptTemplateLine(line) then None
    else match FirstQuoted(line, 0)
      case Some(n) => Some(TemplateRecord(n, 0, ""))
      case None => if |Trim(line)| > 0 then Some(TemplateRecord(Trim(line), 0, "")) else None
  }

  function ParseTemplateLines(lines: seq<string>): seq<TemplateRecord> {
    Collect(TemplateLine, lines)
  }

  /** The `/caspar/templates` array for a raw `TLS` reply. */
  function ParseTemplateList(raw: string): seq<TemplateRecord> {
    ParseTemplateLines(SplitLines(raw))
  }

  /** The lines the `TLS` filter keeps, in order. */
  function KeptTemplateLines(lines: seq<string>): seq<string> {
    Kept(KeptTemplateLine, lines)
  }

  /** The lines a filter keeps, in order. */
  function Kept(keep: string -> bool, lines: seq<string>): seq<string> {
    if lines == [] then []
    else (if keep(lines[0]) then [lines[0]] else []) + Kept(keep, lines[1..])
  }

  // ---------------------------------------------------------------------------
  // line-by-line behaviour

  /** Each line is parsed on its own: the records of a reply are those of its parts, in order. */
  lemma {:induction false} CollectAppend<T>(parse: string -> Option<T>, a: seq<string>, b: seq<string>)
    ensures Collect(parse, a + b) == Collect(parse, a) + Collect(parse, b)
  {
    if a == [] {
      assert a + b == b;
    } else {
      assert (a + b)[0] == a[0];
      assert (a + b)[1..] == a[1..] + b;
      CollectAppend(parse, a[1..], b);
    }
  }

  /** A record is listed exactly when some line of the reply yields it, and no line yields
      more than one. */
  lemma {:induction false} CollectMembers<T>(parse: string -> Option<T>, lines: seq<string>, m: T)
    ensures m in Collect(parse, lines) <==> exists l :: l in lines && parse(l) == Some(m)
    ensures |Collect(parse, lines)| <= |lines|
  {
    if lines != [] {
      CollectMembers(parse, lines[1..], m);
      if parse(lines[0]) == Some(m) { assert lines[0] in lines; }
      if exists l :: l in lines[1..] && parse(l) == Some(m) {
        var l :| l in lines[1..] && parse(l) == Some(m);
        assert l in lines;
      }
      forall l | l in lines && parse(l) == Some(m) && l != lines[0]
        ensures l in lines[1..]
      {
        var i :| 0 <= i < |lines| && lines[i] == l;
        assert lines[1..][i - 1] == l;
      }
    }
  }

  /** Every media entry listed comes from a line of the reply, and has the shape of one. */
  lemma MediaListMembers(raw: string, m: MediaRecord)
    ensures m in ParseMediaList(raw) <==> exists l :: l in SplitLines(raw) && MediaLine(l) == Some(m)
    ensures m in ParseMediaList(raw) ==> WellFormedMedia(m)
  {
    CollectMembers(MediaLine, SplitLines(raw), m);
    if m in ParseMediaList(raw) {
      var l :| l in SplitLines(raw) && MediaLine(l) == Some(m);
      FirstMediaFound(l, 0);
    }
  }

  /** When a line yields a record exactly when the filter keeps it, every kept line yields
      exactly one record, in order. */
  lemma {:induction false} CollectKept<T>(parse: string -> Option<T>, keep: string -> bool, lines: seq<string>)
    requires forall l :: parse(l).Some? <==> keep(l)
    ensures var ts := Collect(parse, lines); var ks := Kept(keep, lines);
      |ts| == |ks| && forall i :: 0 <= i < |ks| ==> parse(ks[i]) == Some(ts[i])
  {
    if lines != [] {
      CollectKept(parse, keep, lines[1..]);
      var ts, ks := Collect(parse, lines[1..]), Kept(keep, lines[1..]);
      var t := parse(lines[0]);
      assert Collect(parse, lines) == Listed(t) + ts;
      if keep(lines[0]) {
        assert Kept(keep, lines) == [lines[0]] + ks;
        assert Listed(t) == [t.value];
      } else {
        assert Kept(keep, lines) == ks;
        assert Listed(t) + ts == ts;
      }
    }
  }

  /** Every line the filter keeps yields exactly one template, in order: the mapping
      never drops a kept line and never adds one. */
  lemma TemplateLinesKept(lines: seq<string>)
    ensures var ts := ParseTemplateLines(lines); var ks := KeptTemplateLines(lines);
      |ts| == |ks| && forall i :: 0 <= i < |ks| ==> TemplateLine(ks[i]) == Some(ts[i])
  {
    forall l ensures TemplateLine(l).Some? <==> KeptTemplateLine(l) {
    }
    CollectKept(TemplateLine, KeptTemplateLine, lines);
  }

  // ---------------------------------------------------------------------------
  // well-formed lines

  /** How the playout server prints one `CLS` entry: the quoted name, the media type, the
      size in bytes and the modification stamp, each after one space, then further fields. */
  function FormatMediaLine(name: string, kind: string, size: nat, updated: string, rest: string): string {
    MediaLineText(name, kind, NatToString(size), updated, rest)
  }

  function MediaLineText(name: string, kind: string, digits: string, updated: string, rest: string): string {
    "\"" + name + "\"" + Fields([kind, digits, updated], rest)
  }

  /** Each field after one space, then what follows them on the line. */
  function Fields(fs: seq<string>, rest: string): string {
    if fs == [] then rest else " " + fs[0] + Fields(fs[1..], rest)
  }

  lemma {:induction false} SpanFrom(s: string, i: nat, n: nat, p: CharClass)
    requires i + n <= |s|
    requires forall j :: i <= j < i + n ==> In(s[j], p)
    requires i + n == |s| || !In(s[i + n], p)
    ensures Span(s, i, p) == n
    decreases n
  {
    if n > 0 { SpanFrom(s, i + 1, n - 1, p); }
  }

  /** A run read inside a suffix is the same run read inside the whole line. */
  lemma {:induction false} SpanSuffix(s: string, off: nat, i: nat, p: CharClass)
    requires off + i <= |s|
    ensures Span(s, off + i, p) == Span(s[off..], i, p)
    decreases |s| - off - i
  {
    if off + i < |s| {
      assert s[off..][i] == s[off + i];
      SpanSuffix(s, off, i + 1, p);
    }
  }

  function Shifted(k: nat, r: Option<(nat, nat)>): Option<(nat, nat)> {
    if r.Some? then Some((k + r.value.0, k + r.value.1)) else None
  }

  /** `SpaceThen` read inside a suffix, then moved back into the whole line. */
  lemma SpaceThenSuffix(s: string, off: nat, p: CharClass)
    requires off <= |s|
    ensures SpaceThen(s, off, p) == Shifted(off, SpaceThen(s[off..], 0, p))
  {
    SpanSuffix(s, off, 0, Space);
    var w := Span(s[off..], 0, Space);
    SpanSuffix(s, off, w, p);
  }

  /** `SpaceThen` at the start of a field finds exactly the field. */
  lemma FieldRun(s: string, x: string, tail: string, p: CharClass)
    requires s == " " + x + tail
    requires |x| > 0 && AllOf(x, p) && !IsSpace(x[0])
    requires tail == [] || !In(tail[0], p)
    ensures SpaceThen(s, 0, p) == Some((1, 1 + |x|))
    ensures s[1..1 + |x|] == x
    ensures s[1 + |x|..] == tail
  {
    assert s[0] == ' ' && IsSpace(' ');
    assert s[1] == x[0];
    SpanFrom(s, 0, 1, Space);
    assert forall j :: 0 <= j < |x| ==> s[1 + j] == x[j];
    assert 1 + |x| < |s| ==> s[1 + |x|] == tail[0];
    SpanFrom(s, 1, |x|, p);
  }

  /** What follows a field does not continue its run of class `p`. */
  predicate EndsRun(fs: seq<string>, rest: string, p: CharClass) {
    var t := Fields(fs, rest);
    t == [] || !In(t[0], p)
  }

  /** A field that starts at `off` in a line is found there, ending at `end`, and the line
      goes on with the fields after it. */
  lemma FieldAt(s: string, off: nat, end: nat, fs: seq<string>, rest: string, p: CharClass)
    requires off <= |s| && |fs| > 0 && s[off..] == Fields(fs, rest)
    requires |fs[0]| > 0 && AllOf(fs[0], p) && !IsSpace(fs[0][0])
    requires EndsRun(fs[1..], rest, p)
    requires end == off + 1 + |fs[0]|
    ensures end <= |s|
    ensures SpaceThen(s, off, p) == Some((off + 1, end))
    ensures s[off + 1..end] == fs[0]
    ensures s[end..] == Fields(fs[1..], rest)
  {
    var x, tail := fs[0], Fields(fs[1..], rest);
    var u := s[off..];
    assert u == " " + x + tail;
    FieldRun(u, x, tail, p);
    SpaceThenSuffix(s, off, p);
    SliceSuffix(s, off, 1, 1 + |x|);
  }

  /** Slices of a suffix, read in the whole line. */
  lemma SliceSuffix(s: string, off: nat, i: nat, j: nat)
    requires off + j <= |s| && i <= j
    ensures s[off + i..off + j] == s[off..][i..j]
    ensures s[off + j..] == s[off..][j..]
  {
  }

  /** A field list that is not empty starts with a space. */
  lemma FieldsSpace(fs: seq<string>, rest: string, p: CharClass)
    requires |fs| > 0 && p != Space
    ensures EndsRun(fs, rest, p)
  {
    assert Fields(fs, rest)[0] == ' ';
  }

  predicate MediaFieldsOk(name: string, kind: string, updated: string, rest: string) {
    && |name| > 0 && '"' !in name
    && |kind| > 0 && AllOf(kind, Word)
    && |updated| > 0 && AllOf(updated, Digit)
    && (rest == [] || !IsDigit(rest[0]))
  }

  /** A line that opens with a quoted name matches `"([^"]+)"` there, and goes on after it. */
  lemma QuotedThen(s: string, name: string, t1: string)
    requires s == "\"" + name + "\"" + t1
    requires |name| > 0 && '"' !in name
    ensures QuotedAt(s, 0) == Some(|name| + 1)
    ensures s[1..|name| + 1] == name
    ensures s[|name| + 2..] == t1
  {
    QuotedName(s, name, t1);
  }

  /** The size and the stamp, when they are the fields from `k` on. */
  lemma SizeStampAt(s: string, k: nat, d: nat, e: nat, f2: seq<string>, digits: string, updated: string, rest: string)
    requires |digits| > 0 && AllOf(digits, Digit)
    requires |updated| > 0 && AllOf(updated, Digit) && (rest == [] || !IsDigit(rest[0]))
    requires f2 == [digits, updated]
    requires k <= |s| && s[k..] == Fields(f2, rest)
    requires d == k + 1 + |digits| && e == d + 1 + |updated|
    ensures SpaceThen(s, k, Digit) == Some((k + 1, d)) && s[k + 1..d] == digits
    ensures SpaceThen(s, d, Digit) == Some((d + 1, e)) && s[d + 1..e] == updated
  {
    var f3 := f2[1..];
    assert f3 == [updated] && f3[1..] == [];
    assert !IsSpace(digits[0]) && !IsSpace(updated[0]);
    FieldsSpace(f3, rest, Digit);
    FieldAt(s, k, d, f2, rest, Digit);
    FieldAt(s, d, e, f3, rest, Digit);
  }

  /** The three runs after the quoted name, when the fields start at `off`. */
  lemma RunsAt(s: string, off: nat, k: nat, d: nat, e: nat, f1: seq<string>,
               kind: string, digits: string, updated: string, rest: string)
    requires |kind| > 0 && AllOf(kind, Word)
    requires |digits| > 0 && AllOf(digits, Digit)
    requires |updated| > 0 && AllOf(updated, Digit) && (rest == [] || !IsDigit(rest[0]))
    requires f1 == [kind, digits, updated]
    requires off <= |s| && s[off..] == Fields(f1, rest)
    requires k == off + 1 + |kind| && d == k + 1 + |digits| && e == d + 1 + |updated|
    ensures SpaceThen(s, off, Word) == Some((off + 1, k)) && s[off + 1..k] == kind
    ensures SpaceThen(s, k, Digit) == Some((k + 1, d)) && s[k + 1..d] == digits
    ensures SpaceThen(s, d, Digit) == Some((d + 1, e)) && s[d + 1..e] == updated
  {
    var f2 := f1[1..];
    assert f2 == [digits, updated];
    assert !IsSpace(kind[0]);
    FieldsSpace(f2, rest, Word);
    FieldAt(s, off, k, f1, rest, Word);
    SizeStampAt(s, k, d, e, f2, digits, updated, rest);
  }

  /** The pattern matched at the start of a line with these runs gives their record. */
  lemma MediaAtFrom(s: string, name: string, kind: string, digits: string, updated: string, q: nat, k: nat, d: nat, e: nat)
    requires QuotedAt(s, 0) == Some(q) && s[1..q] == name
    requires SpaceThen(s, q + 1, Word) == Some((q + 2, k)) && s[q + 2..k] == kind
    requires SpaceThen(s, k, Digit) == Some((k + 1, d)) && s[k + 1..d] == digits
    requires SpaceThen(s, d, Digit) == Some((d + 1, e)) && s[d + 1..e] == updated
    ensures MediaAt(s, 0) == Some(MediaRecord(name, kind, Num(DigitsValue(digits)), updated))
  {
    var kindRun, sizeRun, updatedRun := (q + 2, k), (k + 1, d), (d + 1, e);
    assert MediaAt(s, 0) == Some(MediaFields(s[1..q], s[kindRun.0..kindRun.1], s[sizeRun.0..sizeRun.1], s[updatedRun.0..updatedRun.1]));
  }

  /** A line the pattern matches at its start yields that match. */
  lemma MediaLineAtStart(s: string)
    requires |s| > 0 && MediaAt(s, 0).Some?
    ensures MediaLine(s) == MediaAt(s, 0)
  {
    assert s[0] in s;
  }

  lemma MediaTextRoundTrip(name: string, kind: string, digits: string, updated: string, rest: string)
    requires MediaFieldsOk(name, kind, updated, rest)
    requires |digits| > 0 && AllOf(digits, Digit)
    ensures MediaLine(MediaLineText(name, kind, digits, updated, rest)) == Some(MediaRecord(name, kind, Num(DigitsValue(digits)), updated))
  {
    var s := MediaLineText(name, kind, digits, updated, rest);
    var f1 := [kind, digits, updated];
    var q := |name| + 1;
    var k := q + 2 + |kind|;
    var d := k + 1 + |digits|;
    var e := d + 1 + |updated|;
    QuotedThen(s, name, Fields(f1, rest));
    RunsAt(s, q + 1, k, d, e, f1, kind, digits, updated, rest);
    MediaAtFrom(s, name, kind, digits, updated, q, k, d, e);
    MediaLineAtStart(s);
  }

  /** A well-formed `CLS` line reads back as the entry it prints. */
  lemma {:induction false} MediaLineRoundTrip(name: string, kind: string, size: nat, updated: string, rest: string)
    requires MediaFieldsOk(name, kind, updated, rest)
    ensures MediaLine(FormatMediaLine(name, kind, size, updated, rest)) == Some(MediaRecord(name, kind, Num(size), updated))
  {
    var digits := NatToString(size);
    NatToStringShape(size);
    assert AllOf(digits, Digit);
    MediaTextRoundTrip(name, kind, digits, updated, rest);
    NatToStringValue(size);
  }

  /** A line that opens with a quoted name matches `"([^"]+)"` right there. */
  lemma QuotedName(s: string, name: string, rest: string)
    requires s == "\"" + name + "\"" + rest
    requires |name| > 0 && '"' !in name
    ensures QuotedAt(s, 0) == Some(|name| + 1)
    ensures s[1..|name| + 1] == name
  {
    assert s[1..][..|name|] == name;
    IndexOfAt(s[1..], '"', |name|);
  }

  /** A `TLS` line that starts with a quoted name is listed under that name. */
  lemma {:induction false} QuotedTemplateLine(name: string, rest: string)
    requires |name| > 0 && '"' !in name
    ensures TemplateLine("\"" + name + "\"" + rest) == Some(TemplateRecord(name, 0, ""))
  {
    var s := "\"" + name + "\"" + rest;
    QuotedName(s, name, rest);
    TrimHead(s);
    var t := Trim(s);
    assert t[0] == '"';
    assert !StartsWith(t, "200") && !StartsWith(t, "4") && !StartsWith(t, "5");
  }

  /** A `TLS` line holding a bare name is listed under that name. */
  lemma {:induction false} BareTemplateLine(name: string)
    requires |name| > 0 && '"' !in name
    requires !IsSpace(name[0]) && !IsSpace(name[|name| - 1])
    requires !StartsWith(name, "200") && !StartsWith(name, "4") && !StartsWith(name, "5")
    ensures TemplateLine(name) == Some(TemplateRecord(name, 0, ""))
  {
    TrimUnchanged(name);
    NoQuoteNoMatch(name, 0);
  }

  lemma {:induction false} NoQuoteNoMatch(s: string, p: nat)
    requires p <= |s| && '"' !in s
    ensures FirstQuoted(s, p) == None
    decreases |s| - p
  {
    if p < |s| {
      assert s[p] in s;
      NoQuoteNoMatch(s, p + 1);
    }
  }

  // ---------------------------------------------------------------------------
  // whole replies

  /** A status line starting with 4 or 5 and holding no quote yields no media entry. */
  lemma StatusLineNoMedia(status: string)
    requires '"' !in status
    ensures MediaLine(status) == None
  {
  }

  /** A status line starting with 4 or 5 is filtered out of a template list. */
  lemma StatusLineNoTemplate(status: string)
    requires |status| > 0 && (status[0] == '4' || status[0] == '5')
    ensures TemplateLine(status) == None
  {
    TrimHead(status);
  }

  /** A blank line yields nothing. */
  lemma BlankLineDropped()
    ensures MediaLine("") == None && TemplateLine("") == None
  {
    assert AllSpace("");
  }

  /** Lines that yield nothing add nothing to the list. */
  lemma CollectNone<T>(parse: string -> Option<T>, a: string, b: string)
    requires parse(a) == None && parse(b) == None
    ensures Collect(parse, [a] + [b]) == []
  {
    var lines := [a] + [b];
    assert lines[0] == a && lines[1..] == [b] && [b][1..] == [];
    assert Collect(parse, [b]) == [];
  }

  /** A reply of one line ended by CR LF splits into that line and a blank one. */
  lemma OneLineReply(status: string)
    requires '\n' !in status
    ensures SplitLines(status + "\r\n") == [status] + [""]
  {
    assert status + "\r\n" == status + "\r\n" + "";
    SplitLinesCRLF(status, "");
    SplitLinesNoLF("");
  }

  /** An error reply (one status line starting with 4 or 5 and holding no quote) lists no
      media. */
  lemma ErrorReplyListsNoMedia(status: string)
    requires |status| > 0 && (status[0] == '4' || status[0] == '5')
    requires '\n' !in status && '"' !in status
    ensures ParseMediaList(status + "\r\n") == []
  {
    OneLineReply(status);
    StatusLineNoMedia(status);
    BlankLineDropped();
    CollectNone(MediaLine, status, "");
  }

  /** An error reply lists no template either. */
  lemma ErrorReplyListsNoTemplate(status: string)
    requires |status| > 0 && (status[0] == '4' || status[0] == '5')
    requires '\n' !in status
    ensures ParseTemplateList(status + "\r\n") == []
  {
    OneLineReply(status);
    StatusLineNoTemplate(status);
    BlankLineDropped();
    CollectNone(TemplateLine, status, "");
  }
}
