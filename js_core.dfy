/** Models of the JavaScript built-ins that the playout gateway and both front ends rely on:
    string trimming, prefix and suffix tests, `split`, `parseInt`, the rendering of a whole
    number inside a template literal, and `JSON.stringify` of a flat object of strings. */
module JsCore {

  datatype Option<+T> = None | Some(value: T)

  /** The value an option holds, as a list of zero or one element. */
  function Listed<T>(o: Option<T>): seq<T> {
    if o.Some? then [o.value] else []
  }

  /** A JavaScript number as the source handles it: an integer, or NaN (what `parseInt`
      returns for text that holds no digits, e.g. an emptied number field). */
  datatype Number = NaN | Num(value: int)

  /** JavaScript truthiness of a number: 0 and NaN are falsy. */
  predicate Truthy(n: Number) {
    n.Num? && n.value != 0
  }

  /** JavaScript truthiness of a string: only the empty string is falsy. */
  predicate TruthyText(s: Option<string>) {
    s.Some? && s.value != ""
  }

  /** `a || b` where `a` is an optional string. */
  function TextOr(s: Option<string>, default: string): string
  {
    if TruthyText(s) then s.value else default
  }

  predicate IsDigit(c: char) {
    '0' <= c <= '9'
  }

  predicate IsHexDigit(c: char) {
    IsDigit(c) || 'a' <= c <= 'f' || 'A' <= c <= 'F'
  }

  /** `\w` in a JavaScript regular expression. */
  predicate IsWordChar(c: char) {
    'a' <= c <= 'z' || 'A' <= c <= 'Z' || IsDigit(c) || c == '_'
  }

  /** `\s` in a JavaScript regular expression, which is also the set of characters that
      `String.prototype.trim` and `parseInt` skip: white space and line terminators. */
  predicate IsSpace(c: char) {
    var n := c as int;
    n == 0x09 || n == 0x0A || n == 0x0B || n == 0x0C || n == 0x0D || n == 0x20 || n == 0xA0
    || n == 0x1680 || (0x2000 <= n <= 0x200A) || n == 0x2028 || n == 0x2029 || n == 0x202F
    || n == 0x205F || n == 0x3000 || n == 0xFEFF
  }

  predicate StartsWith(s: string, prefix: string) {
    |prefix| <= |s| && s[..|prefix|] == prefix
  }

  predicate EndsWith(s: string, suffix: string) {
    |suffix| <= |s| && s[|s| - |suffix|..] == suffix
  }

  predicate AllDigits(s: string) {
    forall i :: 0 <= i < |s| ==> IsDigit(s[i])
  }

  predicate AllSpace(s: string) {
    forall i :: 0 <= i < |s| ==> IsSpace(s[i])
  }

  // ---------------------------------------------------------------------------
  // trim

  function TrimStart(s: string): (r: string)
    ensures |r| <= |s| && r == s[|s| - |r|..]
    ensures AllSpace(s[..|s| - |r|])
    ensures r == [] || !IsSpace(r[0])
  {
    if s != [] && IsSpace(s[0]) then TrimStart(s[1..]) else s
  }

  function TrimEnd(s: string): (r: string)
    ensures |r| <= |s| && r == s[..|r|]
    ensures AllSpace(s[|r|..])
    ensures r == [] || !IsSpace(r[|r| - 1])
  {
    if s != [] && IsSpace(s[|s| - 1]) then TrimEnd(s[..|s| - 1]) else s
  }

  /** `String.prototype.trim`: the text is empty afterwards exactly when it held only white space. */
  function Trim(s: string): (r: string)
    ensures |r| <= |s|
    ensures r == [] <==> AllSpace(s)
    ensures r != [] ==> !IsSpace(r[0]) && !IsSpace(r[|r| - 1])
  {
    TrimBothEnds(s);
    TrimEnd(TrimStart(s))
  }

  lemma TrimBothEnds(s: string)
    ensures var r := TrimEnd(TrimStart(s));
      && (r == [] <==> AllSpace(s))
      && (r != [] ==> !IsSpace(r[0]))
  {
    var t := TrimStart(s);
    var r := TrimEnd(t);
    var k := |s| - |t|;
    assert t == s[k..];
    if r == [] {
      assert t[|r|..] == t;
      AllSpaceJoin(s, k);
    } else {
      assert r[0] == t[0] == s[k];
      NotAllSpace(s, k);
    }
  }

  /** `s` is `r` with white space around it: `a` characters of it before `r`, the rest
      after it. */
  predicate Surrounds(s: string, r: string, a: nat) {
    a + |r| <= |s| && s[a..a + |r|] == r && AllSpace(s[..a]) && AllSpace(s[a + |r|..])
  }

  /** Trimming removes white space from the two ends and nothing else: the line is its
      trimmed text with white space before and after it. */
  lemma TrimSpec(s: string)
    ensures exists a: nat :: Surrounds(s, Trim(s), a)
  {
    var t := TrimStart(s);
    var r := TrimEnd(t);
    var a: nat := |s| - |t|;
    assert r == Trim(s);
    assert t == s[a..];
    assert s[a..a + |r|] == t[..|r|];
    assert s[a + |r|..] == t[|r|..];
    assert s[..a] == s[..|s| - |t|];
    assert Surrounds(s, r, a);
  }

  lemma AllSpaceJoin(s: string, k: nat)
    requires k <= |s| && AllSpace(s[..k]) && AllSpace(s[k..])
    ensures AllSpace(s)
  {
    forall i | 0 <= i < |s| ensures IsSpace(s[i]) {
      if i < k { assert s[i] == s[..k][i]; } else { assert s[i] == s[k..][i - k]; }
    }
  }

  lemma NotAllSpace(s: string, k: nat)
    requires k < |s| && !IsSpace(s[k])
    ensures !AllSpace(s)
  {
  }

  /** Trimming keeps a first character that is not white space. */
  lemma TrimHead(s: string)
    requires s != [] && !IsSpace(s[0])
    ensures Trim(s) != [] && Trim(s)[0] == s[0]
  {
    var t := TrimStart(s);
    assert |t| == |s|;
    assert t == s;
    assert !AllSpace(s);
  }

  /** A text with no white space at either end is its own trim. */
  lemma TrimUnchanged(s: string)
    requires s != [] && !IsSpace(s[0]) && !IsSpace(s[|s| - 1])
    ensures Trim(s) == s
  {
    var t := TrimStart(s);
    assert |t| == |s|;
    assert t == s;
    var r := TrimEnd(t);
    assert |r| == |t|;
  }


  // ---------------------------------------------------------------------------
  // search and split

  /** `s.indexOf(c)`. */
  function IndexOf(s: string, c: char): (i: int)
    ensures -1 <= i < |s|
    ensures i >= 0 ==> s[i] == c && c !in s[..i]
    ensures i < 0 ==> c !in s
  {
    if s == [] then -1
    else if s[0] == c then 0
    else
      var j := IndexOf(s[1..], c);
      if j < 0 then -1
      else
        assert s[..j + 1] == [s[0]] + s[1..][..j];
        j + 1
  }

  /** `s.split(sep)` for a one-character separator. */
  function SplitOn(s: string, sep: char): (parts: seq<string>)
    ensures |parts| >= 1
    ensures forall p :: p in parts ==> sep !in p
    decreases |s|
  {
    var i := IndexOf(s, sep);
    if i < 0 then [s] else [s[..i]] + SplitOn(s[i + 1..], sep)
  }

  /** `parts.join(sep)` for a one-character separator. */
  function JoinWith(parts: seq<string>, sep: char): string {
    if parts == [] then ""
    else if |parts| == 1 then parts[0]
    else parts[0] + [sep] + JoinWith(parts[1..], sep)
  }

  /** Splitting and re-joining gives the text back. */
  lemma {:induction false} SplitOnJoin(s: string, sep: char)
    ensures JoinWith(SplitOn(s, sep), sep) == s
    decreases |s|
  {
    var i := IndexOf(s, sep);
    if i >= 0 {
      var rest := SplitOn(s[i + 1..], sep);
      SplitOnJoin(s[i + 1..], sep);
      assert ([s[..i]] + rest)[1..] == rest;
      assert s == s[..i] + [sep] + s[i + 1..];
    }
  }

  /** Joining pieces that do not hold the separator and splitting again gives the pieces back. */
  lemma {:induction false} JoinSplitOn(parts: seq<string>, sep: char)
    requires |parts| >= 1
    requires forall p :: p in parts ==> sep !in p
    ensures SplitOn(JoinWith(parts, sep), sep) == parts
  {
    if |parts| > 1 {
      var s := JoinWith(parts, sep);
      var p0 := parts[0];
      assert s == p0 + [sep] + JoinWith(parts[1..], sep);
      assert s[..|p0|] == p0;
      assert s[|p0|] == sep;
      IndexOfAt(s, sep, |p0|);
      assert s[|p0| + 1..] == JoinWith(parts[1..], sep);
      JoinSplitOn(parts[1..], sep);
      assert parts == [p0] + parts[1..];
    } else {
      assert parts[0] in parts;
    }
  }

  lemma {:induction false} IndexOfAt(s: string, c: char, i: nat)
    requires i < |s| && s[i] == c && c !in s[..i]
    ensures IndexOf(s, c) == i
  {
    if i > 0 {
      assert s[0] == s[..i][0];
      assert s[1..][..i - 1] == s[..i][1..];
      IndexOfAt(s[1..], c, i - 1);
    }
  }

  /** `s.split(/\r?\n/)`: a line feed ends a line, and a carriage return right before it
      is dropped with it; a carriage return anywhere else is kept. */
  function SplitLines(s: string): (lines: seq<string>)
    ensures |lines| >= 1
    ensures forall l :: l in lines ==> '\n' !in l
    decreases |s|
  {
    var i := IndexOf(s, '\n');
    if i < 0 then [s]
    else
      var cut := if i > 0 && s[i - 1] == '\r' then i - 1 else i;
      assert s[..cut] == s[..i][..cut];
      [s[..cut]] + SplitLines(s[i + 1..])
  }

  /** Reference for `SplitLines`: every CR LF pair turned into a single LF. */
  function NormalizeNewlines(s: string): string
    decreases |s|
  {
    if |s| >= 2 && s[0] == '\r' && s[1] == '\n' then "\n" + NormalizeNewlines(s[2..])
    else if s == [] then ""
    else [s[0]] + NormalizeNewlines(s[1..])
  }

  function DropTrailingCR(x: string): string {
    if x != [] && x[|x| - 1] == '\r' then x[..|x| - 1] else x
  }

  lemma {:induction false} NormalizeBeforeLF(x: string, y: string)
    requires '\n' !in x
    ensures NormalizeNewlines(x + "\n" + y) == DropTrailingCR(x) + "\n" + NormalizeNewlines(y)
    decreases |x|
  {
    var s := x + "\n" + y;
    if x == [] {
      assert s == "\n" + y;
      assert s[1..] == y;
    } else if x[0] == '\r' && |x| == 1 {
      assert s == "\r\n" + y;
      assert s[2..] == y;
    } else {
      NormalizeBeforeLF(x[1..], y);
      NormalizeStep(x, y);
    }
  }

  /** One character of a line that is not its final CR is copied through. */
  lemma NormalizeStep(x: string, y: string)
    requires '\n' !in x && x != [] && !(x[0] == '\r' && |x| == 1)
    requires NormalizeNewlines(x[1..] + "\n" + y) == DropTrailingCR(x[1..]) + "\n" + NormalizeNewlines(y)
    ensures NormalizeNewlines(x + "\n" + y) == DropTrailingCR(x) + "\n" + NormalizeNewlines(y)
  {
    var s := x + "\n" + y;
    assert s[0] == x[0] && s[1..] == x[1..] + "\n" + y;
    if |x| > 1 {
      assert x[1] in x;
      assert s[1] == x[1];
    }
    NormalizeCopies(s);
    DropTrailingCRStep(x);
    ConsAssoc(x[0], DropTrailingCR(x[1..]), NormalizeNewlines(y));
  }

  lemma NormalizeCopies(s: string)
    requires s != [] && !(|s| >= 2 && s[0] == '\r' && s[1] == '\n')
    ensures NormalizeNewlines(s) == [s[0]] + NormalizeNewlines(s[1..])
  {
  }

  lemma DropTrailingCRStep(x: string)
    requires x != [] && !(x[0] == '\r' && |x| == 1)
    ensures DropTrailingCR(x) == [x[0]] + DropTrailingCR(x[1..])
  {
    if |x| > 1 {
      assert x[1..][..|x| - 2] == x[1..|x| - 1];
    }
  }

  lemma ConsAssoc(c: char, a: string, b: string)
    ensures [c] + (a + "\n" + b) == ([c] + a) + "\n" + b
  {
  }

  /** A line ended by CR LF is split off whole, without the CR. */
  lemma SplitLinesCRLF(x: string, y: string)
    requires '\n' !in x
    ensures SplitLines(x + "\r\n" + y) == [x] + SplitLines(y)
  {
    var s := x + "\r\n" + y;
    assert s[..|x| + 1] == x + "\r";
    IndexOfAt(s, '\n', |x| + 1);
    assert s[..|x|] == x;
    assert s[|x| + 2..] == y;
  }

  /** Text without a line feed is one line. */
  lemma SplitLinesNoLF(s: string)
    requires '\n' !in s
    ensures SplitLines(s) == [s]
  {
  }

  /** The lines joined again with LF are the reply with its CR LF pairs normalised. */
  lemma {:induction false} SplitLinesJoin(s: string)
    ensures JoinWith(SplitLines(s), '\n') == NormalizeNewlines(s)
    decreases |s|
  {
    var i := IndexOf(s, '\n');
    if i < 0 {
      NormalizeNoLF(s);
    } else {
      var x, y := s[..i], s[i + 1..];
      assert s == x + "\n" + y;
      NormalizeBeforeLF(x, y);
      SplitLinesJoin(y);
      SplitLinesFirst(s, i);
      JoinCons(DropTrailingCR(x), SplitLines(y), '\n');
    }
  }

  /** The first line is the text before the first line feed, less a CR right before it. */
  lemma SplitLinesFirst(s: string, i: int)
    requires i == IndexOf(s, '\n') && i >= 0
    ensures SplitLines(s) == [DropTrailingCR(s[..i])] + SplitLines(s[i + 1..])
  {
    var cut := if i > 0 && s[i - 1] == '\r' then i - 1 else i;
    assert s[..cut] == DropTrailingCR(s[..i]);
  }

  lemma JoinCons(first: string, rest: seq<string>, sep: char)
    requires |rest| >= 1
    ensures JoinWith([first] + rest, sep) == first + [sep] + JoinWith(rest, sep)
  {
    assert ([first] + rest)[1..] == rest;
  }

  lemma {:induction false} NormalizeNoLF(s: string)
    requires '\n' !in s
    ensures NormalizeNewlines(s) == s
    decreases |s|
  {
    if s != [] {
      assert '\n' !in s[1..];
      NormalizeNoLF(s[1..]);
      assert s == [s[0]] + s[1..];
    }
  }

  // ---------------------------------------------------------------------------
  // numbers and text

  function DigitChar(d: nat): (c: char)
    requires d < 10
    ensures IsDigit(c)
  {
    ('0' as int + d) as char
  }

  function DigitValue(c: char): nat
    requires IsDigit(c)
  {
    c as int - '0' as int
  }

  /** How a template literal renders a non-negative whole number: plain decimal digits. */
  function NatToString(n: nat): string {
    if n < 10 then [DigitChar(n)] else NatToString(n / 10) + [DigitChar(n % 10)]
  }

  /** The rendering is a non-empty run of digits with a leading zero only for zero. */
  lemma {:induction false} NatToStringShape(n: nat)
    ensures |NatToString(n)| >= 1 && AllDigits(NatToString(n))
    ensures (NatToString(n)[0] == '0') == (n == 0)
    ensures n == 0 ==> NatToString(n) == "0"
  {
    if n >= 10 {
      NatToStringShape(n / 10);
      var r := NatToString(n);
      assert r[0] == NatToString(n / 10)[0];
    }
  }

  /** The value of a string of decimal digits (it is only ever applied to digits; any
      other character would count as 0). */
  function DigitsValue(s: string): nat {
    if s == [] then 0
    else DigitsValue(s[..|s| - 1]) * 10 + (if IsDigit(s[|s| - 1]) then DigitValue(s[|s| - 1]) else 0)
  }

  lemma {:induction false} NatToStringValue(n: nat)
    ensures DigitsValue(NatToString(n)) == n
  {
    if n >= 10 {
      var r := NatToString(n);
      NatToStringValue(n / 10);
      assert r[..|r| - 1] == NatToString(n / 10);
    }
  }

  /** Distinct numbers render as distinct text. */
  lemma NatToStringInjective(a: nat, b: nat)
    ensures NatToString(a) == NatToString(b) ==> a == b
  {
    NatToStringValue(a);
    NatToStringValue(b);
  }

  function HexDigitValue(c: char): nat
    requires IsHexDigit(c)
  {
    if IsDigit(c) then DigitValue(c)
    else if 'a' <= c <= 'f' then c as int - 'a' as int + 10
    else c as int - 'A' as int + 10
  }

  predicate AllHex(s: string) {
    forall i :: 0 <= i < |s| ==> IsHexDigit(s[i])
  }

  function HexValue(s: string): nat
    requires AllHex(s)
  {
    if s == [] then 0 else HexValue(s[..|s| - 1]) * 16 + HexDigitValue(s[|s| - 1])
  }

  /** The character classes that the gateway's patterns and `parseInt` read runs of. */
  datatype CharClass = Space | Word | Digit | HexDigit

  predicate In(c: char, k: CharClass) {
    match k
    case Space => IsSpace(c)
    case Word => IsWordChar(c)
    case Digit => IsDigit(c)
    case HexDigit => IsHexDigit(c)
  }

  /** The length of the longest run of characters of class `p` that starts at `i`. */
  function Span(s: string, i: nat, p: CharClass): (n: nat)
    requires i <= |s|
    ensures i + n <= |s|
    decreases |s| - i
  {
    if i < |s| && In(s[i], p) then 1 + Span(s, i + 1, p) else 0
  }

  /** The run `Span` measures is all of class `p`, and it cannot be made longer. */
  lemma {:induction false} SpanRun(s: string, i: nat, p: CharClass)
    requires i <= |s|
    ensures forall j :: i <= j < i + Span(s, i, p) ==> In(s[j], p)
    ensures i + Span(s, i, p) == |s| || !In(s[i + Span(s, i, p)], p)
    decreases |s| - i
  {
    if i < |s| && In(s[i], p) { SpanRun(s, i + 1, p); }
  }

  lemma {:induction false} SpanAll(s: string, i: nat, p: CharClass)
    requires i <= |s|
    requires forall j :: i <= j < |s| ==> In(s[j], p)
    ensures Span(s, i, p) == |s| - i
    decreases |s| - i
  {
    if i < |s| { SpanAll(s, i + 1, p); }
  }

  /** The value of the longest run of hexadecimal digits after a `0x` prefix, if any. */
  function HexRun(u: string): Option<nat>
    requires |u| >= 2
  {
    var n := Span(u, 2, HexDigit);
    SpanRun(u, 2, HexDigit);
    if n == 0 then None else Some(HexValue(u[2..2 + n]))
  }

  /** The value of the longest run of decimal digits at the start, if any. */
  function DecimalRun(u: string): Option<nat> {
    var n := Span(u, 0, Digit);
    if n == 0 then None else Some(DigitsValue(u[..n]))
  }

  /** What follows the sign: a `0x` prefix selects hexadecimal, anything else decimal. */
  function Magnitude(u: string): Option<nat> {
    if |u| >= 2 && u[0] == '0' && (u[1] == 'x' || u[1] == 'X') then HexRun(u) else DecimalRun(u)
  }

  /** `parseInt(s)` with no radix: leading white space and one sign are skipped, then the
      magnitude is read; no digits at all gives NaN. */
  function ParseInt(s: string): Number {
    var t := TrimStart(s);
    var signed := t != [] && (t[0] == '-' || t[0] == '+');
    var u := if signed then t[1..] else t;
    match Magnitude(u)
    case None => NaN
    case Some(m) => var v: int := m; Num(if signed && t[0] == '-' then -v else v)
  }

  /** A run of decimal digits that does not start a hexadecimal prefix reads as its value. */
  lemma DecimalRunAll(d: string)
    requires |d| >= 1 && AllDigits(d)
    ensures Magnitude(d) == Some(DigitsValue(d))
  {
    assert !(|d| >= 2 && d[0] == '0' && (d[1] == 'x' || d[1] == 'X'));
    SpanAll(d, 0, Digit);
    assert d[..|d|] == d;
  }

  /** Text starting with a digit is its own `TrimStart` and carries no sign. */
  lemma NoSignNoSpace(d: string)
    requires |d| >= 1 && IsDigit(d[0])
    ensures TrimStart(d) == d && d[0] != '-' && d[0] != '+'
  {
    assert !IsSpace(d[0]);
  }

  /** `parseInt` of a run of decimal digits is their decimal value (leading zeros included). */
  lemma ParseIntOfDigits(d: string)
    requires |d| >= 1 && AllDigits(d)
    ensures ParseInt(d) == Num(DigitsValue(d))
  {
    NoSignNoSpace(d);
    DecimalRunAll(d);
  }

  /** `parseInt` reads back what a template literal rendered. */
  lemma ParseIntOfNat(n: nat)
    ensures ParseInt(NatToString(n)) == Num(n)
  {
    var r := NatToString(n);
    NatToStringShape(n);
    ParseIntOfDigits(r);
    NatToStringValue(n);
  }

  // ---------------------------------------------------------------------------
  // JSON.stringify of a flat object whose values are strings

  function HexDigitChar(d: nat): (c: char)
    requires d < 16
    ensures IsHexDigit(c) && HexDigitValue(c) == d
  {
    if d < 10 then DigitChar(d) else ('a' as int + d - 10) as char
  }

  /** How `JSON.stringify` writes one character inside a string literal. */
  function JsonEscapeChar(c: char): string {
    if c == '"' then "\\\""
    else if c == '\\' then "\\\\"
    else if c as int == 0x08 then "\\b"
    else if c == '\t' then "\\t"
    else if c == '\n' then "\\n"
    else if c as int == 0x0C then "\\f"
    else if c == '\r' then "\\r"
    else if c as int < 0x20 then "\\u00" + [HexDigitChar(c as int / 16), HexDigitChar(c as int % 16)]
    else [c]
  }

  function JsonEscape(s: string): string {
    if s == [] then "" else JsonEscapeChar(s[0]) + JsonEscape(s[1..])
  }

  function JsonQuote(s: string): string {
    "\"" + JsonEscape(s) + "\""
  }

  function JsonMembers(data: seq<(string, string)>): string {
    if data == [] then ""
    else
      var member := JsonQuote(data[0].0) + ":" + JsonQuote(data[0].1);
      if |data| == 1 then member else member + "," + JsonMembers(data[1..])
  }

  /** `JSON.stringify(data)` for an object of string values, its keys listed in the order
      the object enumerates them. */
  function JsonObject(data: seq<(string, string)>): string {
    "{" + JsonMembers(data) + "}"
  }

  function Prepend(c: char, rest: Option<string>): Option<string> {
    if rest.Some? then Some([c] + rest.value) else None
  }

  /** Reference decoder for the body of a JSON string literal (the text between its quotes). */
  function JsonUnescape(s: string): Option<string>
    decreases |s|
  {
    if s == [] then Some("")
    else if s[0] == '\\' then
      if |s| < 2 then None
      else if s[1] == '"' || s[1] == '\\' || s[1] == '/' then Prepend(s[1], JsonUnescape(s[2..]))
      else if s[1] == 'b' then Prepend(0x08 as char, JsonUnescape(s[2..]))
      else if s[1] == 't' then Prepend('\t', JsonUnescape(s[2..]))
      else if s[1] == 'n' then Prepend('\n', JsonUnescape(s[2..]))
      else if s[1] == 'f' then Prepend(0x0C as char, JsonUnescape(s[2..]))
      else if s[1] == 'r' then Prepend('\r', JsonUnescape(s[2..]))
      else if s[1] == 'u' && |s| >= 6 && AllHex(s[2..6]) && (HexValue(s[2..6]) < 0xD800 || 0xE000 <= HexValue(s[2..6])) then
        HexValueBound(s[2..6]);
        Prepend(HexValue(s[2..6]) as char, JsonUnescape(s[6..]))
      else None
    else if s[0] == '"' || s[0] as int < 0x20 then None
    else Prepend(s[0], JsonUnescape(s[1..]))
  }

  lemma {:induction false} HexValueBound(s: string)
    requires AllHex(s) && |s| == 4
    ensures HexValue(s) < 0x10000
  {
    var a, b, c, d := s[0], s[1], s[2], s[3];
    assert s == [a, b, c, d];
    HexValueOfFour(a, b, c, d);
    HexDigitBelow(a);
    HexDigitBelow(b);
    HexDigitBelow(c);
    HexDigitBelow(d);
  }

  lemma HexDigitBelow(c: char)
    requires IsHexDigit(c)
    ensures HexDigitValue(c) < 16
  {
  }

  lemma HexValueOfFour(a: char, b: char, c: char, d: char)
    requires IsHexDigit(a) && IsHexDigit(b) && IsHexDigit(c) && IsHexDigit(d)
    ensures AllHex([a, b, c, d])
    ensures HexValue([a, b, c, d])
      == ((HexDigitValue(a) * 16 + HexDigitValue(b)) * 16 + HexDigitValue(c)) * 16 + HexDigitValue(d)
  {
    var s := [a, b, c, d];
    assert s[..3] == [a, b, c];
    assert [a, b, c][..2] == [a, b];
    assert [a, b][..1] == [a];
    assert [a][..0] == [];
    assert HexValue([a]) == HexDigitValue(a);
    assert HexValue([a, b]) == HexDigitValue(a) * 16 + HexDigitValue(b);
    assert HexValue([a, b, c]) == HexValue([a, b]) * 16 + HexDigitValue(c);
  }

  lemma {:induction false} JsonUnescapeChar(c: char, rest: string)
    ensures JsonUnescape(JsonEscapeChar(c) + rest) == Prepend(c, JsonUnescape(rest))
  {
    var e := JsonEscapeChar(c);
    var s := e + rest;
    if c == '"' || c == '\\' || c as int == 0x08 || c == '\t' || c == '\n' || c as int == 0x0C || c == '\r' {
      assert s[2..] == rest;
      if c as int == 0x08 { assert c == 0x08 as char; }
      if c as int == 0x0C { assert c == 0x0C as char; }
    } else if c as int < 0x20 {
      var n := c as int;
      var h1, h2 := HexDigitChar(n / 16), HexDigitChar(n % 16);
      assert s[2..6] == ['0', '0', h1, h2];
      HexValueOfFour('0', '0', h1, h2);
      assert HexValue(s[2..6]) == n;
      assert s[6..] == rest;
    } else {
      assert s[1..] == rest;
    }
  }

  /** Decoding what `JSON.stringify` escaped gives the original string back. */
  lemma {:induction false} JsonEscapeRoundTrip(s: string)
    ensures JsonUnescape(JsonEscape(s)) == Some(s)
  {
    if s != [] {
      JsonEscapeRoundTrip(s[1..]);
      JsonUnescapeChar(s[0], JsonEscape(s[1..]));
      assert s == [s[0]] + s[1..];
    }
  }
}
