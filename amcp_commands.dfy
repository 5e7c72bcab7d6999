/** The control routes of the playout gateway (`/caspar/load`, `/play`, `/pause`, `/clear`,
    `/cg-add`, `/cg-stop`): each turns the fields of its request body into one AMCP command
    line, which the gateway writes to the playout server followed by CR LF. */
module AmcpCommands {
  import opened JsCore

  /** The body of a request to one control route. Every field is the text its template
      literal interpolates (a number rendered in decimal, a string as it is); `Clear`'s layer
      (`clearLayer`) is absent when the body has none, as in a whole-channel clear. */
  datatype ControlRequest =
    | Load(channel: string, layer: string, file: string, loop: bool)
    | Play(channel: string, layer: string)
    | Pause(channel: string, layer: string)
    | Clear(channel: string, clearLayer: Option<string>)
    | CgAdd(channel: string, layer: string, template: string, data: seq<(string, string)>)
    | CgStop(channel: string, layer: string)

  /** `${channel}-${layer}`. */
  function Target(channel: string, layer: string): string {
    channel + "-" + layer
  }

  /** `JSON.stringify(data).replace(/"/g, '\\"')`: a backslash put before every double
      quote, and before nothing else. This is the escaping as written; see `CgAddQuoteCut`. */
  function EscapeQuotes(s: string): string {
    if s == [] then "" else (if s[0] == '"' then "\\\"" else [s[0]]) + EscapeQuotes(s[1..])
  }

  /** The escaping the data parameter needs: a backslash put before every backslash and
      every double quote, so that the server reads the text back unchanged. */
  function AmcpEscape(s: string): string {
    if s == [] then ""
    else (if s[0] == '"' || s[0] == '\\' then ['\\', s[0]] else [s[0]]) + AmcpEscape(s[1..])
  }

  /** How the playout server reads a quoted AMCP parameter, `s` being the text after its
      opening quote: a backslash takes the next character literally and the first quote not
      taken that way closes the parameter. The result is the parameter and the text after
      its closing quote; `None` when the quote is never closed. */
  function ReadQuoted(s: string): Option<(string, string)>
    decreases |s|
  {
    if s == [] then None
    else if s[0] == '"' then Some(("", s[1..]))
    else if s[0] == '\\' then
      if |s| < 2 then None
      else match ReadQuoted(s[2..])
        case None => None
        case Some((p, rest)) => Some(([s[1]] + p, rest))
    else match ReadQuoted(s[1..])
      case None => None
      case Some((p, rest)) => Some(([s[0]] + p, rest))
  }

  /** The template-data argument `CG ADD` needs: ` 1 "<escaped JSON>"` when the object has
      at least one key, else ` 1`, with backslashes escaped as well as quotes. This is the
      corrected form of `CgDataAsWritten`; see `CgDataRoundTrip`. */
  function CgData(data: seq<(string, string)>): string {
    if |data| > 0 then " 1 \"" + AmcpEscape(JsonObject(data)) + "\"" else " 1"
  }

  /** The template-data argument as the route writes it: ` 1 "<escaped JSON>"` when the
      object has at least one key, else ` 1`, quotes alone escaped. */
  function CgDataAsWritten(data: seq<(string, string)>): string {
    if |data| > 0 then " 1 \"" + EscapeQuotes(JsonObject(data)) + "\"" else " 1"
  }

  /** The AMCP command line a control route composes (without its CR LF). */
  function CommandLine(r: ControlRequest): string {
    match r
    case Load(ch, l, file, loop) => "LOADBG " + Target(ch, l) + " \"" + file + "\" AUTO" + (if loop then " LOOP" else "")
    case Play(ch, l) => "PLAY " + Target(ch, l)
    case Pause(ch, l) => "PAUSE " + Target(ch, l)
    case Clear(ch, l) => if TruthyText(l) then "CLEAR " + Target(ch, l.value) else "CLEAR " + ch
    case CgAdd(ch, l, template, data) => "CG " + Target(ch, l) + " ADD 1 \"" + template + "\"" + CgDataAsWritten(data)
    case CgStop(ch, l) => "CG " + Target(ch, l) + " STOP 1"
  }

  // ---------------------------------------------------------------------------
  // properties of the composed lines

  /** A load line ends in ` LOOP` exactly when the request asks for looping, and otherwise
      in ` AUTO`, so that loading always starts playback. */
  lemma LoadLoopFlag(ch: string, l: string, file: string, loop: bool)
    ensures var line := CommandLine(Load(ch, l, file, loop));
      && StartsWith(line, "LOADBG " + Target(ch, l) + " \"" + file + "\" AUTO")
      && (EndsWith(line, " LOOP") <==> loop)
      && (!loop ==> EndsWith(line, " AUTO"))
  {
    var line := CommandLine(Load(ch, l, file, loop));
    var head := "LOADBG " + Target(ch, l) + " \"" + file + "\" AUTO";
    assert head[|head| - 5..] == " AUTO";
    if loop {
      assert line == head + " LOOP";
      assert line[..|head|] == head;
    } else {
      assert line == head;
      assert line[|line| - 5..] == " AUTO";
      assert " AUTO" != " LOOP" by { assert " AUTO"[1] != " LOOP"[1]; }
    }
  }

  /** A clear names the layer exactly when the request carries a non-empty layer; without
      one it clears the whole channel. */
  lemma ClearTarget(ch: string, l: Option<string>)
    requires '-' !in ch
    ensures var line := CommandLine(Clear(ch, l));
      && StartsWith(line, "CLEAR " + ch)
      && ('-' in line <==> TruthyText(l))
      && (!TruthyText(l) ==> line == "CLEAR " + ch)
  {
    var line := CommandLine(Clear(ch, l));
    if TruthyText(l) {
      assert line[|"CLEAR " + ch|] == '-';
      assert line[..|"CLEAR " + ch|] == "CLEAR " + ch;
    } else {
      forall i | 0 <= i < |line| ensures line[i] != '-' {
        if i >= 6 { assert line[i] == ch[i - 6]; }
      }
    }
  }

  /** On text without a backslash the route's escaping and the needed one coincide. */
  lemma {:induction false} EscapesAgree(t: string)
    requires '\\' !in t
    ensures EscapeQuotes(t) == AmcpEscape(t)
  {
    if t != [] {
      assert t[0] in t;
      assert forall c :: c in t[1..] ==> c in t;
      EscapesAgree(t[1..]);
    }
  }

  /** A character `JSON.stringify` writes as itself: neither a quote, nor a backslash, nor a
      control character. */
  predicate PlainChar(c: char) {
    c != '"' && c != '\\' && c as int >= 0x20
  }

  predicate PlainText(s: string) {
    forall i :: 0 <= i < |s| ==> PlainChar(s[i])
  }

  predicate PlainData(data: seq<(string, string)>) {
    forall k :: 0 <= k < |data| ==> PlainText(data[k].0) && PlainText(data[k].1)
  }

  lemma {:induction false} JsonEscapePlain(s: string)
    requires PlainText(s)
    ensures JsonEscape(s) == s
  {
    if s != [] {
      JsonEscapePlain(s[1..]);
      assert s == [s[0]] + s[1..];
    }
  }

  lemma NoBackslashJoined(a: string, b: string)
    requires '\\' !in a && '\\' !in b
    ensures '\\' !in a + b
  {
    assert forall c :: c in a + b ==> c in a || c in b;
  }

  lemma PlainNoBackslash(s: string)
    requires PlainText(s)
    ensures '\\' !in JsonQuote(s)
  {
    JsonEscapePlain(s);
    NoBackslashJoined("\"", s);
    NoBackslashJoined("\"" + s, "\"");
  }

  lemma {:induction false} JsonMembersPlain(data: seq<(string, string)>)
    requires PlainData(data)
    ensures '\\' !in JsonMembers(data)
  {
    if data != [] {
      PlainNoBackslash(data[0].0);
      PlainNoBackslash(data[0].1);
      NoBackslashJoined(JsonQuote(data[0].0), ":");
      NoBackslashJoined(JsonQuote(data[0].0) + ":", JsonQuote(data[0].1));
      if |data| > 1 {
        var member := JsonQuote(data[0].0) + ":" + JsonQuote(data[0].1);
        assert PlainData(data[1..]) by {
          forall k | 0 <= k < |data| - 1 ensures PlainText(data[1..][k].0) && PlainText(data[1..][k].1) {
            assert data[1..][k] == data[k + 1];
          }
        }
        JsonMembersPlain(data[1..]);
        NoBackslashJoined(member, ",");
        NoBackslashJoined(member + ",", JsonMembers(data[1..]));
      }
    }
  }

  /** When no key or value holds a quote, a backslash or a control character, the route's
      data argument is the one the model sends. */
  lemma CgDataAgrees(data: seq<(string, string)>)
    requires PlainData(data)
    ensures CgDataAsWritten(data) == CgData(data)
  {
    if |data| > 0 {
      JsonMembersPlain(data);
      NoBackslashJoined("{", JsonMembers(data));
      NoBackslashJoined("{" + JsonMembers(data), "}");
      EscapesAgree(JsonObject(data));
    }
  }

  lemma {:induction false} EscapeQuotesAppend(a: string, b: string)
    ensures EscapeQuotes(a + b) == EscapeQuotes(a) + EscapeQuotes(b)
    decreases |a|
  {
    if a != [] {
      assert (a + b)[1..] == a[1..] + b;
      EscapeQuotesAppend(a[1..], b);
    } else {
      assert a + b == b;
    }
  }

  /** The server reads the escaped text back exactly, then reads whatever follows it on its
      own: a quote right after the text closes the parameter with the text as its value. */
  lemma {:induction false} AmcpEscapeReadOn(t: string, y: string)
    ensures ReadQuoted(y).None? ==> ReadQuoted(AmcpEscape(t) + y).None?
    ensures ReadQuoted(y).Some? ==>
      ReadQuoted(AmcpEscape(t) + y) == Some((t + ReadQuoted(y).value.0, ReadQuoted(y).value.1))
    decreases |t|
  {
    var s := AmcpEscape(t) + y;
    if t == [] {
      assert s == y;
      if ReadQuoted(y).Some? {
        assert t + ReadQuoted(y).value.0 == ReadQuoted(y).value.0;
      }
    } else {
      var tail := AmcpEscape(t[1..]) + y;
      AmcpEscapeReadOn(t[1..], y);
      if t[0] == '"' || t[0] == '\\' {
        assert AmcpEscape(t) == ['\\', t[0]] + AmcpEscape(t[1..]);
        assert s == ['\\', t[0]] + tail;
        assert s[0] == '\\' && s[1] == t[0] && s[2..] == tail;
      } else {
        assert AmcpEscape(t) == [t[0]] + AmcpEscape(t[1..]);
        assert s == [t[0]] + tail;
        assert s[0] == t[0] && s[1..] == tail;
      }
      if ReadQuoted(y).Some? {
        assert t + ReadQuoted(y).value.0 == [t[0]] + (t[1..] + ReadQuoted(y).value.0);
      }
    }
  }

  /** The JSON of `{<key>: '"'}`: a head free of backslashes, then the escaped quote. */
  lemma QuoteCutJson(key: string)
    requires PlainText(key)
    ensures JsonObject([(key, "\"")]) == "{\"" + key + "\":\"" + "\\\"\"}"
    ensures '\\' !in "{\"" + key + "\":\""
  {
    JsonEscapePlain(key);
    assert JsonEscape("\"") == "\\\"";
    PlainNoBackslash(key);
    NoBackslashJoined("{", JsonQuote(key));
    NoBackslashJoined("{" + JsonQuote(key), ":\"");
    assert "{" + JsonQuote(key) + ":\"" == "{\"" + key + "\":\"";
  }

  /** After the head, the server reads the backslash JSON wrote, then stops at the quote. */
  lemma QuoteCutTail()
    ensures ReadQuoted(EscapeQuotes("\\\"\"}") + "\"") == Some(("\\", "\\\"}\""))
  {
    var tail := "\\\"\"}";
    assert tail == ['\\'] + "\"\"}";
    assert EscapeQuotes("\"}") == "\\\"}";
    assert EscapeQuotes("\"\"}") == "\\\"\\\"}";
    var y := EscapeQuotes(tail) + "\"";
    var rest := "\\\"}\"";
    assert y == "\\\\\"\\\"}\"";
    assert y[0] == '\\' && y[1] == '\\';
    assert y[2..] == "\"" + rest;
    assert ("\"" + rest)[1..] == rest;
    assert ReadQuoted(y[2..]) == Some(("", rest));
    assert [y[1]] + "" == "\\";
  }

  /** As written, a quote inside a value cuts the data short: for `{<key>: '"'}` the server
      reads the parameter `{"<key>":"\` and is left with `\"}"` after it, not the JSON of
      the data. */
  lemma CgAddQuoteCut(key: string)
    requires PlainText(key)
    ensures var data := [(key, "\"")];
      var payload := EscapeQuotes(JsonObject(data));
      && CgDataAsWritten(data) == " 1 \"" + payload + "\""
      && ReadQuoted(payload + "\"") == Some(("{\"" + key + "\":\"\\", "\\\"}\""))
      && ReadQuoted(payload + "\"") != Some((JsonObject(data), ""))
  {
    var data := [(key, "\"")];
    var head := "{\"" + key + "\":\"";
    var tail := "\\\"\"}";
    QuoteCutJson(key);
    EscapeQuotesAppend(head, tail);
    EscapesAgree(head);
    QuoteCutTail();
    var y := EscapeQuotes(tail) + "\"";
    AmcpEscapeReadOn(head, y);
    assert EscapeQuotes(JsonObject(data)) + "\"" == AmcpEscape(head) + y;
    assert head + "\\" == "{\"" + key + "\":\"\\";
    assert |head + "\\"| < |JsonObject(data)|;
  }

  /** The route's escaping never starts with a bare quote. */
  lemma EscapeQuotesHead(t: string)
    ensures EscapeQuotes(t) == [] || EscapeQuotes(t)[0] != '"'
  {
  }

  /** The route's escaping puts a backslash right before every double quote of the text. */
  lemma {:induction false} EscapeQuotesGuarded(t: string)
    ensures var e := EscapeQuotes(t);
      forall i :: 0 <= i < |e| && e[i] == '"' ==> i > 0 && e[i - 1] == '\\'
    decreases |t|
  {
    if t != [] {
      EscapeQuotesGuarded(t[1..]);
      EscapeQuotesHead(t[1..]);
      var e := EscapeQuotes(t);
      var rest := EscapeQuotes(t[1..]);
      var k := if t[0] == '"' then 2 else 1;
      assert e[k..] == rest;
      forall i | 0 <= i < |e| && e[i] == '"' ensures i > 0 && e[i - 1] == '\\' {
        if i >= k {
          assert rest[i - k] == '"';
          if i - k > 0 { assert e[i - 1] == rest[i - k - 1]; }
        }
      }
    }
  }

  /** The corrected data argument is read back by the server as the JSON of the data, for
      every object with a key: its payload ends exactly at the closing quote. */
  lemma CgDataRoundTrip(data: seq<(string, string)>)
    requires |data| > 0
    ensures exists payload ::
      && CgData(data) == " 1 \"" + payload + "\""
      && ReadQuoted(payload + "\"") == Some((JsonObject(data), ""))
  {
    var payload := AmcpEscape(JsonObject(data));
    AmcpEscapeReadOn(JsonObject(data), "\"");
    assert ("\"")[1..] == "";
    assert JsonObject(data) + "" == JsonObject(data);
    assert CgData(data) == " 1 \"" + payload + "\"";
  }

  /** `cg-add` adds the quoted data parameter exactly when the data has a key. Its payload is
      the JSON of the data with every double quote escaped, and, when no key or value holds
      a quote, a backslash or a control character, the server reads that payload back as
      the JSON of the data, up to the closing quote. */
  lemma CgAddData(ch: string, l: string, template: string, data: seq<(string, string)>)
    ensures var line := CommandLine(CgAdd(ch, l, template, data));
      var head := "CG " + Target(ch, l) + " ADD 1 \"" + template + "\"";
      var payload := EscapeQuotes(JsonObject(data));
      && StartsWith(line, head)
      && (|data| == 0 <==> line == head + " 1")
      && (|data| > 0 ==> line == head + " 1 \"" + payload + "\"")
      && (forall i :: 0 <= i < |payload| && payload[i] == '"' ==> i > 0 && payload[i - 1] == '\\')
      && (|data| > 0 && PlainData(data) ==> ReadQuoted(payload + "\"") == Some((JsonObject(data), "")))
  {
    var line := CommandLine(CgAdd(ch, l, template, data));
    var head := "CG " + Target(ch, l) + " ADD 1 \"" + template + "\"";
    assert line == head + CgDataAsWritten(data);
    assert line[..|head|] == head;
    EscapeQuotesGuarded(JsonObject(data));
    if |data| > 0 {
      var payload := EscapeQuotes(JsonObject(data));
      assert line == head + " 1 \"" + payload + "\"";
      assert |line| > |head + " 1"|;
      if PlainData(data) {
        JsonMembersPlain(data);
        NoBackslashJoined("{", JsonMembers(data));
        NoBackslashJoined("{" + JsonMembers(data), "}");
        EscapesAgree(JsonObject(data));
        AmcpEscapeReadOn(JsonObject(data), "\"");
        assert ("\"")[1..] == "";
        assert JsonObject(data) + "" == JsonObject(data);
      }
    }
  }

  // ---------------------------------------------------------------------------
  // one command per write

  predicate NoLineBreak(s: string) {
    '\r' !in s && '\n' !in s
  }

  /** The text fields of a request hold no line break (the template data may: JSON escapes it). */
  predicate SingleLineFields(r: ControlRequest) {
    match r
    case Load(ch, l, file, _) => NoLineBreak(ch) && NoLineBreak(l) && NoLineBreak(file)
    case Play(ch, l) => NoLineBreak(ch) && NoLineBreak(l)
    case Pause(ch, l) => NoLineBreak(ch) && NoLineBreak(l)
    case Clear(ch, l) => NoLineBreak(ch) && (l.Some? ==> NoLineBreak(l.value))
    case CgAdd(ch, l, template, _) => NoLineBreak(ch) && NoLineBreak(l) && NoLineBreak(template)
    case CgStop(ch, l) => NoLineBreak(ch) && NoLineBreak(l)
  }

  lemma {:induction false} JsonEscapeNoLineBreak(s: string)
    ensures NoLineBreak(JsonEscape(s))
  {
    if s != [] {
      JsonEscapeNoLineBreak(s[1..]);
      var c := s[0];
      if c as int < 0x20 && c != '\t' && c != '\n' && c != '\r' && c as int != 0x08 && c as int != 0x0C {
        var h1, h2 := HexDigitChar(c as int / 16), HexDigitChar(c as int % 16);
        assert JsonEscapeChar(c) == "\\u00" + [h1, h2];
      }
      assert JsonEscape(s) == JsonEscapeChar(c) + JsonEscape(s[1..]);
    }
  }

  lemma {:induction false} JsonMembersNoLineBreak(data: seq<(string, string)>)
    ensures NoLineBreak(JsonMembers(data))
  {
    if data != [] {
      JsonEscapeNoLineBreak(data[0].0);
      JsonEscapeNoLineBreak(data[0].1);
      JsonMembersNoLineBreak(data[1..]);
    }
  }

  lemma {:induction false} EscapeQuotesNoLineBreak(s: string)
    requires NoLineBreak(s)
    ensures NoLineBreak(EscapeQuotes(s))
  {
    if s != [] {
      assert s[0] in s;
      EscapeQuotesNoLineBreak(s[1..]);
    }
  }

  lemma Joined(a: string, b: string)
    requires NoLineBreak(a) && NoLineBreak(b)
    ensures NoLineBreak(a + b)
  {
    assert forall c :: c in a + b ==> c in a || c in b;
  }

  lemma TargetNoLineBreak(ch: string, l: string)
    requires NoLineBreak(ch) && NoLineBreak(l)
    ensures NoLineBreak(Target(ch, l))
  {
    Joined(ch, "-");
    Joined(ch + "-", l);
  }

  lemma CommandNoLineBreak(r: ControlRequest)
    requires SingleLineFields(r)
    ensures NoLineBreak(CommandLine(r))
  {
    match r
    case Load(ch, l, file, loop) =>
      TargetNoLineBreak(ch, l);
      Joined("LOADBG ", Target(ch, l));
      Joined("LOADBG " + Target(ch, l), " \"");
      Joined("LOADBG " + Target(ch, l) + " \"", file);
      Joined("LOADBG " + Target(ch, l) + " \"" + file, "\" AUTO");
      Joined("LOADBG " + Target(ch, l) + " \"" + file + "\" AUTO", if loop then " LOOP" else "");
    case Play(ch, l) =>
      TargetNoLineBreak(ch, l);
      Joined("PLAY ", Target(ch, l));
    case Pause(ch, l) =>
      TargetNoLineBreak(ch, l);
      Joined("PAUSE ", Target(ch, l));
    case Clear(ch, l) =>
      if TruthyText(l) {
        TargetNoLineBreak(ch, l.value);
        Joined("CLEAR ", Target(ch, l.value));
      } else {
        Joined("CLEAR ", ch);
      }
    case CgAdd(ch, l, template, data) =>
      TargetNoLineBreak(ch, l);
      var head := "CG " + Target(ch, l) + " ADD 1 \"" + template + "\"";
      Joined("CG ", Target(ch, l));
      Joined("CG " + Target(ch, l), " ADD 1 \"");
      Joined("CG " + Target(ch, l) + " ADD 1 \"", template);
      Joined("CG " + Target(ch, l) + " ADD 1 \"" + template, "\"");
      if |data| > 0 {
        JsonMembersNoLineBreak(data);
        Joined("{", JsonMembers(data));
        Joined("{" + JsonMembers(data), "}");
        EscapeQuotesNoLineBreak(JsonObject(data));
        var payload := EscapeQuotes(JsonObject(data));
        Joined(" 1 \"", payload);
        Joined(" 1 \"" + payload, "\"");
      }
      Joined(head, CgDataAsWritten(data));
    case CgStop(ch, l) =>
      TargetNoLineBreak(ch, l);
      Joined("CG ", Target(ch, l));
      Joined("CG " + Target(ch, l), " STOP 1");
  }

  lemma TerminatedLine(line: string)
    requires NoLineBreak(line)
    ensures SplitLines(line + "\r\n") == [line, ""]
  {
    var s := line + "\r\n";
    assert s[..|line| + 1] == line + "\r";
    IndexOfAt(s, '\n', |line| + 1);
    assert s[..|line|] == line;
    assert s[|line| + 2..] == "";
  }

  /** A request whose fields hold no line break puts exactly one line on the wire: the
      command, then its CR LF terminator. */
  lemma OneCommandPerWrite(r: ControlRequest)
    requires SingleLineFields(r)
    ensures NoLineBreak(CommandLine(r))
    ensures SplitLines(CommandLine(r) + "\r\n") == [CommandLine(r), ""]
  {
    CommandNoLineBreak(r);
    TerminatedLine(CommandLine(r));
  }
}
