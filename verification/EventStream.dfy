/** Log lines as server-sent events: the writer (internal/api/stream_handlers.go, jsonString and the loop of
    handleAppLogs) and the reader (internal/cli/client.go, Client.Stream). */
module EventStream {
  import opened Text
  import opened Lines

  // ---------- quoting (section 7 of RFC 8259) ----------

  function HexDigit(n: nat): char
    requires n < 16
  {
    if n < 10 then DigitChar(n) else ('a' as int + (n - 10)) as char
  }

  function HexValue(c: char): Option<nat> {
    if IsDigit(c) then Some(DigitValue(c))
    else if 'a' <= c <= 'f' then Some(c as int - 'a' as int + 10)
    else if 'A' <= c <= 'F' then Some(c as int - 'A' as int + 10)
    else None
  }

  function Escape(c: char): string {
    if c == '"' then "\\\""
    else if c == '\\' then "\\\\"
    else if c == '\n' then "\\n"
    else if c == '\r' then "\\r"
    else if c == '\t' then "\\t"
    else if c < ' ' then "\\u00" + [HexDigit(c as int / 16), HexDigit(c as int % 16)]
    else [c]
  }

  function EscapeAll(s: string): string {
    if s == "" then "" else EscapeAll(s[..|s| - 1]) + Escape(s[|s| - 1])
  }

  function Quoted(s: string): string { "\"" + EscapeAll(s) + "\"" }

  method JsonString(s: string) returns (text: string)
    ensures text == Quoted(s)
  {
    hide Escape;
    text := "\"";
    for i := 0 to |s|
      invariant text == "\"" + EscapeAll(s[..i])
    {
      assert s[..i + 1][..i] == s[..i];
      text := text + Escape(s[i]);
    }
    assert s[..|s|] == s;
    text := text + "\"";
  }

  /** One escape after its backslash: the character it stands for and how long it is. A surrogate is refused. */
  function ReadEscape(t: string): Option<(char, nat)> {
    if t == "" then None
    else if t[0] == '"' || t[0] == '\\' || t[0] == '/' then Some((t[0], 1))
    else if t[0] == 'b' then Some(('\U{08}', 1))
    else if t[0] == 'f' then Some(('\U{0C}', 1))
    else if t[0] == 'n' then Some(('\n', 1))
    else if t[0] == 'r' then Some(('\r', 1))
    else if t[0] == 't' then Some(('\t', 1))
    else if t[0] == 'u' && |t| >= 5 then
      var a, b, c, d := HexValue(t[1]), HexValue(t[2]), HexValue(t[3]), HexValue(t[4]);
      if a.None? || b.None? || c.None? || d.None? then None
      else
        var code := 4096 * a.value + 256 * b.value + 16 * c.value + d.value;
        if 0 <= code < 0xD800 || 0xE000 <= code <= 0xFFFF then Some((code as char, 5)) else None
    else None
  }

  /** The rest of a JSON string after its opening quote. */
  function Unescape(t: string): Option<string>
    decreases |t|
  {
    if t == "" then None
    else if t[0] == '"' then if |t| == 1 then Some("") else None
    else if t[0] == '\\' then
      var e := ReadEscape(t[1..]);
      if e.None? || 1 + e.value.1 > |t| then None
      else
        var rest := Unescape(t[1 + e.value.1..]);
        if rest.None? then None else Some([e.value.0] + rest.value)
    else if t[0] < ' ' then None
    else
      var rest := Unescape(t[1..]);
      if rest.None? then None else Some([t[0]] + rest.value)
  }

  function Unquote(t: string): Option<string> {
    if t != "" && t[0] == '"' then Unescape(t[1..]) else None
  }

  lemma HexRoundTrip(n: nat)
    requires n < 16
    ensures HexValue(HexDigit(n)) == Some(n)
  {
  }

  lemma EscapeReads(c: char, rest: string)
    ensures Unescape(Escape(c) + rest) == var r := Unescape(rest); if r.None? then None else Some([c] + r.value)
  {
    var t := Escape(c) + rest;
    if c == '"' || c == '\\' || c == '\n' || c == '\r' || c == '\t' {
      assert t[1..][0] == t[1] && t[2..] == rest;
    } else if c < ' ' {
      ControlReads(c, rest);
      assert t[1..] == Escape(c)[1..] + rest;
      assert t[6..] == rest;
    } else {
      assert t[1..] == rest;
    }
  }

  /** A control character that has no short escape. */
  lemma ControlReads(c: char, rest: string)
    requires c < ' ' && c !in {'\n', '\r', '\t'}
    ensures |Escape(c)| == 6 && Escape(c)[0] == '\\'
    ensures ReadEscape(Escape(c)[1..] + rest) == Some((c, 5))
  {
    var n := c as int;
    HexRoundTrip(0);
    HexRoundTrip(n / 16);
    HexRoundTrip(n % 16);
    assert 16 * (n / 16) + n % 16 == n;
    assert Escape(c)[1..] == "u00" + [HexDigit(n / 16), HexDigit(n % 16)];
  }

  lemma {:induction false} EscapesRead(s: string, rest: string)
    ensures Unescape(EscapeAll(s) + rest) ==
            var r := Unescape(rest); if r.None? then None else Some(s + r.value)
    decreases |s|
  {
    hide Unescape, Escape;
    if s == "" {
      assert EscapeAll(s) + rest == rest;
      assert Unescape(rest).Some? ==> s + Unescape(rest).value == Unescape(rest).value;
    } else {
      var front, last := s[..|s| - 1], s[|s| - 1];
      assert s == front + [last];
      Assoc(EscapeAll(front), Escape(last), rest);
      EscapesRead(front, Escape(last) + rest);
      EscapeReads(last, rest);
      assert Unescape(rest).Some? ==> front + ([last] + Unescape(rest).value) == s + Unescape(rest).value;
    }
  }

  /** Unquoting a quoted line gives the line back. */
  lemma QuoteRoundTrip(s: string)
    ensures Unquote(Quoted(s)) == Some(s)
  {
    EscapesRead(s, "\"");
    assert Quoted(s)[1..] == EscapeAll(s) + "\"";
    assert Unescape("\"") == Some("");
    assert s + "" == s;
  }

  lemma {:induction false} EscapedHasNoBreaks(s: string)
    ensures '\n' !in EscapeAll(s) && '\r' !in EscapeAll(s)
  {
    if s != "" {
      EscapedHasNoBreaks(s[..|s| - 1]);
      EscapeHasNoBreaks(s[|s| - 1]);
    }
  }

  lemma EscapeHasNoBreaks(c: char)
    ensures '\n' !in Escape(c) && '\r' !in Escape(c)
  {
  }

  // ---------- the writer ----------

  /** What the select loop of the handler can be woken by. */
  datatype Wake =
    | Line(text: string)
    | Heartbeat
    | ReadError(text: string)
    | Closed     // the container stopped writing
    | Gone       // the client went away

  predicate Last(w: Wake) { w.ReadError? || w.Closed? || w.Gone? }

  /** The lines written for one wake; `n` numbers the log lines. */
  function Frame(w: Wake, n: nat): seq<string> {
    match w
    case Line(text) => ["id: " + Itoa(n), "event: log", "data: " + Quoted(text), ""]
    case Heartbeat => [": keepalive", ""]
    case ReadError(text) => ["event: error", "data: " + Quoted(text), ""]
    case Closed => []
    case Gone => []
  }

  function Count(w: Wake): nat { if w.Line? then 1 else 0 }

  function Unlines(lines: seq<string>): string {
    if lines == [] then "" else Unlines(lines[..|lines| - 1]) + lines[|lines| - 1] + "\n"
  }

  /** Everything written, as lines, when `n` log lines were written before. */
  function Written(wakes: seq<Wake>, n: nat): seq<string> {
    if wakes == [] then []
    else
      var k := n + Count(wakes[0]);
      Frame(wakes[0], k) + if Last(wakes[0]) then [] else Written(wakes[1..], k)
  }

  lemma {:induction false} UnlinesAppend(a: seq<string>, b: seq<string>)
    ensures Unlines(a + b) == Unlines(a) + Unlines(b)
  {
    if b == [] {
      assert a + b == a;
    } else {
      assert (a + b)[..|a + b| - 1] == a + b[..|b| - 1];
      UnlinesAppend(a, b[..|b| - 1]);
      Assoc(Unlines(a), Unlines(b[..|b| - 1]), b[|b| - 1]);
      Assoc(Unlines(a), Unlines(b[..|b| - 1]) + b[|b| - 1], "\n");
    }
  }

  lemma UnlinesSnoc(lines: seq<string>, last: string)
    ensures Unlines(lines + [last]) == Unlines(lines) + last + "\n"
  {
    assert (lines + [last])[..|lines|] == lines;
  }

  lemma UnlinesTwo(a: string, b: string)
    ensures Unlines([a, b]) == a + "\n" + b + "\n"
  {
    UnlinesSnoc([], a);
    UnlinesSnoc([a], b);
    assert [] + [a] == [a] && [a] + [b] == [a, b] && Unlines([]) == "";
  }

  lemma UnlinesThree(a: string, b: string, c: string)
    ensures Unlines([a, b, c]) == a + "\n" + b + "\n" + c + "\n"
  {
    UnlinesTwo(a, b);
    UnlinesSnoc([a, b], c);
    assert [a, b] + [c] == [a, b, c];
  }

  lemma LogFrameText(number: string, quoted: string)
    ensures Unlines(["id: " + number, "event: log", "data: " + quoted, ""]) ==
            "id: " + number + "\nevent: log\ndata: " + quoted + "\n\n"
  {
    hide Unlines;
    var id, data := "id: " + number, "data: " + quoted;
    UnlinesThree(id, "event: log", data);
    UnlinesSnoc([id, "event: log", data], "");
    assert [id, "event: log", data] + [""] == [id, "event: log", data, ""];
  }

  lemma ErrorFrameText(quoted: string)
    ensures Unlines(["event: error", "data: " + quoted, ""]) == "event: error\ndata: " + quoted + "\n\n"
  {
    hide Unlines;
    UnlinesThree("event: error", "data: " + quoted, "");
  }

  method WriteFrame(w: Wake, n: nat) returns (text: string)
    ensures text == Unlines(Frame(w, n))
  {
    assert Unlines([]) == "";
    hide Quoted, Itoa, Unlines;
    match w
    case Line(line) =>
      var quoted := JsonString(line);
      text := "id: " + Itoa(n) + "\nevent: log\ndata: " + quoted + "\n\n";
      LogFrameText(Itoa(n), quoted);
    case Heartbeat =>
      text := ": keepalive\n\n";
      UnlinesTwo(": keepalive", "");
    case ReadError(line) =>
      var quoted := JsonString(line);
      text := "event: error\ndata: " + quoted + "\n\n";
      ErrorFrameText(quoted);
    case _ =>
      text := "";
  }

  /** The select loop: frames for each wake until one that ends the stream. */
  method ServeLogs(wakes: seq<Wake>) returns (body: string)
    ensures body == Unlines(Written(wakes, 0))
  {
    hide Frame, Unlines;
    body := "";
    var n := 0;
    assert Unlines([]) == "" by { EmptyLines(); }
    for i := 0 to |wakes|
      invariant body + Unlines(Written(wakes[i..], n)) == Unlines(Written(wakes, 0))
    {
      ghost var m := n;
      if wakes[i].Line? {
        n := n + 1;
      }
      var text := WriteFrame(wakes[i], n);
      ghost var rest := if Last(wakes[i]) then [] else Written(wakes[i + 1..], n);
      assert wakes[i..][1..] == wakes[i + 1..];
      UnlinesAppend(Frame(wakes[i], n), rest);
      Assoc(body, text, Unlines(rest));
      body := body + text;
      if Last(wakes[i]) {
        return;
      }
    }
  }

  lemma EmptyLines()
    ensures Unlines([]) == ""
  {
  }

  // ---------- the reader ----------

  datatype Event = Event(name: string, data: string)

  /** The reader between lines. `stopped` is set once the callback has asked to stop. */
  datatype Reader = Reader(name: string, data: string, delivered: seq<Event>, stopped: bool)

  const START := Reader("message", "", [], false)

  const LINE_LIMIT := 1024 * 1024

  function Step(r: Reader, line: string, onEvent: Event -> bool): Reader {
    if r.stopped then r
    else if line == "" then
      if r.data != "" then
        var e := Event(r.name, r.data);
        Reader("message", "", r.delivered + [e], !onEvent(e))
      else Reader("message", "", r.delivered, false)
    else if line[0] == ':' then r
    else if "event:" <= line then r.(name := TrimSpace(line[6..]))
    else if "data:" <= line then r.(data := r.data + if |line| > 5 && line[5] == ' ' then line[6..] else line[5..])
    else r
  }

  function Feed(r: Reader, lines: seq<string>, onEvent: Event -> bool): Reader {
    if lines == [] then r else Step(Feed(r, lines[..|lines| - 1], onEvent), lines[|lines| - 1], onEvent)
  }

  /** Reads a body to its end, to the first line that is too long, or until the callback asks to stop. */
  method Stream(body: string, onEvent: Event -> bool) returns (delivered: seq<Event>, failed: bool)
    ensures var scan := ScanLines(body, LINE_LIMIT, Bytes);
            var r := Feed(START, scan.lines, onEvent);
            delivered == r.delivered && failed == (!r.stopped && !scan.complete)
  {
    hide Step, ScanLines;
    var scan := ScanLines(body, LINE_LIMIT, Bytes);
    var r := START;
    for i := 0 to |scan.lines|
      invariant r == Feed(START, scan.lines[..i], onEvent) && !r.stopped
    {
      assert scan.lines[..i + 1][..i] == scan.lines[..i];
      r := Step(r, scan.lines[i], onEvent);
      if r.stopped {
        StoppedStays(START, scan.lines, i + 1, onEvent);
        return r.delivered, false;
      }
    }
    assert scan.lines[..|scan.lines|] == scan.lines;
    return r.delivered, !scan.complete;
  }

  lemma {:induction false} StoppedStays(r: Reader, lines: seq<string>, i: nat, onEvent: Event -> bool)
    requires i <= |lines| && Feed(r, lines[..i], onEvent).stopped
    ensures Feed(r, lines, onEvent) == Feed(r, lines[..i], onEvent)
    decreases |lines|
  {
    if i < |lines| {
      assert lines[..|lines| - 1][..i] == lines[..i];
      StoppedStays(r, lines[..|lines| - 1], i, onEvent);
    } else {
      assert lines[..i] == lines;
    }
  }

  lemma {:induction false} FeedAppend(r: Reader, a: seq<string>, b: seq<string>, onEvent: Event -> bool)
    ensures Feed(r, a + b, onEvent) == Feed(Feed(r, a, onEvent), b, onEvent)
    decreases |b|
  {
    hide Step;
    if b == [] {
      assert a + b == a;
    } else {
      assert (a + b)[..|a + b| - 1] == a + b[..|b| - 1];
      FeedAppend(r, a, b[..|b| - 1], onEvent);
    }
  }

  // ---------- lines survive the trip ----------

  /** A line that comes back as it was written. */
  predicate Whole(line: string) { '\n' !in line && '\r' !in line }

  /** How many of the lines are read: all those before the first that is too long. */
  function Readable(lines: seq<string>): (n: nat)
    ensures n <= |lines|
  {
    if lines == [] || Bytes(lines[0]) >= LINE_LIMIT then 0 else 1 + Readable(lines[1..])
  }

  lemma UnlinesCons(lines: seq<string>)
    requires lines != []
    ensures Unlines(lines) == lines[0] + ['\n'] + Unlines(lines[1..])
  {
    hide Unlines;
    assert lines == [lines[0]] + lines[1..];
    UnlinesAppend([lines[0]], lines[1..]);
    UnlinesSnoc([], lines[0]);
    assert [] + [lines[0]] == [lines[0]];
    EmptyLines();
  }

  /** What a scanner makes of whole lines and then the start of another one. */
  ghost function CutScan(lines: seq<string>, partial: string): Scan {
    if lines == [] then
      if partial == "" then Scan([], true)
      else if Bytes(partial) < LINE_LIMIT then Scan([partial], true) else Scan([], false)
    else if Bytes(lines[0]) >= LINE_LIMIT then Scan([], false)
    else var rest := CutScan(lines[1..], partial); Scan([lines[0]] + rest.lines, rest.complete)
  }

  lemma {:induction false} ScanCut(lines: seq<string>, partial: string)
    requires (forall l :: l in lines ==> Whole(l)) && Whole(partial)
    ensures ScanLines(Unlines(lines) + partial, LINE_LIMIT, Bytes) == CutScan(lines, partial)
  {
    EmptyLines();
    if lines == [] {
      assert Unlines(lines) + partial == partial;
      LastLine(partial);
    } else {
      hide Unlines, Bytes, ScanLines;
      var line, rest := lines[0], lines[1..];
      assert Whole(line);
      UnlinesCons(lines);
      Assoc(line + ['\n'], Unlines(rest), partial);
      ScanLine(line, Unlines(rest) + partial);
      ScanCut(rest, partial);
    }
  }

  lemma LastLine(partial: string)
    requires Whole(partial)
    ensures ScanLines(partial, LINE_LIMIT, Bytes) == CutScan([], partial)
  {
    hide Bytes, IndexOf;
    if partial != "" {
      assert IndexOf(partial, '\n') == |partial| && partial[..|partial|] == partial;
      assert ScanLines("", LINE_LIMIT, Bytes) == Scan([], true);
      assert [DropReturn(partial)] + [] == [partial];
    }
  }

  /** The start of a line that the scanner takes for a line, when it gets that far. */
  ghost function TailLines(lines: seq<string>, partial: string): seq<string> {
    if Readable(lines) == |lines| && partial != "" && Bytes(partial) < LINE_LIMIT then [partial] else []
  }

  lemma {:induction false} CutScanIs(lines: seq<string>, partial: string)
    ensures CutScan(lines, partial).lines == lines[..Readable(lines)] + TailLines(lines, partial)
    ensures partial == "" ==> (CutScan(lines, partial).complete <==> Readable(lines) == |lines|)
  {
    hide Bytes;
    if lines == [] {
      assert lines[..0] + TailLines(lines, partial) == TailLines(lines, partial);
    } else if Bytes(lines[0]) < LINE_LIMIT {
      var rest, n := lines[1..], Readable(lines);
      CutScanIs(rest, partial);
      assert lines[..n] == [lines[0]] + rest[..n - 1];
      assert [lines[0]] + (rest[..n - 1] + TailLines(rest, partial)) == lines[..n] + TailLines(lines, partial);
    } else {
      assert lines[..0] + [] == [];
    }
  }

  lemma CutScanReads(lines: seq<string>, partial: string)
    ensures Readable(lines) <= |CutScan(lines, partial).lines|
    ensures var n, cut := Readable(lines), CutScan(lines, partial).lines; cut == lines[..n] + cut[n..]
    ensures forall l :: l in CutScan(lines, partial).lines[Readable(lines)..] ==> l == partial != ""
    ensures partial == "" ==> CutScan(lines, "") == Scan(lines[..Readable(lines)], Readable(lines) == |lines|)
  {
    hide Bytes, CutScan, Readable;
    CutScanIs(lines, partial);
    var n, cut := Readable(lines), CutScan(lines, partial).lines;
    assert cut[n..] == TailLines(lines, partial) && cut[..n] == lines[..n];
    assert lines[..n] + [] == lines[..n];
  }

  lemma ScanLine(line: string, text: string)
    requires Whole(line)
    ensures ScanLines(line + ['\n'] + text, LINE_LIMIT, Bytes) ==
              if Bytes(line) >= LINE_LIMIT then Scan([], false)
              else var rest := ScanLines(text, LINE_LIMIT, Bytes); Scan([line] + rest.lines, rest.complete)
  {
    hide IndexOf, Bytes;
    var all := line + ['\n'] + text;
    IndexOfAppend(line, '\n', text);
    assert all[..|line|] == line && all[|line| + 1..] == text;
    assert DropReturn(line) == line;
  }

  /** Wherever a body is cut, what is left is some whole lines and the start of the next. */
  lemma {:induction false} CutLines(lines: seq<string>, k: nat) returns (n: nat, partial: string)
    requires k <= |Unlines(lines)|
    ensures n <= |lines| && Unlines(lines)[..k] == Unlines(lines[..n]) + partial
    ensures partial == "" || (n < |lines| && partial <= lines[n])
  {
    hide Unlines;
    EmptyLines();
    if lines == [] {
      return 0, "";
    }
    var line, rest := lines[0], lines[1..];
    UnlinesCons(lines);
    assert lines[..0] == [];
    if k <= |line| {
      n, partial := 0, line[..k];
    } else {
      var inner;
      inner, partial := CutLines(rest, k - |line| - 1);
      n := inner + 1;
      assert lines[..n][1..] == rest[..inner] && lines[..n][0] == line;
      UnlinesCons(lines[..n]);
      CutAfter(line + ['\n'], Unlines(rest), k);
      Assoc(line + ['\n'], Unlines(rest[..inner]), partial);
    }
  }

  lemma CutAfter(a: string, b: string, k: nat)
    requires |a| <= k <= |a| + |b|
    ensures (a + b)[..k] == a + b[..k - |a|]
  {
  }

  // ---------- what is delivered ----------

  function FrameEvents(w: Wake): seq<Event> {
    if w.Line? then [Event("log", Quoted(w.text))]
    else if w.ReadError? then [Event("error", Quoted(w.text))]
    else []
  }

  /** The events the wakes stand for: log lines in order, and an error if the log could not be read to its end. */
  function Expected(wakes: seq<Wake>): seq<Event> {
    if wakes == [] then []
    else FrameEvents(wakes[0]) + if Last(wakes[0]) then [] else Expected(wakes[1..])
  }

  predicate Fits(w: Wake, n: nat) { Readable(Frame(w, n)) == |Frame(w, n)| }

  /** The wakes up to the first whose frame has a line that is too long. */
  function Fitting(wakes: seq<Wake>, n: nat): (r: seq<Wake>)
    ensures r <= wakes
  {
    if wakes == [] then []
    else
      var k := n + Count(wakes[0]);
      if !Fits(wakes[0], k) then [] else [wakes[0]] + Fitting(wakes[1..], k)
  }

  ghost const KEEP_GOING: Event -> bool := (e: Event) => true

  lemma DataLine(r: Reader, quoted: string)
    requires !r.stopped
    ensures Step(r, "data: " + quoted, KEEP_GOING) == r.(data := r.data + quoted)
  {
    var line := "data: " + quoted;
    assert line[0] == 'd' && line[..5] == "data:" && line[6..] == quoted;
  }

  lemma EventLine(r: Reader, name: string)
    requires !r.stopped && name in {"log", "error"}
    ensures Step(r, "event: " + name, KEEP_GOING) == r.(name := name)
  {
    hide TrimSpace;
    var line := "event: " + name;
    assert line[0] == 'e' && line[..6] == "event:" && line[6..] == " " + name;
    NameTrims(name);
  }

  lemma NameTrims(name: string)
    requires name in {"log", "error"}
    ensures TrimSpace(" " + name) == name
  {
    assert (" " + name)[1..] == name;
    assert TrimStart(name) == name && TrimEnd(name) == name;
  }

  lemma IdLine(r: Reader, number: string)
    ensures Step(r, "id: " + number, KEEP_GOING) == r
  {
    var line := "id: " + number;
    assert line[0] == 'i';
  }

  /** Feeding one frame to a reader between events delivers that frame's event and leaves it between events. */
  lemma FrameDelivers(r: Reader, w: Wake, n: nat)
    requires r == START.(delivered := r.delivered)
    ensures Feed(r, Frame(w, n), KEEP_GOING) == r.(delivered := r.delivered + FrameEvents(w))
  {
    hide Step, Quoted, Itoa;
    match w
    case Line(text) =>
      var id, data := "id: " + Itoa(n), "data: " + Quoted(text);
      IdLine(r, Itoa(n));
      EventLine(r, "log");
      assert "event: " + "log" == "event: log";
      DataLine(r.(name := "log"), Quoted(text));
      FeedFour(r, id, "event: log", data, "");
      Dispatch(r.(name := "log"), text);
    case Heartbeat =>
      FeedTwo(r, ": keepalive", "");
      CommentLine(r);
    case ReadError(text) =>
      EventLine(r, "error");
      assert "event: " + "error" == "event: error";
      DataLine(r.(name := "error"), Quoted(text));
      FeedThree(r, "event: error", "data: " + Quoted(text), "");
      Dispatch(r.(name := "error"), text);
    case _ =>
  }

  lemma FeedTwo(r: Reader, a: string, b: string)
    ensures Feed(r, [a, b], KEEP_GOING) == Step(Step(r, a, KEEP_GOING), b, KEEP_GOING)
  {
    hide Step;
    assert [a, b][..1] == [a] && [a][..0] == [];
    assert Feed(r, [a], KEEP_GOING) == Step(r, a, KEEP_GOING);
  }

  lemma FeedThree(r: Reader, a: string, b: string, c: string)
    ensures Feed(r, [a, b, c], KEEP_GOING) == Step(Step(Step(r, a, KEEP_GOING), b, KEEP_GOING), c, KEEP_GOING)
  {
    hide Step;
    assert [a, b, c][..2] == [a, b];
    FeedTwo(r, a, b);
  }

  lemma FeedFour(r: Reader, a: string, b: string, c: string, d: string)
    ensures Feed(r, [a, b, c, d], KEEP_GOING) ==
            Step(Step(Step(Step(r, a, KEEP_GOING), b, KEEP_GOING), c, KEEP_GOING), d, KEEP_GOING)
  {
    hide Step;
    assert [a, b, c, d][..3] == [a, b, c];
    FeedThree(r, a, b, c);
  }

  lemma CommentLine(r: Reader)
    requires r == START.(delivered := r.delivered)
    ensures Step(Step(r, ": keepalive", KEEP_GOING), "", KEEP_GOING) == r
  {
  }

  /** A blank line after a quoted payload delivers it, whatever the line was: a payload is never empty. */
  lemma Dispatch(r: Reader, text: string)
    requires r.data == "" && !r.stopped
    ensures Step(r.(data := "" + Quoted(text)), "", KEEP_GOING) ==
            START.(delivered := r.delivered + [Event(r.name, Quoted(text))])
  {
    hide EscapeAll;
    assert "" + Quoted(text) == Quoted(text) && Quoted(text) != "";
  }

  lemma {:induction false} NoBlankNoDelivery(r: Reader, lines: seq<string>)
    requires forall l :: l in lines ==> l != ""
    ensures Feed(r, lines, KEEP_GOING).delivered == r.delivered
  {
    if lines != [] {
      var front, last := lines[..|lines| - 1], lines[|lines| - 1];
      forall l | l in front ensures l != "" { assert l in lines; }
      NoBlankNoDelivery(r, front);
      assert last in lines;
    }
  }

  lemma DataWhole(text: string)
    ensures Whole("data: " + Quoted(text)) && "data: " + Quoted(text) != ""
  {
    EscapedHasNoBreaks(text);
  }

  lemma IdWhole(n: nat)
    ensures Whole("id: " + Itoa(n)) && "id: " + Itoa(n) != ""
  {
    assert forall c :: c in NatText(n) ==> IsDigit(c);
  }

  /** Only the last line of a frame is blank, and none holds a line break. */
  lemma FrameShape(w: Wake, n: nat)
    ensures forall l :: l in Frame(w, n) ==> Whole(l)
    ensures forall i :: 0 <= i < |Frame(w, n)| - 1 ==> Frame(w, n)[i] != ""
  {
    hide Quoted, Itoa;
    match w
    case Line(text) =>
      DataWhole(text);
      IdWhole(n);
    case ReadError(text) =>
      DataWhole(text);
    case _ =>
  }

  lemma {:induction false} WrittenWhole(wakes: seq<Wake>, n: nat)
    ensures forall l :: l in Written(wakes, n) ==> Whole(l)
    decreases |wakes|
  {
    hide Frame, Whole;
    if wakes != [] {
      FrameShape(wakes[0], n + Count(wakes[0]));
      WrittenWhole(wakes[1..], n + Count(wakes[0]));
    }
  }

  lemma {:induction false} ReadableAppend(a: seq<string>, b: seq<string>)
    ensures Readable(a + b) == if Readable(a) == |a| then |a| + Readable(b) else Readable(a)
  {
    hide Bytes;
    if a == [] {
      assert a + b == b;
    } else {
      assert (a + b)[1..] == a[1..] + b;
      ReadableAppend(a[1..], b);
    }
  }

  /** Everything written delivers everything expected, from a reader between events. */
  ghost predicate Delivers(r: Reader, lines: seq<string>, events: seq<Event>) {
    Feed(r, lines[..Readable(lines)], KEEP_GOING).delivered == r.delivered + events
  }

  lemma FittingFrame(r: Reader, w: Wake, n: nat, rest: seq<string>, events: seq<Event>)
    requires r == START.(delivered := r.delivered) && Fits(w, n)
    requires Delivers(r.(delivered := r.delivered + FrameEvents(w)), rest, events)
    ensures Delivers(r, Frame(w, n) + rest, FrameEvents(w) + events)
  {
    hide Frame, Readable, FrameEvents, Feed;
    var frame := Frame(w, n);
    var lines := frame + rest;
    ReadableAppend(frame, rest);
    FrameDelivers(r, w, n);
    assert lines[..Readable(lines)] == frame + rest[..Readable(rest)];
    FeedAppend(r, frame, rest[..Readable(rest)], KEEP_GOING);
  }

  lemma LongFrame(r: Reader, w: Wake, n: nat, rest: seq<string>)
    requires !Fits(w, n)
    ensures Delivers(r, Frame(w, n) + rest, [])
  {
    hide Frame, Readable, Feed;
    var frame := Frame(w, n);
    var lines := frame + rest;
    ReadableAppend(frame, rest);
    FrameShape(w, n);
    assert lines[..Readable(lines)] == frame[..Readable(frame)];
    NoBlankNoDelivery(r, frame[..Readable(frame)]);
  }

  lemma NothingLeft(r: Reader)
    ensures Delivers(r, [], [])
  {
  }

  /** The readable part of what is written delivers exactly the events before the first frame that is too long. */
  lemma {:induction false} WrittenDelivers(r: Reader, wakes: seq<Wake>, n: nat)
    requires r == START.(delivered := r.delivered)
    ensures Delivers(r, Written(wakes, n), Expected(Fitting(wakes, n)))
    decreases |wakes|
  {
    hide Frame, FrameEvents, Delivers, Fits;
    if wakes == [] {
      NothingLeft(r);
    } else {
      var w, k := wakes[0], n + Count(wakes[0]);
      if !Fits(w, k) {
        LongFrame(r, w, k, if Last(w) then [] else Written(wakes[1..], k));
      } else {
        var next := r.(delivered := r.delivered + FrameEvents(w));
        var fit := Fitting(wakes, n);
        assert fit[0] == w && fit[1..] == Fitting(wakes[1..], k);
        if Last(w) {
          NothingLeft(next);
          FittingFrame(r, w, k, [], []);
        } else {
          WrittenDelivers(next, wakes[1..], k);
          FittingFrame(r, w, k, Written(wakes[1..], k), Expected(fit[1..]));
        }
      }
    }
  }

  /** For every run of the writer, the reader delivers exactly the log lines in order, and the error that ended them
      if one did, keepalives aside; it stops short only at a frame with a line beyond its limit. */
  lemma LogsArrive(wakes: seq<Wake>)
    ensures var lines := Written(wakes, 0);
            var scan := ScanLines(Unlines(lines), LINE_LIMIT, Bytes);
            && Feed(START, scan.lines, KEEP_GOING).delivered == Expected(Fitting(wakes, 0))
            && (scan.complete <==> Readable(lines) == |lines|)
  {
    hide Written, Unlines, Fitting, Expected, ScanLines, CutScan, Feed, Readable;
    var lines := Written(wakes, 0);
    WrittenWhole(wakes, 0);
    ScanCut(lines, "");
    CutScanReads(lines, "");
    assert Unlines(lines) + "" == Unlines(lines);
    WrittenDelivers(START, wakes, 0);
  }

  /** Each log event's payload unquotes to the line it was made from. */
  lemma {:induction false} PayloadsUnquote(wakes: seq<Wake>)
    ensures Unquoted(Expected(wakes)) == Sources(wakes)
  {
    hide Quoted, Unquote;
    if wakes != [] {
      var w := wakes[0];
      if w.Line? || w.ReadError? {
        QuoteRoundTrip(w.text);
      }
      PayloadsUnquote(wakes[1..]);
      var rest := if Last(w) then [] else Expected(wakes[1..]);
      if FrameEvents(w) != [] {
        assert (FrameEvents(w) + rest)[1..] == rest;
      } else {
        assert FrameEvents(w) + rest == rest;
      }
    }
  }

  ghost function Unquoted(events: seq<Event>): seq<Option<string>> {
    if events == [] then [] else [Unquote(events[0].data)] + Unquoted(events[1..])
  }

  ghost function Sources(wakes: seq<Wake>): seq<Option<string>> {
    if wakes == [] then []
    else
      var w := wakes[0];
      (if w.Line? || w.ReadError? then [Some(w.text)] else []) + if Last(w) then [] else Sources(wakes[1..])
  }

  lemma {:induction false} DeliveredGrows(r: Reader, lines: seq<string>)
    ensures r.delivered <= Feed(r, lines, KEEP_GOING).delivered
  {
    if lines != [] {
      DeliveredGrows(r, lines[..|lines| - 1]);
    }
  }

  /** A connection lost after any character delivers a prefix of the events, never a damaged one. */
  lemma CutDeliversPrefix(wakes: seq<Wake>, k: nat)
    requires k <= |Unlines(Written(wakes, 0))|
    ensures var body := Unlines(Written(wakes, 0));
            var cut := ScanLines(body[..k], LINE_LIMIT, Bytes).lines;
            Feed(START, cut, KEEP_GOING).delivered <= Expected(Fitting(wakes, 0))
  {
    hide Written, Unlines, Fitting, Expected, ScanLines, CutScan, Feed, Readable;
    var lines := Written(wakes, 0);
    var n, partial := CutLines(lines, k);
    WrittenWhole(wakes, 0);
    WrittenDelivers(START, wakes, 0);
    if partial != "" {
      assert lines[n] in lines;
      WholePart(lines[n], partial);
    }
    var some := lines[..n];
    ScanCut(some, partial);
    CutScanReads(some, partial);
    var cut := CutScan(some, partial).lines;
    var got, last := some[..Readable(some)], cut[Readable(some)..];
    FeedAppend(START, got, last, KEEP_GOING);
    NoBlankNoDelivery(Feed(START, got, KEEP_GOING), last);
    PrefixDelivers(lines, n);
  }

  lemma WholePart(line: string, partial: string)
    requires Whole(line) && partial <= line
    ensures Whole(partial)
  {
  }

  lemma PrefixDelivers(lines: seq<string>, n: nat)
    requires n <= |lines|
    ensures Feed(START, lines[..n][..Readable(lines[..n])], KEEP_GOING).delivered <=
            Feed(START, lines[..Readable(lines)], KEEP_GOING).delivered
  {
    hide Readable, Feed;
    ReadablePrefix(lines, n);
    FeedPrefix(lines, Readable(lines[..n]), Readable(lines));
  }

  lemma ReadablePrefix(lines: seq<string>, n: nat)
    requires n <= |lines|
    ensures Readable(lines[..n]) <= Readable(lines)
    ensures lines[..n][..Readable(lines[..n])] == lines[..Readable(lines[..n])]
  {
    hide Readable;
    assert lines == lines[..n] + lines[n..];
    ReadableAppend(lines[..n], lines[n..]);
  }

  lemma FeedPrefix(lines: seq<string>, i: nat, j: nat)
    requires i <= j <= |lines|
    ensures Feed(START, lines[..i], KEEP_GOING).delivered <= Feed(START, lines[..j], KEEP_GOING).delivered
  {
    hide Feed;
    assert lines[..j] == lines[..i] + lines[i..j];
    FeedAppend(START, lines[..i], lines[i..j], KEEP_GOING);
    DeliveredGrows(Feed(START, lines[..i], KEEP_GOING), lines[i..j]);
  }

  /** Every wake that does not end the stream puts something on the connection; a heartbeat is a comment. */
  lemma WakesAreSeen(w: Wake, n: nat)
    requires !Last(w)
    ensures Frame(w, n) != [] && Unlines(Frame(w, n)) != ""
    ensures w.Heartbeat? ==> Unlines(Frame(w, n)) == ": keepalive\n\n"
  {
    hide Itoa, Quoted;
    var f := Frame(w, n);
    assert Unlines(f) == Unlines(f[..|f| - 1]) + f[|f| - 1] + "\n";
    if w.Heartbeat? {
      UnlinesTwo(": keepalive", "");
    }
  }

  // ---------- callbacks that stop ----------

  /** The events up to and including the first that the callback refuses. */
  function UpToRefusal(events: seq<Event>, onEvent: Event -> bool): seq<Event> {
    if events == [] then []
    else if !onEvent(events[0]) then [events[0]]
    else [events[0]] + UpToRefusal(events[1..], onEvent)
  }

  ghost predicate Refuses(events: seq<Event>, onEvent: Event -> bool) {
    exists i :: 0 <= i < |events| && !onEvent(events[i])
  }

  lemma {:induction false} UpToRefusalSnoc(events: seq<Event>, e: Event, onEvent: Event -> bool)
    ensures UpToRefusal(events + [e], onEvent) ==
            if Refuses(events, onEvent) then UpToRefusal(events, onEvent) else UpToRefusal(events, onEvent) + [e]
    ensures Refuses(events + [e], onEvent) <==> Refuses(events, onEvent) || !onEvent(e)
  {
    var all := events + [e];
    assert all[|events|] == e;
    if Refuses(events, onEvent) {
      var i :| 0 <= i < |events| && !onEvent(events[i]);
      assert all[i] == events[i];
    }
    if events == [] {
      assert all == [e] && [e][1..] == [];
    } else {
      var rest := events[1..];
      assert all[1..] == rest + [e];
      UpToRefusalSnoc(rest, e, onEvent);
      RefusesTail(events, onEvent);
    }
  }

  lemma RefusesTail(events: seq<Event>, onEvent: Event -> bool)
    requires events != []
    ensures Refuses(events, onEvent) <==> !onEvent(events[0]) || Refuses(events[1..], onEvent)
  {
    if Refuses(events[1..], onEvent) {
      var i :| 0 <= i < |events[1..]| && !onEvent(events[1..][i]);
      assert events[i + 1] == events[1..][i];
    }
    if Refuses(events, onEvent) {
      var i :| 0 <= i < |events| && !onEvent(events[i]);
      assert i > 0 ==> events[1..][i - 1] == events[i];
    }
  }

  lemma {:induction false} NoRefusalIsAll(events: seq<Event>, onEvent: Event -> bool)
    requires !Refuses(events, onEvent)
    ensures UpToRefusal(events, onEvent) == events
  {
    if events != [] {
      RefusesTail(events, onEvent);
      NoRefusalIsAll(events[1..], onEvent);
    }
  }

  /** A reader that has not been stopped is where one that never stops would be. */
  ghost predicate Follows(r: Reader, all: Reader, onEvent: Event -> bool) {
    && r.delivered == UpToRefusal(all.delivered, onEvent) && (r.stopped <==> Refuses(all.delivered, onEvent))
    && (!r.stopped ==> r.name == all.name && r.data == all.data) && !all.stopped
  }

  /** Whatever the callback answers, it is given the events one that never stops would be given, up to and including the
      first it refuses; and the reader stops there. */
  lemma {:induction false} StopsAtRefusal(lines: seq<string>, onEvent: Event -> bool)
    ensures Follows(Feed(START, lines, onEvent), Feed(START, lines, KEEP_GOING), onEvent)
  {
    if lines != [] {
      var front, last := lines[..|lines| - 1], lines[|lines| - 1];
      StopsAtRefusal(front, onEvent);
      hide Feed, TrimSpace, UpToRefusal, Refuses;
      StepFollows(Feed(START, front, onEvent), Feed(START, front, KEEP_GOING), last, onEvent);
      FeedSnoc(lines, onEvent);
      FeedSnoc(lines, KEEP_GOING);
    }
  }

  lemma FeedSnoc(lines: seq<string>, onEvent: Event -> bool)
    requires lines != []
    ensures Feed(START, lines, onEvent) == Step(Feed(START, lines[..|lines| - 1], onEvent), lines[|lines| - 1], onEvent)
  {
  }

  lemma StepFollows(r: Reader, all: Reader, line: string, onEvent: Event -> bool)
    requires Follows(r, all, onEvent)
    ensures Follows(Step(r, line, onEvent), Step(all, line, KEEP_GOING), onEvent)
  {
    hide TrimSpace, UpToRefusal, Refuses;
    var e := Event(all.name, all.data);
    UpToRefusalSnoc(all.delivered, e, onEvent);
    if line == "" && all.data != "" && !r.stopped {
      NoRefusalIsAll(all.delivered, onEvent);
    }
  }

  // ---------- what the reader makes of lines ----------

  /** An event may be named, and its data may come on several lines, with or without a space, which are joined. */
  lemma ReaderMeans(name: string, a: string, b: string)
    requires a != "" && a[0] != ' ' && TrimSpace(name) == name
    ensures Feed(START, ["event: " + name, "data:" + a, "data: " + b, ""], KEEP_GOING).delivered ==
            [Event(name, a + b)]
  {
    hide TrimSpace;
    var l1, l2, l3 := "event: " + name, "data:" + a, "data: " + b;
    FeedFour(START, l1, l2, l3, "");
    assert l1[0] == 'e' && l1[..6] == "event:" && l1[6..] == " " + name;
    SpaceTrims(name);
    assert l2[0] == 'd' && l2[..5] == "data:" && l2[5] == a[0] && l2[5..] == a;
    var r2 := Step(Step(START, l1, KEEP_GOING), l2, KEEP_GOING);
    assert "" + a == a && r2 == Reader(name, a, [], false);
    DataLine(r2, b);
    var r3 := Step(r2, l3, KEEP_GOING);
    assert r3 == Reader(name, a + b, [], false) && a + b != "";
    assert [] + [Event(name, a + b)] == [Event(name, a + b)];
  }

  lemma SpaceTrims(name: string)
    requires TrimSpace(name) == name
    ensures TrimSpace(" " + name) == name
  {
    assert (" " + name)[1..] == name;
  }

  // ---------- numbers of log lines ----------

  /** The numbers that log frames carry. */
  function Ids(wakes: seq<Wake>, n: nat): seq<nat> {
    if wakes == [] then []
    else
      (if wakes[0].Line? then [n + 1] else [])
        + if Last(wakes[0]) then [] else Ids(wakes[1..], n + Count(wakes[0]))
  }

  function IdLines(ids: seq<nat>): seq<string> {
    if ids == [] then [] else ["id: " + Itoa(ids[0])] + IdLines(ids[1..])
  }

  predicate IsId(line: string) { line != "" && line[0] == 'i' }

  function OnlyIds(lines: seq<string>): seq<string> {
    if lines == [] then [] else (if IsId(lines[0]) then [lines[0]] else []) + OnlyIds(lines[1..])
  }

  lemma {:induction false} IdsCount(wakes: seq<Wake>, n: nat)
    ensures forall i :: 0 <= i < |Ids(wakes, n)| ==> Ids(wakes, n)[i] == n + 1 + i
    decreases |wakes|
  {
    if wakes != [] {
      IdsCount(wakes[1..], n + Count(wakes[0]));
    }
  }

  /** Log lines are numbered one after another, from one past those before. */
  lemma NumberedInOrder(wakes: seq<Wake>, n: nat)
    ensures forall i :: 0 <= i < |Ids(wakes, n)| ==> Ids(wakes, n)[i] == n + 1 + i
    ensures OnlyIds(Written(wakes, n)) == IdLines(Ids(wakes, n))
  {
    hide Written, Ids;
    IdsCount(wakes, n);
    WrittenIds(wakes, n);
  }

  lemma {:induction false} WrittenIds(wakes: seq<Wake>, n: nat)
    ensures OnlyIds(Written(wakes, n)) == IdLines(Ids(wakes, n))
    decreases |wakes|
  {
    hide Frame, Itoa, OnlyIds;
    if wakes == [] {
      NoIds();
    } else {
      var w := wakes[0];
      var k := n + Count(w);
      var rest := if Last(w) then [] else Written(wakes[1..], k);
      var ids := if Last(w) then [] else Ids(wakes[1..], k);
      WrittenIds(wakes[1..], k);
      NoIds();
      OnlyIdsAppend(Frame(w, k), rest);
      FrameIds(w, k);
      if w.Line? {
        assert ([n + 1] + ids)[1..] == ids;
      } else {
        assert [] + ids == ids;
      }
    }
  }

  lemma NoIds()
    ensures OnlyIds([]) == []
  {
  }

  lemma {:induction false} OnlyIdsAppend(a: seq<string>, b: seq<string>)
    ensures OnlyIds(a + b) == OnlyIds(a) + OnlyIds(b)
  {
    if a == [] {
      assert a + b == b;
    } else {
      assert (a + b)[1..] == a[1..] + b;
      OnlyIdsAppend(a[1..], b);
    }
  }

  lemma FrameIds(w: Wake, n: nat)
    ensures OnlyIds(Frame(w, n)) == if w.Line? then ["id: " + Itoa(n)] else []
  {
    hide Itoa, Quoted;
    match w
    case Line(text) =>
      var a, b, c := "id: " + Itoa(n), "event: log", "data: " + Quoted(text);
      assert [a, b, c, ""][1..] == [b, c, ""];
      assert a[0] == 'i' && b[0] == 'e' && c[0] == 'd';
      NotIds(b, c);
    case Heartbeat =>
      assert [": keepalive", ""][1..] == [""] && [""][1..] == [];
      assert ": keepalive"[0] == ':';
    case ReadError(text) =>
      var b, c := "event: error", "data: " + Quoted(text);
      assert b[0] == 'e' && c[0] == 'd';
      NotIds(b, c);
    case _ =>
  }

  lemma NotIds(b: string, c: string)
    requires !IsId(b) && !IsId(c)
    ensures OnlyIds([b, c, ""]) == []
  {
    assert [b, c, ""][1..] == [c, ""] && [c, ""][1..] == [""] && [""][1..] == [];
    assert OnlyIds([""]) == [] + OnlyIds([]);
    assert OnlyIds([c, ""]) == [] + OnlyIds([""]);
    assert OnlyIds([b, c, ""]) == [] + OnlyIds([c, ""]);
  }
}
