/** The MCP server's reader of a JSON-lines stream (`subprocess.rs`), and what the
    two ends agree on. */
module JsonlConsumer {
  import opened Text
  import opened Manifest
  import opened Wrappers
  import opened Jsonl

  /** A JSON value: the string under its `code` key, if any, and the rest. */
  datatype Value = Value(code: Option<string>, content: string)

  datatype Json = Json(render: Diagnostic -> string, parse: string -> Option<Value>)

  /** What a JSON printer and parser give: one line that starts and ends in a
      brace, the diagnostic's code read back, and no shorter text that parses. */
  ghost predicate Lawful(json: Json) {
    && (forall d :: '\n' !in json.render(d) && json.render(d) != "")
    && (forall d :: !IsWhitespace(json.render(d)[0]) && !IsWhitespace(json.render(d)[|json.render(d)| - 1]))
    && (forall d :: json.parse(json.render(d)).Some? && json.parse(json.render(d)).value.code == Some(d.code))
    && (forall d, n: nat :: 0 < n < |json.render(d)| ==> json.parse(json.render(d)[..n]).None?)
  }

  function Marker(line: string): Value { Value(Some(MCP_MALFORMED_JSONL), line) }

  /** The event of a non-blank line: its value, or a marker. */
  function EventOf(json: Json, line: string): Value {
    match json.parse(line) case Some(v) => v case None => Marker(line)
  }

  function EventsOf(json: Json, lines: seq<string>): seq<Value> {
    if lines == [] then []
    else
      var line := Trim(lines[0]);
      (if line == "" then [] else [EventOf(json, line)]) + EventsOf(json, lines[1..])
  }

  function Carries(v: Value, code: string): nat { if v.code == Some(code) then 1 else 0 }

  function CountOf(events: seq<Value>, code: string): nat {
    if events == [] then 0 else CountOf(events[..|events| - 1], code) + Carries(events[|events| - 1], code)
  }

  /** The code of the last event that has one. */
  function LastCode(events: seq<Value>): string {
    if events == [] then ""
    else if events[|events| - 1].code.Some? then events[|events| - 1].code.value
    else LastCode(events[..|events| - 1])
  }

  function TerminalOf(events: seq<Value>): string { if events == [] then MCP_NO_OUTPUT else LastCode(events) }

  /** Each code with the number of events that carry it. */
  ghost predicate Counted(summary: map<string, nat>, events: seq<Value>) {
    forall c :: (c in summary <==> CountOf(events, c) > 0) && (c in summary ==> summary[c] == CountOf(events, c))
  }

  function Noted(summary: map<string, nat>, event: Value): map<string, nat> {
    if event.code.None? then summary
    else summary[event.code.value := (if event.code.value in summary then summary[event.code.value] else 0) + 1]
  }

  lemma OneMore(summary: map<string, nat>, events: seq<Value>, event: Value)
    requires Counted(summary, events)
    ensures Counted(Noted(summary, event), events + [event])
    ensures LastCode(events + [event]) == if event.code.Some? then event.code.value else LastCode(events)
  {
    assert (events + [event])[..|events|] == events;
    forall c ensures CountOf(events + [event], c) == CountOf(events, c) + Carries(event, c) {}
  }

  lemma NothingCounted()
    ensures Counted(map[], []) && LastCode([]) == ""
  {
  }

  lemma EventsStep(json: Json, lines: seq<string>, i: nat)
    requires i < |lines|
    ensures var line := Trim(lines[i]);
            EventsOf(json, lines[i..]) == (if line == "" then [] else [EventOf(json, line)]) + EventsOf(json, lines[i + 1..])
  {
    hide Trim, EventOf;
    assert lines[i..][1..] == lines[i + 1..];
  }

  lemma NoLines(json: Json)
    ensures EventsOf(json, []) == []
  {
  }

  method ParseJsonl(json: Json, text: string) returns (terminal: string, events: seq<Value>, summary: map<string, nat>)
    ensures events == EventsOf(json, Lines(text))
    ensures terminal == TerminalOf(events)
    ensures Counted(summary, events)
  {
    hide Trim, Lines, MCP_MALFORMED_JSONL, MCP_NO_OUTPUT, Counted, LastCode, CountOf, EventsOf;
    NothingCounted();
    terminal, events, summary := "", [], map[];
    var lines := Lines(text);
    var i := 0;
    while i < |lines|
      invariant 0 <= i <= |lines|
      invariant EventsOf(json, lines) == events + EventsOf(json, lines[i..])
      invariant terminal == LastCode(events)
      invariant Counted(summary, events)
    {
      EventsStep(json, lines, i);
      var line := Trim(lines[i]);
      if line != "" {
        var parsed := json.parse(line);
        var event := if parsed.Some? then parsed.value else Marker(line);
        OneMore(summary, events, event);
        if event.code.Some? {
          var code := event.code.value;
          summary := summary[code := (if code in summary then summary[code] else 0) + 1];
          terminal := code;
        }
        events := events + [event];
      }
      i := i + 1;
    }
    assert lines[i..] == [];
    NoLines(json);
    if events == [] {
      terminal := MCP_NO_OUTPUT;
    }
  }

  /** How many lines hold more than white space. */
  function SpokenLines(lines: seq<string>): nat {
    if lines == [] then 0 else (if Trim(lines[0]) == "" then 0 else 1) + SpokenLines(lines[1..])
  }

  lemma {:induction false} EventsConcat(json: Json, a: seq<string>, b: seq<string>)
    ensures EventsOf(json, a + b) == EventsOf(json, a) + EventsOf(json, b)
  {
    hide Trim, EventOf;
    if a == [] {
      assert a + b == b;
    } else {
      assert (a + b)[1..] == a[1..] + b;
      EventsConcat(json, a[1..], b);
    }
  }

  lemma {:induction false} EachLineOnce(json: Json, lines: seq<string>)
    ensures |EventsOf(json, lines)| == SpokenLines(lines)
  {
    hide Trim, EventOf;
    if lines != [] {
      EachLineOnce(json, lines[1..]);
    }
  }

  lemma {:induction false} NothingSpoken(json: Json, lines: seq<string>)
    ensures EventsOf(json, lines) == [] <==> forall i :: 0 <= i < |lines| ==> Trim(lines[i]) == ""
  {
    hide Trim, EventOf;
    if lines != [] {
      NothingSpoken(json, lines[1..]);
      assert lines == [lines[0]] + lines[1..];
    }
  }

  /** Blank lines say nothing, wherever they stand; every other line is one event, and a
      stream without any shows that there was no output. */
  lemma BlankLinesSayNothing(json: Json, a: seq<string>, blank: string, b: seq<string>)
    requires Trim(blank) == ""
    ensures EventsOf(json, a + [blank] + b) == EventsOf(json, a + b)
    ensures |EventsOf(json, a)| == SpokenLines(a)
    ensures TerminalOf([]) == "MCP_NO_OUTPUT"
    ensures EventsOf(json, a) == [] <==> forall i :: 0 <= i < |a| ==> Trim(a[i]) == ""
  {
    assert MCP_NO_OUTPUT == "MCP_NO_OUTPUT";
    hide Trim, EventOf, MCP_NO_OUTPUT;
    EventsConcat(json, a, b);
    EventsConcat(json, a + [blank], b);
    EventsConcat(json, a, [blank]);
    NoLines(json);
    EachLineOnce(json, a);
    NothingSpoken(json, a);
    assert [blank][1..] == [];
  }

  // --------------------------------------------------------------- the wire

  /** One line per diagnostic, each with its newline. */
  function Wire(json: Json, stream: seq<Diagnostic>): string {
    if stream == [] then "" else json.render(stream[0]) + "\n" + Wire(json, stream[1..])
  }

  function Sent(json: Json, stream: seq<Diagnostic>): (r: seq<Value>)
    ensures |r| == |stream|
    ensures forall i :: 0 <= i < |stream| ==> r[i] == EventOf(json, json.render(stream[i]))
  {
    if stream == [] then [] else [EventOf(json, json.render(stream[0]))] + Sent(json, stream[1..])
  }

  lemma RenderedLine(json: Json, d: Diagnostic, rest: string)
    requires Lawful(json)
    ensures Lines(json.render(d) + "\n" + rest) == [json.render(d)] + Lines(rest)
    ensures Trim(json.render(d)) == json.render(d)
  {
    hide IsWhitespace;
    var r := json.render(d);
    ReadLineExact(r, rest);
    LineWithoutCr(r);
  }

  lemma LineWithoutCr(r: string)
    requires r != "" && !IsWhitespace(r[|r| - 1])
    ensures StripCr(r) == r
  {
  }

  lemma {:induction false} WireEvents(json: Json, stream: seq<Diagnostic>, rest: string)
    requires Lawful(json)
    ensures EventsOf(json, Lines(Wire(json, stream) + rest)) == Sent(json, stream) + EventsOf(json, Lines(rest))
    decreases |stream|
  {
    hide Lawful, Lines, Trim, EventOf;
    if stream == [] {
      assert Wire(json, stream) + rest == rest;
    } else {
      var tail := Wire(json, stream[1..]) + rest;
      assert Wire(json, stream) + rest == json.render(stream[0]) + "\n" + tail;
      RenderedLine(json, stream[0], tail);
      NotEmpty(json, stream[0]);
      WireEvents(json, stream[1..], rest);
      var all := [json.render(stream[0])] + Lines(tail);
      assert all[1..] == Lines(tail) && all[0] == json.render(stream[0]);
    }
  }

  lemma NotEmpty(json: Json, d: Diagnostic)
    requires Lawful(json)
    ensures json.render(d) != "" && EventOf(json, json.render(d)).code == Some(d.code)
  {
  }

  function DiagnosticCount(stream: seq<Diagnostic>, code: string): nat {
    if stream == [] then 0 else DiagnosticCount(stream[..|stream| - 1], code) + if stream[|stream| - 1].code == code then 1 else 0
  }

  lemma {:induction false} SentCodes(json: Json, stream: seq<Diagnostic>, code: string)
    requires Lawful(json)
    ensures CountOf(Sent(json, stream), code) == DiagnosticCount(stream, code)
    ensures stream != [] ==> LastCode(Sent(json, stream)) == stream[|stream| - 1].code
    decreases |stream|
  {
    hide Lawful, EventOf, Sent;
    if stream != [] {
      var init := stream[..|stream| - 1];
      assert Sent(json, stream)[..|stream| - 1] == Sent(json, init);
      NotEmpty(json, stream[|stream| - 1]);
      SentCodes(json, init, code);
    } else {
      assert Sent(json, stream) == [];
    }
  }

  // ------------------------------------------------------------ end to end

  /** The field that a host reads. */
  predicate Success(terminal: string, exit: int) { exit == EXIT_SUCCESS && EndsWith(terminal, OK_SUFFIX) }

  /** What the producer writes is what the consumer reports: its terminal event,
      every event once and in order, each code as often as it was emitted; and
      `success` holds exactly when the exit code is 0. */
  lemma EndToEnd(json: Json, s: Situation, stream: seq<Diagnostic>)
    requires Lawful(json) && FindingsNotTerminal(s) && Produced(s, stream)
    ensures var events := EventsOf(json, Lines(Wire(json, stream)));
            && |events| == |stream|
            && (forall i :: 0 <= i < |stream| ==> events[i].code == Some(stream[i].code))
            && TerminalOf(events) == CodeOf(VerdictOf(s))
            && (forall code :: CountOf(events, code) == DiagnosticCount(stream, code))
            && (Success(TerminalOf(events), ExitOf(VerdictOf(s))) <==> ExitOf(VerdictOf(s)) == EXIT_SUCCESS)
  {
    hide Lawful, Lines, Reports, FindingsNotTerminal, VerdictOf, EventOf, EndsWith, CodeOf, Wire, LastCode, CountOf;
    WireEvents(json, stream, "");
    assert Wire(json, stream) + "" == Wire(json, stream);
    NothingLeft(json);
    assert Sent(json, stream) + [] == Sent(json, stream);
    forall code ensures CountOf(Sent(json, stream), code) == DiagnosticCount(stream, code) { SentCodes(json, stream, code); }
    SentCodes(json, stream, "");
    forall i | 0 <= i < |stream| ensures Sent(json, stream)[i].code == Some(stream[i].code) { NotEmpty(json, stream[i]); }
    TerminalMatchesExit(s, stream);
  }

  lemma NothingLeft(json: Json)
    ensures EventsOf(json, Lines("")) == []
  {
  }

  // -------------------------------------------------------------- truncation

  lemma {:induction false} TrimPrefix(s: string)
    requires s != "" && !IsWhitespace(s[0])
    ensures TrimStart(s) == s
    ensures TrimEnd(s) != "" && |TrimEnd(s)| <= |s| && TrimEnd(s) == s[..|TrimEnd(s)|]
    decreases |s|
  {
    hide IsWhitespace;
    if IsWhitespace(s[|s| - 1]) {
      TrimPrefix(s[..|s| - 1]);
    }
  }

  lemma {:induction false} UnbrokenLine(s: string)
    requires '\n' !in s && s != ""
    ensures Lines(s) == [s]
  {
    NoNewlineNoLine(s);
  }

  lemma {:induction false} NoNewlineNoLine(s: string)
    requires '\n' !in s
    ensures ReadLine(s).None?
  {
    if s != "" {
      NoNewlineNoLine(s[1..]);
    }
  }

  /** A line cut short is one malformed event. */
  lemma CutLine(json: Json, d: Diagnostic, n: nat)
    requires Lawful(json) && 0 < n < |json.render(d)|
    ensures var events := EventsOf(json, Lines(json.render(d)[..n]));
            |events| == 1 && events[0].code == Some(MCP_MALFORMED_JSONL)
  {
    hide IsWhitespace, MCP_MALFORMED_JSONL;
    var cut := json.render(d)[..n];
    UnbrokenLine(cut);
    TrimPrefix(cut);
    assert Trim(cut) == json.render(d)[..|Trim(cut)|];
  }

  lemma UncutLine(json: Json, d: Diagnostic)
    requires Lawful(json)
    ensures EventsOf(json, Lines(json.render(d))) == [EventOf(json, json.render(d))]
  {
    hide IsWhitespace;
    UnbrokenLine(json.render(d));
    TrimPrefix(json.render(d));
    RenderedLine(json, d, "");
  }

  lemma {:induction false} LastOfConcat(a: seq<Value>, b: seq<Value>)
    requires b != [] ==> b[|b| - 1].code.Some?
    ensures LastCode(a + b) == if b == [] then LastCode(a) else b[|b| - 1].code.value
  {
    if b == [] { assert a + b == a; }
  }

  /** A prefix of the wire: some whole lines, then part of the next one. */
  lemma {:induction false} CutWire(json: Json, stream: seq<Diagnostic>, n: nat) returns (k: nat, m: nat)
    requires n < |Wire(json, stream)|
    ensures k < |stream| && m <= |json.render(stream[k])| && |Wire(json, stream[..k])| + m == n
    ensures Wire(json, stream)[..n] == Wire(json, stream[..k]) + json.render(stream[k])[..m]
    ensures n < |Wire(json, stream)| - 1 ==> k < |stream| - 1 || m < |json.render(stream[k])|
    decreases |stream|
  {
    var line := json.render(stream[0]);
    var rest := Wire(json, stream[1..]);
    assert Wire(json, stream) == line + "\n" + rest;
    if n <= |line| {
      k, m := 0, n;
      assert stream[..0] == [];
      assert Wire(json, stream)[..n] == line[..n];
      if |stream| == 1 { assert rest == ""; }
    } else {
      var more := n - |line| - 1;
      k, m := CutWire(json, stream[1..], more);
      k := k + 1;
      assert stream[..k][1..] == stream[1..][..k - 1] && stream[..k][0] == stream[0];
      assert Wire(json, stream)[..n] == line + "\n" + rest[..more];
    }
  }

  /** A stream that was cut anywhere before its last byte of content shows no
      terminal event, so the consumer never reports success for it. */
  lemma TruncationIsSeen(json: Json, stream: seq<Diagnostic>, n: nat, exit: int)
    requires Lawful(json) && OneTerminal(stream) && n < |Wire(json, stream)| - 1
    ensures var terminal := TerminalOf(EventsOf(json, Lines(Wire(json, stream)[..n])));
            !TerminalCode(terminal) && !Success(terminal, exit)
  {
    hide Lawful, Lines, EventOf, EventsOf, Wire, LastCode, EndsWith, MCP_NO_OUTPUT, MCP_MALFORMED_JSONL;
    var k, m := CutWire(json, stream, n);
    var part := json.render(stream[k])[..m];
    WireEvents(json, stream[..k], part);
    var events := EventsOf(json, Lines(part));
    PartialLine(json, stream[k], m);
    LastOfConcat(Sent(json, stream[..k]), events);
    SentCodes(json, stream[..k], "");
    Codes();
    NotTerminalBefore(stream, k);
  }

  lemma NotTerminalBefore(stream: seq<Diagnostic>, k: nat)
    requires OneTerminal(stream) && k < |stream|
    ensures k > 0 ==> !TerminalCode(stream[..k][k - 1].code)
    ensures k < |stream| - 1 ==> !TerminalCode(stream[k].code)
  {
  }

  lemma PartialLine(json: Json, d: Diagnostic, m: nat)
    requires Lawful(json) && m <= |json.render(d)|
    ensures var events := EventsOf(json, Lines(json.render(d)[..m]));
            if m == 0 then events == []
            else |events| == 1 && events[0].code == Some(if m < |json.render(d)| then MCP_MALFORMED_JSONL else d.code)
  {
    hide Lines, MCP_MALFORMED_JSONL, EventsOf;
    if m == 0 {
      NothingLeft(json);
      assert json.render(d)[..m] == "";
    } else if m < |json.render(d)| {
      CutLine(json, d, m);
    } else {
      assert json.render(d)[..m] == json.render(d);
      UncutLine(json, d);
      NotEmpty(json, d);
    }
  }

  // ------------------------------------------------- the malformed marker

  /** The marker of a malformed line does not stick: the terminal is the marker
      exactly when no later event has a code of its own. */
  lemma {:induction false} MarkerLasts(before: seq<Value>, line: string, after: seq<Value>)
    requires forall v :: v in after ==> v.code != Some(MCP_MALFORMED_JSONL)
    ensures LastCode(before + [Marker(line)] + after) == MCP_MALFORMED_JSONL <==> forall v :: v in after ==> v.code == None
    decreases |after|
  {
    hide MCP_MALFORMED_JSONL;
    var all := before + [Marker(line)] + after;
    if after == [] {
      assert all[|all| - 1] == Marker(line);
    } else {
      var init := after[..|after| - 1];
      assert after == init + [after[|after| - 1]];
      assert all[..|all| - 1] == before + [Marker(line)] + init && all[|all| - 1] == after[|after| - 1];
      MarkerLasts(before, line, init);
    }
  }
}
