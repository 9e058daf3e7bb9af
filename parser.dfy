/** The line parser and log splitter of api/src/services/parser.ts: one
    event per line of the form
      TS SRC_IP METHOD HOST PATH STATUS BYTES
    with the line split on whitespace. */
module Parser {

  import opened Wrappers
  import opened JsText

  /** One parsed access-log line. `raw` is the line as it was given, before
      trimming. */
  datatype LogEvent = LogEvent(
    ts: string,
    srcIp: string,
    destHost: string,
    httpMethod: string,
    path: string,
    status: nat,
    bytes: nat,
    raw: string)

  /** An HTTP error response, as both the anomaly rule and the summary's
      error rate count it. */
  predicate IsError(e: LogEvent) {
    e.status >= 400
  }

  /** The source address of each event, in order. */
  function SrcIps(events: seq<LogEvent>): seq<string> {
    seq(|events|, i requires 0 <= i < |events| => events[i].srcIp)
  }

  /** The request path of each event, in order. */
  function Paths(events: seq<LogEvent>): seq<string> {
    seq(|events|, i requires 0 <= i < |events| => events[i].path)
  }

  lemma ProjectionsAppend(events: seq<LogEvent>, e: LogEvent)
    ensures SrcIps(events + [e]) == SrcIps(events) + [e.srcIp]
    ensures Paths(events + [e]) == Paths(events) + [e.path]
  {
  }

  lemma ProjectionsStep(events: seq<LogEvent>, i: nat)
    requires i < |events|
    ensures SrcIps(events[..i + 1]) == SrcIps(events[..i]) + [events[i].srcIp]
    ensures Paths(events[..i + 1]) == Paths(events[..i]) + [events[i].path]
  {
    assert events[..i + 1] == events[..i] + [events[i]];
    ProjectionsAppend(events[..i], events[i]);
  }

  /** The error responses among `events`, in input order. */
  function ErrorEvents(events: seq<LogEvent>): (r: seq<LogEvent>)
    ensures |r| <= |events|
  {
    if events == [] then []
    else
      var e := events[|events| - 1];
      ErrorEvents(events[..|events| - 1]) + if IsError(e) then [e] else []
  }

  /** `ErrorEvents` is the filter of `IsError`: it keeps a single event
      exactly when it is an error, and distributes over concatenation. */
  lemma ErrorEventsOfOne(e: LogEvent)
    ensures ErrorEvents([e]) == if IsError(e) then [e] else []
  {
    assert [e][..0] == [];
  }

  /** One more event adds one error exactly when its status is 400 or more. */
  lemma ErrorEventsStep(events: seq<LogEvent>, i: nat)
    requires i < |events|
    ensures |ErrorEvents(events[..i + 1])| == |ErrorEvents(events[..i])| + if IsError(events[i]) then 1 else 0
  {
    assert events[..i + 1] == events[..i] + [events[i]];
    ErrorEventsAppend(events[..i], [events[i]]);
    ErrorEventsOfOne(events[i]);
  }

  lemma {:induction false} ErrorEventsAppend(a: seq<LogEvent>, b: seq<LogEvent>)
    ensures ErrorEvents(a + b) == ErrorEvents(a) + ErrorEvents(b)
  {
    if b == [] {
      assert a + b == a;
    } else {
      var init := b[..|b| - 1];
      assert (a + b)[..|a + b| - 1] == a + init;
      assert (a + b)[|a + b| - 1] == b[|b| - 1];
      ErrorEventsAppend(a, init);
    }
  }

  /** An event is among the errors exactly when it is an event and an error. */
  lemma {:induction false} ErrorEventsMembers(events: seq<LogEvent>)
    ensures forall e :: e in ErrorEvents(events) <==> e in events && IsError(e)
  {
    if events != [] {
      var init := events[..|events| - 1];
      assert events == init + [events[|events| - 1]];
      ErrorEventsMembers(init);
    }
  }

  // ---------------------------------------------------------------------
  // parseLine
  // ---------------------------------------------------------------------

  /** `parseLine`: `None` stands for the `null` the source returns. */
  function ParseLine(line: string): (r: Option<LogEvent>)
    ensures r.Some? ==> r.value.raw == line
  {
    var parts := Tokens(line);
    if |parts| < 7 then None
    else
      var ts, srcIp, httpMethod, destHost, path := parts[0], parts[1], parts[2], parts[3], parts[4];
      var status, bytes := ToNumber(parts[5]), ToNumber(parts[6]);
      if ts == "" || srcIp == "" || httpMethod == "" || destHost == "" || path == "" then None
      else if status.None? || bytes.None? then None
      else Some(LogEvent(ts, srcIp, destHost, httpMethod, path, status.value, bytes.value, line))
  }

  /** A line with fewer than seven whitespace-separated fields is rejected. */
  lemma ParseLineRejectsShort(line: string)
    requires |Tokens(line)| < 7
    ensures ParseLine(line) == None
  {
  }

  /** A line is accepted exactly when it has at least seven fields and the
      sixth and seventh are numbers; the check for empty fields never
      rejects, because a trimmed non-empty line has no empty field. */
  lemma ParseLineAccepts(line: string)
    ensures ParseLine(line).Some? <==>
      (|Tokens(line)| >= 7 && ToNumber(Tokens(line)[5]).Some? && ToNumber(Tokens(line)[6]).Some?)
  {
    var parts := Tokens(line);
    if |parts| >= 7 {
      TrimParts(line);
      SplitTrimmedIsWords(Trim(line));
      assert IsWord(parts[0]) && IsWord(parts[1]) && IsWord(parts[2]);
      assert IsWord(parts[3]) && IsWord(parts[4]);
    }
  }

  /** The fields of an accepted line, in line order: timestamp, source,
      method, host, path, status, bytes; `raw` is the untrimmed line. */
  lemma ParseLineFields(line: string)
    requires ParseLine(line).Some?
    ensures var e, parts := ParseLine(line).value, Tokens(line);
      && e.ts == parts[0] && e.srcIp == parts[1] && e.httpMethod == parts[2]
      && e.destHost == parts[3] && e.path == parts[4]
      && Some(e.status) == ToNumber(parts[5]) && Some(e.bytes) == ToNumber(parts[6])
      && e.raw == line
  {
  }

  /** A blank or whitespace-only line is rejected. */
  lemma BlankLineRejected(line: string)
    requires AllSpace(line)
    ensures ParseLine(line) == None
  {
    TrimParts(line);
    assert Tokens(line) == [""];
  }

  /** Fields after the seventh are ignored: appending whitespace and another
      field to an accepted line changes only `raw`. */
  lemma ParseLineIgnoresExtraField(line: string, sp: string, w: string)
    requires ParseLine(line).Some?
    requires sp != [] && AllSpace(sp) && IsWord(w)
    ensures ParseLine(line + sp + w) == Some(ParseLine(line).value.(raw := line + sp + w))
  {
    var parts := Tokens(line);
    ParseLineAccepts(line);
    assert !AllSpace(line) by {
      if AllSpace(line) { BlankLineRejected(line); }
    }
    TokensAppendWord(line, sp, w);
    var longer := Tokens(line + sp + w);
    assert longer[..7] == parts[..7];
    ParseLineAccepts(line + sp + w);
  }

  /** Seven or more fields joined by single spaces, the sixth and seventh
      decimal numbers, parse to an event with exactly those fields. */
  lemma ParseLineOfFields(fields: seq<string>)
    requires |fields| >= 7
    requires forall i :: 0 <= i < |fields| ==> IsWord(fields[i])
    requires ToNumber(fields[5]).Some? && ToNumber(fields[6]).Some?
    ensures var line := JoinWords(fields);
      ParseLine(line) == Some(LogEvent(fields[0], fields[1], fields[3], fields[2], fields[4],
                                       ToNumber(fields[5]).value, ToNumber(fields[6]).value, line))
  {
    var line := JoinWords(fields);
    SplitJoinWords(fields);
    TrimOfTrimmed(line);
    assert Tokens(line) == fields;
  }

  // ---------------------------------------------------------------------
  // parseLog
  // ---------------------------------------------------------------------

  /** `!line.trim()` */
  predicate IsBlank(line: string) {
    Trim(line) == ""
  }

  /** The events `parseLog` collects from `lines`: for each line in order,
      nothing when it is blank or rejected, else its event. */
  function CollectEvents(lines: seq<string>): seq<LogEvent> {
    if lines == [] then []
    else
      var line := lines[|lines| - 1];
      var last := if IsBlank(line) then [] else match ParseLine(line) {
        case None => []
        case Some(e) => [e]
      };
      CollectEvents(lines[..|lines| - 1]) + last
  }

  /** `parseLog`, with the text split on `\r?\n` as `SplitLines` does. */
  method ParseLog(content: string) returns (events: seq<LogEvent>)
    ensures events == CollectEvents(SplitLines(content))
  {
    var lines := SplitLines(content);
    events := [];
    for i := 0 to |lines|
      invariant events == CollectEvents(lines[..i])
    {
      var line := lines[i];
      assert lines[..i + 1][..i] == lines[..i];
      if IsBlank(line) {
        continue;
      }
      var evt := ParseLine(line);
      if evt.Some? {
        events := events + [evt.value];
      }
    }
    assert lines[..|lines|] == lines;
  }

  /** Collecting is line by line: the events of two runs of lines are the
      events of the first followed by those of the second. */
  lemma {:induction false} CollectEventsAppend(a: seq<string>, b: seq<string>)
    ensures CollectEvents(a + b) == CollectEvents(a) + CollectEvents(b)
    decreases |b|
  {
    if b != [] {
      var b' := b[..|b| - 1];
      assert (a + b)[..|a + b| - 1] == a + b';
      assert (a + b)[|a + b| - 1] == b[|b| - 1];
      CollectEventsAppend(a, b');
    } else {
      assert a + b == a;
    }
  }

  /** One line contributes its event when it is not blank and parses, and
      nothing otherwise; blank lines would be rejected by `ParseLine` in any
      case. */
  lemma CollectEventsOfLine(line: string)
    ensures CollectEvents([line]) == match ParseLine(line) {
      case None => []
      case Some(e) => [e]
    }
  {
    assert [line][..0] == [];
    if IsBlank(line) {
      TrimParts(line);
      BlankLineRejected(line);
    }
  }

  function NonBlankCount(lines: seq<string>): nat {
    if lines == [] then 0
    else NonBlankCount(lines[..|lines| - 1]) + if IsBlank(lines[|lines| - 1]) then 0 else 1
  }

  /** There are no more events than non-blank lines. */
  lemma {:induction false} CollectEventsBound(lines: seq<string>)
    ensures |CollectEvents(lines)| <= NonBlankCount(lines)
  {
    if lines != [] {
      CollectEventsBound(lines[..|lines| - 1]);
    }
  }

  /** Every collected event comes from a non-blank line of the input that
      parses to exactly that event. */
  lemma {:induction false} CollectEventsSound(lines: seq<string>)
    ensures forall e :: e in CollectEvents(lines) ==>
      e.raw in lines && !IsBlank(e.raw) && ParseLine(e.raw) == Some(e)
  {
    if lines != [] {
      var init := lines[..|lines| - 1];
      CollectEventsSound(init);
      forall e | e in CollectEvents(lines)
        ensures e.raw in lines && !IsBlank(e.raw) && ParseLine(e.raw) == Some(e)
      {
        if e in CollectEvents(init) {
          assert e.raw in init;
        } else {
          var line := lines[|lines| - 1];
          assert ParseLine(line) == Some(e);
        }
      }
    }
  }

  /** Every non-blank line that parses has its event collected. */
  lemma {:induction false} CollectEventsComplete(lines: seq<string>, i: nat)
    requires i < |lines| && ParseLine(lines[i]).Some?
    ensures ParseLine(lines[i]).value in CollectEvents(lines)
  {
    assert lines == lines[..i] + [lines[i]] + lines[i + 1..];
    CollectEventsAppend(lines[..i] + [lines[i]], lines[i + 1..]);
    CollectEventsAppend(lines[..i], [lines[i]]);
    CollectEventsOfLine(lines[i]);
  }

  /** When every line parses, there is one event per line. */
  lemma {:induction false} CollectEventsAllAccepted(lines: seq<string>)
    requires forall i :: 0 <= i < |lines| ==> ParseLine(lines[i]).Some?
    ensures |CollectEvents(lines)| == |lines|
  {
    if lines != [] {
      var line := lines[|lines| - 1];
      assert ParseLine(line).Some?;
      if IsBlank(line) {
        TrimParts(line);
        BlankLineRejected(line);
      }
      CollectEventsAllAccepted(lines[..|lines| - 1]);
    }
  }

  // ---------------------------------------------------------------------
  // The lines of parser.test.ts
  // ---------------------------------------------------------------------

  /** The test's valid line,
      "2026-01-29T10:00:00Z 10.0.0.1 GET example.com /login 200 512",
      as its fields joined by single spaces. */
  const ValidFields: seq<string> :=
    ["2026-01-29T10:00:00Z", "10.0.0.1", "GET", "example.com", "/login", "200", "512"]
  const ValidLine: string := JoinWords(ValidFields)

  /** The line the test expects to be rejected,
      "not-a-timestamp 10.0.0.1 GET example.com /login 200 512". */
  const NotATimestampFields: seq<string> :=
    ["not-a-timestamp", "10.0.0.1", "GET", "example.com", "/login", "200", "512"]
  const NotATimestampLine: string := JoinWords(NotATimestampFields)

  /** The test's log: the three lines joined with "\n". */
  const TestLog: string := JoinLines([ValidLine, NotATimestampLine, ValidLine])

  lemma DecimalFields()
    ensures ToNumber("200") == Some(200) && ToNumber("512") == Some(512)
  {
    assert NumberToString(200) == "200";
    assert NumberToString(512) == "512";
    NumberRoundTrip(200);
    NumberRoundTrip(512);
  }

  lemma ValidFieldsAreWords()
    ensures forall i :: 0 <= i < |ValidFields| ==> IsWord(ValidFields[i])
  {
  }

  lemma NotATimestampFieldsAreWords()
    ensures forall i :: 0 <= i < |NotATimestampFields| ==> IsWord(NotATimestampFields[i])
  {
  }

  /** The valid test line parses with source "10.0.0.1" and status 200. */
  lemma ValidLineParses()
    ensures ParseLine(ValidLine).Some?
    ensures ParseLine(ValidLine).value.srcIp == "10.0.0.1"
    ensures ParseLine(ValidLine).value.status == 200
  {
    ValidFieldsAreWords();
    DecimalFields();
    ParseLineOfFields(ValidFields);
  }

  /** The line the test expects to be rejected is accepted: the timestamp
      field is never validated. */
  lemma NotATimestampLineAccepted()
    ensures ParseLine(NotATimestampLine).Some?
    ensures ParseLine(NotATimestampLine).value.ts == "not-a-timestamp"
  {
    NotATimestampFieldsAreWords();
    DecimalFields();
    ParseLineOfFields(NotATimestampFields);
  }

  /** Three lines joined with "\n" split back into those lines. */
  lemma SplitThreeLines(a: string, b: string, c: string)
    requires '\n' !in a && '\n' !in b && '\n' !in c
    requires a != [] && a[|a| - 1] != '\r'
    requires b != [] && b[|b| - 1] != '\r'
    ensures SplitLines(JoinLines([a, b, c])) == [a, b, c]
  {
    SplitJoinLines([a, b, c]);
  }

  lemma TestLogLines()
    ensures SplitLines(TestLog) == [ValidLine, NotATimestampLine, ValidLine]
  {
    ValidFieldsAreWords();
    NotATimestampFieldsAreWords();
    JoinedWordsAreOneLine(ValidFields);
    JoinedWordsAreOneLine(NotATimestampFields);
    SplitThreeLines(ValidLine, NotATimestampLine, ValidLine);
  }

  /** A log of three lines that all parse gives three events. */
  lemma CollectEventsOfThreeLines(content: string, a: string, b: string, c: string)
    requires SplitLines(content) == [a, b, c]
    requires ParseLine(a).Some? && ParseLine(b).Some? && ParseLine(c).Some?
    ensures |CollectEvents(SplitLines(content))| == 3
  {
    CollectEventsAllAccepted([a, b, c]);
  }

  /** The test's three-line log gives three events, where the test expects
      two. */
  lemma TestLogGivesThreeEvents()
    ensures |CollectEvents(SplitLines(TestLog))| == 3
  {
    TestLogLines();
    ValidLineParses();
    NotATimestampLineAccepted();
    CollectEventsOfThreeLines(TestLog, ValidLine, NotATimestampLine, ValidLine);
  }
}
