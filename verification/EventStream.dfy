/** The events of a Server-Sent Events stream (client/stream.go), against the
    processing model of sections 9.2.5 and 9.2.6 of the WHATWG HTML Standard. */
module EventStream {
  import opened EventLines
  import opened Sql

  datatype Event = Event(id: string, name: string, retry: nat, data: string)

  /** What the callback answers, knowing the events it has been given. */
  datatype Verdict = Continue | Stop | Fail

  datatype Outcome = Ended | Stopped | Failed | TooLong

  // ---- the standard's model ----

  datatype Buffers = Buffers(data: string, name: string, id: string, retry: nat)

  const Empty := Buffers("", "", "", 0)

  datatype Stream = Stream(buffers: Buffers, events: seq<Event>)

  predicate IsDigits(s: string) { s != "" && forall i :: 0 <= i < |s| ==> '0' <= s[i] <= '9' }

  function Decimal(s: string): nat
    requires forall i :: 0 <= i < |s| ==> '0' <= s[i] <= '9'
  {
    if s == "" then 0 else Decimal(s[..|s| - 1]) * 10 + (s[|s| - 1] as nat - '0' as nat)
  }

  /** The largest reconnection time an int holds; a longer one is ignored. */
  const MaxInt := 0x7FFF_FFFF_FFFF_FFFF

  function Colon(line: string): (i: nat)
    ensures i <= |line| && (i < |line| ==> line[i] == ':') && forall k :: 0 <= k < i ==> line[k] != ':'
  {
    if line == "" || line[0] == ':' then 0 else 1 + Colon(line[1..])
  }

  /** One line of the stream, the event it dispatches included. */
  function Process(s: Stream, line: string): Stream {
    var b := s.buffers;
    if line == "" then
      var cleared := b.(data := "", name := "");
      if b.data == "" then Stream(cleared, s.events)
      else Stream(cleared, s.events + [Event(b.id, b.name, b.retry, b.data[..|b.data| - 1])])
    else if line[0] == ':' then s
    else
      var i := Colon(line);
      var after := if i < |line| then line[i + 1..] else "";
      var value := if after != "" && after[0] == ' ' then after[1..] else after;
      Stream(Field(b, line[..i], value), s.events)
  }

  function Field(b: Buffers, field: string, value: string): Buffers {
    if field == "data" then b.(data := b.data + value + "\n")
    else if field == "event" then b.(name := value)
    else if field == "id" then (if '\0' in value then b else b.(id := value))
    else if field == "retry" then (if IsDigits(value) && Decimal(value) <= MaxInt then b.(retry := Decimal(value)) else b)
    else b
  }

  function Interpret(lines: seq<string>): Stream {
    if lines == [] then Stream(Empty, []) else Process(Interpret(lines[..|lines| - 1]), lines[|lines| - 1])
  }

  const ByteOrderMark := [0xEF as char, 0xBB as char, 0xBF as char]

  predicate Marked(s: string) { |s| >= 3 && s[..3] == ByteOrderMark }

  function Unmarked(s: string): string { if Marked(s) then s[3..] else s }

  /** The events the standard has a whole body dispatch; one still pending at its end
      is discarded. */
  function Events(body: string): seq<Event> { Interpret(Lines(Unmarked(body), "")).events }

  // ---- the lines of a marked body ----

  function UnmarkFirst(lines: seq<string>): seq<string> {
    if lines == [] then [] else [Unmarked(lines[0])] + lines[1..]
  }

  /** The lines of a stream after its first one. */
  function LaterLines(s: string): seq<string> {
    if Terminator(s) == |s| then [] else Lines(AfterFirst(s), "")
  }

  lemma FirstAndLater(s: string)
    requires s != ""
    ensures Lines(s, "") == [s[..Terminator(s)]] + LaterLines(s)
  {
    LinesFromTerminator(s, "");
    assert "" + s == s && "" + s[..Terminator(s)] == s[..Terminator(s)] && s[..|s|] == s;
  }

  lemma MarkKeepsLater(body: string)
    requires Marked(body)
    ensures LaterLines(body) == LaterLines(body[3..]) && body[..Terminator(body)][3..] == body[3..][..Terminator(body[3..])]
    ensures Marked(body[..Terminator(body)])
  {
    var i, rest := Terminator(body), body[3..];
    MarkIsNoTerminator(body);
    assert body[..i][..3] == body[..3];
    if i < |body| {
      assert rest[i - 3] == body[i] && (i + 1 < |body| ==> rest[i - 2] == body[i + 1]);
      assert AfterFirst(body) == AfterFirst(rest);
    }
  }

  lemma MarkOfMarked(body: string)
    requires Marked(body)
    ensures UnmarkFirst(Lines(body, "")) == if body[3..] == "" then [""] else Lines(body[3..], "")
  {
    var rest := body[3..];
    FirstAndLater(body);
    MarkKeepsLater(body);
    if rest != "" { FirstAndLater(rest); }
  }

  lemma MarkOfUnmarked(body: string)
    requires !Marked(body)
    ensures UnmarkFirst(Lines(body, "")) == Lines(body, "")
  {
    if body != "" {
      var first := body[..Terminator(body)];
      FirstAndLater(body);
      assert |first| >= 3 ==> first[..3] == body[..3];
      assert Unmarked(first) == first;
    }
  }

  /** Dropping the mark from the first line or from the body dispatches the same. */
  lemma MarkOfFirstLine(body: string)
    ensures Interpret(UnmarkFirst(Lines(body, ""))).events == Events(body)
  {
    if Marked(body) {
      MarkOfMarked(body);
      OneLine(body[3..]);
    } else {
      MarkOfUnmarked(body);
    }
  }

  lemma MarkIsNoTerminator(body: string)
    requires Marked(body)
    ensures Terminator(body) == 3 + Terminator(body[3..])
  {
    assert body == body[..3] + body[3..];
    assert Terminator(body[..3]) == 3;
    TerminatorOfPrefix(body[..3], body[3..]);
  }

  /** A lone blank line dispatches nothing. */
  lemma OneLine(rest: string)
    ensures Interpret([""]).events == [] && (rest == "" ==> Interpret(Lines(rest, "")).events == [])
  {
    assert [""][..0] == [];
  }

  lemma {:induction false} EventsGrow(lines: seq<string>, n: nat)
    requires n <= |lines|
    ensures Interpret(lines[..n]).events <= Interpret(lines).events
    decreases |lines|
  {
    if n < |lines| {
      var rest := lines[..|lines| - 1];
      EventsGrow(rest, n);
      assert rest[..n] == lines[..n];
    } else {
      assert lines[..n] == lines;
    }
  }

  // ---- the parser ----

  method IsAllDigits(s: string) returns (digits: bool)
    ensures digits <==> IsDigits(s)
  {
    if s == "" { return false; }
    for i := 0 to |s|
      invariant forall k :: 0 <= k < i ==> '0' <= s[k] <= '9'
    {
      if s[i] < '0' || s[i] > '9' { return false; }
    }
    return true;
  }

  function Join(lines: seq<string>): string {
    if lines == [] then "" else if |lines| == 1 then lines[0] else Join(lines[..|lines| - 1]) + "\n" + lines[|lines| - 1]
  }

  function DataOf(lines: seq<string>): string {
    if lines == [] then "" else DataOf(lines[..|lines| - 1]) + lines[|lines| - 1] + "\n"
  }

  /** What the parser holds, in the standard's buffers. */
  function Holding(dataLines: seq<string>, eventType: string, lastEventID: string, retry: nat, delivered: seq<Event>): Stream {
    Stream(Buffers(DataOf(dataLines), eventType, lastEventID, retry), delivered)
  }

  lemma BlankLine(dataLines: seq<string>, eventType: string, lastEventID: string, retry: nat, delivered: seq<Event>)
    ensures
      var event := Event(lastEventID, eventType, retry, Join(dataLines));
      Process(Holding(dataLines, eventType, lastEventID, retry, delivered), "") ==
        Holding([], "", lastEventID, retry, if dataLines == [] then delivered else delivered + [event])
  {
    if dataLines != [] { JoinIsData(dataLines); }
  }

  /** The data lines joined are the standard's data buffer without its last LF. */
  lemma {:induction false} JoinIsData(lines: seq<string>)
    requires lines != []
    ensures DataOf(lines) != "" && Join(lines) == DataOf(lines)[..|DataOf(lines)| - 1]
  {
    var n := |lines| - 1;
    if n == 0 {
      assert lines[..0] == [] && DataOf(lines) == "" + lines[0] + "\n" == lines[0] + "\n";
    } else {
      JoinIsData(lines[..n]);
      var data := DataOf(lines[..n]);
      LastIsLf(lines[..n]);
      assert data == data[..|data| - 1] + "\n";
      assert DataOf(lines) == data + lines[n] + "\n";
    }
  }

  lemma LastIsLf(lines: seq<string>)
    requires lines != []
    ensures DataOf(lines) != "" && DataOf(lines)[|DataOf(lines)| - 1] == '\n'
  {
  }

  /** Every line fits the scanner's buffer. */
  predicate AllFit(s: string)
    decreases |s|
  {
    s == "" || (FirstFits(s) && |AfterFirst(s)| < |s| && AllFit(AfterFirst(s)))
  }

  /** The events given to a callback that let every one but the last go on. */
  predicate GoneOn(callback: seq<Event> -> Verdict, events: seq<Event>, n: nat)
    requires n <= |events|
  {
    forall k :: 0 < k <= n ==> callback(events[..k]) == Continue
  }

  /** The events delivered are the standard's, up to where the stream ends, the
      callback stops it or a line does not fit, however the body is read. */
  method ParseStream(body: string, cuts: nat -> nat, endsWithLast: bool, callback: seq<Event> -> Verdict)
    returns (delivered: seq<Event>, outcome: Outcome)
    ensures delivered <= Events(body)
    ensures outcome == Ended ==> delivered == Events(body) && GoneOn(callback, delivered, |delivered|)
    ensures outcome == Stopped || outcome == Failed ==>
      delivered != [] && GoneOn(callback, delivered, |delivered| - 1) && callback(delivered) == if outcome == Stopped then Stop else Fail
    ensures outcome == TooLong ==> !AllFit(body) && GoneOn(callback, delivered, |delivered|)
    ensures outcome == Ended && !endsWithLast ==> AllFit(body)
  {
    var scanner := new Scanner(body, cuts, endsWithLast);
    var dataLines: seq<string>, eventType, lastEventID, retry, firstLine := [], "", "", 0, true;
    delivered := [];
    ghost var read: seq<string> := [];
    while true
      invariant scanner.Valid() && !scanner.tooLong && scanner.endsWithLast == endsWithLast && fresh(scanner)
      invariant ReadSoFar(body, read, scanner.Stream(), endsWithLast) && (firstLine <==> read == [])
      invariant Interpret(UnmarkFirst(read)) == Holding(dataLines, eventType, lastEventID, retry, delivered)
      invariant GoneOn(callback, delivered, |delivered|)
      decreases |scanner.Stream()|
    {
      ghost var left := scanner.Stream();
      var ok, line := scanner.Scan();
      if !ok {
        Delivered(body, read, left, endsWithLast);
        return delivered, if scanner.tooLong then TooLong else Ended;
      }
      ghost var before := read;
      read := read + [line];
      ReadOn(body, before, left, line, endsWithLast);
      if firstLine {
        line := Unmarked(line);
        firstLine := false;
      }
      UnmarkLast(before, read, line);
      var events;
      dataLines, eventType, lastEventID, retry, events := TakeLine(line, dataLines, eventType, lastEventID, retry, delivered);
      if events != delivered {
        GoneOnMore(callback, delivered, events);
        delivered := events;
        var verdict := callback(delivered);
        if verdict != Continue {
          Delivered(body, read, scanner.Stream(), endsWithLast);
          return delivered, if verdict == Stop then Stopped else Failed;
        }
      }
    }
  }

  /** One line: a blank one dispatches what is held and drops it, but for the last
      event ID and the reconnection time; a comment or an unknown field is ignored. */
  method TakeLine(line: string, lines: seq<string>, name: string, id: string, time: nat, delivered: seq<Event>)
    returns (dataLines: seq<string>, eventType: string, lastEventID: string, retry: nat, events: seq<Event>)
    ensures Holding(dataLines, eventType, lastEventID, retry, events) == Process(Holding(lines, name, id, time, delivered), line)
    ensures events == delivered || (|events| == |delivered| + 1 && events[..|delivered|] == delivered)
  {
    dataLines, eventType, lastEventID, retry, events := lines, name, id, time, delivered;
    if line == "" {
      BlankLine(dataLines, eventType, lastEventID, retry, delivered);
      if dataLines != [] { events := delivered + [Event(lastEventID, eventType, retry, Join(dataLines))]; }
      dataLines, eventType := [], "";
      return;
    }
    if line[0] == ':' { return; }
    var i := Colon(line);
    var field, value := line[..i], "";
    if i < |line| {
      value := line[i + 1..];
      if value != "" && value[0] == ' ' { value := value[1..]; }
    }
    if field == "id" {
      if '\0' !in value { lastEventID := value; }
    } else if field == "event" {
      eventType := value;
    } else if field == "retry" {
      var digits := IsAllDigits(value);
      if digits && Decimal(value) <= MaxInt { retry := Decimal(value); }
    } else if field == "data" {
      assert (lines + [value])[..|lines|] == lines;
      dataLines := lines + [value];
    }
  }

  lemma GoneOnMore(callback: seq<Event> -> Verdict, delivered: seq<Event>, events: seq<Event>)
    requires GoneOn(callback, delivered, |delivered|) && |events| == |delivered| + 1 && events[..|delivered|] == delivered
    ensures GoneOn(callback, events, |delivered|)
    ensures callback(events) == Continue ==> GoneOn(callback, events, |events|)
  {
    assert forall k :: 0 < k <= |delivered| ==> events[..k] == delivered[..k];
    assert events[..|events|] == events;
  }

  lemma InterpretLast(lines: seq<string>)
    requires lines != []
    ensures Interpret(lines) == Process(Interpret(lines[..|lines| - 1]), lines[|lines| - 1])
  {
  }

  lemma UnmarkLast(before: seq<string>, read: seq<string>, line: string)
    requires |read| == |before| + 1 && read[..|before|] == before
    requires line == if before == [] then Unmarked(read[|before|]) else read[|before|]
    ensures Interpret(UnmarkFirst(read)) == Process(Interpret(UnmarkFirst(before)), line)
  {
    var lines := UnmarkFirst(read);
    assert lines[..|before|] == UnmarkFirst(before) && lines[|before|] == line;
    InterpretLast(lines);
  }

  /** The lines read and the stream left are the body's, and it is the lines left
      that decide whether all fit. */
  ghost predicate ReadSoFar(body: string, read: seq<string>, left: string, endsWithLast: bool) {
    Lines(body, "") == read + Lines(left, "") && (AllFit(body) ==> AllFit(left)) && (!endsWithLast && AllFit(left) ==> AllFit(body))
  }

  lemma ReadOn(body: string, read: seq<string>, left: string, line: string, endsWithLast: bool)
    requires ReadSoFar(body, read, left, endsWithLast) && left != "" && (!endsWithLast ==> FirstFits(left))
    requires Lines(left, "") == [line] + Lines(AfterFirst(left), "") && |AfterFirst(left)| < |left|
    ensures ReadSoFar(body, read + [line], AfterFirst(left), endsWithLast)
  {
    assert read + [line] + Lines(AfterFirst(left), "") == read + ([line] + Lines(AfterFirst(left), ""));
  }

  /** What the lines read so far dispatched begins what the body dispatches. */
  lemma Delivered(body: string, read: seq<string>, left: string, endsWithLast: bool)
    requires ReadSoFar(body, read, left, endsWithLast)
    ensures Interpret(UnmarkFirst(read)).events <= Events(body)
    ensures left == "" ==> Interpret(UnmarkFirst(read)).events == Events(body) && (!endsWithLast ==> AllFit(body))
    ensures left != "" && !FirstFits(left) ==> !AllFit(body)
  {
    var lines := Lines(body, "");
    MarkOfFirstLine(body);
    UnmarkPrefix(lines, |read|);
    assert lines[..|read|] == read;
    EventsGrow(UnmarkFirst(lines), |read|);
    if left == "" { assert read == lines; }
  }

  lemma UnmarkPrefix(lines: seq<string>, n: nat)
    requires n <= |lines|
    ensures UnmarkFirst(lines[..n]) == UnmarkFirst(lines)[..n]
  {
  }

  // ---- the reconnection time ----

  /** A decimal number reads back as itself. */
  lemma {:induction false} DecimalReadsBack(n: nat)
    ensures IsDigits(Digits(n)) && Decimal(Digits(n)) == n
  {
    var s := Digits(n);
    if n < 10 {
      assert s[..|s| - 1] == "";
    } else {
      DecimalReadsBack(n / 10);
      var last := Digits(n % 10);
      assert |last| == 1 && s == Digits(n / 10) + last;
      assert s[..|s| - 1] == Digits(n / 10) && s[|s| - 1] == last[0];
    }
  }

  /** A retry field sets the reconnection time to the number it spells, if an int holds
      it. */
  lemma RetryIsRead(b: Buffers, n: nat)
    ensures Field(b, "retry", Digits(n)) == if n <= 0x7FFF_FFFF_FFFF_FFFF then b.(retry := n) else b
  {
    DecimalReadsBack(n);
  }
}
