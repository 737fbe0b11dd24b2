/** Lines of a Server-Sent Events stream (client/stream.go): the split function, and
    the scanner that feeds it whatever each read of the body returns. Bytes are the
    characters 0 to 255. */
module EventLines {

  datatype Split = More | Token(advance: nat, line: string)

  /** The position of the first line terminator, or the length when there is none. */
  function Terminator(s: string): (i: nat)
    ensures i <= |s|
    ensures i < |s| ==> s[i] == '\r' || s[i] == '\n'
    ensures forall k :: 0 <= k < i ==> s[k] != '\r' && s[k] != '\n'
  {
    if s == "" || s[0] == '\r' || s[0] == '\n' then 0 else 1 + Terminator(s[1..])
  }

  /** scanSSELines. */
  function ScanLines(data: string, atEOF: bool): Split {
    var i := Terminator(data);
    if atEOF && data == "" then More
    else if i < |data| then
      if data[i] == '\n' then Token(i + 1, data[..i])
      else if i + 1 < |data| then (if data[i + 1] == '\n' then Token(i + 2, data[..i]) else Token(i + 1, data[..i]))
      else if atEOF then Token(i + 1, data[..i])
      else More
    else if atEOF then Token(|data|, data)
    else More
  }

  /** The lines of a whole stream, read one character at a time: LF, CR and CRLF end
      a line each, and characters left over at the end are a line. */
  function Lines(s: string, line: string): seq<string>
    decreases |s|
  {
    if s == "" then (if line == "" then [] else [line])
    else if s[0] == '\n' then [line] + Lines(s[1..], "")
    else if s[0] == '\r' then [line] + Lines(if |s| > 1 && s[1] == '\n' then s[2..] else s[1..], "")
    else Lines(s[1..], line + [s[0]])
  }

  lemma {:induction false} LinesFromTerminator(s: string, line: string)
    ensures
      var i := Terminator(s);
      Lines(s, line) ==
        if i == |s| then (if line + s == "" then [] else [line + s])
        else [line + s[..i]] + Lines(AfterFirst(s), "")
    decreases |s|
  {
    if s == "" {
      assert line + s == line;
    } else if s[0] == '\n' || s[0] == '\r' {
      assert line + s[..0] == line;
    } else {
      var next := line + [s[0]];
      LinesFromTerminator(s[1..], next);
      assert next + s[1..] == line + s;
      var j := Terminator(s[1..]);
      if j < |s[1..]| { assert next + s[1..][..j] == line + s[..j + 1]; }
    }
  }

  lemma {:induction false} TerminatorOfPrefix(data: string, more: string)
    ensures Terminator(data) < |data| ==> Terminator(data + more) == Terminator(data)
    ensures Terminator(data) == |data| ==> Terminator(data + more) == |data| + Terminator(more)
  {
    if data == "" {
      assert data + more == more;
    } else if data[0] != '\r' && data[0] != '\n' {
      assert (data + more)[1..] == data[1..] + more;
      TerminatorOfPrefix(data[1..], more);
    }
  }

  /** A token found in what has been read of a stream is the stream's first line. */
  lemma TokenIsFirstLine(data: string, more: string, atEOF: bool)
    requires ScanLines(data, atEOF).Token? && (atEOF ==> more == "")
    ensures
      var t := ScanLines(data, atEOF);
      0 < t.advance <= |data| && Lines(data + more, "") == [t.line] + Lines(AfterFirst(data + more), "") &&
      AfterFirst(data + more) == (data + more)[t.advance..]
  {
    var all, t := data + more, ScanLines(data, atEOF);
    TerminatorOfPrefix(data, more);
    LinesFromTerminator(all, "");
    var i := Terminator(data);
    if i < |data| {
      assert "" + all[..i] == data[..i];
    } else {
      assert all == data && "" + all == data && all[t.advance..] == "";
    }
  }

  /** What follows the first line of a stream and its terminator. */
  function AfterFirst(s: string): string {
    var i := Terminator(s);
    if i == |s| then "" else if s[i] == '\r' && i + 1 < |s| && s[i + 1] == '\n' then s[i + 2..] else s[i + 1..]
  }

  const MaxLine: nat := 1024 * 1024

  /** The first line and what decides where it ends fit the scanner's buffer: its LF;
      its CR and one more byte, or the end of the stream; or the end. */
  predicate FirstFits(s: string) {
    var i := Terminator(s);
    if i < |s| && s[i] == '\n' then i + 1 <= MaxLine
    else if i < |s| then i + 2 <= MaxLine
    else |s| + 1 <= MaxLine
  }

  lemma MoreIsNeeded(data: string, more: string)
    requires ScanLines(data, false).More?
    ensures |data| == MaxLine ==> !FirstFits(data + more)
    ensures Terminator(data + more) + 1 >= |data|
  {
    TerminatorOfPrefix(data, more);
  }

  lemma FoundInBuffer(data: string, more: string, atEOF: bool)
    requires ScanLines(data, atEOF).Token? && |data| <= MaxLine
    ensures !atEOF || (more == "" && |data| < MaxLine) ==> FirstFits(data + more)
  {
    TerminatorOfPrefix(data, more);
    assert more == "" ==> data + more == data;
  }

  /** A scanner over a body: what is buffered and not yet split, what the body has
      left, and whether its end has been reported. Each read returns the next cut of
      the body, at least a byte and at most the room left in the buffer; a body may
      report its end with its last bytes or after them. */
  class Scanner {
    const cuts: nat -> nat
    const endsWithLast: bool
    var buffered: string
    var rest: string
    var ended: bool
    var tooLong: bool
    var reading: nat

    ghost predicate Valid()
      reads this
    {
      (ended ==> rest == "" && (endsWithLast || |buffered| < MaxLine)) && |buffered| <= MaxLine
    }

    function Stream(): string
      reads this
    {
      buffered + rest
    }

    constructor (body: string, cuts: nat -> nat, endsWithLast: bool)
      ensures Valid() && Stream() == body && !tooLong && this.endsWithLast == endsWithLast
    {
      this.cuts, this.endsWithLast := cuts, endsWithLast;
      buffered, rest, ended, tooLong, reading := "", body, false, false, 0;
    }

    method Read()
      requires Valid() && !ended && |buffered| < MaxLine
      modifies this`buffered, this`rest, this`ended, this`reading
      ensures Valid() && Stream() == old(Stream())
      ensures |rest| < |old(rest)| || (ended && buffered == old(buffered))
    {
      var n := if cuts(reading) == 0 then 1 else cuts(reading);
      reading := reading + 1;
      if rest == "" { ended := true; return; }
      if n > MaxLine - |buffered| { n := MaxLine - |buffered|; }
      if n > |rest| { n := |rest|; }
      assert buffered + rest == (buffered + rest[..n]) + rest[n..];
      buffered, rest := buffered + rest[..n], rest[n..];
      if rest == "" && endsWithLast { ended := true; }
    }

    /** Scan hands out the stream's lines one after the other, however the body is
        cut into reads. It fails only on a line too long for the buffer, and on every
        such line of a body that reports its end after its last bytes. */
    method Scan() returns (ok: bool, line: string)
      requires Valid() && !tooLong
      modifies this
      ensures Valid()
      ensures ok ==> !tooLong && Lines(old(Stream()), "") == [line] + Lines(Stream(), "") && Stream() == AfterFirst(old(Stream())) && |Stream()| < |old(Stream())|
      ensures !ok && !tooLong ==> old(Stream()) == ""
      ensures tooLong ==> !ok && !FirstFits(old(Stream()))
      ensures !endsWithLast ==> (tooLong <==> !FirstFits(old(Stream())))
    {
      ghost var stream := Stream();
      ok, line := false, "";
      while true
        invariant Valid() && Stream() == stream && !tooLong
        decreases |rest|, if ended then 0 else 1
      {
        var split := ScanLines(buffered, ended);
        if split.Token? {
          TokenIsFirstLine(buffered, rest, ended);
          FoundInBuffer(buffered, rest, ended);
          assert stream[split.advance..] == buffered[split.advance..] + rest;
          buffered := buffered[split.advance..];
          return true, split.line;
        }
        if ended { return; }
        MoreIsNeeded(buffered, rest);
        if |buffered| == MaxLine { tooLong := true; return; }
        Read();
      }
    }
  }

  /** A line fits with its line feed while the two are no more than a mebibyte. */
  lemma MebibyteFits(line: string, rest: string)
    requires forall c :: c in line ==> c != '\r' && c != '\n'
    ensures FirstFits(line + "\n" + rest) <==> |line| < 1_048_576
  {
    var s := line + "\n" + rest;
    assert forall k :: 0 <= k < |line| ==> s[k] == line[k] && line[k] in line;
    assert s[|line|] == '\n';
    var i := Terminator(s);
    assert i == |line|;
  }
}
