/**
 api-server/internal/controller/controller.go: ReaderEventStreamResponse sends the lines of a reader as server-sent
 events, while another goroutine writes health checks into the same response under a mutex.
 */
module EventStream {
  import opened Search

  // ---- What a client makes of the bytes: section 9.2.6 of the WHATWG HTML standard ----

  datatype Message = Message(kind: string, data: string)

  /** The data buffer and the event type buffer. */
  datatype Parser = Parser(data: string, kind: string)

  const EMPTY := Parser("", "")

  const DATA := "data"
  const EVENT := "event"

  predicate IsLineEnd(c: char) {
    c == '\n' || c == '\r'
  }

  function WithoutLeadingSpace(s: string): string {
    if s != [] && s[0] == ' ' then s[1..] else s
  }

  /** Fields other than these two do not affect what is dispatched here. */
  function ProcessField(p: Parser, field: string, value: string): Parser {
    if field == EVENT then p.(kind := value)
    else if field == DATA then p.(data := p.data + value + ['\n'])
    else p
  }

  /** A line that is not blank. */
  function ProcessLine(p: Parser, line: string): Parser
    requires line != []
  {
    var n := FirstIndex(line, Is(':'));
    if n == 0 then p
    else if n < |line| then ProcessField(p, line[..n], WithoutLeadingSpace(line[n+1..]))
    else ProcessField(p, line, [])
  }

  /** A blank line dispatches the event, unless the data buffer is empty. */
  function Dispatch(p: Parser): seq<Message> {
    if p.data == [] then []
    else
      var data := if p.data[|p.data|-1] == '\n' then p.data[..|p.data|-1] else p.data;
      [Message(if p.kind == [] then "message" else p.kind, data)]
  }

  /** The events dispatched while reading the rest of a stream; what is pending at its end is discarded. */
  function Decode(p: Parser, s: string): seq<Message>
    decreases |s|
  {
    var n := FirstIndex(s, IsLineEnd);
    if n == |s| then []
    else
      var rest := if s[n] == '\r' && n + 1 < |s| && s[n+1] == '\n' then s[n+2..] else s[n+1..];
      if n == 0 then Dispatch(p) + Decode(EMPTY, rest) else Decode(ProcessLine(p, s[..n]), rest)
  }

  // ---- Frames ----

  datatype Frame = Started | HealthCheck | Data(line: string) | Completed | Failed

  function Text(f: Frame): string {
    match f
    case Started => "event: started\n\n"
    case HealthCheck => ": healthcheck\n\n"
    case Data(line) => "data: " + line + "\n\n"
    case Completed => "event: completed\n\n"
    case Failed => "event: error\n\n"
  }

  function Output(frames: seq<Frame>): string {
    if frames == [] then [] else Text(frames[0]) + Output(frames[1..])
  }

  lemma {:induction false} OutputGrows(frames: seq<Frame>, f: Frame)
    ensures Output(frames + [f]) == Output(frames) + Text(f)
  {
    if frames == [] {
      assert frames + [f] == [f] && [f][1..] == [];
    } else {
      assert (frames + [f])[1..] == frames[1..] + [f];
      OutputGrows(frames[1..], f);
    }
  }

  predicate OneLine(s: string) {
    forall i :: 0 <= i < |s| ==> !IsLineEnd(s[i])
  }

  /** The message a frame carries, if any. */
  function MessagesOf(f: Frame): seq<Message> {
    if f.Data? then [Message("message", f.line)] else []
  }

  /** The messages of the data frames. */
  function Messages(frames: seq<Frame>): seq<Message> {
    if frames == [] then [] else MessagesOf(frames[0]) + Messages(frames[1..])
  }

  lemma DecodeLine(p: Parser, line: string, rest: string)
    requires OneLine(line)
    ensures Decode(p, line + ['\n'] + rest) ==
            if line == [] then Dispatch(p) + Decode(EMPTY, rest) else Decode(ProcessLine(p, line), rest)
  {
    var s := line + ['\n'] + rest;
    FirstIndexOf(line, '\n', rest, IsLineEnd);
    assert s[..|line|] == line && s[|line|+1..] == rest;
  }

  /** A line followed by a blank one. */
  lemma DecodeBlock(line: string, rest: string)
    requires OneLine(line) && line != []
    ensures Decode(EMPTY, line + ['\n', '\n'] + rest) == Dispatch(ProcessLine(EMPTY, line)) + Decode(EMPTY, rest)
  {
    hide Decode, ProcessLine, Dispatch;
    assert line + ['\n', '\n'] + rest == line + ['\n'] + ([] + ['\n'] + rest);
    DecodeLine(EMPTY, line, [] + ['\n'] + rest);
    DecodeLine(ProcessLine(EMPTY, line), [], rest);
  }

  lemma ProcessFieldLine(field: string, value: string)
    requires field != [] && forall i :: 0 <= i < |field| ==> field[i] != ':'
    ensures ProcessLine(EMPTY, field + [':', ' '] + value) == ProcessField(EMPTY, field, value)
  {
    var line := field + [':', ' '] + value;
    assert line == field + [':'] + ([' '] + value);
    FirstIndexOf(field, ':', [' '] + value, Is(':'));
    assert line[..|field|] == field && line[|field|+1..] == [' '] + value;
  }

  lemma DecodeField(field: string, value: string, rest: string)
    requires field != [] && OneLine(field) && OneLine(value) && forall i :: 0 <= i < |field| ==> field[i] != ':'
    ensures Decode(EMPTY, field + [':', ' '] + value + ['\n', '\n'] + rest) ==
            Dispatch(ProcessField(EMPTY, field, value)) + Decode(EMPTY, rest)
  {
    hide Decode, ProcessLine, Dispatch, ProcessField;
    DecodeBlock(field + [':', ' '] + value, rest);
    ProcessFieldLine(field, value);
  }

  lemma DecodeData(line: string, rest: string)
    requires OneLine(line)
    ensures Decode(EMPTY, Text(Data(line)) + rest) == [Message("message", line)] + Decode(EMPTY, rest)
  {
    hide Decode, ProcessLine, FirstIndex;
    assert Text(Data(line)) + rest == DATA + [':', ' '] + line + ['\n', '\n'] + rest;
    DecodeField(DATA, line, rest);
    assert [] + line + ['\n'] == line + ['\n'];
  }

  /** An event field alone dispatches nothing and leaves nothing behind. */
  lemma DecodeEvent(kind: string, rest: string)
    requires OneLine(kind)
    ensures Decode(EMPTY, EVENT + [':', ' '] + kind + ['\n', '\n'] + rest) == Decode(EMPTY, rest)
  {
    hide Decode, ProcessLine, FirstIndex;
    DecodeField(EVENT, kind, rest);
  }

  lemma CommentText()
    ensures Text(HealthCheck) == ": healthcheck" + ['\n', '\n'] && OneLine(": healthcheck")
  {
  }

  lemma CommentIsIgnored()
    ensures Dispatch(ProcessLine(EMPTY, ": healthcheck")) == []
  {
  }

  lemma DecodeComment(rest: string)
    ensures Decode(EMPTY, Text(HealthCheck) + rest) == Decode(EMPTY, rest)
  {
    CommentText();
    CommentIsIgnored();
    hide Decode, FirstIndex, Text, ProcessLine;
    DecodeBlock(": healthcheck", rest);
  }

  /** The event type in a frame that has neither data nor a comment. */
  function EventKind(f: Frame): string {
    match f
    case Started => "started"
    case Completed => "completed"
    case _ => "error"
  }

  lemma EventText(f: Frame)
    requires f.Started? || f.Completed? || f.Failed?
    ensures Text(f) == EVENT + [':', ' '] + EventKind(f) + ['\n', '\n'] && OneLine(EventKind(f))
  {
  }

  /** What a client gets from one whole frame: the line of a data frame, nothing from any other. */
  lemma DecodeFrame(f: Frame, rest: string)
    requires f.Data? ==> OneLine(f.line)
    ensures Decode(EMPTY, Text(f) + rest) == MessagesOf(f) + Decode(EMPTY, rest)
  {
    hide Decode, ProcessLine, ProcessField, Dispatch, FirstIndex, WithoutLeadingSpace;
    match f
    case HealthCheck => DecodeComment(rest);
    case Data(line) => DecodeData(line, rest);
    case _ =>
      EventText(f);
      hide Text;
      DecodeEvent(EventKind(f), rest);
  }

  lemma {:induction false} DecodeFrames(frames: seq<Frame>)
    requires forall i :: 0 <= i < |frames| && frames[i].Data? ==> OneLine(frames[i].line)
    ensures Decode(EMPTY, Output(frames)) == Messages(frames)
  {
    if frames != [] {
      DecodeFrame(frames[0], Output(frames[1..]));
      DecodeFrames(frames[1..]);
    }
  }

  // ---- Carriage returns ----

  predicate NoReturn(s: string) {
    '\r' !in s
  }

  lemma ProcessLineKeepsNoReturn(p: Parser, line: string)
    requires NoReturn(p.data) && NoReturn(line) && line != []
    ensures NoReturn(ProcessLine(p, line).data)
  {
  }

  lemma DispatchKeepsNoReturn(p: Parser)
    requires NoReturn(p.data)
    ensures forall m :: m in Dispatch(p) ==> NoReturn(m.data)
  {
  }

  /** A client never gets a carriage return, whatever is sent. */
  lemma {:induction false} DecodedHaveNoReturn(p: Parser, s: string)
    requires NoReturn(p.data)
    ensures forall m :: m in Decode(p, s) ==> NoReturn(m.data)
    decreases |s|
  {
    hide ProcessLine, FirstIndex, Dispatch;
    var n := FirstIndex(s, IsLineEnd);
    if n < |s| {
      assert NoReturn(s[..n]);
      DispatchKeepsNoReturn(p);
      var rest := if s[n] == '\r' && n + 1 < |s| && s[n+1] == '\n' then s[n+2..] else s[n+1..];
      if n == 0 {
        DecodedHaveNoReturn(EMPTY, rest);
      } else {
        ProcessLineKeepsNoReturn(p, s[..n]);
        DecodedHaveNoReturn(ProcessLine(p, s[..n]), rest);
      }
    }
  }

  lemma {:induction false} DataIsInMessages(frames: seq<Frame>, i: nat)
    requires i < |frames| && frames[i].Data?
    ensures Message("message", frames[i].line) in Messages(frames)
  {
    if i > 0 { DataIsInMessages(frames[1..], i - 1); }
  }

  /** The client gets back exactly the lines, if and only if none of them contains a carriage return. */
  lemma RoundTripIff(frames: seq<Frame>)
    requires forall i :: 0 <= i < |frames| && frames[i].Data? ==> '\n' !in frames[i].line
    ensures Decode(EMPTY, Output(frames)) == Messages(frames) <==>
            forall i :: 0 <= i < |frames| && frames[i].Data? ==> NoReturn(frames[i].line)
  {
    hide Decode, Output, Messages;
    if forall i :: 0 <= i < |frames| && frames[i].Data? ==> NoReturn(frames[i].line) {
      DecodeFrames(frames);
    } else {
      var i :| 0 <= i < |frames| && frames[i].Data? && !NoReturn(frames[i].line);
      DecodedHaveNoReturn(EMPTY, Output(frames));
      DataIsInMessages(frames, i);
    }
  }

  // ---- The lines of the reader ----

  /** bufio.ScanLines: lines end with a line feed, a carriage return before it is dropped, and a last line may lack it. */
  function ScanLines(s: string): (lines: seq<string>)
    ensures forall l :: l in lines ==> '\n' !in l
    decreases |s|
  {
    if s == [] then []
    else
      var n := FirstIndex(s, Is('\n'));
      [DropReturn(s[..n])] + if n < |s| then ScanLines(s[n+1..]) else []
  }

  function DropReturn(s: string): string {
    if s != [] && s[|s|-1] == '\r' then s[..|s|-1] else s
  }

  /** Line by line: what ends in a line feed, or a carriage return and a line feed, is a line without them. */
  lemma ScanLine(line: string, rest: string)
    requires '\n' !in line && (line == [] || line[|line|-1] != '\r')
    ensures ScanLines(line + ['\n'] + rest) == [line] + ScanLines(rest)
  {
    FirstIndexOf(line, '\n', rest, Is('\n'));
    hide FirstIndex;
    var s := line + ['\n'] + rest;
    assert s[..|line|] == line && s[|line|+1..] == rest;
  }

  lemma ScanReturnLine(line: string, rest: string)
    requires '\n' !in line
    ensures ScanLines(line + ['\r'] + ['\n'] + rest) == [line] + ScanLines(rest)
  {
    var s, l := line + ['\r'] + ['\n'] + rest, line + ['\r'];
    FirstIndexOf(l, '\n', rest, Is('\n'));
    hide FirstIndex;
    assert s[..|l|] == l && s[|l|+1..] == rest && l[..|line|] == line;
  }

  lemma ScanLast(line: string)
    requires '\n' !in line && line != [] && line[|line|-1] != '\r'
    ensures ScanLines(line) == [line]
  {
    FirstIndexOfNone(line, Is('\n'));
    hide FirstIndex;
    assert line[..|line|] == line;
  }

  /** The text of lines that each end in a line feed scans to those lines, unless one ends in a carriage return. */
  function Feeds(lines: seq<string>): string {
    if lines == [] then [] else lines[0] + ['\n'] + Feeds(lines[1..])
  }

  lemma {:induction false} ScanOfFeeds(lines: seq<string>)
    requires forall l :: l in lines ==> '\n' !in l && (l == [] || l[|l|-1] != '\r')
    ensures ScanLines(Feeds(lines)) == lines
  {
    hide ScanLines;
    if lines == [] {
      ScanNothing();
    } else {
      ScanLine(lines[0], Feeds(lines[1..]));
      ScanOfFeeds(lines[1..]);
    }
  }

  lemma ScanNothing()
    ensures ScanLines([]) == []
  {
  }

  // ---- A line with a carriage return ----

  const LINE := "a\rb"

  /** The scanner keeps it as one line. */
  lemma ScannedAsOne()
    ensures ScanLines(LINE + ['\n']) == [LINE]
  {
    assert LINE + ['\n'] + [] == LINE + ['\n'];
    FirstIndexOf(LINE, '\n', [], Is('\n'));
    hide FirstIndex;
    assert (LINE + ['\n'])[..3] == LINE && LINE[2] == 'b';
  }

  /** A client takes the return for the end of the line: it receives only what comes before. */
  lemma ReturnCutsLine(rest: string)
    ensures Decode(EMPTY, Text(Data(LINE)) + rest) == [Message("message", "a")] + Decode(EMPTY, rest)
  {
    hide Decode, ProcessLine, Dispatch, FirstIndex;
    var tail := "b" + ['\n'] + ([] + ['\n'] + rest);
    assert Text(Data(LINE)) + rest == "data: a" + ['\r'] + tail;
    DecodeReturnLine(EMPTY, "data: a", tail);
    ProcessFieldLine(DATA, "a");
    assert DATA + [':', ' '] + "a" == "data: a";
    var p := ProcessField(EMPTY, DATA, "a");
    assert p == Parser("a\n", "");
    DecodeLine(p, "b", [] + ['\n'] + rest);
    UnknownField(p);
    DecodeLine(p, [], rest);
    DispatchOne(p);
  }

  /** A line that ends in a carriage return which no line feed follows. */
  lemma DecodeReturnLine(p: Parser, line: string, rest: string)
    requires OneLine(line) && line != [] && rest != [] && rest[0] != '\n'
    ensures Decode(p, line + ['\r'] + rest) == Decode(ProcessLine(p, line), rest)
  {
    var s := line + ['\r'] + rest;
    FirstIndexOf(line, '\r', rest, IsLineEnd);
    hide FirstIndex, ProcessLine;
    assert s[..|line|] == line && s[|line|+1..] == rest && s[|line|+1] == rest[0];
  }

  lemma UnknownField(p: Parser)
    ensures ProcessLine(p, "b") == p
  {
    FirstIndexOfNone("b", Is(':'));
  }

  lemma DispatchOne(p: Parser)
    requires p == Parser("a\n", "")
    ensures Dispatch(p) == [Message("message", "a")]
  {
    assert "a\n"[..1] == "a";
  }

  // ---- The handler ----

  /** How reading ends: at the end of the stream, because the client is gone, or with another error. */
  datatype ReadEnd = EndOfStream | Cancelled | ReadError

  function FinalFrame(end: ReadEnd): Frame {
    if end.ReadError? then Failed else Completed
  }

  function DataFrames(lines: seq<string>): seq<Frame> {
    seq(|lines|, i requires 0 <= i < |lines| => Data(lines[i]))
  }

  function WithoutHealthChecks(frames: seq<Frame>): seq<Frame> {
    if frames == [] then []
    else
      var rest := WithoutHealthChecks(frames[..|frames|-1]);
      if frames[|frames|-1].HealthCheck? then rest else rest + [frames[|frames|-1]]
  }

  lemma WithoutGrows(frames: seq<Frame>, f: Frame)
    ensures WithoutHealthChecks(frames + [f]) == WithoutHealthChecks(frames) + if f.HealthCheck? then [] else [f]
  {
    assert (frames + [f])[..|frames|] == frames;
  }

  lemma FirstFrame(lines: seq<string>)
    ensures Output([Started]) == Text(Started) && WithoutHealthChecks([Started]) == [Started]
    ensures |DataFrames(lines)| == |lines|
  {
    assert [Started][1..] == [] && [Started][..0] == [];
    assert Output([Started]) == Text(Started) + [];
  }

  lemma NextDataFrame(lines: seq<string>, k: nat)
    requires k < |lines|
    ensures |DataFrames(lines)| == |lines| && DataFrames(lines)[..k+1] == DataFrames(lines)[..k] + [Data(lines[k])]
  {
  }

  /** The frames sent: without the health checks, started, the lines in order and one final frame. */
  ghost predicate Streams(frames: seq<Frame>, lines: seq<string>, end: ReadEnd, ticks: nat) {
    && WithoutHealthChecks(frames) == [Started] + DataFrames(lines) + [if end == ReadError then Failed else Completed]
    && |frames| == 2 + |lines| + ticks && frames[0] == Started
  }

  datatype Holder = Nobody | Reader | Ticker

  /**
   ReaderEventStreamResponse with `ticks` health checks: each iteration lets either goroutine that can move do so, the
   holder of the mutex by writing any piece of its frame. Whatever the interleaving, the response is a sequence of
   whole frames: started, one data frame per line in order, one final frame, and health checks anywhere after started
   (a late one even after the final frame).
   */
  method EventStreamResponse(lines: seq<string>, end: ReadEnd, ticks: nat) returns (response: string)
    ensures exists frames :: Streams(frames, lines, end, ticks) && response == Output(frames)
  {
    hide Text, Output, WithoutHealthChecks, DataFrames;
    ghost var frames := [Started];
    response := Text(Started);
    FirstFrame(lines);
    var holder, rest := Nobody, "";
    var sent, ended, ticked := 0, false, 0;
    while !ended || holder != Nobody || ticked < ticks
      invariant sent <= |lines| && ticked <= ticks && (ended ==> sent == |lines|)
      invariant holder == Nobody ==> rest == []
      invariant response + rest == Output(frames)
      invariant WithoutHealthChecks(frames) == [Started] + DataFrames(lines)[..sent] + if ended then [FinalFrame(end)] else []
      invariant |frames| == (if ended then 2 else 1) + sent + ticked && frames[0] == Started
      decreases |lines| - sent, !ended, ticks - ticked, |rest|, holder != Nobody
    {
      if holder != Nobody {
        if rest == [] {
          holder := Nobody;
        } else {
          var n :| 1 <= n <= |rest|;
          response, rest := response + rest[..n], rest[n..];
        }
      } else {
        var tick := ended;
        if ticked < ticks {
          if * { tick := true; }
        }
        var frame := if tick then HealthCheck else if sent < |lines| then Data(lines[sent]) else FinalFrame(end);
        OutputGrows(frames, frame);
        WithoutGrows(frames, frame);
        frames, rest := frames + [frame], Text(frame);
        if tick {
          holder, ticked := Ticker, ticked + 1;
        } else if sent < |lines| {
          NextDataFrame(lines, sent);
          holder, sent := Reader, sent + 1;
        } else {
          holder, ended := Reader, true;
        }
      }
    }
    assert DataFrames(lines)[..sent] == DataFrames(lines);
    assert Streams(frames, lines, end, ticks) && response == Output(frames);
  }

  /** Without lines and health checks the response is these bytes: a cancelled read counts as completed. */
  method EmptyStream(end: ReadEnd) returns (response: string)
    ensures response == "event: started\n\n" + if end == ReadError then "event: error\n\n" else "event: completed\n\n"
  {
    hide Text, WithoutHealthChecks;
    response := EventStreamResponse([], end, 0);
    ghost var frames :| Streams(frames, [], end, 0) && response == Output(frames);
    TwoFrames(frames, Started, if end == ReadError then Failed else Completed);
    LastTexts();
  }

  lemma TwoFrames(frames: seq<Frame>, f: Frame, g: Frame)
    requires |frames| == 2 && WithoutHealthChecks(frames) == [f, g]
    ensures frames == [f, g] && Output(frames) == Text(f) + Text(g)
  {
    hide Text;
    assert frames[..1][..0] == [] && frames[..1][0] == frames[0];
    assert |WithoutHealthChecks(frames[..1])| <= 1;
    assert frames[1..][1..] == [] && frames[1..][0] == frames[1];
    assert Output(frames[1..]) == Text(g) + Output([]);
  }

  lemma LastTexts()
    ensures Text(Started) == "event: started\n\n" && Text(Completed) == "event: completed\n\n" && Text(Failed) == "event: error\n\n"
  {
  }

  lemma {:induction false} MessagesOfConcat(a: seq<Frame>, b: seq<Frame>)
    ensures Messages(a + b) == Messages(a) + Messages(b)
  {
    hide MessagesOf;
    if a == [] {
      assert a + b == b;
    } else {
      assert (a + b)[1..] == a[1..] + b;
      MessagesOfConcat(a[1..], b);
    }
  }

  lemma {:induction false} HealthChecksCarryNothing(frames: seq<Frame>)
    ensures Messages(WithoutHealthChecks(frames)) == Messages(frames)
  {
    if frames != [] {
      var init, last := frames[..|frames|-1], frames[|frames|-1];
      HealthChecksCarryNothing(init);
      assert frames == init + [last];
      MessagesOfConcat(init, [last]);
      MessagesOfConcat(WithoutHealthChecks(init), [last]);
      assert [last][1..] == [];
    }
  }

  /** The messages of some lines. */
  function LineMessages(lines: seq<string>): (r: seq<Message>)
    ensures |r| == |lines| && forall i :: 0 <= i < |r| ==> r[i].kind == "message" && r[i].data == lines[i]
  {
    seq(|lines|, i requires 0 <= i < |lines| => Message("message", lines[i]))
  }

  lemma {:induction false} MessagesOfDataFrames(lines: seq<string>)
    ensures Messages(DataFrames(lines)) == LineMessages(lines)
  {
    if lines != [] {
      assert DataFrames(lines)[1..] == DataFrames(lines[1..]);
      MessagesOfDataFrames(lines[1..]);
      assert LineMessages(lines) == [Message("message", lines[0])] + LineMessages(lines[1..]);
    }
  }

  lemma {:induction false} DataFramesOf(frames: seq<Frame>, i: nat)
    requires i < |frames| && frames[i].Data?
    ensures frames[i] in WithoutHealthChecks(frames)
  {
    if i < |frames| - 1 { DataFramesOf(frames[..|frames|-1], i); }
  }

  lemma {:induction false} FramesOf(frames: seq<Frame>, f: Frame)
    requires f in WithoutHealthChecks(frames)
    ensures f in frames
  {
    if f != frames[|frames|-1] { FramesOf(frames[..|frames|-1], f); }
  }

  /**
   End to end: for any reader contents and any interleaving, what a client decodes is the scanned lines, one message
   each, if and only if no line keeps a carriage return inside.
   */
  method StreamToClient(contents: string, end: ReadEnd, ticks: nat) returns (received: seq<Message>)
    ensures received == LineMessages(ScanLines(contents)) <==> forall l :: l in ScanLines(contents) ==> NoReturn(l)
  {
    hide Decode, Output, ScanLines, WithoutHealthChecks;
    var lines := ScanLines(contents);
    var response := EventStreamResponse(lines, end, ticks);
    ghost var frames :| Streams(frames, lines, end, ticks) && response == Output(frames);
    received := Decode(EMPTY, response);
    PlainMessages(lines, end);
    HealthChecksCarryNothing(frames);
    LinesOfFrames(frames, lines, end);
    RoundTripIff(frames);
  }

  lemma PlainMessages(lines: seq<string>, end: ReadEnd)
    ensures Messages([Started] + DataFrames(lines) + [FinalFrame(end)]) == LineMessages(lines)
  {
    MessagesOfConcat([Started] + DataFrames(lines), [FinalFrame(end)]);
    MessagesOfConcat([Started], DataFrames(lines));
    MessagesOfDataFrames(lines);
    assert [Started][1..] == [] && [FinalFrame(end)][1..] == [];
  }

  /** The data frames of a response are the lines. */
  lemma LinesOfFrames(frames: seq<Frame>, lines: seq<string>, end: ReadEnd)
    requires WithoutHealthChecks(frames) == [Started] + DataFrames(lines) + [FinalFrame(end)]
    ensures forall i :: 0 <= i < |frames| && frames[i].Data? ==> frames[i].line in lines
    ensures forall l :: l in lines ==> exists i :: 0 <= i < |frames| && frames[i] == Data(l)
  {
    hide WithoutHealthChecks;
    var plain := WithoutHealthChecks(frames);
    forall i | 0 <= i < |frames| && frames[i].Data? ensures frames[i].line in lines {
      DataFramesOf(frames, i);
      var k :| 0 <= k < |plain| && plain[k] == frames[i];
      assert plain[k] == DataFrames(lines)[k-1];
    }
    forall l | l in lines ensures exists i :: 0 <= i < |frames| && frames[i] == Data(l) {
      var k :| 0 <= k < |lines| && lines[k] == l;
      assert plain[1 + k] == Data(l);
      FramesOf(frames, Data(l));
    }
  }
}
