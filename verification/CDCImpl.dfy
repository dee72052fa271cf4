/**
 * The library object: the receive side, which drains the buffer and hands messages on, the two
 * reader loops, and the send side.
 */
module CDC {
  import opened Bytes
  import opened Messages
  import opened Wrappers
  import opened Parsing
  import opened ParserTheorems
  import opened MessageParsing
  import opened Decoders
  import opened Draining
  import opened Feeding
  import opened Commands

  datatype ParsedMessage = ParsedMessage(message: ustring, parseResult: ParseResult)

  // ---------------------------------------------------------------- effects of events

  /** What receiving changes: the last response, the calls of the listener, the signals raised, the last error. */
  datatype Reception = Reception(
    lastResponse: ParsedMessage, heard: seq<ustring>, signals: nat, lastReceptionError: string)

  const BAD_FORMAT := "Bad message format"

  /** The data handed to the listener. */
  function AsyncData(message: ustring): (data: ustring) {
    match GetParsedDRData(message) case Some(d) => d case None => []
  }

  function Effect(r: Reception, e: Event, listening: bool): (r': Reception) {
    match e
    case Discarded(_) => r.(lastReceptionError := BAD_FORMAT)
    case Delivered(t, m) =>
      if t == Async then if listening then r.(heard := r.heard + [AsyncData(m)]) else r
      else r.(lastResponse := Response(e), signals := r.signals + 1)
  }

  /** A delivered message with the result of parsing it. */
  function Response(e: Event): (p: ParsedMessage)
    requires e.Delivered?
  {
    ParsedMessage(e.message, ParseResult(e.msgType, PARSE_OK, if e.message == [] then 0 else |e.message| - 1))
  }

  function Effects(r: Reception, events: seq<Event>, listening: bool): (r': Reception)
    decreases |events|
  {
    if events == [] then r else Effects(Effect(r, events[0], listening), events[1..], listening)
  }

  predicate IsResponse(e: Event) {
    e.Delivered? && e.msgType != Async
  }

  function Responses(events: seq<Event>): (s: seq<Event>)
    ensures forall i :: 0 <= i < |s| ==> IsResponse(s[i])
  {
    if events == [] then []
    else (if IsResponse(events[0]) then [events[0]] else []) + Responses(events[1..])
  }

  function AsyncMessages(events: seq<Event>): (s: seq<ustring>) {
    if events == [] then []
    else (if events[0].Delivered? && events[0].msgType == Async then [AsyncData(events[0].message)] else [])
         + AsyncMessages(events[1..])
  }

  /** Every response raises one signal; asynchronous messages raise none. */
  lemma {:induction false} EffectsSignal(r: Reception, events: seq<Event>, listening: bool)
    ensures Effects(r, events, listening).signals == r.signals + |Responses(events)|
    decreases |events|
  {
    if events != [] {
      EffectsSignal(Effect(r, events[0], listening), events[1..], listening);
    }
  }

  /** The data of every asynchronous message reaches the listener, if there is one, in order. */
  lemma {:induction false} EffectsHeard(r: Reception, events: seq<Event>, listening: bool)
    ensures Effects(r, events, listening).heard == r.heard + (if listening then AsyncMessages(events) else [])
    decreases |events|
  {
    if events != [] {
      EffectsHeard(Effect(r, events[0], listening), events[1..], listening);
    }
  }

  /** The last response is the last message that is not asynchronous, if any came. */
  lemma {:induction false} EffectsRespond(r: Reception, events: seq<Event>, listening: bool)
    ensures Effects(r, events, listening).lastResponse ==
            if Responses(events) == [] then r.lastResponse
            else Response(Responses(events)[|Responses(events)| - 1])
    decreases |events|
  {
    if events != [] {
      EffectsRespond(Effect(r, events[0], listening), events[1..], listening);
    }
  }

  /** The last error is reset exactly if something was discarded. */
  lemma {:induction false} EffectsReport(r: Reception, events: seq<Event>, listening: bool)
    ensures Effects(r, events, listening).lastReceptionError ==
            if exists e :: e in events && e.Discarded? then BAD_FORMAT else r.lastReceptionError
    decreases |events|
  {
    if events != [] {
      EffectsReport(Effect(r, events[0], listening), events[1..], listening);
      assert events == [events[0]] + events[1..];
    }
  }

  lemma EffectsFirst(r: Reception, e: Event, events: seq<Event>, listening: bool)
    ensures Effects(r, [e] + events, listening) == Effects(Effect(r, e, listening), events, listening)
  {
    assert ([e] + events)[1..] == events;
  }

  lemma {:induction false} EffectsAppend(r: Reception, a: seq<Event>, b: seq<Event>, listening: bool)
    ensures Effects(r, a + b, listening) == Effects(Effects(r, a, listening), b, listening)
    decreases |a|
  {
    if a == [] {
      assert a + b == b;
    } else {
      assert (a + b)[1..] == a[1..] + b;
      EffectsAppend(Effect(r, a[0], listening), a[1..], b, listening);
    }
  }

  // ---------------------------------------------------------------- the environment of the threads

  /** What ends the wait of the Linux loop. */
  datatype Wakeup =
    | SelectFailed               // select reports an error
    | SelectNothing              // select reports no descriptor
    | ReadFailed                 // the port is ready, but reading it fails
    | Readable(chunk: ustring, end: bool)  // bytes of the port, perhaps together with the end event
    | EndOnly                    // the end event alone

  datatype ThreadEnd = Waiting | Finished | Broken

  /** The chunks the loop reads before it ends, and how it ends. */
  function ChunksOf(wakeups: seq<Wakeup>): (r: (seq<ustring>, ThreadEnd)) {
    if wakeups == [] then ([], Waiting)
    else
      match wakeups[0]
      case SelectFailed => ([], Broken)
      case ReadFailed => ([], Broken)
      case EndOnly => ([], Finished)
      case SelectNothing => ChunksOf(wakeups[1..])
      case Readable(chunk, end) =>
        if end then ([chunk], Finished)
        else var r := ChunksOf(wakeups[1..]); ([chunk] + r.0, r.1)
  }

  /** What one round of the Windows loop ends in. */
  datatype WindowsRound = Completed(arrival: Arrival) | EndSignalled | RoundFailed

  function ArrivalsOf(rounds: seq<WindowsRound>): (r: (seq<Arrival>, ThreadEnd)) {
    if rounds == [] then ([], Waiting)
    else
      match rounds[0]
      case RoundFailed => ([], Broken)
      case EndSignalled => ([], Finished)
      case Completed(a) => var r := ArrivalsOf(rounds[1..]); ([a] + r.0, r.1)
  }

  lemma OneRound(rounds: seq<WindowsRound>, i: nat)
    requires i < |rounds| && rounds[i].Completed?
    ensures ArrivalsOf(rounds[i..]).0 == [rounds[i].arrival] + ArrivalsOf(rounds[i + 1..]).0
    ensures ArrivalsOf(rounds[i..]).1 == ArrivalsOf(rounds[i + 1..]).1
  {
    assert rounds[i..][0] == rounds[i] && rounds[i..][1..] == rounds[i + 1..];
  }

  lemma OneArrival(buffer: ustring, byteRead: byte, a: Arrival, more: seq<Arrival>)
    ensures var d := WindowsRead(buffer, byteRead, a);
            var others := WindowsReads(d.rest, LastRead(byteRead, a), more);
            WindowsReads(buffer, byteRead, [a] + more) == Drained(d.events + others.events, others.rest)
  {
    assert ([a] + more)[1..] == more;
  }

  const READ_ERROR := "Reading failed"

  /** What a wait for the port to take bytes ends in. */
  datatype WriteAttempt = WaitFailed | WaitTimeout | WriteFailed | Takes(n: nat)

  datatype SendResult = Sent | SendError

  /** How many of the remaining bytes the port takes from attempt i on, before one fails. */
  function Taken(left: nat, attempts: nat -> WriteAttempt, i: nat): (n: nat)
    requires forall j :: attempts(j) != Takes(0)
    ensures n <= left
    decreases left
  {
    if left == 0 || !attempts(i).Takes? then 0
    else if attempts(i).n >= left then left
    else attempts(i).n + Taken(left - attempts(i).n, attempts, i + 1)
  }

  lemma TakenStep(left: nat, attempts: nat -> WriteAttempt, i: nat)
    requires forall j :: attempts(j) != Takes(0)
    requires left > 0 && attempts(i).Takes?
    ensures var n := if attempts(i).n < left then attempts(i).n else left;
            0 < n && Taken(left, attempts, i) == n + Taken(left - n, attempts, i + 1)
  {
  }

  /** If no attempt fails, all of them are taken. */
  lemma {:induction false} AllTaken(left: nat, attempts: nat -> WriteAttempt, i: nat)
    requires forall j :: attempts(j) != Takes(0)
    requires forall j :: attempts(j).Takes?
    ensures Taken(left, attempts, i) == left
    decreases left
  {
    if left != 0 && attempts(i).n < left {
      AllTaken(left - attempts(i).n, attempts, i + 1);
    }
  }

  /** What the wait for a response ends in; if it is signalled, with the response the reader has stored by then. */
  datatype WaitOutcome = WaitTimedOut | WaitError | Signalled(response: ParsedMessage)

  /** How a command ends: normally, or with one of the two exceptions. */
  datatype CommandResult = Accepted | SendException | ReceiveException

  /** A parsed message says what the parser found at the start of b. */
  predicate Describes(parsed: ParsedMessage, b: ustring) {
    match Parse(b)
    case Ok(t, last) => parsed == ParsedMessage(b[..last + 1], ParseResult(t, PARSE_OK, last))
    case NotComplete => parsed.parseResult.resultType == PARSE_NOT_COMPLETE
    case BadFormat(last) =>
      parsed.parseResult.resultType == PARSE_BAD_FORMAT && parsed.parseResult.lastPosition == last
  }

  /** The event of a description that is not "not complete", and the rest of the buffer behind it. */
  lemma DescribesEvent(parsed: ParsedMessage, b: ustring) returns (e: Event, rest: ustring)
    requires b != [] && b == Fix(b) && Describes(parsed, b)
    requires parsed.parseResult.resultType != PARSE_NOT_COMPLETE
    ensures Drain(b) == Drained([e] + Drain(rest).events, Drain(rest).rest) && |rest| < |b|
    ensures parsed.parseResult.resultType == PARSE_OK ==>
              && e == Delivered(parsed.parseResult.msgType, parsed.message)
              && parsed.parseResult == ParseResult(e.msgType, PARSE_OK, |parsed.message| - 1)
              && parsed.message != [] && rest == b[parsed.parseResult.lastPosition + 1..]
              && (e.msgType == Async ==> GetParsedDRData(parsed.message).Some?)
    ensures parsed.parseResult.resultType == PARSE_BAD_FORMAT ==>
              && e.Discarded? && parsed.parseResult.lastPosition < |b|
              && var end := Find(b, CR, parsed.parseResult.lastPosition);
                 rest == if end == |b| then [] else b[end + 1..]
  {
    e := HeadOf(b).event;
    rest := b[|Slice(e)|..];
    ParseSound(b);
    if Parse(b).Ok? && Parse(b).msgType == Async {
      DRDataInverts(b[..Parse(b).last + 1]);
    }
  }

  lemma NotCompleteDry(parsed: ParsedMessage, b: ustring)
    requires b != [] && b == Fix(b) && Describes(parsed, b)
    requires parsed.parseResult.resultType == PARSE_NOT_COMPLETE
    ensures Drain(b) == Drained([], b)
  {
  }

  class CDCImpl {
    const msgParser: MessageParser
    var lastResponse: ParsedMessage
    var asyncListener: bool
    var receptionStopped: bool
    var lastReceptionError: string
    var transmitBuffer: array<byte>
    // the outside world: calls of the listener, signals of newMsgEvent, bytes put on the port
    var heard: seq<ustring>
    var signals: nat
    var port: ustring

    ghost function State(): (r: Reception)
      reads this
    {
      Reception(lastResponse, heard, signals, lastReceptionError)
    }

    constructor ()
      ensures fresh(msgParser) && fresh(transmitBuffer) && transmitBuffer.Length == 1024
      ensures !receptionStopped && !asyncListener
      ensures State() == Reception(ParsedMessage([], ParseResult(Error, PARSE_NOT_COMPLETE, 0)), [], 0, "")
      ensures port == []
    {
      msgParser := new MessageParser();
      lastResponse := ParsedMessage([], ParseResult(Error, PARSE_NOT_COMPLETE, 0));
      asyncListener := false;
      receptionStopped := false;
      lastReceptionError := "";
      transmitBuffer := new byte[1024];
      heard, signals, port := [], 0, [];
    }

    /** Hands one recognised message on. */
    method ProcessMessage(parsedMessage: ParsedMessage)
      requires parsedMessage.parseResult.msgType == Async ==> GetParsedDRData(parsedMessage.message).Some?
      modifies this`lastResponse, this`heard, this`signals
      ensures parsedMessage.parseResult.msgType == Async ==>
                && lastResponse == old(lastResponse) && signals == old(signals)
                && heard == old(heard) + if asyncListener then [AsyncData(parsedMessage.message)] else []
      ensures parsedMessage.parseResult.msgType != Async ==>
                lastResponse == parsedMessage && signals == old(signals) + 1 && heard == old(heard)
    {
      if parsedMessage.parseResult.msgType == Async {
        if asyncListener {
          var userData := GetParsedDRData(parsedMessage.message);
          heard := heard + [userData.value];
        }
        return;
      }
      lastResponse := parsedMessage;
      signals := signals + 1;
    }

    /** Rewrites a leading '>' and parses what the buffer begins with. */
    method ParseNextMessage(buffer: ustring) returns (b: ustring, parsed: ParsedMessage)
      modifies msgParser
      ensures b == Fix(buffer) && Describes(parsed, b)
    {
      b := buffer;
      if |b| > 0 && b[0] == GT {
        b := b[0 := LT];
      }
      var parseResult := msgParser.ParseData(b);
      var message := if parseResult.resultType == PARSE_OK then b[..parseResult.lastPosition + 1] else [];
      parsed := ParsedMessage(message, parseResult);
    }

    /** Deals with what the parser found at the start of the buffer and takes it off. */
    method TakeHead(buffer: ustring, parsed: ParsedMessage) returns (msgBuffer: ustring, ghost e: Event)
      requires buffer != [] && buffer == Fix(buffer) && Describes(parsed, buffer)
      requires parsed.parseResult.resultType != PARSE_NOT_COMPLETE
      modifies this`lastResponse, this`heard, this`signals, this`lastReceptionError
      ensures |msgBuffer| < |buffer| && State() == Effect(old(State()), e, asyncListener)
      ensures Drain(buffer) == Drained([e] + Drain(msgBuffer).events, Drain(msgBuffer).rest)
    {
      ghost var rest;
      e, rest := DescribesEvent(parsed, buffer);
      msgBuffer := buffer;
      if parsed.parseResult.resultType == PARSE_BAD_FORMAT {
        var endMsgPos := Find(msgBuffer, CR, parsed.parseResult.lastPosition);
        if endMsgPos == |msgBuffer| {
          msgBuffer := [];
        } else {
          msgBuffer := msgBuffer[endMsgPos + 1..];
        }
        lastReceptionError := BAD_FORMAT;
      } else {
        msgBuffer := msgBuffer[parsed.parseResult.lastPosition + 1..];
        assert parsed == Response(e);
        ProcessMessage(parsed);
      }
      assert msgBuffer == rest;
    }

    /** Takes every complete message off the buffer, and every malformed one up to its terminator. */
    method ProcessAllMessages(buffer: ustring) returns (msgBuffer: ustring)
      modifies this`lastResponse, this`heard, this`signals, this`lastReceptionError, msgParser
      ensures msgBuffer == Drain(buffer).rest
      ensures State() == Effects(old(State()), Drain(buffer).events, asyncListener)
    {
      msgBuffer := buffer;
      if msgBuffer == [] {
        return;
      }
      FixDrain(buffer);
      var parsed;
      msgBuffer, parsed := ParseNextMessage(msgBuffer);
      while parsed.parseResult.resultType != PARSE_NOT_COMPLETE
        invariant msgBuffer != [] && msgBuffer == Fix(msgBuffer) && Describes(parsed, msgBuffer)
        invariant Effects(old(State()), Drain(buffer).events, asyncListener) ==
                  Effects(State(), Drain(msgBuffer).events, asyncListener)
        invariant Drain(buffer).rest == Drain(msgBuffer).rest
        decreases |msgBuffer|
      {
        ghost var r := State();
        ghost var e;
        msgBuffer, e := TakeHead(msgBuffer, parsed);
        EffectsFirst(r, e, Drain(msgBuffer).events, asyncListener);
        if msgBuffer == [] {
          return;
        }
        FixDrain(msgBuffer);
        msgBuffer, parsed := ParseNextMessage(msgBuffer);
      }
      NotCompleteDry(parsed, msgBuffer);
    }

    /** A thread that breaks leaves its error and blocks all commands from then on. */
    twostate predicate Ends(end: ThreadEnd, events: seq<Event>)
      reads this
    {
      var r := Effects(old(State()), events, asyncListener);
      if end == Broken then receptionStopped && State() == r.(lastReceptionError := READ_ERROR)
      else receptionStopped == old(receptionStopped) && State() == r
    }

    /** Appends a chunk and searches the buffer for a terminator; -1 if it has none. */
    method AppendDataFromPort(chunk: ustring, destBuffer: ustring) returns (dest: ustring, messageEnd: int)
      ensures dest == destBuffer + chunk
      ensures messageEnd == -1 <==> CR !in dest
      ensures messageEnd != -1 ==> 0 <= messageEnd < |dest| && dest[messageEnd] == CR
    {
      dest := destBuffer + chunk;
      var endPos := Find(dest, CR, 0);
      assert dest[0..endPos] == dest[..endPos];
      messageEnd := if endPos == |dest| then -1 else endPos;
      if endPos == |dest| {
        assert dest[..endPos] == dest;
      }
    }

    /** The reading thread on Linux. */
    method ReadMsgThreadLinux(wakeups: seq<Wakeup>) returns (end: ThreadEnd, receivedBytes: ustring)
      modifies this`lastResponse, this`heard, this`signals, this`lastReceptionError, this`receptionStopped, msgParser
      ensures end == ChunksOf(wakeups).1 && receivedBytes == LinuxReads([], ChunksOf(wakeups).0).rest
      ensures Ends(end, LinuxReads([], ChunksOf(wakeups).0).events)
    {
      receivedBytes := [];
      var i := 0;
      while i < |wakeups|
        invariant 0 <= i <= |wakeups| && receptionStopped == old(receptionStopped)
        invariant ChunksOf(wakeups).1 == ChunksOf(wakeups[i..]).1
        invariant LinuxReads([], ChunksOf(wakeups).0).rest == LinuxReads(receivedBytes, ChunksOf(wakeups[i..]).0).rest
        invariant Effects(old(State()), LinuxReads([], ChunksOf(wakeups).0).events, asyncListener) ==
                  Effects(State(), LinuxReads(receivedBytes, ChunksOf(wakeups[i..]).0).events, asyncListener)
      {
        var wakeup := wakeups[i];
        if wakeup.SelectFailed? || wakeup.ReadFailed? {
          lastReceptionError := READ_ERROR;
          receptionStopped := true;
          return Broken, receivedBytes;
        }
        if wakeup.EndOnly? {
          return Finished, receivedBytes;
        }
        if wakeup.Readable? {
          var messageEnd;
          ghost var before, held := State(), receivedBytes;
          ghost var more := if wakeup.end then [] else ChunksOf(wakeups[i + 1..]).0;
          ghost var d := LinuxRead(held, wakeup.chunk);
          EffectsAppend(before, d.events, LinuxReads(d.rest, more).events, asyncListener);
          assert ([wakeup.chunk] + more)[1..] == more;
          receivedBytes, messageEnd := AppendDataFromPort(wakeup.chunk, receivedBytes);
          if messageEnd != -1 {
            receivedBytes := ProcessAllMessages(receivedBytes);
          }
          if wakeup.end {
            return Finished, receivedBytes;
          }
        }
        i := i + 1;
      }
      return Waiting, receivedBytes;
    }

    /** What becomes of a completed read. */
    method CompleteRead(buffer: ustring, lastByte: byte, arrival: Arrival) returns (receivedBytes: ustring, byteRead: byte)
      modifies this`lastResponse, this`heard, this`signals, this`lastReceptionError, msgParser
      ensures byteRead == LastRead(lastByte, arrival)
      ensures receivedBytes == WindowsRead(buffer, lastByte, arrival).rest
      ensures State() == Effects(old(State()), WindowsRead(buffer, lastByte, arrival).events, asyncListener)
    {
      receivedBytes, byteRead := buffer, lastByte;
      if arrival.Byte? {
        byteRead := arrival.b;
      }
      if !arrival.Nought? {
        receivedBytes := receivedBytes + [byteRead];
      }
      if byteRead == CR {
        receivedBytes := ProcessAllMessages(receivedBytes);
      }
    }

    /** The reading thread on Windows, which reads byte by byte. */
    method ReadMsgThreadWindows(rounds: seq<WindowsRound>) returns (end: ThreadEnd, receivedBytes: ustring)
      modifies this`lastResponse, this`heard, this`signals, this`lastReceptionError, this`receptionStopped, msgParser
      ensures end == ArrivalsOf(rounds).1 && receivedBytes == WindowsReads([], 0, ArrivalsOf(rounds).0).rest
      ensures Ends(end, WindowsReads([], 0, ArrivalsOf(rounds).0).events)
    {
      receivedBytes := [];
      var byteRead: byte := 0;
      var i := 0;
      ghost var ahead := ArrivalsOf(rounds);
      ghost var whole := WindowsReads([], 0, ahead.0);
      ghost var others := whole;
      while i < |rounds|
        invariant 0 <= i <= |rounds| && receptionStopped == old(receptionStopped)
        invariant ahead == ArrivalsOf(rounds[i..]) && ahead.1 == ArrivalsOf(rounds).1
        invariant others == WindowsReads(receivedBytes, byteRead, ahead.0) && others.rest == whole.rest
        invariant Effects(State(), others.events, asyncListener) == Effects(old(State()), whole.events, asyncListener)
      {
        match rounds[i] {
          case RoundFailed =>
            lastReceptionError := READ_ERROR;
            receptionStopped := true;
            return Broken, receivedBytes;
          case EndSignalled =>
            return Finished, receivedBytes;
          case Completed(arrival) =>
            OneRound(rounds, i);
            ahead := ArrivalsOf(rounds[i + 1..]);
            OneArrival(receivedBytes, byteRead, arrival, ahead.0);
            ghost var before, d := State(), WindowsRead(receivedBytes, byteRead, arrival);
            others := WindowsReads(d.rest, LastRead(byteRead, arrival), ahead.0);
            EffectsAppend(before, d.events, others.events, asyncListener);
            receivedBytes, byteRead := CompleteRead(receivedBytes, byteRead, arrival);
        }
        i := i + 1;
      }
      return Waiting, receivedBytes;
    }

    /** Copies bytes to the start of the transmit buffer. */
    method CopyToBuffer(s: ustring)
      requires |s| <= transmitBuffer.Length
      modifies transmitBuffer
      ensures transmitBuffer[..|s|] == s
    {
      for i := 0 to |s|
        invariant forall k :: 0 <= k < i ==> transmitBuffer[k] == s[k]
      {
        transmitBuffer[i] := s[i];
      }
    }

    /** Writes the frame of a command to the start of the transmit buffer; None if the data is too large. */
    method CommandToBuffer(cmd: Command) returns (len: Option<nat>)
      modifies this`transmitBuffer, transmitBuffer
      ensures old(transmitBuffer).Length >= 261 ==> transmitBuffer == old(transmitBuffer)
      ensures transmitBuffer != old(transmitBuffer) ==> fresh(transmitBuffer)
      ensures len.None? <==> Frame(cmd).None?
      ensures len.Some? ==> len.value <= transmitBuffer.Length && transmitBuffer[..len.value] == Frame(cmd).value
    {
      var tmpStr := [GT];
      if cmd.msgType != Test {
        tmpStr := tmpStr + Header(cmd.msgType);
      }
      if cmd.msgType == DataSend {
        if |cmd.data| > UCHAR_MAX {
          return None;
        }
        tmpStr := tmpStr + [|cmd.data|];
        tmpStr := tmpStr + [COLON];
        tmpStr := tmpStr + cmd.data;
      }
      if cmd.msgType == UploadDownload || cmd.msgType == DownloadData {
        if |cmd.data| > UCHAR_MAX {
          return None;
        }
        tmpStr := tmpStr + cmd.data;
      }
      tmpStr := tmpStr + [CR];
      assert tmpStr == Frame(cmd).value;
      FrameFits(cmd);
      if transmitBuffer.Length < |tmpStr| {
        transmitBuffer := new byte[|tmpStr|];
      }
      CopyToBuffer(tmpStr);
      return Some(|tmpStr|);
    }

    /** The port takes n bytes of the transmit buffer, which starts with the frame. */
    method WritePort(ghost frame: ustring, from: nat, n: nat)
      requires from + n <= |frame| <= transmitBuffer.Length && transmitBuffer[..|frame|] == frame
      modifies this`port
      ensures port == old(port) + frame[from..from + n]
    {
      forall k | from <= k < from + n
        ensures transmitBuffer[k] == frame[k]
      {
        assert transmitBuffer[..|frame|][k] == frame[k];
      }
      port := port + transmitBuffer[from..from + n];
    }

    /** The writing loop: the port gets what it takes of the first len bytes of the transmit buffer. */
    method WriteFrame(ghost frame: ustring, len: nat, attempts: nat -> WriteAttempt) returns (r: SendResult)
      requires len == |frame| <= transmitBuffer.Length && transmitBuffer[..|frame|] == frame
      requires forall i :: attempts(i) != Takes(0)
      modifies this`port
      ensures port == old(port) + frame[..Taken(len, attempts, 0)]
      ensures r == Sent <==> Taken(len, attempts, 0) == len
    {
      var dataToWrite := 0;
      var dataLen := len;
      var i: nat := 0;
      PartsJoin(port, frame, 0, 0);
      while dataLen > 0
        invariant 0 <= dataLen && dataToWrite + dataLen == len
        invariant port == old(port) + frame[..dataToWrite]
        invariant Taken(len, attempts, 0) == dataToWrite + Taken(dataLen, attempts, i)
      {
        match attempts(i) {
          case Takes(n) =>
            var writeResult := if n < dataLen then n else dataLen;
            TakenStep(dataLen, attempts, i);
            WritePort(frame, dataToWrite, writeResult);
            PartsJoin(old(port), frame, dataToWrite, dataToWrite + writeResult);
            dataLen := dataLen - writeResult;
            dataToWrite := dataToWrite + writeResult;
          case _ =>
            return SendError;
        }
        i := i + 1;
      }
      return Sent;
    }

    /**
     * Puts the frame of a command on the port, as many bytes at a time as the port takes; attempts
     * says what comes of each wait for the port.  The port gets exactly the part of the frame that is
     * taken before an attempt fails, and the command is sent exactly if that is all of it.
     */
    method SendCommand(cmd: Command, attempts: nat -> WriteAttempt) returns (r: SendResult)
      requires forall i :: attempts(i) != Takes(0)
      modifies this`transmitBuffer, transmitBuffer, this`port
      ensures old(transmitBuffer).Length >= 261 ==> transmitBuffer == old(transmitBuffer)
      ensures Frame(cmd).None? ==> r == SendError && port == old(port)
      ensures Frame(cmd).Some? ==>
                var f := Frame(cmd).value;
                var n := Taken(|f|, attempts, 0);
                port == old(port) + f[..n] && (r == Sent <==> n == |f|)
    {
      var buffCmd := CommandToBuffer(cmd);
      if buffCmd.None? {
        return SendError;
      }
      r := WriteFrame(Frame(cmd).value, buffCmd.value, attempts);
    }

    /**
     * Sends a command, waits for a response and checks its type.  It returns normally exactly if
     * reception is not stopped, all of the frame was sent, and a response came that the command accepts.
     */
    method ProcessCommand(cmd: Command, attempts: nat -> WriteAttempt, wait: WaitOutcome) returns (r: CommandResult)
      requires forall i :: attempts(i) != Takes(0)
      requires cmd.msgType == UploadDownload ==> cmd.data != []
      modifies this`transmitBuffer, transmitBuffer, this`port, this`lastResponse
      ensures receptionStopped ==> r == SendException && port == old(port) && lastResponse == old(lastResponse)
      ensures r == Accepted <==>
                && !receptionStopped && Frame(cmd).Some? && Taken(|Frame(cmd).value|, attempts, 0) == |Frame(cmd).value|
                && wait.Signalled? && Accepts(cmd, wait.response.parseResult.msgType)
      ensures r == Accepted ==> port == old(port) + Frame(cmd).value && lastResponse == wait.response
      ensures r == ReceiveException ==> Frame(cmd).Some? && port == old(port) + Frame(cmd).value
    {
      if receptionStopped {
        return SendException;
      }
      var sent := SendCommand(cmd, attempts);
      if sent != Sent {
        return SendException;
      }
      assert Frame(cmd).value[..|Frame(cmd).value|] == Frame(cmd).value;
      if !wait.Signalled? {
        return ReceiveException;
      }
      lastResponse := wait.response;
      if lastResponse.parseResult.msgType != cmd.msgType {
        if !(cmd.msgType == UploadDownload && lastResponse.parseResult.msgType == DownloadData && !TopBit(cmd.data[0])) {
          return ReceiveException;
        }
      }
      return Accepted;
    }
  }
}
