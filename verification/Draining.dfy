/**
 * What processing a receive buffer amounts to: the messages delivered and the bytes thrown away, in
 * order, and what is kept for later.
 */
module Draining {
  import opened Bytes
  import opened Messages
  import opened Parsing
  import opened ParserTheorems
  import opened ParserVerdicts

  datatype Event = Delivered(msgType: MessageType, message: ustring) | Discarded(bytes: ustring)

  datatype Drained = Drained(events: seq<Event>, rest: ustring)

  /** Some firmware begins its replies with '>'. */
  function Fix(buffer: ustring): (b: ustring)
    ensures |b| == |buffer|
  {
    if buffer != [] && buffer[0] == GT then [LT] + buffer[1..] else buffer
  }

  function Slice(e: Event): (s: ustring) {
    match e case Delivered(_, message) => message case Discarded(bytes) => bytes
  }

  datatype Head = Nothing | Cut(event: Event)

  /** What the parser makes of the start of a buffer: a reply, or bytes up to the next terminator to discard. */
  function HeadOf(b: ustring): (h: Head)
    ensures h.Cut? ==> 0 < |Slice(h.event)| <= |b| && Slice(h.event) == b[..|Slice(h.event)|]
  {
    match Parse(b)
    case NotComplete => Nothing
    case BadFormat(last) =>
      var end := Find(b, CR, last);
      Cut(Discarded(if end == |b| then b else b[..end + 1]))
    case Ok(t, last) => Cut(Delivered(t, b[..last + 1]))
  }

  function Drain(buffer: ustring): (d: Drained)
    decreases |buffer|
  {
    if buffer == [] then Drained([], [])
    else
      var b := Fix(buffer);
      match HeadOf(b)
      case Nothing => Drained([], b)
      case Cut(e) =>
        var d := Drain(b[|Slice(e)|..]);
        Drained([e] + d.events, d.rest)
  }

  // ---------------------------------------------------------------- conservation, progress, idempotence

  /** One round of draining: nothing to cut, or the piece of an event is cut off. */
  lemma Round(buffer: ustring) returns (events: seq<Event>, n: nat)
    requires buffer != []
    ensures n <= |buffer| && |events| <= 1
    ensures events == [] ==> n == 0 && Drain(buffer) == Drained([], Fix(buffer)) && Parse(Fix(buffer)).NotComplete?
    ensures events != [] ==>
              && n > 0 && Slice(events[0]) == Fix(buffer[..n])
              && Drain(buffer).events == events + Drain(buffer[n..]).events
              && Drain(buffer).rest == Drain(buffer[n..]).rest
  {
    var b := Fix(buffer);
    match HeadOf(b)
    case Nothing =>
      events, n := [], 0;
    case Cut(e) =>
      events, n := [e], |Slice(e)|;
      assert b[n..] == buffer[n..];
      assert Fix(buffer[..n]) == b[..n];
  }

  /** Each event stands for one non-empty piece, which differs from what it holds at most in a '>' at the start. */
  ghost predicate Accounts(events: seq<Event>, pieces: seq<ustring>) {
    && |pieces| == |events|
    && forall i :: 0 <= i < |pieces| ==> pieces[i] != [] && Fix(pieces[i]) == Slice(events[i])
  }

  lemma AccountsMore(e: Event, piece: ustring, events: seq<Event>, pieces: seq<ustring>, tail: ustring)
    requires piece != [] && Fix(piece) == Slice(e) && Accounts(events, pieces)
    ensures Accounts([e] + events, [piece] + pieces)
    ensures Concat([piece] + pieces) + tail == piece + (Concat(pieces) + tail)
  {
    assert ([piece] + pieces)[1..] == pieces;
    Assoc(piece, Concat(pieces), tail);
    forall i | 0 <= i < |pieces| + 1
      ensures ([piece] + pieces)[i] != [] && Fix(([piece] + pieces)[i]) == Slice(([e] + events)[i])
    {
      if i > 0 {
        assert ([piece] + pieces)[i] == pieces[i - 1] && ([e] + events)[i] == events[i - 1];
      }
    }
  }

  lemma Halves<T>(s: seq<T>, n: nat)
    requires n <= |s|
    ensures s == s[..n] + s[n..]
    ensures |s| == 1 ==> s == [s[0]]
  {
  }

  /** Nothing is lost, invented or moved: the buffer falls into the pieces of the events and a tail, which is kept. */
  lemma {:induction false} Conserves(buffer: ustring) returns (pieces: seq<ustring>, tail: ustring)
    ensures buffer == Concat(pieces) + tail
    ensures Accounts(Drain(buffer).events, pieces) && Fix(tail) == Drain(buffer).rest
    decreases |buffer|
  {
    pieces, tail := [], buffer;
    assert [] + buffer == buffer;
    if buffer != [] {
      var events, n := Round(buffer);
      if events != [] {
        var front, back, e := buffer[..n], buffer[n..], events[0];
        var others;
        others, tail := Conserves(back);
        AccountsMore(e, front, Drain(back).events, others, tail);
        Halves(buffer, n);
        Halves(events, 1);
        pieces := [front] + others;
      }
    }
  }

  /** What is kept is empty or an unfinished message, and draining it again changes nothing. */
  lemma {:induction false} DrainedDry(buffer: ustring)
    ensures var d := Drain(buffer);
            && (d.rest == [] || Parse(d.rest).NotComplete?)
            && Drain(d.rest) == Drained([], d.rest)
    decreases |buffer|
  {
    var b := Fix(buffer);
    if buffer != [] {
      if HeadOf(b).Cut? {
        DrainedDry(b[|Slice(HeadOf(b).event)|..]);
      } else {
        assert Fix(b) == b;
      }
    }
  }

  /** Only replies of the grammar are delivered, each as a whole and under its own type. */
  lemma {:induction false} DeliversReplies(buffer: ustring)
    ensures forall e :: e in Drain(buffer).events && e.Delivered? ==> IsReply(e.msgType, e.message)
    decreases |buffer|
  {
    var b := Fix(buffer);
    if buffer != [] && HeadOf(b).Cut? {
      ParseSound(b);
      DeliversReplies(b[|Slice(HeadOf(b).event)|..]);
    }
  }

  // ---------------------------------------------------------------- messages that are cut off whole

  /** Whatever follows m, exactly m is cut off, and always with the same outcome. */
  ghost predicate AlwaysCut(m: ustring, e: Event) {
    Slice(e) == m != [] && forall more :: HeadOf(m + more) == Cut(e)
  }

  /** Whatever follows m, if anything does, exactly m is cut off. */
  ghost predicate CutBefore(m: ustring, e: Event) {
    Slice(e) == m != [] && forall more :: more != [] ==> HeadOf(m + more) == Cut(e)
  }

  /** m ends in a terminator, and no proper part of it from its start is taken for anything. */
  ghost predicate Undivided(m: ustring) {
    m != [] && m[|m| - 1] == CR && forall k :: 0 < k < |m| ==> Parse(m[..k]).NotComplete?
  }

  /** m is cut off whole at the latest when something follows it. */
  ghost predicate Steady(m: ustring, e: Event) {
    Undivided(m) && CutBefore(m, e) && (HeadOf(m) == Cut(e) || HeadOf(m) == Nothing)
  }

  /** m is cut off whole if nothing follows it. */
  ghost predicate Final(m: ustring, e: Event) {
    Undivided(m) && Slice(e) == m && HeadOf(m) == Cut(e)
  }

  /** m is cut off whole in any case. */
  ghost predicate Solid(m: ustring, e: Event) {
    AlwaysCut(m, e) && Undivided(m)
  }

  /** m is cut off whole in any case, and there is no terminator inside it. */
  ghost predicate Opening(m: ustring, e: Event) {
    AlwaysCut(m, e) && m[|m| - 1] == CR && CR !in m[..|m| - 1]
  }

  lemma SolidIsBoth(m: ustring, e: Event)
    requires Solid(m, e)
    ensures Steady(m, e) && Final(m, e)
  {
    assert HeadOf(m + []) == Cut(e);
    assert m + [] == m;
  }

  /** A reply that delimits itself is cut off whole. */
  lemma SelfDelimitingSolid(t: MessageType, m: ustring)
    requires IsReply(t, m) && SelfDelimiting(m)
    ensures Solid(m, Delivered(t, m))
  {
    ReplyEnds(t, m);
    var u :| AcceptedAlways(m, u);
    assert Parse(m + []) == Ok(u, |m| - 1);
    assert m + [] == m;
    ParseTypeUnique(t, m);
    forall more
      ensures HeadOf(m + more) == Cut(Delivered(t, m))
    {
      assert Parse(m + more) == Ok(u, |m| - 1);
      assert (m + more)[..|m|] == m;
    }
  }

  lemma ParseTypeUnique(t: MessageType, m: ustring)
    requires IsReply(t, m) && SelfDelimiting(m)
    ensures m[..|m|] == m && Parse(m) == Ok(t, |m| - 1)
  {
    ReplyEnds(t, m);
    SelfDelimitingExactly(t, m);
    assert m[..|m|] == m;
    ParseComplete(m, t, |m|);
  }

  /** The piece of a rejected buffer that starts with a line without inner terminator. */
  lemma RejectedLineCut(line: ustring, more: ustring, last: nat)
    requires line != [] && line[|line| - 1] == CR && CR !in line[..|line| - 1] && last < |line|
    requires Parse(line + more) == BadFormat(last)
    ensures HeadOf(line + more) == Cut(Discarded(line))
  {
    var b := line + more;
    assert forall k :: 0 <= k < |line| - 1 ==> b[k] == line[..|line| - 1][k];
    FindIs(b, CR, last, |line| - 1);
    assert b[..|line|] == line;
  }

  /** A line without inner terminator that the parser rejects is discarded whole. */
  lemma RejectedLineHead(line: ustring)
    requires line != [] && line[|line| - 1] == CR && CR !in line[..|line| - 1] && Parse(line).BadFormat?
    ensures HeadOf(line) == Cut(Discarded(line))
  {
    assert line + [] == line;
    RejectedLineCut(line, [], Parse(line).last);
  }

  /** If it begins no programming reply, it is discarded whole whatever follows, and nothing else is. */
  lemma RejectedLineOpening(line: ustring)
    requires line != [] && line[|line| - 1] == CR && CR !in line[..|line| - 1]
    requires !Begins(line, "<PM:") && Parse(line).BadFormat?
    ensures Opening(line, Discarded(line))
  {
    if Begins(line, "<IT:") {
      TRInfoVerdict(line);
    }
    StableExactly(line);
    forall more
      ensures HeadOf(line + more) == Cut(Discarded(line))
    {
      assert Parse(line + more) == Parse(line);
      RejectedLineCut(line, more, Parse(line).last);
    }
  }
}
