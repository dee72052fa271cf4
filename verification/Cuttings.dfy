/**
 * Streams of replies: exactly which of them arrive however they are cut up, and what becomes of a line
 * that is no reply.
 */
module Cuttings {
  import opened Bytes
  import opened Messages
  import opened Parsing
  import opened ParserWalk
  import opened Automaton
  import opened ParserTheorems
  import opened ParserVerdicts
  import opened Draining
  import opened Feeding

  /** A reply of the grammar, perhaps with '>' for '<', that is to be delivered. */
  ghost predicate ReplyItem(item: Item) {
    && item.event.Delivered? && item.event.message == Fix(item.raw)
    && IsReply(item.event.msgType, item.event.message)
  }

  /** However the stream of the items is cut into reads, the Linux loop delivers them, in order, and keeps nothing. */
  ghost predicate LinuxAlways(items: seq<Item>) {
    forall chunks :: Concat(chunks) == Stream(items) ==> LinuxReads([], chunks) == Drained(Events(items), [])
  }

  /** However the bytes of the stream get into the buffer, the Windows loop does. */
  ghost predicate WindowsAlways(items: seq<Item>) {
    forall arrivals :: Pushed(0, arrivals) == Stream(items) ==> WindowsReads([], 0, arrivals) == Drained(Events(items), [])
  }

  // ---------------------------------------------------------------- the forms of replies

  /** Received data of length 0, which is cut off only before something else. */
  predicate EmptyData(t: MessageType, m: ustring) {
    t == Async && |m| == 6
  }

  predicate SafeBefore(t: MessageType, m: ustring) {
    DelimitsItself(t, m) || EmptyData(t, m)
  }

  predicate SafeBehind(t: MessageType, m: ustring) {
    DelimitsItself(t, m) || (t == TrInfo && |m| == 21) || (t == DownloadData && |m| == 6)
  }

  predicate SafeAlone(t: MessageType, m: ustring) {
    SafeBehind(t, m) || (0 < |m| && Recognisable(t, |m|, |m|) && CR !in m[..|m| - 1])
  }

  /** Whether the form of reply i is one that always arrives in its place. */
  predicate SafeAt(items: seq<Item>, i: nat)
    requires i < |items| && items[i].event.Delivered?
  {
    var t, m := items[i].event.msgType, items[i].event.message;
    if i < |items| - 1 then SafeBefore(t, m)
    else SafeBehind(t, m) || (|items| == 1 && SafeAlone(t, m))
  }

  ghost predicate AllReplies(items: seq<Item>) {
    forall i :: 0 <= i < |items| ==> ReplyItem(items[i])
  }

  ghost predicate AllSafe(items: seq<Item>)
    requires AllReplies(items)
  {
    forall i :: 0 <= i < |items| ==> SafeAt(items, i)
  }

  // ---------------------------------------------------------------- safe forms arrive

  lemma ReplyItemSolid(item: Item)
    requires ReplyItem(item) && DelimitsItself(item.event.msgType, item.event.message)
    ensures SolidItem(item)
  {
    SelfDelimitingExactly(item.event.msgType, item.event.message);
    SelfDelimitingSolid(item.event.msgType, item.event.message);
  }

  /** Empty data is not taken for anything until something follows it. */
  lemma EmptyDataSteady(m: ustring)
    requires IsReply(Async, m) && |m| == 6
    ensures Steady(m, Delivered(Async, m))
  {
    ReplyEnds(Async, m);
    AsyncVerdict(m);
    forall more | more != []
      ensures HeadOf(m + more) == Cut(Delivered(Async, m))
    {
      BeginsMore(m, more, "<DR?:");
      AsyncVerdict(m + more);
      assert (m + more)[..6] == m;
    }
    forall k | 0 < k < |m|
      ensures Parse(m[..k]).NotComplete?
    {
      OrdinaryPrefix(m, k);
      assert m[..k] + m[k..] == m;
      if !Parse(m[..k]).NotComplete? {
        VerdictStable(m[..k], m[k..]);
      }
    }
  }

  lemma SafeBeforeSteady(t: MessageType, m: ustring, raw: ustring)
    requires IsReply(t, m) && SafeBefore(t, m) && m == Fix(raw)
    ensures Steady(m, Delivered(t, m))
  {
    if DelimitsItself(t, m) {
      ReplyItemSolid(Item(raw, Delivered(t, m)));
      SolidIsBoth(m, Delivered(t, m));
    } else {
      EmptyDataSteady(m);
    }
  }

  /** A short module identification is taken for nothing before its end. */
  lemma ShortTRInfoFinal(m: ustring)
    requires IsReply(TrInfo, m) && |m| == 21
    ensures Final(m, Delivered(TrInfo, m))
  {
    TRInfoVerdict(m);
    assert m[..21] == m;
    forall k | 0 < k < |m|
      ensures Parse(m[..k]).NotComplete?
    {
      if 4 <= k {
        BeginsPrefix(m, "<IT:", k);
        TRInfoVerdict(m[..k]);
      } else {
        OnTheWayToIT(m[..k]);
      }
    }
  }

  /** So are two bytes of download data, or one and a terminator. */
  lemma ShortDownloadFinal(m: ustring)
    requires IsReply(DownloadData, m) && |m| == 6
    ensures Final(m, Delivered(DownloadData, m))
  {
    DownloadVerdict(m);
    assert m[..6] == m;
    forall k | 0 < k < |m|
      ensures Parse(m[..k]).NotComplete?
    {
      if 4 <= k {
        BeginsPrefix(m, "<PM:", k);
        DownloadVerdict(m[..k]);
      } else {
        OnTheWayToPM(m[..k]);
      }
    }
  }

  lemma OnTheWayToPM(data: ustring)
    requires 0 < |data| < 4 && Matches(data, "<PM:"[..|data|])
    ensures Parse(data) == NotComplete
  {
    var at := if |data| == 1 then 1 else if |data| == 2 then 58 else 79;
    assert Spelling(at) == "<PM:"[..|data|];
    assert data[..|data|] == data;
    Follow(data, at);
  }

  lemma SafeBehindFinal(t: MessageType, m: ustring, raw: ustring)
    requires IsReply(t, m) && SafeBehind(t, m) && m == Fix(raw)
    ensures Final(m, Delivered(t, m))
  {
    if DelimitsItself(t, m) {
      ReplyItemSolid(Item(raw, Delivered(t, m)));
      SolidIsBoth(m, Delivered(t, m));
    } else if t == TrInfo {
      ShortTRInfoFinal(m);
    } else {
      ShortDownloadFinal(m);
    }
  }

  /** Safe replies are in order, unless there is only one. */
  lemma SafeOrderly(items: seq<Item>)
    requires AllReplies(items) && AllSafe(items)
    requires |items| == 1 ==> SafeBehind(items[0].event.msgType, items[0].event.message)
    ensures Orderly(items)
  {
    forall i | 0 <= i < |items|
      ensures InPlace(items, i)
    {
      var item := items[i];
      assert ReplyItem(item) && SafeAt(items, i);
      if i < |items| - 1 {
        SafeBeforeSteady(item.event.msgType, item.event.message, item.raw);
      } else {
        SafeBehindFinal(item.event.msgType, item.event.message, item.raw);
      }
    }
  }

  /** A reply the parser recognises by itself, without a terminator inside, is a line. */
  lemma OneTerminatorIsLine(t: MessageType, m: ustring)
    requires IsReply(t, m) && Recognisable(t, |m|, |m|) && CR !in m[..|m| - 1]
    ensures Unbroken(m) && HeadOf(m) == Cut(Delivered(t, m))
  {
    ReplyEnds(t, m);
    assert m[..|m|] == m;
    ParseComplete(m, t, |m|);
    NoneInside(m);
  }

  lemma SafeArrives(items: seq<Item>)
    requires AllReplies(items) && AllSafe(items)
    ensures LinuxAlways(items) && WindowsAlways(items)
  {
    if |items| == 1 && !SafeBehind(items[0].event.msgType, items[0].event.message) {
      assert ReplyItem(items[0]) && SafeAt(items, 0);
      AloneArrives(items[0]);
      assert items == [items[0]];
    } else {
      SafeOrderly(items);
      forall chunks | Concat(chunks) == Stream(items)
        ensures LinuxReads([], chunks) == Drained(Events(items), [])
      {
        LinuxFromEmpty(items, chunks);
      }
      forall arrivals | Pushed(0, arrivals) == Stream(items)
        ensures WindowsReads([], 0, arrivals) == Drained(Events(items), [])
      {
        OrderlyLines(items);
        LinesDelivered(items, arrivals);
      }
    }
  }

  // ---------------------------------------------------------------- one reply alone

  lemma AloneArrives(item: Item)
    requires ReplyItem(item) && Recognisable(item.event.msgType, |item.raw|, |item.raw|)
    requires item.raw != [] && CR !in Fix(item.raw)[..|item.raw| - 1]
    ensures LinuxAlways([item]) && WindowsAlways([item])
  {
    var items := [item];
    OneTerminatorIsLine(item.event.msgType, item.event.message);
    OneItem(item);
    assert LineAt(items, 0);
    forall chunks | Concat(chunks) == Stream(items)
      ensures LinuxReads([], chunks) == Drained(Events(items), [])
    {
      assert [] + Concat(chunks) == item.raw;
      ArrivesAlone(item, [], [], chunks);
    }
    forall arrivals | Pushed(0, arrivals) == Stream(items)
      ensures WindowsReads([], 0, arrivals) == Drained(Events(items), [])
    {
      LinesDelivered(items, arrivals);
    }
  }

  lemma OneItem(item: Item)
    ensures Stream([item]) == item.raw && Events([item]) == [item.event]
  {
    assert [item][1..] == [];
    assert Stream([item]) == item.raw + Stream([]);
    assert Events([item]) == [item.event] + Events([]);
  }

  /** Alone on the line, a line without inner terminator arrives on Linux, however it is cut up. */
  lemma {:induction false} ArrivesAlone(item: Item, p: ustring, buffer: ustring, chunks: seq<ustring>)
    requires HeadOf(Fix(item.raw)) == Cut(item.event) && Slice(item.event) == Fix(item.raw) && Unbroken(Fix(item.raw))
    requires CR !in Fix(item.raw)[..|item.raw| - 1]
    requires |p| < |item.raw| && Holds(buffer, p) && p + Concat(chunks) == item.raw
    ensures LinuxReads(buffer, chunks) == Drained([item.event], [])
    decreases |chunks|
  {
    var raw := item.raw;
    var q := p + chunks[0];
    var rest := Concat(chunks[1..]);
    Assoc(p, chunks[0], rest);
    HoldsMore(buffer, p, chunks[0]);
    assert Fix(raw)[|raw| - 1] == CR;
    if |q| == |raw| {
      assert q == raw;
      DrainWhole(item);
      assert rest == [];
      NothingArrives(chunks[1..]);
    } else {
      NoTerminator(raw, q, rest);
      ArrivesAlone(item, q, buffer + chunks[0], chunks[1..]);
    }
  }

  lemma NoTerminator(raw: ustring, q: ustring, rest: ustring)
    requires raw == q + rest && rest != [] && CR !in Fix(raw)[..|raw| - 1]
    ensures CR !in q
  {
    var m := Fix(raw);
    forall i | 0 <= i < |q|
      ensures q[i] != CR
    {
      assert m[..|raw| - 1][i] == m[i];
      assert q[i] == raw[i];
    }
  }

  lemma {:induction false} NothingArrives(chunks: seq<ustring>)
    requires Concat(chunks) == []
    ensures LinuxReads([], chunks) == Drained([], [])
    decreases |chunks|
  {
    if chunks != [] {
      assert chunks[0] == [] == [] + chunks[0];
      NothingArrives(chunks[1..]);
    }
  }

  // ---------------------------------------------------------------- other forms do not always arrive

  lemma TwoChunks(c: ustring, rest: ustring)
    ensures Concat([c]) == c && Concat([c, rest]) == c + rest
    ensures LinuxReads([], [c]) == Drained(LinuxRead([], c).events + [], LinuxRead([], c).rest)
    ensures LinuxRead([], c).events <= LinuxReads([], [c, rest]).events
    ensures rest == [] ==> c + rest == c
  {
    assert [c][1..] == [] && [c, rest][1..] == [rest];
    assert Concat([c]) == c + Concat([]) && Concat([rest]) == rest + Concat([]) by {
      assert [rest][1..] == [];
    }
  }

  /** Four bytes at least, with a terminator at the end. */
  predicate Ended(s: ustring) {
    4 <= |s| && s[|s| - 1] == CR
  }

  lemma RawEnds(item: Item)
    requires ReplyItem(item)
    ensures Ended(item.raw)
  {
    ReplyEnds(item.event.msgType, item.event.message);
  }

  lemma EndedJoin(a: ustring, b: ustring)
    ensures Ended(b) ==> Ended(a + b)
    ensures Ended(a) ==> CR in a + b && a + [] == a
  {
    if Ended(a) {
      assert (a + b)[|a| - 1] == CR;
    }
  }

  /** Replies before x put a terminator in front of it. */
  lemma TerminatorIn(items: seq<Item>, i: nat, x: ustring)
    requires i < |items| && AllReplies(items) && (i > 0 || CR in x)
    ensures CR in Stream(items[..i]) + x
  {
    if i > 0 {
      assert ReplyItem(items[0]);
      RawEnds(items[0]);
      var first := items[..i];
      EndedJoin(items[0].raw, Stream(first[1..]) + x);
      Assoc(items[0].raw, Stream(first[1..]), x);
    } else {
      assert items[..0] == [] && [] + x == x;
    }
  }

  /** The first read of a bad cutting: the items before x are delivered, and x is drained. */
  lemma FirstRead(items: seq<Item>, i: nat, x: ustring)
    requires i < |items| && AllReplies(items) && (i > 0 || CR in x) && x != []
    requires forall j :: 0 <= j < i ==> CutItem(items[j])
    ensures var d := LinuxRead([], Stream(items[..i]) + x);
            d.events == Events(items[..i]) + Drain(x).events && d.rest == Drain(x).rest
  {
    var c := Stream(items[..i]) + x;
    TerminatorIn(items, i, x);
    DrainItems(items[..i], x);
    assert [] + c == c;
  }

  /** What is drained then differs from the items, or something is left. */
  lemma WrongEvents(items: seq<Item>, i: nat, x: ustring)
    requires i < |items| && x != [] && HeadOf(Fix(x)) != Cut(items[i].event)
    ensures HeadOf(Fix(x)).Cut? ==> !(Events(items[..i]) + Drain(x).events <= Events(items))
    ensures HeadOf(Fix(x)) == Nothing ==> Drain(x).rest != []
  {
    if HeadOf(Fix(x)).Cut? {
      StreamSplits(items, i);
      var front, all := Events(items[..i]), Events(items);
      assert items[i..][0] == items[i];
      assert all[i] == items[i].event;
      assert (front + Drain(x).events)[i] == HeadOf(Fix(x)).event;
    }
  }

  /**
   * A bad cutting: the stream up to some bytes x at the start of item i, which are cut off, but not
   * as item i.
   */
  lemma WrongPiece(items: seq<Item>, i: nat, x: ustring, rest: ustring)
    requires i < |items| && AllReplies(items) && forall j :: 0 <= j < i ==> CutItem(items[j])
    requires x != [] && x + rest == Stream(items[i..]) && (i > 0 || CR in x)
    requires HeadOf(Fix(x)).Cut? && HeadOf(Fix(x)) != Cut(items[i].event)
    ensures !LinuxAlways(items)
  {
    var front := Stream(items[..i]);
    StreamSplits(items, i);
    Assoc(front, x, rest);
    FirstRead(items, i, x);
    WrongEvents(items, i, x);
    TwoChunks(front + x, rest);
    assert Concat([front + x, rest]) == Stream(items);
  }

  lemma RestHasTerminator(items: seq<Item>, i: nat)
    requires i < |items| && AllReplies(items)
    ensures var x := Stream(items[i..]); x != [] && CR in x
  {
    assert ReplyItem(items[i]);
    RawEnds(items[i]);
    assert items[i..][0] == items[i];
    StreamAtLeast(items[i..]);
    assert Stream(items[i..])[|items[i].raw| - 1] == CR;
  }

  /** A bad cutting: the whole stream at once, of which item i and what follows is not taken as it should be. */
  lemma WrongWhole(items: seq<Item>, i: nat)
    requires i < |items| && AllReplies(items) && forall j :: 0 <= j < i ==> CutItem(items[j])
    requires HeadOf(Fix(Stream(items[i..]))) != Cut(items[i].event)
    ensures !LinuxAlways(items)
  {
    var front, x := Stream(items[..i]), Stream(items[i..]);
    StreamSplits(items, i);
    RestHasTerminator(items, i);
    FirstRead(items, i, x);
    WrongEvents(items, i, x);
    TwoChunks(front + x, []);
    assert Concat([front + x]) == Stream(items);
  }

  // ---------------------------------------------------------------- a bad cutting for each unsafe form

  /** Item i is a part of the stream. */
  lemma PieceOf(items: seq<Item>, i: nat, k: nat) returns (rest: ustring)
    requires i < |items| && 0 < k <= |items[i].raw|
    ensures items[i].raw[..k] + rest == Stream(items[i..])
    ensures Fix(items[i].raw[..k]) == Fix(items[i].raw)[..k]
  {
    var raw := items[i].raw;
    rest := raw[k..] + Stream(items[i..][1..]);
    FixPrefix(raw, k);
    assert raw == raw[..k] + raw[k..];
    Assoc(raw[..k], raw[k..], Stream(items[i..][1..]));
  }

  /** A proper part of a reply that the parser takes for something is a bad piece. */
  lemma PieceTaken(items: seq<Item>, i: nat, k: nat)
    requires i < |items| && AllReplies(items) && forall j :: 0 <= j < i ==> CutItem(items[j])
    requires 0 < k < |items[i].raw| && !Parse(items[i].event.message[..k]).NotComplete?
    requires i > 0 || CR in items[i].event.message[..k]
    ensures !LinuxAlways(items)
  {
    assert ReplyItem(items[i]);
    var rest := PieceOf(items, i, k);
    var x := items[i].raw[..k];
    FixTerminator(x);
    WrongPiece(items, i, x, rest);
  }

  /** A long module identification with a terminator in the place of the end of a short one. */
  lemma LongTRInfoFails(items: seq<Item>, i: nat)
    requires i < |items| && AllReplies(items) && forall j :: 0 <= j < i ==> CutItem(items[j])
    requires var m := items[i].event.message; items[i].event.msgType == TrInfo && |m| == 37 && m[20] == CR
    ensures !LinuxAlways(items)
  {
    assert ReplyItem(items[i]);
    var m := items[i].event.message;
    BeginsPrefix(m, "<IT:", 21);
    TRInfoVerdict(m[..21]);
    assert m[..21][20] == CR;
    PieceTaken(items, i, 21);
  }

  lemma StreamFrom(items: seq<Item>, i: nat)
    requires i < |items|
    ensures Stream(items[i..]) == items[i].raw + Stream(items[i + 1..])
  {
    assert items[i..][1..] == items[i + 1..] && items[i..][0] == items[i];
  }

  lemma {:induction false} StreamEnds(items: seq<Item>, i: nat)
    requires i < |items| && AllReplies(items)
    ensures Ended(Stream(items[i..]))
    decreases |items| - i
  {
    assert ReplyItem(items[i]);
    RawEnds(items[i]);
    StreamFrom(items, i);
    EndedJoin(items[i].raw, Stream(items[i + 1..]));
    if i + 1 < |items| {
      StreamEnds(items, i + 1);
    } else {
      assert items[i + 1..] == [];
    }
  }

  /** What follows an item in the whole stream. */
  lemma Behind(items: seq<Item>, i: nat) returns (more: ustring)
    requires i + 1 < |items| && AllReplies(items)
    ensures Fix(Stream(items[i..])) == items[i].event.message + more
    ensures Ended(more)
  {
    assert ReplyItem(items[i]);
    RawEnds(items[i]);
    more := Stream(items[i + 1..]);
    StreamFrom(items, i);
    FixAppend(items[i].raw, more);
    StreamEnds(items, i + 1);
  }

  /** A reply that is told by the size of the buffer is not told before something else. */
  lemma SizedWrong(t: MessageType, m: ustring, more: ustring)
    requires IsReply(t, m) && Ended(more)
    requires t == UploadDownload || t == DownloadData || (t == TrInfo && |m| == 21)
    ensures HeadOf(m + more) != Cut(Delivered(t, m))
  {
    ReplyEnds(t, m);
    if t == TrInfo {
      BeginsMore(m, more, "<IT:");
      TRInfoVerdict(m + more);
    } else {
      AtLeastSix(t, m);
      BeginsMore(m, more, "<PM:");
      DownloadVerdict(m + more);
      assert (m + more)[|m + more| - 1] == CR;
    }
  }

  /** A reply that is told by the size of the buffer fails before anything else. */
  lemma SizedFails(items: seq<Item>, i: nat)
    requires i + 1 < |items| && AllReplies(items) && forall j :: 0 <= j < i ==> CutItem(items[j])
    requires var t, m := items[i].event.msgType, items[i].event.message;
             t == UploadDownload || t == DownloadData || (t == TrInfo && |m| == 21)
    ensures !LinuxAlways(items)
  {
    assert ReplyItem(items[i]);
    var more := Behind(items, i);
    SizedWrong(items[i].event.msgType, items[i].event.message, more);
    WrongWhole(items, i);
  }

  lemma AtLeastSix(t: MessageType, m: ustring)
    requires IsReply(t, m) && (t == UploadDownload || t == DownloadData)
    ensures 6 <= |m|
  {
  }

  lemma UnsafeBeforeFails(items: seq<Item>, i: nat)
    requires i + 1 < |items| && AllReplies(items) && forall j :: 0 <= j < i ==> CutItem(items[j])
    requires !SafeBefore(items[i].event.msgType, items[i].event.message)
    ensures !LinuxAlways(items)
  {
    assert ReplyItem(items[i]);
    var t, m := items[i].event.msgType, items[i].event.message;
    if t == TrInfo && |m| == 37 {
      LongTRInfoFails(items, i);
    } else {
      SizedFails(items, i);
    }
  }

  // ---------------------------------------------------------------- the last reply

  /** A buffer of 7 or 9 bytes that ends in a terminator is decided. */
  lemma StatusDecided(data: ustring)
    requires Begins(data, "<PM:") && (|data| == 7 || |data| == 9) && data[|data| - 1] == CR
    ensures !Parse(data).NotComplete?
  {
    StatusVerdict(data);
    assert Reads(data, 80);
    var at := Walk(data, 80);
    var k := |Spelling(at)|;
    if k == |data| {
      assert data[..k][k - 1] == CR && Fits(data[..k][k - 1], Spelling(at)[k - 1]);
      InnerText(at);
    }
  }

  /** The text of an inner state of the status part does not end in a terminator. */
  lemma InnerText(state: nat)
    requires 80 <= state <= 93 && Spelled(state) && !IsFiniteState(state)
    ensures Spelling(state) != "" && !Fits(CR, Spelling(state)[|Spelling(state)| - 1])
  {
  }

  /** A part of a programming reply of six or more bytes is decided, unless it has 7 or 9 bytes and no terminator at its end. */
  lemma PMPartDecided(m: ustring, k: nat)
    requires Begins(m, "<PM:") && 6 <= k <= |m| && (k == 7 || k == 9 ==> m[k - 1] == CR)
    ensures !Parse(m[..k]).NotComplete?
  {
    BeginsPrefix(m, "<PM:", k);
    if k == 7 || k == 9 {
      StatusDecided(m[..k]);
    } else {
      DownloadVerdict(m[..k]);
    }
  }

  /** Behind other replies, a programming reply of more than 6 bytes is cut in two by a read that brings 6 of them. */
  lemma PMBehindFails(items: seq<Item>, i: nat)
    requires 0 < i < |items| && AllReplies(items) && forall j :: 0 <= j < i ==> CutItem(items[j])
    requires items[i].event.msgType == UploadDownload || items[i].event.msgType == DownloadData
    requires |items[i].event.message| > 6
    ensures !LinuxAlways(items)
  {
    assert ReplyItem(items[i]);
    var m := items[i].event.message;
    ReplyEnds(items[i].event.msgType, m);
    PMPartDecided(m, 6);
    PieceTaken(items, i, 6);
  }

  /** Alone, download data fails that is not recognisable or has a terminator inside it. */
  lemma PMAloneFails(items: seq<Item>)
    requires |items| == 1 && AllReplies(items) && items[0].event.msgType == DownloadData
    requires !SafeAlone(DownloadData, items[0].event.message)
    ensures !LinuxAlways(items)
  {
    assert ReplyItem(items[0]);
    var m := items[0].event.message;
    if |m| == 7 || |m| == 9 {
      AcceptsExactly(m, DownloadData, |m| - 1);
      assert m[..|m|] == m;
      assert items[0..] == [items[0]];
      OneItem(items[0]);
      WrongWhole(items, 0);
    } else {
      var q :| 0 <= q < |m| - 1 && m[..|m| - 1][q] == CR;
      var k := if q < 6 then 6 else q + 1;
      PMPartDecided(m, k);
      assert m[..k][q] == CR;
      PieceTaken(items, 0, k);
    }
  }

  /** A status has no terminator inside it. */
  lemma StatusUnbroken(m: ustring)
    requires IsReply(UploadDownload, m)
    ensures CR !in m[..|m| - 1] && (|m| == 7 || |m| == 9)
  {
    var form :| form in FixedForms(UploadDownload) && Matches(m, form);
    forall i | 0 <= i < |m| - 1
      ensures m[i] != CR
    {
      assert Fits(m[i], form[i]);
    }
  }

  /** Empty data at the end of a stream is never delivered. */
  lemma EmptyDataFails(items: seq<Item>, i: nat)
    requires i + 1 == |items| && AllReplies(items) && forall j :: 0 <= j < i ==> CutItem(items[j])
    requires items[i].event.msgType == Async && |items[i].event.message| == 6
    ensures !LinuxAlways(items)
  {
    assert ReplyItem(items[i]);
    AsyncVerdict(items[i].event.message);
    assert items[i..] == [items[i]];
    OneItem(items[i]);
    WrongWhole(items, i);
  }

  lemma UnsafeLastFails(items: seq<Item>, i: nat)
    requires i + 1 == |items| && AllReplies(items) && forall j :: 0 <= j < i ==> CutItem(items[j])
    requires !SafeAt(items, i)
    ensures !LinuxAlways(items)
  {
    assert ReplyItem(items[i]);
    var t, m := items[i].event.msgType, items[i].event.message;
    if t == TrInfo {
      LongTRInfoFails(items, i);
    } else if t == Async {
      EmptyDataFails(items, i);
    } else if t == UploadDownload {
      StatusUnbroken(m);
      PMBehindFails(items, i);
    } else if i > 0 {
      AtLeastSix(t, m);
      PMBehindFails(items, i);
    } else {
      PMAloneFails(items);
    }
  }

  // ---------------------------------------------------------------- exactly

  /** The first reply whose form is not safe in its place. */
  lemma FirstUnsafe(items: seq<Item>, bad: nat) returns (i: nat)
    requires AllReplies(items) && bad < |items| && !SafeAt(items, bad)
    ensures i < |items| && !SafeAt(items, i) && forall j :: 0 <= j < i ==> SafeAt(items, j)
  {
    i := bad;
    if j :| 0 <= j < bad && !SafeAt(items, j) {
      i := FirstUnsafe(items, j);
    }
  }

  lemma SafeCut(items: seq<Item>, j: nat)
    requires AllReplies(items) && j + 1 < |items| && SafeAt(items, j)
    ensures CutItem(items[j])
  {
    var item := items[j];
    assert ReplyItem(item);
    SafeBeforeSteady(item.event.msgType, item.event.message, item.raw);
  }

  /**
   * A stream of replies arrives on Linux however it is cut up exactly if every reply before the last
   * delimits itself or is empty data, and the last delimits itself, is a short module identification
   * or download data of two bytes, or is alone, recognisable and without an inner terminator.
   */
  lemma ArrivesExactly(items: seq<Item>)
    requires AllReplies(items)
    ensures LinuxAlways(items) <==> AllSafe(items)
  {
    if AllSafe(items) {
      SafeArrives(items);
    } else {
      var bad :| 0 <= bad < |items| && !SafeAt(items, bad);
      var i := FirstUnsafe(items, bad);
      forall j | 0 <= j < i
        ensures CutItem(items[j])
      {
        SafeCut(items, j);
      }
      if i + 1 < |items| {
        UnsafeBeforeFails(items, i);
      } else {
        UnsafeLastFails(items, i);
      }
    }
  }

  /** On the same condition, both platforms always deliver it, whichever way each of them is fed. */
  lemma BothDeliverExactly(items: seq<Item>)
    requires AllReplies(items)
    ensures LinuxAlways(items) && WindowsAlways(items) <==> AllSafe(items)
  {
    ArrivesExactly(items);
    if AllSafe(items) {
      SafeArrives(items);
    }
  }

  // ---------------------------------------------------------------- replies that delimit themselves

  /** Replies that delimit themselves arrive whole and in order on both platforms, however they are cut up. */
  lemma RepliesArrive(items: seq<Item>)
    requires AllReplies(items)
    requires forall i :: 0 <= i < |items| ==> DelimitsItself(items[i].event.msgType, items[i].event.message)
    ensures LinuxAlways(items) && WindowsAlways(items)
  {
    assert forall i :: 0 <= i < |items| ==> SafeAt(items, i);
    SafeArrives(items);
  }

  // ---------------------------------------------------------------- a line that is no reply

  /** A line without inner terminator that the parser rejects, with '>' for '<' if need be. */
  predicate RejectedLine(line: ustring) {
    && line != [] && line[|line| - 1] == CR && CR !in line[..|line| - 1]
    && Parse(Fix(line)).BadFormat?
  }

  /** The replies behind it are safe where they stand. */
  ghost predicate SafeRest(items: seq<Item>)
    requires AllReplies(items)
  {
    forall i :: 0 <= i < |items| ==>
      var t, m := items[i].event.msgType, items[i].event.message;
      if i < |items| - 1 then SafeBefore(t, m) else SafeBehind(t, m)
  }

  function WithLine(line: ustring, items: seq<Item>): (all: seq<Item>) {
    [Item(line, Discarded(Fix(line)))] + items
  }

  lemma FixedLine(line: ustring)
    requires RejectedLine(line)
    ensures var l := Fix(line); l != [] && l[|l| - 1] == CR && CR !in l[..|l| - 1] && HeadOf(l) == Cut(Discarded(l))
  {
    var l := Fix(line);
    assert forall i :: 0 <= i < |l| - 1 ==> l[i] == CR ==> line[..|line| - 1][i] == CR;
    RejectedLineHead(l);
  }

  lemma LinesWithLine(line: ustring, items: seq<Item>)
    requires RejectedLine(line) && AllReplies(items) && SafeRest(items)
    ensures Lines(WithLine(line, items))
  {
    var all := WithLine(line, items);
    FixedLine(line);
    NoneInside(Fix(line));
    assert LineAt(all, 0);
    forall i | 0 < i < |all|
      ensures LineAt(all, i)
    {
      PlaceBehind(line, items, i - 1);
    }
  }

  lemma PlaceBehind(line: ustring, items: seq<Item>, i: nat)
    requires AllReplies(items) && SafeRest(items) && i < |items|
    ensures var all := WithLine(line, items); InPlace(all, i + 1) && LineAt(all, i + 1)
  {
    var all := WithLine(line, items);
    SafePlace(items, i);
    assert all[i + 1] == items[i];
    PlacedLine(all, i + 1);
    PlacedWhole(all, i + 1);
  }

  lemma PlacedLine(all: seq<Item>, i: nat)
    requires i < |all|
    requires var m, e := Fix(all[i].raw), all[i].event; if i < |all| - 1 then Steady(m, e) else Final(m, e)
    ensures LineAt(all, i)
  {
  }

  /** The Windows loop discards the line exactly, and delivers all replies behind it. */
  lemma WindowsResynchronises(line: ustring, items: seq<Item>)
    requires RejectedLine(line) && AllReplies(items) && SafeRest(items)
    ensures WindowsAlways(WithLine(line, items))
  {
    var all := WithLine(line, items);
    LinesWithLine(line, items);
    forall arrivals | Pushed(0, arrivals) == Stream(all)
      ensures WindowsReads([], 0, arrivals) == Drained(Events(all), [])
    {
      LinesDelivered(all, arrivals);
    }
  }

  lemma SafePlace(items: seq<Item>, i: nat)
    requires AllReplies(items) && SafeRest(items) && i < |items|
    ensures var m, e := Fix(items[i].raw), items[i].event; if i < |items| - 1 then Steady(m, e) else Final(m, e)
  {
    var item := items[i];
    assert ReplyItem(item);
    if i < |items| - 1 {
      SafeBeforeSteady(item.event.msgType, item.event.message, item.raw);
    } else {
      SafeBehindFinal(item.event.msgType, item.event.message, item.raw);
    }
  }

  lemma LineFirst(line: ustring, items: seq<Item>)
    requires RejectedLine(line) && !Begins(Fix(line), "<PM:")
    ensures InPlace(WithLine(line, items), 0)
  {
    FixedLine(line);
    RejectedLineOpening(Fix(line));
  }

  lemma OrderlyWithLine(line: ustring, items: seq<Item>)
    requires RejectedLine(line) && AllReplies(items) && SafeRest(items) && !Begins(Fix(line), "<PM:")
    ensures Orderly(WithLine(line, items))
  {
    var all := WithLine(line, items);
    LineFirst(line, items);
    forall i | 0 < i < |all|
      ensures InPlace(all, i)
    {
      PlaceBehind(line, items, i - 1);
    }
  }

  lemma PlacedWhole(all: seq<Item>, i: nat)
    requires i < |all|
    requires var m, e := Fix(all[i].raw), all[i].event; if i < |all| - 1 then Steady(m, e) else Final(m, e)
    ensures InPlace(all, i)
  {
  }

  /** So does the Linux loop, if the line begins no programming reply. */
  lemma LinuxResynchronises(line: ustring, items: seq<Item>)
    requires RejectedLine(line) && AllReplies(items) && SafeRest(items) && !Begins(Fix(line), "<PM:")
    ensures LinuxAlways(WithLine(line, items))
  {
    var all := WithLine(line, items);
    OrderlyWithLine(line, items);
    forall chunks | Concat(chunks) == Stream(all)
      ensures LinuxReads([], chunks) == Drained(Events(all), [])
    {
      LinuxFromEmpty(all, chunks);
    }
  }

  /** Alone, the line is discarded exactly in any case. */
  lemma LineAlone(line: ustring)
    requires RejectedLine(line)
    ensures LinuxAlways(WithLine(line, []))
  {
    var item := Item(line, Discarded(Fix(line)));
    FixedLine(line);
    NoneInside(Fix(line));
    OneItem(item);
    assert WithLine(line, []) == [item];
    forall chunks | Concat(chunks) == Stream([item])
      ensures LinuxReads([], chunks) == Drained(Events([item]), [])
    {
      assert [] + Concat(chunks) == line;
      ArrivesAlone(item, [], [], chunks);
    }
  }

  /** A rejected programming line, with what follows it, is taken for download data. */
  lemma ProgrammingLineHead(l: ustring, more: ustring)
    requires Begins(l, "<PM:") && Parse(l).BadFormat? && Ended(more)
    ensures HeadOf(l + more) == Cut(Delivered(DownloadData, l + more)) && CR in l + more
  {
    var x := l + more;
    BeginsMore(l, more, "<PM:");
    if |l| <= 5 {
      DownloadVerdict(l);
    }
    DownloadVerdict(x);
    assert x[|x| - 1] == more[|more| - 1];
    assert x[..|x|] == x;
  }

  lemma ProgrammingLineFails(line: ustring, items: seq<Item>)
    requires RejectedLine(line) && AllReplies(items) && items != [] && Begins(Fix(line), "<PM:")
    ensures !LinuxAlways(WithLine(line, items))
  {
    var all := WithLine(line, items);
    var more := Stream(items);
    assert all[1..] == items && items[0..] == items;
    StreamEnds(items, 0);
    FixAppend(line, more);
    ProgrammingLineHead(Fix(line), more);
    FixTerminator(line + more);
    WholeRead(line + more);
    TwoChunks(line + more, []);
    assert Concat([line + more]) == Stream(all);
  }

  /** What is cut off first when everything is read at once. */
  lemma WholeRead(s: ustring)
    requires s != [] && CR in s && HeadOf(Fix(s)).Cut?
    ensures LinuxRead([], s).events != [] && LinuxRead([], s).events[0] == HeadOf(Fix(s)).event
  {
    assert [] + s == s;
  }

  /**
   * A line that the parser rejects, in front of replies that are safe where they stand: the Linux loop
   * discards exactly the line and delivers all the replies, however the whole is cut up, exactly if
   * the line begins no programming reply, or nothing follows it.  The Windows loop always does.
   */
  lemma Resynchronises(line: ustring, items: seq<Item>)
    requires RejectedLine(line) && AllReplies(items) && SafeRest(items)
    ensures WindowsAlways(WithLine(line, items))
    ensures LinuxAlways(WithLine(line, items)) <==> (items == [] || !Begins(Fix(line), "<PM:"))
  {
    WindowsResynchronises(line, items);
    if items == [] {
      LineAlone(line);
    } else if Begins(Fix(line), "<PM:") {
      ProgrammingLineFails(line, items);
    } else {
      LinuxResynchronises(line, items);
    }
  }

  // ---------------------------------------------------------------- two correct replies that do not arrive

  const OK_REPLY: ustring := ['<' as int, 'O' as int, 'K' as int, CR]
  const PM_OK_REPLY: ustring := ['<' as int, 'P' as int, 'M' as int, ':' as int, 'O' as int, 'K' as int, CR]

  /**
   * Two replies on which the platforms differ: the Windows loop always delivers both, the Linux loop
   * does not.  A read that ends in the middle of the second makes it throw that away.
   */
  lemma PlatformsDiffer()
    ensures var items := [Item(OK_REPLY, Delivered(Test, OK_REPLY)), Item(PM_OK_REPLY, Delivered(UploadDownload, PM_OK_REPLY))];
            AllReplies(items) && WindowsAlways(items) && !LinuxAlways(items)
    ensures LinuxReads([], [OK_REPLY + PM_OK_REPLY[..6], [CR]]) ==
            Drained([Delivered(Test, OK_REPLY), Discarded(PM_OK_REPLY[..6]), Discarded([CR])], [])
  {
    TheyAreReplies();
    LinuxHalf();
    var first := Item(OK_REPLY, Delivered(Test, OK_REPLY));
    var second := Item(PM_OK_REPLY, Delivered(UploadDownload, PM_OK_REPLY));
    TwoReplies(first, second);
    OneTerminatorIsLine(Test, first.event.message);
    OneTerminatorIsLine(UploadDownload, second.event.message);
    TwoLines(first, second);
  }

  /** A status behind another reply is not safe. */
  lemma TwoReplies(first: Item, second: Item)
    requires ReplyItem(first) && ReplyItem(second) && second.event.msgType == UploadDownload
    ensures AllReplies([first, second]) && !LinuxAlways([first, second])
  {
    var items := [first, second];
    assert !SafeAt(items, 1);
    ArrivesExactly(items);
  }

  lemma TwoLines(first: Item, second: Item)
    requires Unbroken(Fix(first.raw)) && Slice(first.event) == Fix(first.raw) && HeadOf(Fix(first.raw)) == Cut(first.event)
    requires Unbroken(Fix(second.raw)) && Slice(second.event) == Fix(second.raw) && HeadOf(Fix(second.raw)) == Cut(second.event)
    ensures WindowsAlways([first, second])
  {
    var items := [first, second];
    assert forall i :: 0 <= i < |items| ==> LineAt(items, i);
    forall arrivals | Pushed(0, arrivals) == Stream(items)
      ensures WindowsReads([], 0, arrivals) == Drained(Events(items), [])
    {
      LinesDelivered(items, arrivals);
    }
  }

  lemma TheyAreReplies()
    ensures IsReply(Test, OK_REPLY) && IsReply(UploadDownload, PM_OK_REPLY)
    ensures CR !in OK_REPLY[..3] && CR !in PM_OK_REPLY[..6]
    ensures Fix(OK_REPLY) == OK_REPLY && Fix(PM_OK_REPLY) == PM_OK_REPLY
  {
    assert "<OK\r" in FixedForms(Test) && Matches(OK_REPLY, "<OK\r");
    assert "<PM:OK\r" in FixedForms(UploadDownload) && Matches(PM_OK_REPLY, "<PM:OK\r");
  }

  lemma LinuxHalf()
    requires IsReply(Test, OK_REPLY)
    ensures LinuxReads([], [OK_REPLY + PM_OK_REPLY[..6], [CR]]) ==
            Drained([Delivered(Test, OK_REPLY), Discarded(PM_OK_REPLY[..6]), Discarded([CR])], [])
  {
    var b := OK_REPLY + PM_OK_REPLY[..6];
    FirstHalf(b);
    LoneTerminator();
    ReadDrains([CR]);
    ReadTwice(b, [CR]);
  }

  lemma FirstHalf(b: ustring)
    requires IsReply(Test, OK_REPLY) && b == OK_REPLY + PM_OK_REPLY[..6]
    ensures LinuxRead([], b) == Drained([Delivered(Test, OK_REPLY), Discarded(PM_OK_REPLY[..6])], [])
  {
    var part := PM_OK_REPLY[..6];
    OkBefore(part);
    HalfStatus(part);
    assert b[3] == CR;
    ReadDrains(b);
  }

  lemma ReadDrains(b: ustring)
    ensures CR in b ==> LinuxRead([], b) == Drain(b)
  {
    assert [] + b == b;
  }

  /** Two reads, the first of which leaves nothing. */
  lemma ReadTwice(a: ustring, b: ustring)
    requires LinuxRead([], a).rest == []
    ensures LinuxReads([], [a, b]) == Drained(LinuxRead([], a).events + LinuxRead([], b).events, LinuxRead([], b).rest)
  {
    var chunks := [a, b];
    assert chunks[1..] == [b] && [b][1..] == [];
    assert LinuxReads([], [b]).events == LinuxRead([], b).events + [];
  }

  lemma OkBefore(more: ustring)
    requires IsReply(Test, OK_REPLY) && more != []
    ensures Drain(OK_REPLY + more) == Drained([Delivered(Test, OK_REPLY)] + Drain(more).events, Drain(more).rest)
  {
    var item := Item(OK_REPLY, Delivered(Test, OK_REPLY));
    ReplyItemSolid(item);
    DrainItem(item, more);
  }

  lemma HalfStatus(part: ustring)
    requires part == PM_OK_REPLY[..6]
    ensures Drain(part) == Drained([Discarded(part)], [])
  {
    assert Begins(part, "<PM:");
    DownloadVerdict(part);
    assert HeadOf(part) == Cut(Discarded(part));
    assert part[6..] == [];
  }

  lemma LoneTerminator()
    ensures Drain([CR]) == Drained([Discarded([CR])], [])
  {
    var b: ustring := [CR];
    assert Parse(b) == BadFormat(0);
    assert HeadOf(b) == Cut(Discarded(b));
    assert b[1..] == [];
  }
}
