/** The Windows loop on streams of replies: exactly which of them it delivers. */
module WindowsFeeding {
  import opened Bytes
  import opened Messages
  import opened Parsing
  import opened ParserTheorems
  import opened ParserVerdicts
  import opened Draining
  import opened Feeding
  import opened Cuttings

  // ---------------------------------------------------------------- the forms of replies

  /** Whether a reply of this form is one the Windows loop delivers, as the last one of a stream or before another one. */
  predicate WindowsSafe(t: MessageType, m: ustring, last: bool) {
    || DelimitsItself(t, m)
    || (EmptyData(t, m) && !last)
    || (t == TrInfo && |m| == 21)
    || t == UploadDownload
    || (t == DownloadData && |m| >= 6 && |m| != 7 && |m| != 9 && CR !in m[5..|m| - 1])
  }

  ghost predicate AllWindowsSafe(items: seq<Item>)
    requires AllReplies(items)
  {
    forall i :: 0 <= i < |items| ==> WindowsSafe(items[i].event.msgType, items[i].event.message, i == |items| - 1)
  }

  /** What is cut off when its last byte comes. */
  lemma FinalLine(items: seq<Item>, i: nat)
    requires i < |items| && Final(Fix(items[i].raw), items[i].event)
    ensures LineAt(items, i)
  {
  }

  lemma StatusLine(m: ustring)
    requires IsReply(UploadDownload, m)
    ensures Unbroken(m) && HeadOf(m) == Cut(Delivered(UploadDownload, m))
  {
    StatusUnbroken(m);
    OneTerminatorIsLine(UploadDownload, m);
  }

  lemma NotBehindFive(m: ustring)
    requires 6 <= |m| && CR !in m[5..|m| - 1]
    ensures forall q :: 5 <= q < |m| - 1 ==> m[q] != CR
  {
    forall q | 5 <= q < |m| - 1
      ensures m[q] != CR
    {
      assert m[5..|m| - 1][q - 5] == m[q];
    }
  }

  /** Download data is broken exactly by a terminator in the place of its second byte or behind it. */
  lemma DownloadUnbroken(m: ustring)
    requires IsReply(DownloadData, m)
    ensures Unbroken(m) <==> CR !in m[5..|m| - 1]
  {
    if CR in m[5..|m| - 1] {
      var q :| 0 <= q < |m| - 6 && m[5..|m| - 1][q] == CR;
      PMPartDecided(m, q + 6);
      assert m[q + 5] == CR;
    } else {
      NotBehindFive(m);
      forall k | 0 < k < |m| && m[k - 1] == CR
        ensures Parse(m[..k]).NotComplete?
      {
        assert m[..4][0] == m[0] && m[..4][1] == m[1] && m[..4][2] == m[2] && m[..4][3] == m[3];
        BeginsPrefix(m, "<PM:", k);
        DownloadVerdict(m[..k]);
      }
    }
  }

  lemma DownloadLine(items: seq<Item>, i: nat)
    requires i < |items| && ReplyItem(items[i]) && items[i].event.msgType == DownloadData
    ensures LineAt(items, i) <==> WindowsSafe(DownloadData, items[i].event.message, i == |items| - 1)
  {
    var m := items[i].event.message;
    DownloadUnbroken(m);
    assert m[..|m|] == m;
    if |m| == 7 || |m| == 9 {
      StatusDecided(m);
      AcceptsExactly(m, DownloadData, |m| - 1);
    } else {
      DownloadVerdict(m);
    }
  }

  lemma LongTRInfoLine(m: ustring)
    requires IsReply(TrInfo, m) && |m| == 37 && m[20] == CR
    ensures !Unbroken(m)
  {
    BeginsPrefix(m, "<IT:", 21);
    TRInfoVerdict(m[..21]);
    assert m[..21][20] == CR;
  }

  /** The form of a reply decides whether it is a line in its place. */
  lemma LineExactly(items: seq<Item>, i: nat)
    requires i < |items| && ReplyItem(items[i])
    ensures LineAt(items, i) <==> WindowsSafe(items[i].event.msgType, items[i].event.message, i == |items| - 1)
  {
    var t, m := items[i].event.msgType, items[i].event.message;
    if DelimitsItself(t, m) || (t == TrInfo && |m| == 21) {
      SafeBehindFinal(t, m, items[i].raw);
      FinalLine(items, i);
    } else if EmptyData(t, m) {
      EmptyDataSteady(m);
      AsyncVerdict(m);
    } else if t == TrInfo {
      LongTRInfoLine(m);
    } else if t == UploadDownload {
      StatusLine(m);
    } else {
      DownloadLine(items, i);
    }
  }

  /** Only empty data is left alone as a whole. */
  lemma LeftAlone(t: MessageType, m: ustring)
    requires IsReply(t, m) && HeadOf(m) == Nothing
    ensures EmptyData(t, m)
  {
    if DelimitsItself(t, m) || (t == TrInfo && |m| == 21) {
      SafeBehindFinal(t, m, m);
    } else if t == TrInfo {
      TRInfoVerdict(m);
    } else if t == UploadDownload {
      StatusLine(m);
    } else if t == DownloadData {
      ReplyEnds(t, m);
      WholePart(m);
      PMPartDecided(m, |m|);
    }
  }

  lemma WholePart(m: ustring)
    ensures m[..|m|] == m
  {
  }

  // ---------------------------------------------------------------- byte by byte

  function ByteWise(s: ustring): (arrivals: seq<Arrival>) {
    if s == [] then [] else [Byte(s[0])] + ByteWise(s[1..])
  }

  /** The Windows loop on bytes, one after the other. */
  function Feed(buffer: ustring, s: ustring): (d: Drained)
    decreases |s|
  {
    if s == [] then Drained([], buffer)
    else
      var first := WindowsRead(buffer, 0, Byte(s[0]));
      var others := Feed(first.rest, s[1..]);
      Drained(first.events + others.events, others.rest)
  }

  lemma {:induction false} FeedIs(buffer: ustring, byteRead: byte, s: ustring)
    ensures Pushed(byteRead, ByteWise(s)) == s
    ensures WindowsReads(buffer, byteRead, ByteWise(s)) == Feed(buffer, s)
    decreases |s|
  {
    if s != [] {
      var rest := ByteWise(s[1..]);
      assert ByteWise(s)[1..] == rest;
      FeedIs(WindowsRead(buffer, 0, Byte(s[0])).rest, s[0], s[1..]);
    }
  }

  /** What is fed, and then fed on. */
  function FeedOn(d: Drained, s: ustring): (d': Drained) {
    Drained(d.events + Feed(d.rest, s).events, Feed(d.rest, s).rest)
  }

  lemma {:induction false} FeedJoin(buffer: ustring, s: ustring, t: ustring)
    ensures Feed(buffer, s + t) == FeedOn(Feed(buffer, s), t)
    decreases |s|
  {
    if s == [] {
      assert s + t == t && [] + Feed(buffer, t).events == Feed(buffer, t).events;
    } else {
      var first := WindowsRead(buffer, 0, Byte(s[0]));
      assert (s + t)[1..] == s[1..] + t && (s + t)[0] == s[0];
      FeedJoin(first.rest, s[1..], t);
      Assoc(first.events, Feed(first.rest, s[1..]).events, Feed(Feed(first.rest, s[1..]).rest, t).events);
    }
  }

  lemma FeedByte(buffer: ustring, b: byte)
    ensures Feed(buffer, [b]) == if b == CR then Drain(buffer + [b]) else Drained([], buffer + [b])
  {
    assert [b][1..] == [];
    var d := WindowsRead(buffer, 0, Byte(b));
    assert d.events + [] == d.events;
  }

  // ---------------------------------------------------------------- one reply

  /** At every terminator among the first k bytes, raw is left alone. */
  ghost predicate Quiet(raw: ustring, k: nat)
    requires k <= |raw|
  {
    forall j :: 0 < j <= k && raw[j - 1] == CR ==> Parse(Fix(raw)[..j]).NotComplete?
  }

  lemma QuietDrains(raw: ustring, k: nat)
    requires 0 < k <= |raw| && Quiet(raw, k) && raw[k - 1] == CR
    ensures Drain(raw[..k]) == Drained([], Fix(raw[..k]))
  {
    FixPrefix(raw, k);
  }

  lemma OneMoreByte(raw: ustring, k: nat)
    requires 0 < k <= |raw|
    ensures raw[..k - 1] + [raw[k - 1]] == raw[..k]
  {
  }

  /** At a terminator: what was held back is cut off, and then what there is of the reply is drained. */
  lemma DrainsFront(front: seq<Item>, buffer: ustring, raw: ustring, k: nat)
    requires (forall i :: 0 <= i < |front| ==> CutItem(front[i])) && 0 < k <= |raw| && raw[k - 1] == CR
    requires Holds(buffer, Stream(front) + raw[..k - 1])
    ensures Drain(buffer + [CR]) == Drained(Events(front) + Drain(raw[..k]).events, Drain(raw[..k]).rest)
  {
    HoldsMore(buffer, Stream(front) + raw[..k - 1], [CR]);
    OneMoreByte(raw, k);
    Assoc(Stream(front), raw[..k - 1], [CR]);
    DrainItems(front, raw[..k]);
  }

  lemma DrainsRest(buffer: ustring, raw: ustring, k: nat)
    requires 0 < k <= |raw| && raw[k - 1] == CR && Holds(buffer, raw[..k - 1])
    ensures Drain(buffer + [CR]) == Drain(raw[..k])
  {
    HoldsMore(buffer, raw[..k - 1], [CR]);
    OneMoreByte(raw, k);
  }

  /** What d is after k bytes of raw, when front was held back. */
  ghost predicate Standing(d: Drained, front: seq<Item>, raw: ustring, k: nat)
    requires k <= |raw|
  {
    if CR in raw[..k] then d.events == Events(front) && Holds(d.rest, raw[..k])
    else d.events == [] && Holds(d.rest, Stream(front) + raw[..k])
  }

  lemma FeedLast(buffer: ustring, raw: ustring, k: nat)
    requires 0 < k <= |raw|
    ensures raw[..k] == raw[..k - 1] + [raw[k - 1]]
    ensures Feed(buffer, raw[..k]) == FeedOn(Feed(buffer, raw[..k - 1]), [raw[k - 1]])
    ensures CR in raw[..k] <==> CR in raw[..k - 1] || raw[k - 1] == CR
  {
    OneMoreByte(raw, k);
    FeedJoin(buffer, raw[..k - 1], [raw[k - 1]]);
  }

  /** The buffer holds front, which is cut off before anything else. */
  ghost predicate Waits(front: seq<Item>, buffer: ustring) {
    (forall i :: 0 <= i < |front| ==> CutItem(front[i])) && Holds(buffer, Stream(front))
  }

  /** The first k bytes, while nothing is taken for anything. */
  lemma {:induction false} FeedQuiet(front: seq<Item>, buffer: ustring, raw: ustring, k: nat)
    requires Waits(front, buffer)
    requires k <= |raw| && Quiet(raw, k)
    ensures Standing(Feed(buffer, raw[..k]), front, raw, k)
    decreases k
  {
    if k == 0 {
      assert raw[..0] == [] && Stream(front) + [] == Stream(front);
    } else {
      FeedQuiet(front, buffer, raw, k - 1);
      FeedLast(buffer, raw, k);
      var d, b := Feed(buffer, raw[..k - 1]), raw[k - 1];
      FeedByte(d.rest, b);
      if b == CR {
        QuietDrains(raw, k);
        FeedTerminator(front, buffer, raw, k);
        assert Events(front) + [] == Events(front);
      } else {
        HoldsMore(d.rest, if CR in raw[..k - 1] then raw[..k - 1] else Stream(front) + raw[..k - 1], [b]);
        Assoc(Stream(front), raw[..k - 1], [b]);
        assert d.events + [] == d.events;
      }
    }
  }

  /** The next terminator: all there is of raw is drained. */
  lemma FeedTerminator(front: seq<Item>, buffer: ustring, raw: ustring, k: nat)
    requires (forall i :: 0 <= i < |front| ==> CutItem(front[i]))
    requires 0 < k <= |raw| && raw[k - 1] == CR && Standing(Feed(buffer, raw[..k - 1]), front, raw, k - 1)
    ensures Feed(buffer, raw[..k]) == Drained(Events(front) + Drain(raw[..k]).events, Drain(raw[..k]).rest)
  {
    FeedLast(buffer, raw, k);
    var d := Feed(buffer, raw[..k - 1]);
    FeedByte(d.rest, CR);
    if CR in raw[..k - 1] {
      DrainsRest(d.rest, raw, k);
    } else {
      DrainsFront(front, d.rest, raw, k);
      assert [] + Drain(d.rest + [CR]).events == Drain(d.rest + [CR]).events;
    }
  }

  // ---------------------------------------------------------------- streams that are not delivered

  /** A wrong event in its place stays there. */
  lemma WrongStays(front: seq<Event>, wrong: seq<Event>, more: seq<Event>, right: Event, others: seq<Event>)
    requires wrong != [] && wrong[0] != right
    ensures front + wrong + more != front + ([right] + others)
  {
    assert (front + wrong + more)[|front|] == wrong[0];
    assert (front + ([right] + others))[|front|] == right;
  }

  /** At byte k of the first reply something else than the reply is cut off. */
  lemma WrongAt(front: seq<Item>, buffer: ustring, items: seq<Item>, k: nat)
    requires Waits(front, buffer)
    requires items != [] && 0 < k <= |items[0].raw| && items[0].raw[k - 1] == CR && Quiet(items[0].raw, k - 1)
    requires HeadOf(Fix(items[0].raw[..k])).Cut? && HeadOf(Fix(items[0].raw[..k])) != Cut(items[0].event)
    ensures Feed(buffer, Stream(items)).events != Events(front) + Events(items)
  {
    var raw := items[0].raw;
    var rest := raw[k..] + Stream(items[1..]);
    assert raw[..k] + raw[k..] == raw;
    Assoc(raw[..k], raw[k..], Stream(items[1..]));
    FeedQuiet(front, buffer, raw, k - 1);
    FeedTerminator(front, buffer, raw, k);
    FeedJoin(buffer, raw[..k], rest);
    var d := Drain(raw[..k]);
    assert d.events[0] == HeadOf(Fix(raw[..k])).event;
    WrongStays(Events(front), d.events, Feed(d.rest, rest).events, items[0].event, Events(items[1..]));
  }

  /** The first terminator inside raw at which it is not left alone. */
  lemma FirstBreak(raw: ustring, k: nat) returns (n: nat)
    requires k <= |raw| && !Quiet(raw, k)
    ensures 0 < n <= k && raw[n - 1] == CR && !Parse(Fix(raw)[..n]).NotComplete? && Quiet(raw, n - 1)
  {
    n := k;
    if !Quiet(raw, k - 1) {
      n := FirstBreak(raw, k - 1);
    }
  }

  lemma UnbrokenIsQuiet(raw: ustring)
    requires raw != [] && raw[|raw| - 1] == CR && |raw| > 1
    ensures Unbroken(Fix(raw)) <==> Quiet(raw, |raw| - 1)
  {
    var m := Fix(raw);
    assert forall j :: 0 < j < |m| ==> m[j] == raw[j];
    assert m[0] == CR <==> raw[0] == CR;
  }

  lemma DeliveredLine(items: seq<Item>)
    requires items != [] && ReplyItem(items[0])
    requires Unbroken(Fix(items[0].raw)) && HeadOf(Fix(items[0].raw)) == Cut(items[0].event)
    ensures LineAt(items, 0)
  {
  }

  lemma RestNotLines(items: seq<Item>)
    requires AllReplies(items) && items != [] && LineAt(items, 0) && !Lines(items)
    ensures |items| > 1 && AllReplies(items[1..]) && !Lines(items[1..])
  {
    var bad :| 0 <= bad < |items| && !LineAt(items, bad);
    assert items[1..][bad - 1] == items[bad];
    assert !LineAt(items[1..], bad - 1);
  }

  lemma NoneWaits()
    ensures Waits([], [])
  {
  }

  /** A broken reply: something is cut off inside it. */
  lemma BrokenFails(front: seq<Item>, buffer: ustring, items: seq<Item>)
    requires Waits(front, buffer)
    requires items != [] && ReplyItem(items[0]) && !Unbroken(Fix(items[0].raw))
    ensures Feed(buffer, Stream(items)).events != Events(front) + Events(items)
  {
    var raw := items[0].raw;
    RawEnds(items[0]);
    UnbrokenIsQuiet(raw);
    var n := FirstBreak(raw, |raw| - 1);
    FixPrefix(raw, n);
    WrongAt(front, buffer, items, n);
  }

  /** An unbroken reply that is fed as a whole. */
  lemma WholeFed(front: seq<Item>, buffer: ustring, items: seq<Item>)
    requires Waits(front, buffer)
    requires items != [] && ReplyItem(items[0]) && Unbroken(Fix(items[0].raw))
    ensures var d := Drain(items[0].raw);
            Feed(buffer, Stream(items)) == FeedOn(Drained(Events(front) + d.events, d.rest), Stream(items[1..]))
  {
    var raw := items[0].raw;
    RawEnds(items[0]);
    UnbrokenIsQuiet(raw);
    FeedQuiet(front, buffer, raw, |raw| - 1);
    FeedTerminator(front, buffer, raw, |raw|);
    assert raw[..|raw|] == raw;
    FeedJoin(buffer, raw, Stream(items[1..]));
  }

  /** With front held back, a stream of replies of which one is not a line is not delivered. */
  lemma {:induction false} NotAllLines(front: seq<Item>, buffer: ustring, items: seq<Item>)
    requires Waits(front, buffer)
    requires AllReplies(items) && items != [] && !Lines(items)
    ensures Feed(buffer, Stream(items)) != Drained(Events(front) + Events(items), [])
    decreases |items|, 1
  {
    assert ReplyItem(items[0]);
    if !Unbroken(Fix(items[0].raw)) {
      BrokenFails(front, buffer, items);
    } else if HeadOf(Fix(items[0].raw)) == Cut(items[0].event) {
      DeliveredOn(front, buffer, items);
    } else if HeadOf(Fix(items[0].raw)) == Nothing {
      HeldOn(front, buffer, items);
    } else {
      WrongWholeFails(front, buffer, items);
    }
  }

  lemma WrongWholeFails(front: seq<Item>, buffer: ustring, items: seq<Item>)
    requires Waits(front, buffer)
    requires items != [] && ReplyItem(items[0]) && Unbroken(Fix(items[0].raw))
    requires HeadOf(Fix(items[0].raw)).Cut? && HeadOf(Fix(items[0].raw)) != Cut(items[0].event)
    ensures Feed(buffer, Stream(items)).events != Events(front) + Events(items)
  {
    var raw := items[0].raw;
    RawEnds(items[0]);
    UnbrokenIsQuiet(raw);
    WholePart(raw);
    WrongAt(front, buffer, items, |raw|);
  }

  lemma DeliveredOn(front: seq<Item>, buffer: ustring, items: seq<Item>)
    requires Waits(front, buffer)
    requires AllReplies(items) && items != [] && !Lines(items) && ReplyItem(items[0])
    requires Unbroken(Fix(items[0].raw)) && HeadOf(Fix(items[0].raw)) == Cut(items[0].event)
    ensures Feed(buffer, Stream(items)) != Drained(Events(front) + Events(items), [])
    decreases |items|, 0
  {
    DeliveredLine(items);
    RestNotLines(items);
    NoneWaits();
    NotAllLines([], [], items[1..]);
    DeliveredFirst(front, buffer, items);
  }

  lemma HeldOn(front: seq<Item>, buffer: ustring, items: seq<Item>)
    requires Waits(front, buffer)
    requires AllReplies(items) && items != [] && !Lines(items) && ReplyItem(items[0])
    requires Unbroken(Fix(items[0].raw)) && HeadOf(Fix(items[0].raw)) == Nothing
    ensures Feed(buffer, Stream(items)) != Drained(Events(front) + Events(items), [])
    decreases |items|, 0
  {
    HeldLine(items);
    if |items| > 1 {
      RestNotLines(items);
      NotAllLines([items[0]], Fix(items[0].raw), items[1..]);
    }
    HeldFirst(front, buffer, items);
  }

  /** A reply that is left alone is a line before another one. */
  lemma HeldLine(items: seq<Item>)
    requires items != [] && AllReplies(items)
    requires Unbroken(Fix(items[0].raw)) && HeadOf(Fix(items[0].raw)) == Nothing
    ensures Waits([items[0]], Fix(items[0].raw))
    ensures AllReplies(items[1..]) && (|items| > 1 ==> LineAt(items, 0))
  {
    assert ReplyItem(items[0]);
    LeftAlone(items[0].event.msgType, items[0].event.message);
    EmptyDataSteady(items[0].event.message);
    OneItem(items[0]);
  }

  lemma SameFront(front: seq<Event>, e: Event, a: seq<Event>, b: seq<Event>)
    requires a != b
    ensures front + [e] + a != front + ([e] + b)
  {
    assert (front + [e] + a)[|front| + 1..] == a && (front + ([e] + b))[|front| + 1..] == b;
  }

  /** The first reply is delivered, and the rest of the stream goes wrong. */
  lemma DeliveredFirst(front: seq<Item>, buffer: ustring, items: seq<Item>)
    requires Waits(front, buffer)
    requires items != [] && ReplyItem(items[0]) && Unbroken(Fix(items[0].raw))
    requires HeadOf(Fix(items[0].raw)) == Cut(items[0].event)
    requires Feed([], Stream(items[1..])) != Drained(Events([]) + Events(items[1..]), [])
    ensures Feed(buffer, Stream(items)) != Drained(Events(front) + Events(items), [])
  {
    WholeFed(front, buffer, items);
    DrainWhole(items[0]);
    var d := Feed([], Stream(items[1..]));
    assert Events([]) + Events(items[1..]) == Events(items[1..]);
    if d.events != Events(items[1..]) {
      SameFront(Events(front), items[0].event, d.events, Events(items[1..]));
    }
  }

  /** The first reply is held back, and the rest of the stream goes wrong, or there is none. */
  lemma HeldFirst(front: seq<Item>, buffer: ustring, items: seq<Item>)
    requires Waits(front, buffer)
    requires items != [] && ReplyItem(items[0]) && Unbroken(Fix(items[0].raw)) && HeadOf(Fix(items[0].raw)) == Nothing
    requires |items| > 1 ==>
               Feed(Fix(items[0].raw), Stream(items[1..])) != Drained(Events([items[0]]) + Events(items[1..]), [])
    ensures Feed(buffer, Stream(items)) != Drained(Events(front) + Events(items), [])
  {
    WholeFed(front, buffer, items);
    DrainWhole(items[0]);
    OneItem(items[0]);
    var d := Feed(Fix(items[0].raw), Stream(items[1..]));
    assert Events(front) + [] == Events(front);
    if |items| > 1 && d.events != Events(items) {
      assert Events(front) + d.events != Events(front) + Events(items) by {
        SameBehind(Events(front), d.events, Events(items));
      }
    }
  }

  lemma SameBehind(front: seq<Event>, a: seq<Event>, b: seq<Event>)
    requires a != b
    ensures front + a != front + b
  {
    assert (front + a)[|front|..] == a && (front + b)[|front|..] == b;
  }

  // ---------------------------------------------------------------- exactly

  /** The Windows loop always delivers a stream of replies exactly if each of them is a line in its place. */
  lemma WindowsLinesExactly(items: seq<Item>)
    requires AllReplies(items)
    ensures WindowsAlways(items) <==> Lines(items)
  {
    if Lines(items) {
      forall arrivals | Pushed(0, arrivals) == Stream(items)
        ensures WindowsReads([], 0, arrivals) == Drained(Events(items), [])
      {
        LinesDelivered(items, arrivals);
      }
    } else {
      NoneWaits();
      NotAllLines([], [], items);
      FeedIs([], 0, Stream(items));
      assert Events([]) + Events(items) == Events(items);
    }
  }

  /**
   * A stream of replies is delivered by the Windows loop, however its bytes come in, exactly if each
   * reply delimits itself, is empty data before another reply, a short module identification or a
   * programming status, or is download data of a recognisable size with no terminator behind its first byte.
   */
  lemma WindowsArrivesExactly(items: seq<Item>)
    requires AllReplies(items)
    ensures WindowsAlways(items) <==> AllWindowsSafe(items)
  {
    WindowsLinesExactly(items);
    forall i | 0 <= i < |items|
      ensures LineAt(items, i) <==> WindowsSafe(items[i].event.msgType, items[i].event.message, i == |items| - 1)
    {
      assert ReplyItem(items[i]);
      LineExactly(items, i);
    }
  }

  /** What always arrives on Linux always arrives on Windows; the other way round, exactly on the condition for Linux. */
  lemma WindowsOnlyExactly(items: seq<Item>)
    requires AllReplies(items)
    ensures LinuxAlways(items) ==> WindowsAlways(items)
    ensures WindowsAlways(items) && !LinuxAlways(items) <==> AllWindowsSafe(items) && !AllSafe(items)
  {
    ArrivesExactly(items);
    WindowsArrivesExactly(items);
    if AllSafe(items) {
      SafeArrives(items);
    }
  }
}
