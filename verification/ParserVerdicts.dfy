/**
 * How verdicts behave while a buffer grows: they are stable, a buffer is rejected exactly when no
 * continuation can help it, and which replies delimit themselves.
 */
module ParserVerdicts {
  import opened Bytes
  import opened Messages
  import opened Automaton
  import opened Parsing
  import opened ParserWalk
  import opened ParserTheorems

  /** Buffers whose verdict does not depend on how many bytes have come in after a message. */
  predicate Ordinary(data: ustring) {
    !Begins(data, "<IT:") && !Begins(data, "<PM:")
  }

  // ---------------------------------------------------------------- stability

  lemma BeginsMore(data: ustring, more: ustring, pattern: string)
    requires Begins(data, pattern)
    ensures Begins(data + more, pattern)
  {
    assert (data + more)[..|pattern|] == data[..|pattern|];
  }

  /** Where the tree is left by dying or accepting, it is left so whatever follows. */
  lemma LeavesStable(data: ustring, more: ustring, at: nat)
    requires Leaves(data, at) && !IsSpecialState(at) && !(80 <= at <= 93)
    requires |Spelling(at)| < |data|
    ensures Parse(data + more) == Parse(data) && !Parse(data).NotComplete?
  {
    var k := |Spelling(at)|;
    BeginsMore(data, more, Spelling(at));
    Follow(data, at);
    Follow(data + more, at);
    assert (data + more)[k] == data[k];
  }

  lemma USBInfoStable(data: ustring, more: ustring)
    requires Begins(data, "<I:") && !Parse(data).NotComplete?
    ensures Parse(data + more) == Parse(data)
  {
    BeginsMore(data, more, "<I:");
    USBInfoVerdict(data);
    USBInfoVerdict(data + more);
    ScanStable(data, more, 3, Type);
  }

  lemma AsyncStable(data: ustring, more: ustring)
    requires Begins(data, "<DR?:") && !Parse(data).NotComplete?
    ensures Parse(data + more) == Parse(data)
  {
    BeginsMore(data, more, "<DR?:");
    AsyncVerdict(data);
    AsyncVerdict(data + more);
  }

  /** Bytes that follow never change an acceptance or a rejection, nor the position it was made at. */
  lemma VerdictStable(data: ustring, more: ustring)
    requires Ordinary(data) && !Parse(data).NotComplete?
    ensures Parse(data + more) == Parse(data)
  {
    var at := Walk(data, 0);
    if at == 17 {
      USBInfoStable(data, more);
    } else if at == 50 {
      AsyncStable(data, more);
    } else {
      LeavesStable(data, more, at);
    }
  }

  lemma TRInfoStable(data: ustring, more: ustring)
    requires Begins(data, "<IT:") && |data| >= 37
    ensures Parse(data + more) == Parse(data)
  {
    BeginsMore(data, more, "<IT:");
    TRInfoVerdict(data);
    TRInfoVerdict(data + more);
    assert (data + more)[36] == data[36];
  }

  /** A verdict on a programming reply changes with some bytes that follow. */
  lemma PMUnstable(data: ustring) returns (more: ustring)
    requires Begins(data, "<PM:") && !Parse(data).NotComplete?
    ensures Parse(data + more) != Parse(data)
  {
    if |data| <= 5 {
      DownloadVerdict(data);
    }
    more := if |data| == 6 || |data| == 8 then [0, 0] else [0];
    BeginsMore(data, more, "<PM:");
    DownloadVerdict(data + more);
  }

  lemma ShortTRInfoUnstable(data: ustring)
    requires Begins(data, "<IT:") && |data| < 37 && !Parse(data).NotComplete?
    ensures Parse(data + [0]) != Parse(data)
  {
    BeginsMore(data, [0], "<IT:");
    TRInfoVerdict(data);
    TRInfoVerdict(data + [0]);
  }

  /** A verdict is stable exactly if the size of the buffer was not asked for. */
  lemma StableExactly(data: ustring)
    requires !Parse(data).NotComplete?
    ensures (forall more :: Parse(data + more) == Parse(data)) <==>
            !Begins(data, "<PM:") && (Begins(data, "<IT:") ==> |data| >= 37)
  {
    if Begins(data, "<PM:") {
      var more := PMUnstable(data);
    } else if Begins(data, "<IT:") && |data| < 37 {
      ShortTRInfoUnstable(data);
    } else {
      forall more
        ensures Parse(data + more) == Parse(data)
      {
        if Begins(data, "<IT:") {
          TRInfoStable(data, more);
        } else {
          VerdictStable(data, more);
        }
      }
    }
  }

  // ---------------------------------------------------------------- replies that delimit themselves

  /** m is recognised whatever follows it, and no proper part of it from its start is taken for anything. */
  ghost predicate SelfDelimiting(m: ustring) {
    && |m| > 0
    && (exists t :: AcceptedAlways(m, t))
    && forall k :: 0 < k < |m| ==> Parse(m[..k]).NotComplete?
  }

  ghost predicate AcceptedAlways(m: ustring, t: MessageType)
    requires |m| > 0
  {
    forall more :: Parse(m + more) == Ok(t, |m| - 1)
  }

  /** The replies that delimit themselves, by their form. */
  predicate DelimitsItself(t: MessageType, m: ustring) {
    && t != UploadDownload && t != DownloadData
    && (t == TrInfo ==> |m| == 37 && m[20] != CR)
    && (t == Async ==> |m| > 3 && m[3] != 0)
  }

  lemma HeadFits(m: ustring, pattern: string, i: nat)
    requires i < |pattern|
    ensures Begins(m, pattern) ==> Fits(m[i], pattern[i])
  {
    if Begins(m, pattern) {
      assert m[..|pattern|][i] == m[i];
    }
  }

  lemma FixedReplyEnds(t: MessageType, m: ustring, form: string)
    requires form in FixedForms(t) && Matches(m, form)
    ensures |m| >= 4 && m[0] == '<' as int && m[|m| - 1] == CR
    ensures t == UploadDownload ==> Begins(m, "<PM:") && (|m| == 7 || |m| == 9)
    ensures t != UploadDownload ==> Ordinary(m)
  {
    assert form[0] == '<' && form[|form| - 1] == '\r';
    assert Fits(m[0], form[0]) && Fits(m[|m| - 1], form[|m| - 1]);
    if t != UploadDownload {
      OrdinaryByThree(m, form);
    }
  }

  lemma OrdinaryByThree(m: ustring, form: string)
    requires Matches(m, form) && |form| >= 4
    requires form[1] != 'I' && (form[1] == 'P' ==> form[2] != 'M') && form[1] != '?' && form[2] != '?'
    requires form[1] != '%' && form[2] != '%'
    ensures Ordinary(m)
  {
    assert Fits(m[1], form[1]) && Fits(m[2], form[2]);
    HeadFits(m, "<IT:", 1);
    HeadFits(m, "<PM:", 1);
    HeadFits(m, "<PM:", 2);
  }

  /** How replies begin and end. */
  lemma ReplyEnds(t: MessageType, m: ustring)
    requires IsReply(t, m)
    ensures |m| >= 4 && m[0] == '<' as int && m[|m| - 1] == CR
    ensures t == UploadDownload || t == DownloadData ==> Begins(m, "<PM:")
    ensures t == TrInfo ==> Begins(m, "<IT:")
    ensures t !in {UploadDownload, DownloadData, TrInfo} ==> Ordinary(m)
  {
    match t
    case UsbInfo =>
      var info :| ValidInfo(info) && m == PrintDeviceInfo(info);
      ScanAcceptsPrint(info);
      NotTwoHeads(m, "<I:");
    case TrInfo =>
      assert m[0] == m[..4][0];
    case Async =>
      NotTwoHeads(m, "<DR?:");
    case DownloadData =>
      assert m[0] == m[..4][0];
    case _ =>
      var form :| form in FixedForms(t) && Matches(m, form);
      FixedReplyEnds(t, m, form);
  }

  lemma NotTwoHeads(m: ustring, head: string)
    requires Begins(m, head) && head in {"<I:", "<DR?:"}
    ensures m[0] == '<' as int && Ordinary(m)
  {
    HeadFits(m, head, 0);
    HeadFits(m, head, 1);
    HeadFits(m, head, 2);
    HeadFits(m, "<IT:", 1);
    HeadFits(m, "<IT:", 2);
    HeadFits(m, "<PM:", 1);
  }

  lemma OrdinaryDelimits(t: MessageType, m: ustring)
    requires IsReply(t, m) && Ordinary(m) && (t == Async ==> 7 <= |m|)
    requires t != UploadDownload && t != DownloadData && t != TrInfo
    ensures SelfDelimiting(m)
  {
    ReplyEnds(t, m);
    assert m[..|m|] == m;
    ParseComplete(m, t, |m|);
    forall more
      ensures Parse(m + more) == Ok(t, |m| - 1)
    {
      VerdictStable(m, more);
    }
    assert AcceptedAlways(m, t);
    forall k | 0 < k < |m|
      ensures Parse(m[..k]).NotComplete?
    {
      OrdinaryPrefix(m, k);
      assert m[..k] + m[k..] == m;
      if !Parse(m[..k]).NotComplete? {
        VerdictStable(m[..k], m[k..]);
      }
    }
  }

  lemma OrdinaryPrefix(m: ustring, k: nat)
    requires Ordinary(m) && k <= |m|
    ensures Ordinary(m[..k])
  {
    if Begins(m[..k], "<IT:") {
      BeginsWhole(m, "<IT:", k);
    }
    if Begins(m[..k], "<PM:") {
      BeginsWhole(m, "<PM:", k);
    }
  }

  lemma ExtendedTRInfoDelimits(m: ustring)
    requires IsReply(TrInfo, m) && DelimitsItself(TrInfo, m)
    ensures SelfDelimiting(m)
  {
    forall more
      ensures Parse(m + more) == Ok(TrInfo, |m| - 1)
    {
      BeginsMore(m, more, "<IT:");
      TRInfoVerdict(m + more);
    }
    assert AcceptedAlways(m, TrInfo);
    forall k | 0 < k < |m|
      ensures Parse(m[..k]).NotComplete?
    {
      if 4 <= k {
        BeginsPrefix(m, "<IT:", k);
        TRInfoVerdict(m[..k]);
      } else {
        OnTheWayToIT(m[..k]);
      }
    }
  }

  lemma OnTheWayToIT(data: ustring)
    requires 0 < |data| < 4 && Matches(data, "<IT:"[..|data|])
    ensures Parse(data) == NotComplete
  {
    var at := if |data| == 1 then 1 else if |data| == 2 then 16 else 20;
    assert Spelling(at) == "<IT:"[..|data|];
    assert data[..|data|] == data;
    Follow(data, at);
  }

  /** A reply delimits itself exactly if its form says so. */
  lemma SelfDelimitingExactly(t: MessageType, m: ustring)
    requires IsReply(t, m)
    ensures SelfDelimiting(m) <==> DelimitsItself(t, m)
  {
    ReplyEnds(t, m);
    if DelimitsItself(t, m) {
      if t == TrInfo {
        ExtendedTRInfoDelimits(m);
      } else {
        OrdinaryDelimits(t, m);
      }
    }
    if SelfDelimiting(m) {
      DelimitsOnly(t, m);
    }
  }

  lemma DelimitsOnly(t: MessageType, m: ustring)
    requires IsReply(t, m) && SelfDelimiting(m)
    ensures DelimitsItself(t, m)
  {
    var u :| AcceptedAlways(m, u);
    var z: byte := 0;
    assert Parse(m + [z]) == Ok(u, |m| - 1);
    assert Parse(m + []) == Ok(u, |m| - 1);
    assert m + [] == m && (m + [z])[..|m|] == m;
    ReplyEnds(t, m);
    ParseSound(m + [z]);
    ReplyEnds(u, m);
    if t == TrInfo {
      BeginsMore(m, [z], "<IT:");
      TRInfoVerdict(m + [z]);
      BeginsPrefix(m, "<IT:", 21);
      TRInfoVerdict(m[..21]);
    } else if t == Async {
      AsyncVerdict(m);
    } else if Begins(m, "<PM:") {
      StatusLength(u, m);
    }
  }

  lemma StatusLength(t: MessageType, m: ustring)
    requires IsReply(t, m) && Begins(m, "<PM:")
    ensures t == DownloadData || (t == UploadDownload && (|m| == 7 || |m| == 9))
  {
    ReplyEnds(t, m);
    HeadFits(m, "<IT:", 1);
    HeadFits(m, "<PM:", 1);
    if t == UploadDownload {
      var form :| form in FixedForms(t) && Matches(m, form);
      FixedReplyEnds(t, m, form);
    }
  }

  // ---------------------------------------------------------------- rejection

  /** Nothing that follows turns the buffer into one that begins with a reply. */
  ghost predicate Hopeless(data: ustring) {
    forall more :: !Parse(data + more).Ok?
  }

  /** A six-byte buffer announcing no data, which is never looked at again until it is wrong. */
  predicate SpoiltEmptyData(data: ustring) {
    Begins(data, "<DR?:") && |data| == 6 && data[3] == 0 && data[5] != CR
  }

  lemma {:induction false} ScanCompletes(data: ustring, i: nat, section: Section) returns (rest: ustring)
    requires 0 < |data| && i <= |data|
    requires var r := ScanUSBInfo(data, i, section); r.newState == 18 && !r.formatError
    ensures var r := ScanUSBInfo(data + rest, i, section);
            r.newState == 19 && !r.formatError && r.lastPosition == |data + rest| - 1
    ensures 0 < |rest|
    decreases |data| - i
  {
    if i == |data| {
      rest := match section case Type => [HASH, HASH, CR] case Version => [HASH, CR] case Id => [CR];
      ScanTail(data, rest, i, section);
    } else {
      var next := if data[i] != HASH then section else if section == Type then Version else Id;
      rest := ScanCompletes(data, i + 1, next);
      assert (data + rest)[i] == data[i];
    }
  }

  lemma ScanTail(data: ustring, rest: ustring, i: nat, section: Section)
    requires i == |data| > 0
    requires rest == match section case Type => [HASH, HASH, CR] case Version => [HASH, CR] case Id => [CR]
    ensures ScanUSBInfo(data + rest, i, section) == StateProcResult(19, |data + rest| - 1, false)
  {
    var d := data + rest;
    assert forall k :: 0 <= k < |rest| ==> d[i + k] == rest[k];
    assert ScanUSBInfo(d, |d| - 1, Id) == StateProcResult(19, |d| - 1, false);
    if section != Id {
      assert ScanUSBInfo(d, |d| - 2, Version) == StateProcResult(19, |d| - 1, false);
    }
  }

  /** A way on from every inner state of the tree. */
  ghost function Onward(state: nat): (next: nat) {
    if state == 10 then 101 else if state == 79 then 95 else state + 1
  }

  lemma OnwardEdge(state: nat)
    requires Spelled(state) && !IsFiniteState(state) && !IsSpecialState(state)
    ensures InEdge(Onward(state)).Edge? && InEdge(Onward(state)).from == state
    ensures state < Onward(state) <= 103 && (80 <= Onward(state) <= 93 <==> 80 <= state <= 93)
  {
  }

  function Sample(on: char): (b: byte)
    requires on < '\U{0080}'
    ensures Fits(b, on)
  {
    if on == '%' then '2' as int else on as int
  }

  /** A buffer that ends inside the tree can be completed. */
  lemma {:induction false} InnerCompletes(data: ustring, at: nat)
    requires Reads(data, at) && |data| == |Spelling(at)| && !IsFiniteState(at) && !(80 <= at <= 93)
    ensures !Hopeless(data)
    decreases 104 - at
  {
    if IsSpecialState(at) {
      SpecialCompletes(data, at);
    } else {
      var next := Onward(at);
      OnwardEdge(at);
      EdgeAscii(next);
      var b := Sample(InEdge(next).on);
      var longer := data + [b];
      ReadsMore(data, b, at);
      ReadsStep(longer, at, next);
      if IsFiniteState(next) {
        LastCompletes(data, at, next, b);
      } else {
        InnerCompletes(longer, next);
        HopeStays(data, b);
      }
    }
  }

  /** One byte more, and a finite state is reached. */
  lemma LastCompletes(data: ustring, at: nat, next: nat, b: byte)
    requires Reads(data + [b], at) && |data| == |Spelling(at)| && !IsFiniteState(at) && !(80 <= at <= 93) && !IsSpecialState(at)
    requires InEdge(next).Edge? && InEdge(next).from == at && Fits(b, InEdge(next).on)
    requires next != 80 && IsFiniteState(next)
    ensures !Hopeless(data)
  {
    Follow(data + [b], at);
    EdgeIsTransition(next, b);
    assert Parse(data + [b]).Ok?;
  }

  lemma HopeStays(data: ustring, b: byte)
    requires !Hopeless(data + [b])
    ensures !Hopeless(data)
  {
    var more :| Parse(data + [b] + more).Ok?;
    Assoc(data, [b], more);
    assert Parse(data + ([b] + more)).Ok?;
  }

  lemma ReadsMore(data: ustring, b: byte, state: nat)
    requires Reads(data, state)
    ensures Reads(data + [b], state)
  {
    BeginsMore(data, [b], Spelling(state));
  }

  lemma EdgeAscii(state: nat)
    requires InEdge(state).Edge?
    ensures InEdge(state).on < '\U{0080}'
  {
  }

  lemma SpecialCompletes(data: ustring, at: nat)
    requires Reads(data, at) && |data| == |Spelling(at)| && IsSpecialState(at)
    ensures !Hopeless(data)
  {
    if at == 17 {
      USBInfoVerdict(data);
      USBInfoCompletes(data);
    } else if at == 21 {
      var more := seq(32, i => 0) + [CR];
      BeginsMore(data, more, "<IT:");
      TRInfoVerdict(data + more);
      assert Parse(data + more).Ok?;
    } else if at == 50 {
      AsyncVerdict(data);
      AsyncCompletes(data);
    } else {
      var more := [0, CR];
      BeginsMore(data, more, "<PM:");
      DownloadVerdict(data + more);
      assert Parse(data + more).Ok?;
    }
  }

  lemma USBInfoCompletes(data: ustring)
    requires Begins(data, "<I:") && Parse(data).NotComplete?
    ensures !Hopeless(data)
  {
    USBInfoVerdict(data);
    var rest := ScanCompletes(data, 3, Type);
    BeginsMore(data, rest, "<I:");
    USBInfoVerdict(data + rest);
    assert Parse(data + rest).Ok?;
  }

  lemma AsyncCompletes(data: ustring)
    requires Begins(data, "<DR?:") && Parse(data).NotComplete? && !SpoiltEmptyData(data)
    ensures !Hopeless(data)
  {
    AsyncVerdict(data);
    var last: nat := data[3] as int + 5;
    var more := if last < |data| then [CR] else seq(last - |data|, i => 0) + [CR, CR];
    BeginsMore(data, more, "<DR?:");
    AsyncVerdict(data + more);
    assert Parse(data + more).Ok?;
  }

  /** Outside IT and PM, the parser gives up exactly what is hopeless, but for one form. */
  lemma OrdinaryRejects(data: ustring)
    requires Ordinary(data)
    ensures Hopeless(data) <==> Parse(data).BadFormat? || SpoiltEmptyData(data)
  {
    assert data + [] == data;
    if Parse(data).BadFormat? {
      forall more
        ensures !Parse(data + more).Ok?
      {
        VerdictStable(data, more);
      }
    } else if SpoiltEmptyData(data) {
      forall more
        ensures !Parse(data + more).Ok?
      {
        BeginsMore(data, more, "<DR?:");
        AsyncVerdict(data + more);
      }
    } else if Parse(data).NotComplete? {
      var at := Walk(data, 0);
      if at == 17 {
        USBInfoCompletes(data);
      } else if at == 50 {
        AsyncCompletes(data);
      } else {
        InnerCompletes(data, at);
      }
    }
  }
  /** A module identification can be completed until its byte 36 is wrong. */
  lemma TRInfoRejects(data: ustring)
    requires Begins(data, "<IT:")
    ensures Hopeless(data) <==> Parse(data).BadFormat?
  {
    TRInfoVerdict(data);
    assert data + [] == data;
    if |data| < 37 {
      var more := seq(36 - |data|, i => 0) + [CR];
      BeginsMore(data, more, "<IT:");
      TRInfoVerdict(data + more);
      assert Parse(data + more).Ok?;
    } else {
      forall more
        ensures Parse(data + more) == Parse(data)
      {
        TRInfoStable(data, more);
      }
    }
  }

  /** A programming reply can always be completed, as download data. */
  lemma PMCompletes(data: ustring)
    requires Begins(data, "<PM:")
    ensures !Hopeless(data)
  {
    var more := if |data| == 4 || |data| == 6 || |data| == 8 then [0, CR] else [CR];
    BeginsMore(data, more, "<PM:");
    DownloadVerdict(data + more);
    assert Parse(data + more).Ok?;
  }

  /**
   * No continuation makes a buffer begin with a reply exactly if it is rejected and begins no
   * programming reply, or is a spoilt six-byte DR.
   */
  lemma RejectsExactly(data: ustring)
    ensures Hopeless(data) <==> (Parse(data).BadFormat? && !Begins(data, "<PM:")) || SpoiltEmptyData(data)
  {
    if Begins(data, "<PM:") {
      PMCompletes(data);
    } else if Begins(data, "<IT:") {
      TRInfoRejects(data);
    } else {
      OrdinaryRejects(data);
    }
  }

  /** So the parser rejects what could still become a reply exactly if it rejects a programming reply. */
  lemma RejectsTooEarlyExactly(data: ustring)
    requires Parse(data).BadFormat?
    ensures !Hopeless(data) <==> Begins(data, "<PM:")
  {
    RejectsExactly(data);
  }
}
