/** What the parser accepts: soundness and completeness against the grammar. */
module ParserTheorems {
  import opened Bytes
  import opened Messages
  import opened Automaton
  import opened Parsing
  import opened ParserWalk

  // ---------------------------------------------------------------- behind the special states

  lemma {:induction false} KeepsTRInfo(data: ustring, pos: nat)
    requires 4 <= pos <= |data| < EXTENDED_IDF_SIZE && (|data| == STANDARD_IDF_SIZE ==> data[20] != CR)
    ensures Placed(data, 21, pos) && Run(data, 21, pos) == NotComplete
    decreases |data| - pos
  {
    if pos < |data| {
      KeepsTRInfo(data, pos + 1);
      assert ProcessTRInfo(data, pos) == StateProcResult(21, pos, false);
    }
  }

  /** A module identification: 21 bytes if they are the whole buffer, else 37. */
  lemma TRInfoVerdict(data: ustring)
    requires Begins(data, "<IT:")
    ensures Parse(data) ==
            if 37 <= |data| then if data[36] == CR then Ok(TrInfo, 36) else BadFormat(36)
            else if |data| == 21 && data[20] == CR then Ok(TrInfo, 20)
            else NotComplete
  {
    var s := 21;
    Follow(data, s);
    if |data| < EXTENDED_IDF_SIZE && (|data| == STANDARD_IDF_SIZE ==> data[20] != CR) {
      KeepsTRInfo(data, 4);
    } else {
      var r := ProcessTRInfo(data, 4);
      assert r == StateProcResult(22, if |data| == 21 then 19 else 35, false);
      var s' := 22;
      assert Run(data, s, 4) == Run(data, s', r.lastPosition + 1);
    }
  }

  /** Received data: as many bytes as announced, and a terminator; never in a buffer of six bytes. */
  lemma AsyncVerdict(data: ustring)
    requires Begins(data, "<DR?:")
    ensures Parse(data) ==
            var last: nat := data[3] as int + 5;
            if |data| < 7 || |data| <= last then NotComplete
            else if data[last] == CR then Ok(Async, last)
            else BadFormat(last)
  {
    var s, s' := 50, 51;
    Follow(data, s);
    if 7 <= |data| {
      var r := ProcessAsynData(data, 5);
      assert Run(data, s, 5) == Run(data, s', r.lastPosition + 1);
    } else if |data| == 6 {
      assert ProcessAsynData(data, 5) == StateProcResult(50, 5, false);
      assert Run(data, s, 5) == Run(data, s, 6);
    }
  }

  /** Programming replies that are not 7 or 9 bytes long: download data up to the end of the buffer. */
  lemma DownloadVerdict(data: ustring)
    requires Begins(data, "<PM:") && |data| != 7 && |data| != 9
    ensures Parse(data) ==
            if |data| <= 5 then NotComplete
            else if data[|data| - 1] == CR then Ok(DownloadData, |data| - 1)
            else BadFormat(|data| - 1)
  {
    var s, s' := 95, 96;
    Follow(data, s);
    if 6 <= |data| {
      assert ProcessPMRespData(data, 4) == StateProcResult(96, |data| - 2, false);
      assert Run(data, s, 4) == Run(data, s', |data| - 1);
    } else if |data| == 5 {
      assert ProcessPMRespData(data, 4) == StateProcResult(95, 4, false);
      assert Run(data, s, 4) == Run(data, s, 5);
    }
  }

  /** The others start over behind "<PM:", in the status texts. */
  lemma StatusVerdict(data: ustring)
    requires Begins(data, "<PM:") && (|data| == 7 || |data| == 9)
    ensures Placed(data, 80, 4) && Parse(data) == Run(data, 80, 4)
  {
    Follow(data, 80);
  }

  /** A USB info is taken apart section by section. */
  lemma USBInfoVerdict(data: ustring)
    requires Begins(data, "<I:")
    ensures Parse(data) ==
            if |data| == 3 then NotComplete
            else
              var r := ScanUSBInfo(data, 3, Type);
              if r.formatError then BadFormat(r.lastPosition)
              else if r.newState == 19 then Ok(UsbInfo, r.lastPosition)
              else NotComplete
  {
    Follow(data, 17);
    if |data| == 4 {
      ShortUSBInfo(data);
    } else if 4 < |data| {
      LongUSBInfo(data);
    }
  }

  lemma LongUSBInfo(data: ustring)
    requires Begins(data, "<I:") && 4 < |data|
    ensures Placed(data, 17, 3)
    ensures var r := ScanUSBInfo(data, 3, Type);
            Run(data, 17, 3) ==
            if r.formatError then BadFormat(r.lastPosition)
            else if r.newState == 19 then Ok(UsbInfo, r.lastPosition)
            else NotComplete
  {
    var s := 17;
    var r := ProcessUSBInfo(data, 3);
    if !r.formatError && r.newState == 18 {
      var s' := 18;
      assert Run(data, s, 3) == Run(data, s', |data|);
    }
  }

  lemma ShortUSBInfo(data: ustring)
    requires Begins(data, "<I:") && |data| == 4
    ensures Placed(data, 17, 3) && Run(data, 17, 3) == NotComplete
    ensures ScanUSBInfo(data, 3, Type) == StateProcResult(18, 3, false)
  {
    var s := 17;
    assert ProcessUSBInfo(data, 3) == StateProcResult(17, 3, false);
    assert Run(data, s, 3) == Run(data, s, 4);
    assert ScanUSBInfo(data, 4, Type) == StateProcResult(18, 3, false);
    assert ScanUSBInfo(data, 4, Version) == StateProcResult(18, 3, false);
  }

  predicate Inside(section: Section, b: byte) {
    b != HASH && SectionAccepts(section, b)
  }

  lemma {:induction false} ScanOver(data: ustring, i: nat, j: nat, section: Section)
    requires 0 < |data| && i <= j <= |data| && forall k :: i <= k < j ==> Inside(section, data[k])
    ensures ScanUSBInfo(data, i, section) == ScanUSBInfo(data, j, section)
    decreases j - i
  {
    if i < j {
      ScanOver(data, i + 1, j, section);
    }
  }

  /** The end of a section. */
  function SectionEnd(data: ustring, i: nat, section: Section): (j: nat)
    requires i <= |data|
    ensures i <= j <= |data| && forall k :: i <= k < j ==> Inside(section, data[k])
    ensures j < |data| ==> !Inside(section, data[j])
    decreases |data| - i
  {
    if i == |data| || !Inside(section, data[i]) then i else SectionEnd(data, i + 1, section)
  }

  /** A USB info body with its separators at a and b and its terminator at c. */
  predicate InfoAt(data: ustring, a: nat, b: nat, c: nat) {
    && 3 <= a < b < c < |data| && data[a] == HASH && data[b] == HASH && data[c] == CR
    && (forall k :: 3 <= k < a ==> Inside(Type, data[k]))
    && (forall k :: a + 1 <= k < b ==> Inside(Version, data[k]))
    && (forall k :: b + 1 <= k < c ==> Inside(Id, data[k]))
  }

  lemma ScanFinds(data: ustring) returns (a: nat, b: nat, c: nat)
    requires 3 < |data|
    requires var r := ScanUSBInfo(data, 3, Type); r.newState == 19 && !r.formatError
    ensures InfoAt(data, a, b, c) && ScanUSBInfo(data, 3, Type).lastPosition == c
  {
    a := SectionEnd(data, 3, Type);
    ScanOver(data, 3, a, Type);
    b := SectionEnd(data, a + 1, Version);
    ScanOver(data, a + 1, b, Version);
    c := SectionEnd(data, b + 1, Id);
    ScanOver(data, b + 1, c, Id);
  }

  lemma ScanAccepts(data: ustring, a: nat, b: nat, c: nat)
    requires InfoAt(data, a, b, c)
    ensures ScanUSBInfo(data, 3, Type) == StateProcResult(19, c, false)
  {
    ScanOver(data, 3, a, Type);
    ScanOver(data, a + 1, b, Version);
    ScanOver(data, b + 1, c, Id);
  }

  lemma InfoPrints(data: ustring, a: nat, b: nat, c: nat)
    requires InfoAt(data, a, b, c) && Begins(data, "<I:")
    ensures IsReply(UsbInfo, data[..c + 1])
  {
    var info := DeviceInfo(data[3..a], data[a + 1..b], data[b + 1..c]);
    assert data[..3] == USB_INFO_HEAD;
    assert data[..c + 1] == PrintDeviceInfo(info);
    assert ValidInfo(info);
  }

  lemma ScanAcceptsPrint(info: DeviceInfo)
    requires ValidInfo(info)
    ensures var m := PrintDeviceInfo(info);
            Begins(m, "<I:") && ScanUSBInfo(m, 3, Type) == StateProcResult(19, |m| - 1, false)
  {
    var m := PrintDeviceInfo(info);
    PrintParts(info);
    var a := 3 + |info.typ|;
    var b := a + 1 + |info.firmwareVersion|;
    var c := b + 1 + |info.serialNumber|;
    assert !IsVersionByte(HASH) && !IsIdByte(HASH);
    forall k | 3 <= k < a
      ensures Inside(Type, m[k])
    {
      assert m[k] == info.typ[k - 3];
    }
    forall k | a + 1 <= k < b
      ensures Inside(Version, m[k])
    {
      assert m[k] == info.firmwareVersion[k - a - 1];
    }
    forall k | b + 1 <= k < c
      ensures Inside(Id, m[k])
    {
      assert m[k] == info.serialNumber[k - b - 1];
    }
    ScanAccepts(m, a, b, c);
  }

  lemma {:induction false} ScanStable(data: ustring, more: ustring, i: nat, section: Section)
    requires 0 < |data| && i <= |data|
    ensures var r := ScanUSBInfo(data, i, section);
            r.formatError || r.newState == 19 ==> ScanUSBInfo(data + more, i, section) == r
    decreases |data| - i
  {
    if i < |data| {
      assert (data + more)[i] == data[i];
      ScanStable(data, more, i + 1, section);
      if section != Id {
        ScanStable(data, more, i + 1, if section == Type then Version else Id);
      }
    }
  }

  // ---------------------------------------------------------------- soundness and completeness

  ghost predicate Sound(data: ustring, v: Verdict) {
    v.Ok? ==> v.last < |data| && IsReply(v.msgType, data[..v.last + 1])
              && Recognisable(v.msgType, v.last + 1, |data|)
  }

  /** A run that leaves the tree other than through a special state accepts only fixed forms. */
  lemma FixedSound(data: ustring, at: nat)
    requires Leaves(data, at) && !IsSpecialState(at)
    requires 80 <= at <= 93 ==> |data| == 7 || |data| == 9
    ensures Sound(data, Run(data, at, |Spelling(at)|))
  {
    var k := |Spelling(at)|;
    if k < |data| {
      var next := DoTransition(at, data[k]);
      if next != NO_TRANSITION {
        TransitionFollowsEdge(at, data[k]);
        ReadsStep(data, at, next);
        FiniteSpelling(next);
        WithinUpload(at, data[k]);
        assert Matches(data[..k + 1], Spelling(next));
      }
    }
  }

  /** The text of a finite state is a fixed form of its message type. */
  lemma FiniteSpelling(state: nat)
    requires Spelled(state) && IsFiniteState(state)
    ensures Spelling(state) in FixedForms(StateType(state))
    ensures StateType(state) == UploadDownload <==> 80 <= state <= 93
  {
  }

  lemma USBInfoSound(data: ustring)
    requires Begins(data, "<I:")
    ensures Sound(data, Parse(data))
  {
    USBInfoVerdict(data);
    if Parse(data).Ok? {
      var a, b, c := ScanFinds(data);
      InfoPrints(data, a, b, c);
    }
  }

  lemma TRInfoSound(data: ustring)
    requires Begins(data, "<IT:")
    ensures Sound(data, Parse(data))
  {
    TRInfoVerdict(data);
    if Parse(data).Ok? {
      BeginsPrefix(data, "<IT:", Parse(data).last + 1);
    }
  }

  lemma AsyncSound(data: ustring)
    requires Begins(data, "<DR?:")
    ensures Sound(data, Parse(data))
  {
    AsyncVerdict(data);
    if Parse(data).Ok? {
      BeginsPrefix(data, "<DR?:", Parse(data).last + 1);
    }
  }

  lemma PMSound(data: ustring)
    requires Begins(data, "<PM:")
    ensures Sound(data, Parse(data))
  {
    if |data| == 7 || |data| == 9 {
      StatusVerdict(data);
      var at := Walk(data, 80);
      FixedSound(data, at);
    } else {
      DownloadVerdict(data);
      if Parse(data).Ok? {
        BeginsPrefix(data, "<PM:", Parse(data).last + 1);
      }
    }
  }

  /** Whatever the parser accepts is a reply of that type, and one it may recognise there. */
  lemma ParseSound(data: ustring)
    ensures Sound(data, Parse(data))
  {
    var at := Walk(data, 0);
    if at == 17 {
      USBInfoSound(data);
    } else if at == 21 {
      TRInfoSound(data);
    } else if at == 50 {
      AsyncSound(data);
    } else if at == 95 {
      PMSound(data);
    } else {
      FixedSound(data, at);
    }
  }

  lemma BeginsPrefix(data: ustring, pattern: string, n: nat)
    requires Begins(data, pattern) && |pattern| <= n <= |data|
    ensures Begins(data[..n], pattern)
  {
    assert data[..n][..|pattern|] == data[..|pattern|];
  }

  /** A buffer that begins with a fixed form is accepted. */
  lemma FixedComplete(data: ustring, t: MessageType, form: string)
    requires form in FixedForms(t) && Begins(data, form)
    requires t == UploadDownload ==> |data| == 7 || |data| == 9
    ensures Parse(data) == Ok(t, |form| - 1)
  {
    var state := StateOfForm(t, form);
    var from := InEdge(state).from;
    ReadsParent(data, state);
    SpelledFrom(state);
    Follow(data, from);
    EdgeIsTransition(state, data[|Spelling(from)|]);
  }

  /** Every fixed form is the text of a finite state of its message type. */
  lemma StateOfForm(t: MessageType, form: string) returns (state: nat)
    requires form in FixedForms(t)
    ensures Spelled(state) && state != 0 && IsFiniteState(state) && StateType(state) == t
    ensures Spelling(state) == form && (80 <= state <= 93 <==> t == UploadDownload)
  {
    match t
    case Error => state := 5;
    case Test => state := 8;
    case ResUsb => state := 103;
    case ResTr => state := 15;
    case UsbConn => state := 28;
    case SpiStat => state := 32;
    case DataSend => state := if form == "<DS:OK\r" then 38 else if form == "<DS:ERR\r" then 42 else 47;
    case Switch => state := 57;
    case ModeProgram => state := if form == "<PE:OK\r" then 63 else 68;
    case ModeNormal => state := if form == "<PT:OK\r" then 73 else 78;
    case UploadDownload => state := if form == "<PM:OK\r" then 83 else if form == "<PM:ERR%\r" then 88 else 93;
  }

  lemma USBInfoComplete(data: ustring, len: nat)
    requires len <= |data| && IsReply(UsbInfo, data[..len])
    ensures 0 < len && Parse(data) == Ok(UsbInfo, len - 1)
  {
    var m := data[..len];
    var info :| ValidInfo(info) && m == PrintDeviceInfo(info);
    ScanAcceptsPrint(info);
    ScanStable(m, data[len..], 3, Type);
    assert m + data[len..] == data;
    BeginsWhole(data, "<I:", len);
    USBInfoVerdict(data);
  }

  /** Every reply the parser may recognise at the start of a buffer, it accepts. */
  lemma ParseComplete(data: ustring, t: MessageType, len: nat)
    requires len <= |data| && IsReply(t, data[..len]) && Recognisable(t, len, |data|)
    ensures 0 < len && Parse(data) == Ok(t, len - 1)
  {
    var m := data[..len];
    match t
    case UsbInfo =>
      USBInfoComplete(data, len);
    case TrInfo =>
      BeginsWhole(data, "<IT:", len);
      TRInfoVerdict(data);
    case Async =>
      BeginsWhole(data, "<DR?:", len);
      AsyncVerdict(data);
    case DownloadData =>
      BeginsWhole(data, "<PM:", len);
      DownloadVerdict(data);
    case _ =>
      var form :| form in FixedForms(t) && Matches(m, form);
      FixedComplete(data, t, form);
  }

  lemma BeginsWhole(data: ustring, pattern: string, n: nat)
    requires n <= |data| && Begins(data[..n], pattern)
    ensures Begins(data, pattern)
  {
    assert data[..n][..|pattern|] == data[..|pattern|];
  }

  /** The parser accepts exactly the replies of the grammar that it may recognise. */
  lemma AcceptsExactly(data: ustring, t: MessageType, last: nat)
    ensures Parse(data) == Ok(t, last) <==>
            last < |data| && IsReply(t, data[..last + 1]) && Recognisable(t, last + 1, |data|)
  {
    ParseSound(data);
    if last < |data| && IsReply(t, data[..last + 1]) && Recognisable(t, last + 1, |data|) {
      ParseComplete(data, t, last + 1);
    }
  }
}
