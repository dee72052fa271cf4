/**
 * The decoders a caller applies to an accepted reply.  None stands for an exception, a NULL result
 * or an access outside the message.
 */
module Decoders {
  import opened Bytes
  import opened Messages
  import opened Wrappers

  // ---------------------------------------------------------------- USB device

  /** Searches the two '#' and the terminator behind the head. */
  function GetParsedDeviceInfo(data: ustring): (r: Option<DeviceInfo>) {
    if |data| < 3 then None
    else
      var firstHash := Find(data, HASH, 3);
      if firstHash == |data| then None
      else
        var secondHash := Find(data, HASH, firstHash + 1);
        if secondHash == |data| then None
        else
          var cr := Find(data, CR, secondHash + 1);
          if cr == |data| then None
          else Some(DeviceInfo(data[3..firstHash], data[firstHash + 1..secondHash], data[secondHash + 1..cr]))
  }

  // ---------------------------------------------------------------- TR module

  datatype ModuleInfo = ModuleInfo(
    serialNumber: seq<byte>, osVersion: byte, trType: byte, osBuild: seq<byte>, reserved: seq<byte>, ibk: seq<byte>)

  const SN_SIZE := 4
  const BUILD_SIZE := 2
  const RESERVED_SIZE := 8
  const IBK_SIZE := 16

  predicate ValidModuleInfo(info: ModuleInfo) {
    && |info.serialNumber| == SN_SIZE && |info.osBuild| == BUILD_SIZE
    && |info.reserved| == RESERVED_SIZE && |info.ibk| == IBK_SIZE
  }

  const TR_INFO_HEAD: ustring := ['<' as int, 'I' as int, 'T' as int, ':' as int]

  /** The reply that carries a module identification, with or without the individual bonding key. */
  function PrintModuleInfo(info: ModuleInfo, extended: bool): (m: ustring) {
    TR_INFO_HEAD + info.serialNumber + [info.osVersion, info.trType] + info.osBuild + info.reserved
    + (if extended then info.ibk else []) + [CR]
  }

  /** Copies the fields out of a reply of 21 or 37 bytes; the short one has no bonding key. */
  method GetParsedModuleInfo(data: ustring) returns (r: Option<ModuleInfo>)
    ensures r.None? <==> |data| != 21 && |data| != 37
    ensures r.Some? ==>
              && ValidModuleInfo(r.value)
              && (|data| == 21 ==> r.value.ibk == Zeros(IBK_SIZE))
              && (Begins(data, "<IT:") && data[|data| - 1] == CR ==>
                    data == PrintModuleInfo(r.value, |data| == 37))
  {
    if |data| != 21 && |data| != 37 {
      return None;
    }
    var body := 4;
    var serialNumber := [data[body], data[body + 1], data[body + 2], data[body + 3]];
    var infoId := SN_SIZE;
    var osVersion := data[body + infoId];
    infoId := infoId + 1;
    var trType := data[body + infoId];
    infoId := infoId + 1;
    var osBuild: seq<byte> := [];
    for i := 0 to BUILD_SIZE
      invariant infoId == 6 + i && osBuild == data[10..10 + i]
    {
      osBuild := osBuild + [data[body + infoId]];
      infoId := infoId + 1;
    }
    var reserved: seq<byte> := [];
    for i := 0 to RESERVED_SIZE
      invariant infoId == 8 + i && reserved == data[12..12 + i]
    {
      reserved := reserved + [data[body + infoId]];
      infoId := infoId + 1;
    }
    var extended := |data| == 37;
    var ibk: seq<byte> := [];
    for i := 0 to IBK_SIZE
      invariant infoId == 16 + i
      invariant ibk == if extended then data[20..20 + i] else Zeros(i)
    {
      ibk := ibk + [if extended then data[body + infoId] else 0];
      infoId := infoId + 1;
    }
    r := Some(ModuleInfo(serialNumber, osVersion, trType, osBuild, reserved, ibk));
    ModuleInfoPrints(data, r.value);
  }

  /** A reply with these fields is the printed form of them. */
  lemma ModuleInfoPrints(data: ustring, info: ModuleInfo)
    requires |data| == 21 || |data| == 37
    requires info == ModuleInfo(data[4..8], data[8], data[9], data[10..12], data[12..20], info.ibk)
    requires |data| == 37 ==> info.ibk == data[20..36]
    ensures Begins(data, "<IT:") && data[|data| - 1] == CR ==> data == PrintModuleInfo(info, |data| == 37)
  {
    if Begins(data, "<IT:") && data[|data| - 1] == CR {
      assert forall i :: 0 <= i < 4 ==> Fits(data[..4][i], "<IT:"[i]);
      var last := |data| - 1;
      assert data[..8] == TR_INFO_HEAD + data[4..8];
      assert data[..10] == data[..8] + [data[8], data[9]];
      assert data[..12] == data[..10] + data[10..12];
      assert data[..20] == data[..12] + data[12..20];
      assert data[..last] == data[..20] + data[20..last];
      assert data == data[..last] + [CR];
    }
  }

  // ---------------------------------------------------------------- SPI status

  datatype SPIStatus = SPIMode(mode: byte) | DataReady(value: byte)

  const SPI_MODES: set<byte> := {0x00, 0x07, 0x3F, 0x3E, 0x80, 0x81, 0x82, 0x83, 0xFF}

  function GetParsedSPIStatus(data: ustring): (r: Option<SPIStatus>) {
    if |data| <= 3 then None
    else if data[3] in SPI_MODES then Some(SPIMode(data[3]))
    else Some(DataReady(data[3]))
  }

  predicate ValidSPIStatus(s: SPIStatus) {
    s.SPIMode? <==> StatusByte(s) in SPI_MODES
  }

  function StatusByte(s: SPIStatus): (b: byte) {
    match s case SPIMode(b) => b case DataReady(b) => b
  }

  // ---------------------------------------------------------------- response codes

  datatype DSResponse = OK | ERR | BUSY
  datatype PTEResponse = OK | ERR1
  datatype PMResponse = OK | ERR2 | ERR3 | ERR4 | ERR5 | ERR6 | ERR7 | BUSY

  /** The part between a four-byte head and the terminator. */
  function Body(data: ustring): (b: ustring) {
    if |data| < 5 then [] else data[4..|data| - 1]
  }

  function GetParsedDSResponse(data: ustring): (r: Option<DSResponse>) {
    var body := Body(data);
    if Matches(body, "OK") then Some(DSResponse.OK)
    else if Matches(body, "ERR") then Some(DSResponse.ERR)
    else if Matches(body, "BUSY") then Some(DSResponse.BUSY)
    else None
  }

  /** For both PE and PT. */
  function GetParsedPTEResponse(data: ustring): (r: Option<PTEResponse>) {
    var body := Body(data);
    if Matches(body, "OK") then Some(PTEResponse.OK)
    else if Matches(body, "ERR1") then Some(PTEResponse.ERR1)
    else None
  }

  function GetParsedPMResponse(data: ustring): (r: Option<PMResponse>) {
    var body := Body(data);
    if Matches(body, "OK") then Some(PMResponse.OK)
    else if Matches(body, "ERR2") then Some(PMResponse.ERR2)
    else if Matches(body, "ERR3") then Some(PMResponse.ERR3)
    else if Matches(body, "ERR4") then Some(PMResponse.ERR4)
    else if Matches(body, "ERR5") then Some(PMResponse.ERR5)
    else if Matches(body, "ERR6") then Some(PMResponse.ERR6)
    else if Matches(body, "ERR7") then Some(PMResponse.ERR7)
    else if Matches(body, "BUSY") then Some(PMResponse.BUSY)
    else None
  }

  /** The texts the codes are printed as, between head and terminator. */
  function DSText(r: DSResponse): (text: string) {
    match r case OK => "OK" case ERR => "ERR" case BUSY => "BUSY"
  }

  function PTEText(r: PTEResponse): (text: string) {
    match r case OK => "OK" case ERR1 => "ERR1"
  }

  function PMText(r: PMResponse): (text: string) {
    match r
    case OK => "OK"
    case ERR2 => "ERR2"
    case ERR3 => "ERR3"
    case ERR4 => "ERR4"
    case ERR5 => "ERR5"
    case ERR6 => "ERR6"
    case ERR7 => "ERR7"
    case BUSY => "BUSY"
  }

  // ---------------------------------------------------------------- data

  /** Data of a DR message. */
  function GetParsedDRData(data: ustring): (r: Option<ustring>) {
    if |data| < 5 then None else if |data| == 5 then Some([]) else Some(data[5..|data| - 1])
  }

  /** Download data of a PM message. */
  function GetParsedPMData(data: ustring): (r: Option<ustring>) {
    if |data| < 4 then None else Some(Body(data))
  }

  // ---------------------------------------------------------------- the decoders invert the replies

  lemma DeviceInfoInverts(m: ustring)
    requires IsReply(UsbInfo, m)
    ensures var r := GetParsedDeviceInfo(m);
            r.Some? && ValidInfo(r.value) && m == PrintDeviceInfo(r.value)
  {
    var info :| ValidInfo(info) && m == PrintDeviceInfo(info);
    DeviceInfoFound(info);
  }

  lemma DeviceInfoFound(info: DeviceInfo)
    requires ValidInfo(info)
    ensures GetParsedDeviceInfo(PrintDeviceInfo(info)) == Some(info)
  {
    var m := PrintDeviceInfo(info);
    var a := 3 + |info.typ|;
    var b := a + 1 + |info.firmwareVersion|;
    var c := b + 1 + |info.serialNumber|;
    PrintParts(info);
    assert !IsVersionByte(HASH) && !IsIdByte(CR);
    FindPart(m, HASH, 3, a);
    FindPart(m, HASH, a + 1, b);
    FindPart(m, CR, b + 1, c);
    DeviceInfoAt(m, a, b, c);
  }

  lemma DeviceInfoAt(m: ustring, a: nat, b: nat, c: nat)
    requires 3 <= a < b < c < |m| && Find(m, HASH, 3) == a && Find(m, HASH, a + 1) == b && Find(m, CR, b + 1) == c
    ensures GetParsedDeviceInfo(m) == Some(DeviceInfo(m[3..a], m[a + 1..b], m[b + 1..c]))
  {
  }

  lemma FindPart(m: ustring, b: byte, from: nat, at: nat)
    requires from <= at < |m| && m[at] == b && b !in m[from..at]
    ensures Find(m, b, from) == at
  {
    assert forall k :: from <= k < at ==> m[k] == m[from..at][k - from];
    FindIs(m, b, from, at);
  }

  lemma SPIStatusInverts(m: ustring, s: SPIStatus)
    requires IsReply(SpiStat, m)
    ensures GetParsedSPIStatus(m) == Some(s) <==> ValidSPIStatus(s) && m[3] == StatusByte(s)
  {
    var form :| form in FixedForms(SpiStat) && Matches(m, form);
  }

  /** With the right head and terminator, a message matches a text exactly if its body does. */
  lemma BodyMatches(m: ustring, head: string, text: string)
    requires |head| == 4 && |m| >= 5 && Begins(m, head) && m[|m| - 1] == CR
    ensures Matches(m, head + text + "\r") <==> Matches(Body(m), text)
  {
    var form := head + text + "\r";
    if Matches(m, form) {
      forall i | 0 <= i < |text|
        ensures Fits(Body(m)[i], text[i])
      {
        assert Fits(m[i + 4], form[i + 4]);
      }
    }
    if Matches(Body(m), text) {
      forall i | 0 <= i < |m|
        ensures Fits(m[i], form[i])
      {
        if i < 4 {
          assert Fits(m[..4][i], head[i]);
        } else if i < |m| - 1 {
          assert Fits(Body(m)[i - 4], text[i - 4]);
        }
      }
    }
  }

  lemma Split(m: ustring, form: string, head: string, text: string)
    requires |head| == 4 && form == head + text + "\r" && Matches(m, form)
    ensures |m| >= 5 && Begins(m, head) && m[|m| - 1] == CR && Matches(Body(m), text)
  {
    assert Fits(m[|m| - 1], form[|form| - 1]);
    forall i | 0 <= i < 4
      ensures Fits(m[..4][i], head[i])
    {
      assert Fits(m[i], form[i]);
    }
    BodyMatches(m, head, text);
  }

  lemma DSResponseInverts(m: ustring, r: DSResponse)
    requires IsReply(DataSend, m)
    ensures GetParsedDSResponse(m).Some?
    ensures GetParsedDSResponse(m) == Some(r) <==> Matches(m, "<DS:" + DSText(r) + "\r")
  {
    var form :| form in FixedForms(DataSend) && Matches(m, form);
    var code := if form == "<DS:OK\r" then DSResponse.OK else if form == "<DS:ERR\r" then DSResponse.ERR
                else DSResponse.BUSY;
    Split(m, form, "<DS:", DSText(code));
    BodyMatches(m, "<DS:", DSText(r));
  }

  lemma PEResponseInverts(m: ustring, r: PTEResponse)
    requires IsReply(ModeProgram, m)
    ensures GetParsedPTEResponse(m).Some?
    ensures GetParsedPTEResponse(m) == Some(r) <==> Matches(m, "<PE:" + PTEText(r) + "\r")
  {
    var form :| form in FixedForms(ModeProgram) && Matches(m, form);
    Split(m, form, "<PE:", if form == "<PE:OK\r" then "OK" else "ERR1");
    BodyMatches(m, "<PE:", PTEText(r));
  }

  lemma PTResponseInverts(m: ustring, r: PTEResponse)
    requires IsReply(ModeNormal, m)
    ensures GetParsedPTEResponse(m).Some?
    ensures GetParsedPTEResponse(m) == Some(r) <==> Matches(m, "<PT:" + PTEText(r) + "\r")
  {
    var form :| form in FixedForms(ModeNormal) && Matches(m, form);
    Split(m, form, "<PT:", if form == "<PT:OK\r" then "OK" else "ERR1");
    BodyMatches(m, "<PT:", PTEText(r));
  }

  lemma PMResponseInverts(m: ustring, r: PMResponse)
    requires IsReply(UploadDownload, m)
    ensures GetParsedPMResponse(m).Some?
    ensures GetParsedPMResponse(m) == Some(r) <==> Matches(m, "<PM:" + PMText(r) + "\r")
  {
    var form :| form in FixedForms(UploadDownload) && Matches(m, form);
    Split(m, form, "<PM:", if form == "<PM:OK\r" then "OK" else if form == "<PM:ERR%\r" then "ERR%" else "BUSY");
    BodyMatches(m, "<PM:", PMText(r));
    PMBodies(m, r);
  }

  lemma PMBodies(m: ustring, r: PMResponse)
    requires Matches(Body(m), "OK") || Matches(Body(m), "ERR%") || Matches(Body(m), "BUSY")
    ensures GetParsedPMResponse(m).Some?
    ensures GetParsedPMResponse(m) == Some(r) <==> Matches(Body(m), PMText(r))
  {
    var body := Body(m);
    if Matches(body, "ERR%") {
      assert Fits(body[3], "ERR%"[3]);
      forall i | 0 <= i < 3
        ensures Fits(body[i], "ERR"[i])
      {
        assert Fits(body[i], "ERR%"[i]);
      }
    }
  }

  /** The data of a DR message: exactly as many bytes as its length byte says, behind a five-byte head. */
  lemma DRDataInverts(m: ustring)
    requires IsReply(Async, m)
    ensures var r := GetParsedDRData(m);
            r.Some? && |r.value| == m[3] && m == m[..5] + r.value + [CR]
  {
  }

  lemma PMDataInverts(m: ustring)
    requires IsReply(DownloadData, m)
    ensures var r := GetParsedPMData(m);
            r.Some? && 0 < |r.value| && m == m[..4] + r.value + [CR]
  {
  }
}
