/** Commands: their frames on the wire, the replies they accept, and what callers decode from those. */
module Commands {
  import opened Bytes
  import opened Messages
  import opened Wrappers
  import opened Decoders

  datatype Command = Command(msgType: MessageType, data: ustring)

  const UCHAR_MAX := 255

  /** The header of a command; none for the communication test, whose table entry is not sent. */
  function Header(t: MessageType): (h: ustring)
    ensures |h| <= 2
  {
    match t
    case Test => []
    case ResUsb => ['R' as int]
    case ResTr => ['R' as int, 'T' as int]
    case UsbInfo => ['I' as int]
    case TrInfo => ['I' as int, 'T' as int]
    case UsbConn => ['B' as int]
    case SpiStat => ['S' as int]
    case DataSend => ['D' as int, 'S' as int]
    case Switch => ['U' as int]
    case Async => ['D' as int, 'R' as int]
    case ModeNormal => ['P' as int, 'T' as int]
    case ModeProgram => ['P' as int, 'E' as int]
    case UploadDownload => ['P' as int, 'M' as int]
    case DownloadData => ['P' as int, 'M' as int]
    case Error => []
  }

  /** What follows the header; None if the data is too large to be sent. */
  function Payload(cmd: Command): (p: Option<ustring>) {
    if cmd.msgType == DataSend then
      if |cmd.data| > UCHAR_MAX then None else Some([|cmd.data|, COLON] + cmd.data)
    else if cmd.msgType == UploadDownload || cmd.msgType == DownloadData then
      if |cmd.data| > UCHAR_MAX then None else Some(cmd.data)
    else Some([])
  }

  function Frame(cmd: Command): (f: Option<ustring>) {
    match Payload(cmd)
    case None => None
    case Some(p) => Some([GT] + Header(cmd.msgType) + p + [CR])
  }

  /** No frame is longer than 261 bytes, so the buffer of 1024 bytes is never replaced. */
  lemma FrameFits(cmd: Command)
    ensures Frame(cmd).Some? ==> 2 <= |Frame(cmd).value| <= 261
  {
  }

  // ---------------------------------------------------------------- the calls of the interface

  datatype Call =
    | TestCall | ResetUSBDevice | ResetTRModule | IndicateConnectivity | GetUSBDeviceInfo | GetTRModuleInfo
    | GetStatus | SendData(data: ustring) | SwitchToCustom | EnterProgrammingMode | TerminateProgrammingMode
    | UploadCall(target: byte, data: ustring) | DownloadCall(target: byte, data: ustring)

  /** Bit 7 of a target tells uploads from downloads. */
  predicate TopBit(b: byte) {
    b / 0x80 % 2 == 1
  }

  /** The command of a call; None if the target is not one of the operation. */
  function CommandOf(call: Call): (cmd: Option<Command>) {
    match call
    case TestCall => Some(Command(Test, []))
    case ResetUSBDevice => Some(Command(ResUsb, []))
    case ResetTRModule => Some(Command(ResTr, []))
    case IndicateConnectivity => Some(Command(UsbConn, []))
    case GetUSBDeviceInfo => Some(Command(UsbInfo, []))
    case GetTRModuleInfo => Some(Command(TrInfo, []))
    case GetStatus => Some(Command(SpiStat, []))
    case SendData(data) => Some(Command(DataSend, data))
    case SwitchToCustom => Some(Command(Switch, []))
    case EnterProgrammingMode => Some(Command(ModeProgram, []))
    case TerminateProgrammingMode => Some(Command(ModeNormal, []))
    case UploadCall(target, data) => if !TopBit(target) then None else Some(Command(UploadDownload, [target] + data))
    case DownloadCall(target, data) => if TopBit(target) then None else Some(Command(UploadDownload, [target] + data))
  }

  /** The commands calls give rise to. */
  predicate Built(cmd: Command) {
    && Sendable(cmd.msgType)
    && (cmd.msgType != DataSend && cmd.msgType != UploadDownload ==> cmd.data == [])
    && (cmd.msgType == UploadDownload ==> cmd.data != [])
  }

  lemma CallsDiffer(a: Call, b: Call)
    requires CommandOf(a).Some?
    ensures Built(CommandOf(a).value)
    ensures CommandOf(a) == CommandOf(b) ==> a == b
  {
    if a.UploadCall? || a.DownloadCall? {
      assert a.data == CommandOf(a).value.data[1..] && a.target == CommandOf(a).value.data[0];
      if (b.UploadCall? || b.DownloadCall?) && CommandOf(b).Some? {
        assert b.data == CommandOf(b).value.data[1..] && b.target == CommandOf(b).value.data[0];
      }
    }
  }

  predicate Sendable(t: MessageType) {
    t != Error && t != Async && t != DownloadData
  }

  /** What follows a header. */
  predicate FitsHeader(t: MessageType, p: ustring) {
    && Sendable(t)
    && (t != DataSend && t != UploadDownload ==> p == [])
    && (t == UploadDownload ==> p != [])
    && (t == DataSend ==> |p| >= 2)
  }

  /** The message type, by the bytes behind the '>'. */
  function TypeOf(x: ustring): (t: MessageType) {
    if x == [] then Test
    else if |x| == 1 then
      match x[0] as char
      case 'R' => ResUsb
      case 'I' => UsbInfo
      case 'B' => UsbConn
      case 'S' => SpiStat
      case _ => Switch
    else
      match x[0] as char
      case 'R' => ResTr
      case 'I' => TrInfo
      case 'D' => DataSend
      case _ => if |x| > 2 then UploadDownload else if x[1] as char == 'T' then ModeNormal else ModeProgram
  }

  lemma HeaderTells(t: MessageType, p: ustring)
    requires FitsHeader(t, p)
    ensures TypeOf(Header(t) + p) == t && (Header(t) + p)[|Header(t)|..] == p
  {
  }

  /** What the device makes of a frame: the command, if the frame is well formed. */
  function ReadFrame(f: ustring): (cmd: Option<Command>) {
    if |f| < 2 || f[0] != GT || f[|f| - 1] != CR then None
    else
      var x := f[1..|f| - 1];
      match TypeOf(x)
      case DataSend => if |x| >= 4 && x[3] == COLON && |x| - 4 == x[2] then Some(Command(DataSend, x[4..])) else None
      case UploadDownload => Some(Command(UploadDownload, x[2..]))
      case t => Some(Command(t, []))
  }

  /** Every frame reads back to its command: header, announced length, ':' and data are all in their places. */
  lemma FrameReadsBack(cmd: Command)
    requires Built(cmd) && Frame(cmd).Some?
    ensures ReadFrame(Frame(cmd).value) == Some(cmd)
  {
    var f, p := Frame(cmd).value, Payload(cmd).value;
    var x := f[1..|f| - 1];
    assert x == Header(cmd.msgType) + p;
    HeaderTells(cmd.msgType, p);
    assert x[|Header(cmd.msgType)|..] == p;
    if cmd.msgType == DataSend {
      assert x[2] == p[0] && x[3] == p[1];
      assert x[4..] == p[2..] == cmd.data;
    }
  }

  /** Different calls that can be sent never share a frame. */
  lemma FrameInjective(a: Call, b: Call)
    requires CommandOf(a).Some? && CommandOf(b).Some?
    requires Frame(CommandOf(a).value).Some? && Frame(CommandOf(a).value) == Frame(CommandOf(b).value)
    ensures a == b
  {
    CallsDiffer(a, b);
    CallsDiffer(b, a);
    FrameReadsBack(CommandOf(a).value);
    FrameReadsBack(CommandOf(b).value);
  }

  // ---------------------------------------------------------------- replies to commands

  /** Whether a reply of type t is the one the command waits for. */
  predicate Accepts(cmd: Command, t: MessageType) {
    t == cmd.msgType ||
    (cmd.msgType == UploadDownload && t == DownloadData && cmd.data != [] && !TopBit(cmd.data[0]))
  }

  /** Whether the decoder a call applies to its reply is defined on it. */
  predicate Decodes(call: Call, t: MessageType, m: ustring) {
    match call
    case GetUSBDeviceInfo => GetParsedDeviceInfo(m).Some?
    case GetTRModuleInfo => |m| == 21 || |m| == 37
    case GetStatus => GetParsedSPIStatus(m).Some?
    case SendData(_) => GetParsedDSResponse(m).Some?
    case EnterProgrammingMode => GetParsedPTEResponse(m).Some?
    case TerminateProgrammingMode => GetParsedPTEResponse(m).Some?
    case UploadCall(_, _) => GetParsedPMResponse(m).Some?
    case DownloadCall(_, _) =>
      if t == DownloadData then GetParsedPMData(m).Some? else GetParsedPMResponse(m).Some?
    case _ => true
  }

  /** An upload accepts a status only; a download accepts a status or data. */
  lemma UploadDownloadDuality(call: Call, t: MessageType)
    requires CommandOf(call).Some?
    ensures call.UploadCall? ==> (Accepts(CommandOf(call).value, t) <==> t == UploadDownload)
    ensures call.DownloadCall? ==> (Accepts(CommandOf(call).value, t) <==> t == UploadDownload || t == DownloadData)
  {
  }

  /** Whatever reply a call accepts, its decoder is defined on it. */
  lemma AcceptedDecodes(call: Call, t: MessageType, m: ustring)
    requires CommandOf(call).Some? && Accepts(CommandOf(call).value, t) && IsReply(t, m)
    ensures Decodes(call, t, m)
  {
    match t
    case UsbInfo => DeviceInfoInverts(m);
    case SpiStat => SPIStatusInverts(m, SPIMode(0));
    case DataSend => DSResponseInverts(m, DSResponse.OK);
    case ModeProgram => PEResponseInverts(m, PTEResponse.OK);
    case ModeNormal => PTResponseInverts(m, PTEResponse.OK);
    case UploadDownload => PMResponseInverts(m, PMResponse.OK);
    case DownloadData => PMDataInverts(m);
    case _ =>
  }
}
