/**
 * The replies of the device, as a grammar.  Fixed-form replies are written as patterns: a '?' in a
 * pattern stands for any byte, a '%' for one of the digits '2' to '7', every other character for
 * itself.
 */
module Messages {
  import opened Bytes

  datatype MessageType =
    | Error | Test | ResUsb | ResTr | UsbInfo | TrInfo | UsbConn | SpiStat | DataSend | Switch
    | Async | ModeNormal | ModeProgram | UploadDownload | DownloadData

  predicate Fits(b: byte, p: char) {
    if p == '?' then true else if p == '%' then '2' <= b as char <= '7' else b as char == p
  }

  predicate Matches(m: ustring, pattern: string) {
    |m| == |pattern| && forall i :: 0 <= i < |m| ==> Fits(m[i], pattern[i])
  }

  /** m begins with something that matches the pattern. */
  predicate Begins(m: ustring, pattern: string) {
    |pattern| <= |m| && Matches(m[..|pattern|], pattern)
  }

  // ---------------------------------------------------------------- bodies

  /** The three parts of a USB device identification. */
  datatype DeviceInfo = DeviceInfo(typ: ustring, firmwareVersion: ustring, serialNumber: ustring)

  const USB_INFO_HEAD: ustring := ['<' as int, 'I' as int, ':' as int]

  predicate IsVersionByte(b: byte) {
    '0' <= b as char <= '9' || b as char == '.'
  }

  predicate IsIdByte(b: byte) {
    '0' <= b as char <= '9' || 'A' <= b as char <= 'H'
  }

  predicate ValidInfo(info: DeviceInfo) {
    && HASH !in info.typ
    && (forall b :: b in info.firmwareVersion ==> IsVersionByte(b))
    && (forall b :: b in info.serialNumber ==> IsIdByte(b))
  }

  function PrintDeviceInfo(info: DeviceInfo): (m: ustring) {
    USB_INFO_HEAD + info.typ + [HASH] + info.firmwareVersion + [HASH] + info.serialNumber + [CR]
  }

  /** Where the parts of a printed identification stand. */
  lemma PrintParts(info: DeviceInfo)
    ensures var m := PrintDeviceInfo(info);
            var a := 3 + |info.typ|;
            var b := a + 1 + |info.firmwareVersion|;
            var c := b + 1 + |info.serialNumber|;
            && |m| == c + 1 && m[..3] == USB_INFO_HEAD && m[a] == HASH && m[b] == HASH && m[c] == CR
            && m[3..a] == info.typ && m[a + 1..b] == info.firmwareVersion && m[b + 1..c] == info.serialNumber
  {
    var front := USB_INFO_HEAD + info.typ + [HASH];
    var middle := front + info.firmwareVersion + [HASH];
    assert PrintDeviceInfo(info) == middle + info.serialNumber + [CR];
    assert PrintDeviceInfo(info) == front + (info.firmwareVersion + [HASH] + info.serialNumber + [CR]);
  }

  // ---------------------------------------------------------------- the grammar

  /** The replies of a type that are spelled out in full, as patterns. */
  function FixedForms(t: MessageType): (forms: set<string>) {
    match t
    case Error => {"<ERR\r"}
    case Test => {"<OK\r"}
    case ResUsb => {"<R:OK\r"}
    case ResTr => {"<RT:OK\r"}
    case UsbConn => {"<B:OK\r"}
    case SpiStat => {"<S:?\r"}
    case DataSend => {"<DS:OK\r", "<DS:ERR\r", "<DS:BUSY\r"}
    case Switch => {"<U:OK\r"}
    case ModeProgram => {"<PE:OK\r", "<PE:ERR1\r"}
    case ModeNormal => {"<PT:OK\r", "<PT:ERR1\r"}
    case UploadDownload => {"<PM:OK\r", "<PM:ERR%\r", "<PM:BUSY\r"}
    case _ => {}
  }

  /** m is a complete reply of type t. */
  ghost predicate IsReply(t: MessageType, m: ustring) {
    match t
    case UsbInfo => exists info :: ValidInfo(info) && m == PrintDeviceInfo(info)
    case TrInfo => Begins(m, "<IT:") && |m| in {21, 37} && m[|m| - 1] == CR
    case Async => Begins(m, "<DR?:") && |m| - 6 == m[3] && m[|m| - 1] == CR
    case DownloadData => Begins(m, "<PM:") && 6 <= |m| && m[|m| - 1] == CR
    case _ => exists form :: form in FixedForms(t) && Matches(m, form)
  }

  /**
   * Whether the parser can tell that a buffer of the given size begins with a reply of type t and
   * length len: three types are told apart by the size of the whole buffer, and data of length 0
   * is only looked at when one more byte has come.
   */
  predicate Recognisable(t: MessageType, len: nat, size: nat) {
    match t
    case TrInfo => len == 21 ==> size == 21
    case Async => 7 <= size
    case UploadDownload => size == 7 || size == 9
    case DownloadData => size == len && size != 7 && size != 9
    case _ => true
  }
}
