/**
 * The compiler of HEX files into uploads: what one call that prepares a block does to the state,
 * and what the upload loop makes of the results.
 */
module HexCompiling {
  import opened Bytes
  import opened HexReading
  import opened Uploading

  const SERIAL_EEPROM_MIN_ADR := 0x0200
  const SERIAL_EEPROM_MAX_ADR := 0x09FF
  const LICENCED_MEM_MIN_ADR := 0x2C00
  const LICENCED_MEM_MAX_ADR := 0x37BF
  const MAIN_MEM_MIN_ADR := 0x3A00
  const MAIN_MEM_MAX_ADR := 0x3FFF
  const PIC_EEPROM_MIN := 0xF000
  const PIC_EEPROM_MAX := 0xF0FF

  const IMAGE_SIZE := 68

  /** What a call that prepares a block returns; Undefined: it would read behind the line buffer. */
  datatype Code = Success | FlashReady | EepromReady | EeepromReady | Failure | Undefined

  /** The globals of the program, and the file with its cursor. */
  datatype Prep = Prep(
    file: seq<byte>, pos: nat, line: seq<byte>,
    hiAddress: nat, address: nat, block: nat, processState: nat, ready: bool, overflow: bool, image: seq<byte>)

  predicate Valid(st: Prep) {
    && st.pos <= |st.file| && |st.line| == SIZE_OF_CODE_LINE_BUFFER && |st.image| == IMAGE_SIZE
    && st.hiAddress <= 0xFFFF0000 && st.address < 0x10000 && st.block < 0x10000
    && st.processState <= 2
  }

  /** The program when it starts: all globals are zero. */
  function Start(file: seq<byte>): (st: Prep)
    ensures Valid(st)
  {
    Prep(file, 0, Zeros(SIZE_OF_CODE_LINE_BUFFER), 0, 0, 0, 0, false, false, Zeros(IMAGE_SIZE))
  }

  datatype Outcome = Return(code: Code, st: Prep) | Continue(st: Prep)

  // ---------------------------------------------------------------- the image

  /** The image of an erased block: 0x3FFF in every word. */
  function Erased(): (image: seq<byte>)
    ensures |image| == IMAGE_SIZE
  {
    seq(IMAGE_SIZE, i => if i % 2 == 0 then 0xFF else 0x3F)
  }

  function Put(image: seq<byte>, at: nat, bytes: seq<byte>): (image': seq<byte>)
    requires at + |bytes| <= |image|
    ensures |image'| == |image|
  {
    image[..at] + bytes + image[at + |bytes|..]
  }

  /** The little-endian bytes of a 16-bit number. */
  function Word(n: nat): (bytes: seq<byte>)
    requires n < 0x10000
  {
    [n % 256, n / 256]
  }

  /** Copies every other byte of the line, from byte 4 on, running over the end of the image into byte 2. */
  function CopyEveryOther(image: seq<byte>, dest: nat, line: seq<byte>, cnt: nat, n: nat): (image': seq<byte>)
    requires |image| == IMAGE_SIZE && 2 <= dest < IMAGE_SIZE && cnt <= n && 2 * n + 3 <= |line|
    ensures |image'| == IMAGE_SIZE
    decreases n - cnt
  {
    if cnt == n then image
    else
      CopyEveryOther(image[dest := line[2 * cnt + 4]], if dest + 1 == IMAGE_SIZE then 2 else dest + 1, line, cnt + 1, n)
  }

  /** Bytes 4, 6, 8, ... of the line. */
  function LowBytes(line: seq<byte>, n: nat): (bytes: seq<byte>)
    requires 2 * n + 3 <= |line|
    ensures |bytes| == n
  {
    seq(n, i requires 0 <= i < n => line[2 * i + 4])
  }

  // ---------------------------------------------------------------- one record

  /** Header of the block behind a block of the external EEPROM, in 16 bits. */
  function NextHeader(memBlock: nat): (header: nat)
    ensures header < 0x10000
  {
    (memBlock + 1) * 32 % 0x10000
  }

  /** Makes the overflowed half of the image the active one. */
  function MoveOverflow(st: Prep): (st': Prep)
    requires Valid(st)
    ensures Valid(st') && !st'.overflow && st'.file == st.file && st'.pos == st.pos && st'.ready == st.ready
  {
    var memBlock := Number(st.image[0], st.image[1]) / 32;
    var image := Zeros(34) + st.image[..34];
    st.(image := Put(image, 0, Word(NextHeader(memBlock))), block := memBlock + 0x10, overflow := false,
        processState := 1)
  }

  /** Hands the active block over; the record stays in the line buffer. */
  function Flush(st: Prep): (o: Outcome) {
    Return(if st.block < 80 then EeepromReady else FlashReady, st)
  }

  /** Clears the image for a block of the external EEPROM, with the headers of that block and the next. */
  function OpenEeeprom(st: Prep): (st': Prep)
    requires Valid(st) && SERIAL_EEPROM_MIN_ADR <= st.address <= SERIAL_EEPROM_MAX_ADR
    ensures Valid(st')
  {
    var base := (st.address - 0x200) / 32 * 32;
    var image := Put(Put(Zeros(IMAGE_SIZE), 34, Word(base)), 0, Word(base + 0x20));
    st.(image := image, block := st.address / 32, processState := 1)
  }

  function StoreEeeprom(st: Prep): (o: Outcome)
    requires Valid(st) && SERIAL_EEPROM_MIN_ADR <= st.address <= SERIAL_EEPROM_MAX_ADR
    ensures Valid(o.st)
  {
    var st1 := if st.block == 0 then OpenEeeprom(st) else st;
    var dest := st.address % 32 + 36;
    var n := st.line[0] / 2;
    if st1.block != st.address / 32 then Flush(st1)
    else if 2 * n + 3 > SIZE_OF_CODE_LINE_BUFFER then Return(Undefined, st1)
    else
      var st2 := st1.(image := CopyEveryOther(st1.image, dest, st1.line, 0, n), ready := false);
      if dest + n > IMAGE_SIZE then Return(EeepromReady, st2.(overflow := true)) else Continue(st2)
  }

  /** Place of a word of a flash block in the image, behind the header of its half. */
  function FlashIndex(address: nat): (i: nat) {
    var i := address % 32 * 2;
    if i < 32 then i + 2 else i + 4
  }

  /** Number of bytes of the record that are kept: none from the last word of the area on. */
  function Kept(address: nat, len: byte, max: nat): (n: nat)
    requires address <= max
  {
    if address + len / 2 > max then (max - address) * 2 else len
  }

  function StoreFlash(st: Prep, max: nat): (o: Outcome)
    requires Valid(st) && st.address <= max < 0x4000
    ensures Valid(o.st)
  {
    var memBlock := st.address / 32;
    var dest := FlashIndex(st.address);
    var n := Kept(st.address, st.line[0], max);
    if dest + n > IMAGE_SIZE then Return(Failure, st)
    else if st.block != 0 && st.block != memBlock then Flush(st)
    else if n + 4 > SIZE_OF_CODE_LINE_BUFFER then Return(Undefined, st)
    else
      var image := Put(Put(st.image, 0, Word(memBlock * 32)), 34, Word(memBlock * 32 + 0x10));
      Continue(st.(image := Put(image, dest, st.line[4..4 + n]), block := memBlock, processState := 2, ready := false))
  }

  function StoreEeprom(st: Prep): (o: Outcome)
    requires Valid(st) && PIC_EEPROM_MIN <= st.address <= PIC_EEPROM_MAX
    ensures Valid(o.st)
  {
    if st.block != 0 then Flush(st)
    else
      var n := st.line[0] / 2;
      var st1 := st.(image := Put(st.image, 0, [st.address % 256, n]));
      if st.address + n > PIC_EEPROM_MAX || n > 32 then Return(Failure, st1)
      else if 2 * n + 3 > SIZE_OF_CODE_LINE_BUFFER then Return(Undefined, st1)
      else Return(EepromReady, st1.(image := Put(st1.image, 2, LowBytes(st.line, n)), ready := false, processState := 1))
  }

  function WordAddress(hiAddress: nat, line: seq<byte>): (a: nat)
    requires |line| == SIZE_OF_CODE_LINE_BUFFER
    ensures a < 0x10000
  {
    (hiAddress + Number(line[2], line[1])) / 2 % 0x10000
  }

  /** The state on which a data record is stored: its address computed, an overflow moved. */
  function Located(st: Prep): (q: Prep)
    requires Valid(st)
    ensures Valid(q) && !q.overflow
  {
    var st1 := st.(address := WordAddress(st.hiAddress, st.line));
    if st1.overflow then MoveOverflow(st1) else st1
  }

  /** Stores a data record in the area of its address. */
  function Store(q: Prep): (o: Outcome)
    requires Valid(q)
    ensures Valid(o.st)
  {
    if SERIAL_EEPROM_MIN_ADR <= q.address <= SERIAL_EEPROM_MAX_ADR then StoreEeeprom(q)
    else if MAIN_MEM_MIN_ADR <= q.address <= MAIN_MEM_MAX_ADR then StoreFlash(q, MAIN_MEM_MAX_ADR)
    else if LICENCED_MEM_MIN_ADR <= q.address <= LICENCED_MEM_MAX_ADR then StoreFlash(q, LICENCED_MEM_MAX_ADR)
    else if PIC_EEPROM_MIN <= q.address <= PIC_EEPROM_MAX then StoreEeprom(q)
    else Continue(q.(ready := false))
  }

  /** What becomes of the record in the line buffer. */
  function Process(st: Prep): (o: Outcome)
    requires Valid(st)
    ensures Valid(o.st)
  {
    if st.line[3] == 0 then Store(Located(st))
    else if st.line[3] == 4 then
      Continue(st.(hiAddress := Number(st.line[5], st.line[4]) * 0x10000, ready := false))
    else Continue(st.(ready := false))
  }

  /** The line buffer after a line was read into it; what lies behind the line stays. */
  function Fill(line: seq<byte>, data: seq<byte>): (line': seq<byte>)
    requires |data| <= |line|
    ensures |line'| == |line|
  {
    data + line[|data|..]
  }

  /** At the end of the file: what is still to be written. */
  function AtEnd(st: Prep): (o: Outcome)
    requires Valid(st)
    ensures Valid(o.st) && o.Return?
  {
    if st.block != 0 then Flush(st)
    else if st.overflow then Return(EeepromReady, MoveOverflow(st))
    else Return(Success, st)
  }

  /** A line is read, unless one waits; end of file and bad lines end the call. */
  function Fetch(st: Prep): (o: Outcome)
    requires Valid(st)
    ensures Valid(o.st) && (o.Continue? ==> o.st.ready)
    ensures o.Continue? && !st.ready ==> st.pos < o.st.pos
    ensures o.st.file == st.file && st.pos <= o.st.pos
  {
    if st.ready then Continue(st)
    else
      var l := ReadLine(st.file, st.pos);
      var st1 := st.(pos := l.pos, line := Fill(st.line, l.data));
      match l.result
      case DataError => Return(Failure, st1)
      case EndOfFile => AtEnd(st1)
      case DataReady => Continue(st1.(ready := true))
  }

  /** How much is left to do: bytes to read, a line to process, an overflow to write. */
  function Left(st: Prep): (n: nat)
    requires Valid(st)
  {
    4 * (|st.file| - st.pos) + (if st.ready then 2 else 0) + (if st.overflow then 1 else 0)
  }

  predicate IsReady(code: Code) {
    code in {FlashReady, EepromReady, EeepromReady}
  }

  /** Processing reads no file; the record is done with, or it waits while an older block is handed over. */
  ghost predicate Progress(st: Prep, o: Outcome) {
    && o.st.file == st.file && o.st.pos == st.pos
    && (o.Continue? ==> !o.st.ready)
    && (o.Return? && IsReady(o.code) && o.st.ready ==> !o.st.overflow && (st.block != 0 || st.overflow))
  }

  lemma StoreProgress(st: Prep)
    requires Valid(st) && st.ready && !st.overflow
    ensures SERIAL_EEPROM_MIN_ADR <= st.address <= SERIAL_EEPROM_MAX_ADR ==> Progress(st, StoreEeeprom(st))
    ensures PIC_EEPROM_MIN <= st.address <= PIC_EEPROM_MAX ==> Progress(st, StoreEeprom(st))
    ensures forall max :: st.address <= max < 0x4000 ==> Progress(st, StoreFlash(st, max))
  {
  }

  lemma ProcessProgress(st: Prep)
    requires Valid(st) && st.ready
    ensures Progress(st, Process(st))
  {
    if st.line[3] == 0 {
      StoreProgress(Located(st));
    }
  }

  /** The loop of a call. */
  function Loop(st: Prep): (r: (Code, Prep))
    requires Valid(st)
    ensures Valid(r.1)
    decreases |st.file| - st.pos, st.ready
  {
    match Fetch(st)
    case Return(code, st1) => (code, st1)
    case Continue(st1) =>
      ProcessProgress(st1);
      match Process(st1)
      case Return(code, st2) => (code, st2)
      case Continue(st2) => Loop(st2)
  }

  /** A call starts with an erased image, unless an overflow waits in it, and with no active block. */
  function Begin(st: Prep): (st': Prep) {
    st.(image := if st.overflow then st.image else Erased(), block := 0)
  }

  /** A call of the block preparation. */
  function Prepare(st: Prep): (r: (Code, Prep))
    requires Valid(st)
    ensures Valid(r.1)
  {
    Loop(Begin(st))
  }

  // ---------------------------------------------------------------- the upload loop

  /** The size byte of the internal EEPROM image is cleared before its upload. */
  function EepromUpload(image: seq<byte>): (u: Upload)
    requires |image| == IMAGE_SIZE
  {
    var size := if image[1] + 2 <= IMAGE_SIZE then image[1] + 2 else IMAGE_SIZE;
    Upload(TARGET_EEPROM_W, [image[0], 0] + image[2..size])
  }

  /** The next packet of a block handed over. */
  function NextUpload(code: Code, st: Prep): (u: Upload)
    requires Valid(st)
  {
    match code
    case FlashReady => Upload(TARGET_FLASH_W, if st.processState == 2 then st.image[..34] else st.image[34..])
    case EeepromReady => Upload(TARGET_EEEPROM_W, st.image[34..])
    case _ => EepromUpload(st.image)
  }

  function AfterUpload(code: Code, st: Prep): (st': Prep)
    requires Valid(st) && st.processState > 0
    ensures Valid(st')
  {
    st.(processState := st.processState - 1, image := if code == EepromReady then st.image[1 := 0] else st.image)
  }

  /** What is uploaded for a block handed over, one packet for each step of its process state. */
  function Uploads(code: Code, st: Prep): (log: seq<Upload>)
    requires Valid(st)
    decreases st.processState
  {
    if st.processState == 0 then [] else [NextUpload(code, st)] + Uploads(code, AfterUpload(code, st))
  }

  /** The state after the uploads of a block. */
  function Uploaded(code: Code, st: Prep): (st': Prep)
    requires Valid(st)
    ensures Valid(st')
  {
    st.(processState := 0, image := if code == EepromReady && st.processState > 0 then st.image[1 := 0] else st.image)
  }

  /** Reading lowers what is left, or the call ends with nothing but an older block to write. */
  lemma FetchProgress(st: Prep)
    requires Valid(st)
    ensures var o := Fetch(st);
            && (o.Continue? && !st.ready ==> Left(o.st) + 2 <= Left(st))
            && (o.Return? && IsReady(o.code) ==> Left(o.st) <= Left(st) && (st.block == 0 ==> Left(o.st) < Left(st)))
  {
  }

  /** A call that hands a block over leaves less to do, so the upload loop ends. */
  lemma {:induction false} LoopProgress(st: Prep)
    requires Valid(st)
    ensures var (code, st') := Loop(st);
            IsReady(code) ==> Left(st') <= Left(st) && (st.block == 0 ==> Left(st') < Left(st))
    decreases |st.file| - st.pos, st.ready
  {
    FetchProgress(st);
    if Fetch(st).Continue? {
      var st1 := Fetch(st).st;
      ProcessProgress(st1);
      var o := Process(st1);
      if o.Continue? {
        LoopProgress(o.st);
      }
    }
  }

  /** The upload loop: calls until none hands a block over; the result is the log of uploads and the last code. */
  function Drive(st: Prep): (r: (seq<Upload>, Code))
    requires Valid(st)
    decreases Left(st)
  {
    LoopProgress(Begin(st));
    var (code, st1) := Prepare(st);
    if !IsReady(code) then ([], code)
    else
      var more := Drive(Uploaded(code, st1));
      (Uploads(code, st1) + more.0, more.1)
  }
}
