/** The program that uploads a HEX file, on its buffers, proved against the functions of HexCompiling. */
module HexProgramming {
  import opened Bytes
  import opened HexReading
  import opened HexCompiling
  import opened Uploading
  import opened Wrappers

  /** What a step came to: a code to return, or nothing yet. */
  function AsOutcome(r: Option<Code>, st: Prep): (o: Outcome) {
    match r
    case Some(code) => Return(code, st)
    case None => Continue(st)
  }

  /** Adds to a checksum of one byte. */
  function AddByte(crc: byte, b: byte): (crc': byte) {
    (crc + b) % 256
  }

  /** The checksum as it is kept while a line is read. */
  function LineCrc(data: seq<byte>): (crc: byte) {
    if data == [] then 0 else AddByte(LineCrc(data[..|data| - 1]), data[|data| - 1])
  }

  /** It is the sum of the bytes, modulo 256. */
  lemma {:induction false} LineCrcSums(data: seq<byte>)
    ensures LineCrc(data) == Sum(data) % 256
    decreases |data|
  {
    if data != [] {
      var front, last := data[..|data| - 1], data[|data| - 1];
      LineCrcSums(front);
      AddedOn(Sum(front), last);
    }
  }

  lemma AddedOn(n: nat, b: byte)
    ensures AddByte(n % 256, b) == (n + b) % 256
  {
    var (q, r) := (n / 256, n % 256);
    assert n + b == 256 * q + (r + b);
    assert r + b == if r + b < 256 then AddByte(r, b) else 256 + AddByte(r, b);
  }

  lemma LineCrcOn(data: seq<byte>, b: byte)
    ensures LineCrc(data + [b]) == AddByte(LineCrc(data), b)
  {
    assert (data + [b])[..|data|] == data;
  }

  lemma FilledOn(line: seq<byte>, data: seq<byte>, b: byte)
    requires |data| < |line|
    ensures Fill(line, data)[|data| := b] == Fill(line, data + [b])
  {
  }

  lemma UploadedOn(code: Code, st: Prep)
    requires Valid(st) && st.processState > 0
    ensures Uploaded(code, AfterUpload(code, st)) == Uploaded(code, st)
  {
  }

  /** What is uploaded already, and what the loop will do from st on, make up the whole. */
  ghost predicate Remains(whole: (seq<Upload>, Code), done: seq<Upload>, st: Prep)
    requires Valid(st)
  {
    whole.0 == done + Drive(st).0 && whole.1 == Drive(st).1
  }

  ghost predicate Going(whole: (seq<Upload>, Code), done: seq<Upload>, code: Code, st: Prep)
    requires Valid(st)
  {
    if IsReady(code) then Remains(whole, done, st) else whole == (done, code)
  }

  lemma AllRemains(st: Prep)
    requires Valid(st)
    ensures Remains(Drive(st), [], st)
  {
    assert [] + Drive(st).0 == Drive(st).0;
  }

  lemma LastTurn(whole: (seq<Upload>, Code), done: seq<Upload>, st: Prep, code: Code, st1: Prep)
    requires Valid(st) && (code, st1) == Prepare(st) && !IsReady(code) && Remains(whole, done, st)
    ensures whole == (done, code)
  {
    assert Drive(st) == ([], code);
    assert done + [] == done;
  }

  lemma NextTurn(whole: (seq<Upload>, Code), done: seq<Upload>, st: Prep, code: Code, st1: Prep)
    requires Valid(st) && (code, st1) == Prepare(st) && IsReady(code) && Remains(whole, done, st)
    ensures Remains(whole, done + Uploads(code, st1), Uploaded(code, st1))
    ensures Left(Uploaded(code, st1)) < Left(st)
  {
    LoopProgress(Begin(st));
    DrivesOn(st, code, st1);
    Assoc(done, Uploads(code, st1), Drive(Uploaded(code, st1)).0);
  }

  lemma DrivesOn(st: Prep, code: Code, st1: Prep)
    requires Valid(st) && (code, st1) == Prepare(st) && IsReady(code)
    ensures Drive(st) == (Uploads(code, st1) + Drive(Uploaded(code, st1)).0, Drive(Uploaded(code, st1)).1)
  {
    LoopProgress(Begin(st));
  }

  /** MoveOverflow, from the copied image on. */
  lemma OverflowMoves(st: Prep, image: seq<byte>)
    requires Valid(st) && image == Zeros(34) + st.image[..34]
    ensures |image| == IMAGE_SIZE
    ensures var memBlock := Number(image[34], image[35]) / 32;
            MoveOverflow(st) ==
            st.(image := Put(image, 0, Word(NextHeader(memBlock))), block := memBlock + 0x10, overflow := false,
                processState := 1)
  {
    assert image[34] == st.image[0] && image[35] == st.image[1];
  }

  /** The globals of the program, the file it reads, and the log of what it uploads. */
  class HexProgrammer {
    const file: seq<byte>
    var pos: nat
    const codeLineBuffer: array<byte>
    var hiAddress: nat
    var address: nat
    var memoryBlockNumber: nat
    var memoryBlockProcessState: nat
    var dataInBufferReady: bool
    var dataOverflow: bool
    const memoryBlock: array<byte>
    var uploads: seq<Upload>

    ghost function State(): (st: Prep)
      reads this, codeLineBuffer, memoryBlock
    {
      Prep(file, pos, codeLineBuffer[..], hiAddress, address, memoryBlockNumber, memoryBlockProcessState,
           dataInBufferReady, dataOverflow, memoryBlock[..])
    }

    ghost predicate Ok()
      reads this, codeLineBuffer, memoryBlock
    {
      codeLineBuffer != memoryBlock && Valid(State())
    }

    constructor (file: seq<byte>)
      ensures Ok() && fresh(codeLineBuffer) && fresh(memoryBlock) && State() == Start(file) && uploads == []
    {
      this.file := file;
      pos := 0;
      codeLineBuffer := new byte[SIZE_OF_CODE_LINE_BUFFER](_ => 0);
      hiAddress, address, memoryBlockNumber, memoryBlockProcessState := 0, 0, 0, 0;
      dataInBufferReady, dataOverflow := false, false;
      memoryBlock := new byte[IMAGE_SIZE](_ => 0);
      uploads := [];
      new;
      assert codeLineBuffer[..] == Zeros(SIZE_OF_CODE_LINE_BUFFER);
      assert memoryBlock[..] == Zeros(IMAGE_SIZE);
    }

    // -------------------------------------------------------------- the line reader

    method ReadByteFromFile() returns (b: byte)
      requires pos <= |file|
      modifies this`pos
      ensures b == ByteAt(file, old(pos)) && pos == Next(file, old(pos))
    {
      if pos == |file| {
        b := 0;
      } else {
        b := file[pos];
        pos := pos + 1;
      }
    }

    /** Skips everything up to the next ':'. */
    method FindStartOfLine() returns (found: bool)
      requires pos <= |file|
      modifies this`pos
      ensures (found, pos) == FindColon(file, old(pos)) && pos <= |file|
    {
      var sign := ReadByteFromFile();
      while sign != 0 && sign != COLON
        invariant pos <= |file|
        invariant FindColon(file, old(pos)) ==
                  if sign == 0 || sign == COLON then (sign == COLON, pos) else FindColon(file, pos)
        decreases |file| - pos, sign != 0
      {
        sign := ReadByteFromFile();
      }
      found := sign == COLON;
    }

    /** The next byte of a line goes into the buffer. */
    method StoreByte(at: nat, b: byte, ghost line: seq<byte>, ghost data: seq<byte>)
      requires at == |data| < |line| == codeLineBuffer.Length && codeLineBuffer[..] == Fill(line, data)
      modifies codeLineBuffer
      ensures codeLineBuffer[..] == Fill(line, data + [b])
    {
      FilledOn(line, data, b);
      codeLineBuffer[at] := b;
      assert codeLineBuffer[..] == Fill(line, data)[at := b];
    }

    /** Decodes up to the end of the line. */
    method DecodeToEnd() returns (result: LineResult)
      requires Ok()
      modifies this`pos, codeLineBuffer
      ensures result == DecodeLine(file, old(pos), []).result && pos == DecodeLine(file, old(pos), []).pos
      ensures codeLineBuffer[..] == Fill(old(codeLineBuffer[..]), DecodeLine(file, old(pos), []).data)
      ensures pos <= |file|
    {
      ghost var start, line := pos, codeLineBuffer[..];
      ghost var data: seq<byte> := [];
      var codeLineBufferPtr, crc: byte := 0, 0;
      while true
        invariant pos <= |file| && codeLineBufferPtr < SIZE_OF_CODE_LINE_BUFFER
        invariant |data| == codeLineBufferPtr && codeLineBuffer[..] == Fill(line, data)
        invariant crc == LineCrc(data)
        invariant DecodeLine(file, start, []) == DecodeLine(file, pos, data)
        decreases SIZE_OF_CODE_LINE_BUFFER - codeLineBufferPtr
      {
        var hi := ReadByteFromFile();
        hi := ToLower(hi);
        if hi == LF || hi == CR {
          LineCrcSums(data);
          return if crc != 0 then DataError else DataReady;
        }
        var lo := ReadByteFromFile();
        var dataByte := ConvertToNum(hi, ToLower(lo));
        LineCrcOn(data, dataByte);
        crc := AddByte(crc, dataByte);
        StoreByte(codeLineBufferPtr, dataByte, line, data);
        data := data + [dataByte];
        codeLineBufferPtr := codeLineBufferPtr + 1;
        if codeLineBufferPtr >= SIZE_OF_CODE_LINE_BUFFER {
          return DataError;
        }
      }
    }

    method ReadHEXFileLine() returns (result: LineResult)
      requires Ok()
      modifies this`pos, codeLineBuffer
      ensures result == ReadLine(file, old(pos)).result
      ensures State() == old(State()).(pos := ReadLine(file, old(pos)).pos,
                                       line := Fill(old(codeLineBuffer[..]), ReadLine(file, old(pos)).data))
      ensures Ok()
    {
      var found := FindStartOfLine();
      if !found {
        assert codeLineBuffer[..] == Fill(codeLineBuffer[..], []);
        return EndOfFile;
      }
      result := DecodeToEnd();
    }

    // -------------------------------------------------------------- the image

    /** Writes the little-endian bytes of a number into the image. */
    method PutWord(at: nat, n: nat)
      requires at + 2 <= memoryBlock.Length && n < 0x10000
      modifies memoryBlock
      ensures memoryBlock[..] == Put(old(memoryBlock[..]), at, Word(n))
    {
      memoryBlock[at], memoryBlock[at + 1] := n % 256, n / 256;
    }

    method Erase()
      requires memoryBlock.Length == IMAGE_SIZE
      modifies memoryBlock
      ensures memoryBlock[..] == Erased()
    {
      var cnt := 0;
      while cnt < IMAGE_SIZE
        invariant cnt <= IMAGE_SIZE && cnt % 2 == 0
        invariant forall i :: 0 <= i < cnt ==> memoryBlock[i] == Erased()[i]
      {
        memoryBlock[cnt], memoryBlock[cnt + 1] := 0xFF, 0x3F;
        cnt := cnt + 2;
      }
    }

    /** Copies the first half of the image over the second, and clears the first. */
    method ShiftOverflow()
      requires memoryBlock.Length == IMAGE_SIZE
      modifies memoryBlock
      ensures memoryBlock[..] == Zeros(34) + old(memoryBlock[..])[..34]
    {
      forall i | 0 <= i < 34 {
        memoryBlock[34 + i] := memoryBlock[i];
      }
      forall i | 0 <= i < 34 {
        memoryBlock[i] := 0;
      }
    }

    method MoveOverflowedData()
      requires Ok()
      modifies this, memoryBlock
      ensures State() == MoveOverflow(old(State())) && Ok() && uploads == old(uploads)
    {
      ghost var st := State();
      ShiftOverflow();
      OverflowMoves(st, memoryBlock[..]);
      var memBlock := Number(memoryBlock[34], memoryBlock[35]) / 32;
      memoryBlockNumber := memBlock + 0x10;
      PutWord(0, NextHeader(memBlock));
      dataOverflow := false;
      memoryBlockProcessState := 1;
    }

    // -------------------------------------------------------------- storing a record

    /** The code under which the active block is handed over. */
    method BlockReady() returns (code: Code)
      ensures Flush(State()) == Return(code, State())
    {
      code := if memoryBlockNumber < 80 then EeepromReady else FlashReady;
    }

    method OpenSerialEeprom()
      requires Ok() && SERIAL_EEPROM_MIN_ADR <= address <= SERIAL_EEPROM_MAX_ADR
      modifies this, memoryBlock
      ensures State() == OpenEeeprom(old(State())) && Ok() && uploads == old(uploads)
    {
      var memBlock := (address - 0x200) / 32;
      memBlock := memBlock * 32;
      forall i | 0 <= i < memoryBlock.Length {
        memoryBlock[i] := 0;
      }
      assert memoryBlock[..] == Zeros(IMAGE_SIZE);
      PutWord(34, memBlock);
      PutWord(0, memBlock + 0x20);
      memoryBlockNumber := address / 32;
      memoryBlockProcessState := 1;
    }

    method CopyLowBytes(dest: nat, n: nat)
      requires Ok() && 2 <= dest < IMAGE_SIZE && 2 * n + 3 <= SIZE_OF_CODE_LINE_BUFFER
      modifies memoryBlock
      ensures memoryBlock[..] == CopyEveryOther(old(memoryBlock[..]), dest, codeLineBuffer[..], 0, n)
    {
      ghost var image, line := memoryBlock[..], codeLineBuffer[..];
      var destinationIndex, cnt := dest, 0;
      while cnt < n
        invariant 0 <= cnt <= n && 2 <= destinationIndex < IMAGE_SIZE && codeLineBuffer[..] == line
        invariant CopyEveryOther(image, dest, line, 0, n) ==
                  CopyEveryOther(memoryBlock[..], destinationIndex, line, cnt, n)
      {
        ghost var before := memoryBlock[..];
        memoryBlock[destinationIndex] := codeLineBuffer[2 * cnt + 4];
        assert memoryBlock[..] == before[destinationIndex := line[2 * cnt + 4]];
        destinationIndex := destinationIndex + 1;
        if destinationIndex == IMAGE_SIZE {
          destinationIndex := 2;
        }
        cnt := cnt + 1;
      }
    }

    method StoreSerialEeprom() returns (r: Option<Code>)
      requires Ok() && SERIAL_EEPROM_MIN_ADR <= address <= SERIAL_EEPROM_MAX_ADR && !dataOverflow
      modifies this, memoryBlock
      ensures StoreEeeprom(old(State())) == AsOutcome(r, State()) && Ok() && uploads == old(uploads)
    {
      if memoryBlockNumber == 0 {
        OpenSerialEeprom();
      }
      var destinationIndex := address % 32 + 36;
      var dataCounter := codeLineBuffer[0] / 2;
      if memoryBlockNumber != address / 32 {
        var code := BlockReady();
        return Some(code);
      }
      if 2 * dataCounter + 3 > SIZE_OF_CODE_LINE_BUFFER {
        return Some(Undefined);
      }
      if destinationIndex + dataCounter > IMAGE_SIZE {
        dataOverflow := true;
      }
      CopyLowBytes(destinationIndex, dataCounter);
      dataInBufferReady := false;
      return if dataOverflow then Some(EeepromReady) else None;
    }

    /** Copies the first n bytes of the record into the image. */
    method CopyBytes(dest: nat, n: nat)
      requires codeLineBuffer != memoryBlock && codeLineBuffer.Length == SIZE_OF_CODE_LINE_BUFFER
      requires dest + n <= memoryBlock.Length && 4 + n <= SIZE_OF_CODE_LINE_BUFFER
      modifies memoryBlock
      ensures memoryBlock[..] == Put(old(memoryBlock[..]), dest, codeLineBuffer[..][4..4 + n])
    {
      forall i | 0 <= i < n {
        memoryBlock[dest + i] := codeLineBuffer[4 + i];
      }
    }

    /** Makes memBlock the active block, and copies n bytes of the record into its image. */
    method PutFlash(memBlock: nat, dest: nat, n: nat)
      requires Ok() && memBlock < 0x200 && dest + n <= IMAGE_SIZE && n + 4 <= SIZE_OF_CODE_LINE_BUFFER
      modifies this, memoryBlock
      ensures var st := old(State());
              State() == st.(image := Put(Put(Put(st.image, 0, Word(memBlock * 32)), 34, Word(memBlock * 32 + 0x10)),
                                          dest, st.line[4..4 + n]),
                             block := memBlock, processState := 2, ready := false)
      ensures Ok() && uploads == old(uploads)
    {
      memoryBlockNumber := memBlock;
      memoryBlockProcessState := 2;
      PutWord(0, memBlock * 32);
      PutWord(34, memBlock * 32 + 0x10);
      CopyBytes(dest, n);
      dataInBufferReady := false;
    }

    /** Where in the image the record goes, and how much of it is kept. */
    method FlashPlace(max: nat) returns (destinationIndex: nat, dataCounter: nat)
      requires Ok() && address <= max
      ensures destinationIndex == FlashIndex(address) && dataCounter == Kept(address, codeLineBuffer[0], max)
    {
      destinationIndex := address % 32 * 2;
      destinationIndex := if destinationIndex < 32 then destinationIndex + 2 else destinationIndex + 4;
      dataCounter := codeLineBuffer[0];
      if address + dataCounter / 2 > max {
        dataCounter := (max - address) * 2;
      }
    }

    method StoreFlashMemory(max: nat) returns (r: Option<Code>)
      requires Ok() && address <= max < 0x4000
      modifies this, memoryBlock
      ensures StoreFlash(old(State()), max) == AsOutcome(r, State()) && Ok() && uploads == old(uploads)
    {
      var memBlock := address / 32;
      var destinationIndex, dataCounter := FlashPlace(max);
      if destinationIndex + dataCounter > IMAGE_SIZE {
        return Some(Failure);
      }
      if memoryBlockNumber != 0 && memoryBlockNumber != memBlock {
        var code := BlockReady();
        return Some(code);
      }
      if dataCounter + 4 > SIZE_OF_CODE_LINE_BUFFER {
        return Some(Undefined);
      }
      PutFlash(memBlock, destinationIndex, dataCounter);
      return None;
    }

    /** Copies the low bytes of n words of the record behind the header of the image. */
    method CopyToEeprom(n: nat)
      requires codeLineBuffer != memoryBlock && codeLineBuffer.Length == SIZE_OF_CODE_LINE_BUFFER
      requires memoryBlock.Length == IMAGE_SIZE && n <= 32 && 2 * n + 3 <= SIZE_OF_CODE_LINE_BUFFER
      modifies memoryBlock
      ensures memoryBlock[..] == Put(old(memoryBlock[..]), 2, LowBytes(codeLineBuffer[..], n))
    {
      var cnt := 0;
      while cnt < n
        invariant 0 <= cnt <= n && codeLineBuffer[..] == old(codeLineBuffer[..])
        invariant forall i :: 0 <= i < IMAGE_SIZE ==>
                    memoryBlock[i] == if 2 <= i < 2 + cnt then codeLineBuffer[2 * (i - 2) + 4] else old(memoryBlock[i])
      {
        memoryBlock[cnt + 2] := codeLineBuffer[2 * cnt + 4];
        cnt := cnt + 1;
      }
    }

    method StoreInternalEeprom() returns (r: Option<Code>)
      requires Ok() && PIC_EEPROM_MIN <= address <= PIC_EEPROM_MAX
      modifies this, memoryBlock
      ensures StoreEeprom(old(State())) == AsOutcome(r, State()) && Ok() && uploads == old(uploads)
    {
      if memoryBlockNumber != 0 {
        var code := BlockReady();
        return Some(code);
      }
      ghost var image := memoryBlock[..];
      memoryBlock[0], memoryBlock[1] := address % 256, codeLineBuffer[0] / 2;
      assert memoryBlock[..] == Put(image, 0, [address % 256, codeLineBuffer[0] / 2]);
      var n := memoryBlock[1];
      if address + n > PIC_EEPROM_MAX || n > 32 {
        return Some(Failure);
      }
      if 2 * n + 3 > SIZE_OF_CODE_LINE_BUFFER {
        return Some(Undefined);
      }
      CopyToEeprom(n);
      dataInBufferReady := false;
      memoryBlockProcessState := 1;
      return Some(EepromReady);
    }

    // -------------------------------------------------------------- a call

    /** Computes the address of a data record; an overflow becomes the active block. */
    method LocateRecord()
      requires Ok()
      modifies this, memoryBlock
      ensures State() == Located(old(State())) && Ok() && uploads == old(uploads)
    {
      address := (hiAddress + Number(codeLineBuffer[2], codeLineBuffer[1])) / 2 % 0x10000;
      if dataOverflow {
        MoveOverflowedData();
      }
    }

    method StoreRecord() returns (r: Option<Code>)
      requires Ok() && !dataOverflow
      modifies this, memoryBlock
      ensures Store(old(State())) == AsOutcome(r, State()) && Ok() && uploads == old(uploads)
    {
      if SERIAL_EEPROM_MIN_ADR <= address <= SERIAL_EEPROM_MAX_ADR {
        r := StoreSerialEeprom();
      } else if MAIN_MEM_MIN_ADR <= address <= MAIN_MEM_MAX_ADR {
        r := StoreFlashMemory(MAIN_MEM_MAX_ADR);
      } else if LICENCED_MEM_MIN_ADR <= address <= LICENCED_MEM_MAX_ADR {
        r := StoreFlashMemory(LICENCED_MEM_MAX_ADR);
      } else if PIC_EEPROM_MIN <= address <= PIC_EEPROM_MAX {
        r := StoreInternalEeprom();
      } else {
        dataInBufferReady := false;
        r := None;
      }
    }

    /** What becomes of the record in the line buffer. */
    method ProcessLine() returns (r: Option<Code>)
      requires Ok()
      modifies this, memoryBlock
      ensures Process(old(State())) == AsOutcome(r, State()) && Ok() && uploads == old(uploads)
    {
      if codeLineBuffer[3] == 0 {
        LocateRecord();
        r := StoreRecord();
      } else {
        if codeLineBuffer[3] == 4 {
          hiAddress := Number(codeLineBuffer[5], codeLineBuffer[4]) * 0x10000;
        }
        dataInBufferReady := false;
        r := None;
      }
    }

    /** Reads a line unless one waits; at the end of the file, finds what is still to be written. */
    method FetchLine() returns (r: Option<Code>)
      requires Ok()
      modifies this, codeLineBuffer, memoryBlock
      ensures Fetch(old(State())) == AsOutcome(r, State()) && Ok() && uploads == old(uploads)
    {
      if dataInBufferReady {
        return None;
      }
      var result := ReadHEXFileLine();
      match result
      case DataError => return Some(Failure);
      case DataReady =>
        dataInBufferReady := true;
        return None;
      case EndOfFile =>
        if memoryBlockNumber != 0 {
          var code := BlockReady();
          return Some(code);
        } else if dataOverflow {
          MoveOverflowedData();
          return Some(EeepromReady);
        } else {
          return Some(Success);
        }
    }

    /** Prepares the next block to be uploaded. */
    method PrepareMemBlock() returns (code: Code)
      requires Ok()
      modifies this, codeLineBuffer, memoryBlock
      ensures (code, State()) == Prepare(old(State())) && Ok() && uploads == old(uploads)
    {
      if !dataOverflow {
        Erase();
      }
      memoryBlockNumber := 0;
      assert State() == Begin(old(State()));
      while true
        invariant Ok() && uploads == old(uploads)
        invariant Loop(State()) == Prepare(old(State()))
        decreases |file| - pos, dataInBufferReady
      {
        ghost var st0 := State();
        var r := FetchLine();
        if r.Some? {
          return r.value;
        }
        ghost var st1 := State();
        ProcessProgress(st1);
        r := ProcessLine();
        if r.Some? {
          return r.value;
        }
      }
    }

    // -------------------------------------------------------------- the upload loop

    /** Takes the next packet of a block that was handed over. */
    method TakePacket(code: Code) returns (u: Upload)
      requires Ok() && IsReady(code) && memoryBlockProcessState > 0
      modifies this`memoryBlockProcessState, memoryBlock
      ensures u == NextUpload(code, old(State())) && State() == AfterUpload(code, old(State())) && Ok()
    {
      match code {
        case FlashReady =>
          u := Upload(TARGET_FLASH_W, if memoryBlockProcessState == 2 then memoryBlock[..34] else memoryBlock[34..]);
        case EeepromReady =>
          u := Upload(TARGET_EEEPROM_W, memoryBlock[34..]);
        case EepromReady =>
          ghost var image := memoryBlock[..];
          var size := if memoryBlock[1] + 2 <= IMAGE_SIZE then memoryBlock[1] + 2 else IMAGE_SIZE;
          memoryBlock[1] := 0;
          u := Upload(TARGET_EEPROM_W, memoryBlock[..size]);
          assert memoryBlock[..] == image[1 := 0];
          assert u.data == [image[0], 0] + image[2..size];
      }
      memoryBlockProcessState := memoryBlockProcessState - 1;
    }

    /** Uploads a block that was handed over, one packet for each step of its process state. */
    method UploadBlock(code: Code)
      requires Ok() && IsReady(code)
      modifies this`memoryBlockProcessState, this`uploads, memoryBlock
      ensures uploads == old(uploads) + Uploads(code, old(State()))
      ensures State() == Uploaded(code, old(State())) && Ok()
    {
      while memoryBlockProcessState > 0
        invariant Ok()
        invariant uploads + Uploads(code, State()) == old(uploads) + Uploads(code, old(State()))
        invariant Uploaded(code, State()) == Uploaded(code, old(State()))
        decreases memoryBlockProcessState
      {
        ghost var before := State();
        var u := TakePacket(code);
        UploadedOn(code, before);
        uploads := uploads + [u];
        assert Uploads(code, before) == [u] + Uploads(code, State());
      }
    }

    /** One turn of the upload loop; whole is what is uploaded in the end, done what was uploaded before. */
    method ProgramBlock(ghost whole: (seq<Upload>, Code), ghost done: seq<Upload>)
      returns (code: Code, ghost log: seq<Upload>)
      requires Ok() && Remains(whole, done, State())
      modifies this, codeLineBuffer, memoryBlock
      ensures Ok() && uploads == old(uploads) + log
      ensures IsReady(code) ==> Remains(whole, done + log, State()) && Left(State()) < Left(old(State()))
      ensures !IsReady(code) ==> log == [] && whole == (done, code)
    {
      ghost var st := State();
      code := PrepareMemBlock();
      ghost var st1 := State();
      if IsReady(code) {
        NextTurn(whole, done, st, code, st1);
        log := Uploads(code, st1);
        UploadBlock(code);
      } else {
        LastTurn(whole, done, st, code, st1);
        log := [];
      }
    }

    /** Programs the whole file. */
    method Program() returns (code: Code)
      requires Ok()
      modifies this, codeLineBuffer, memoryBlock
      ensures uploads == old(uploads) + Drive(old(State())).0 && code == Drive(old(State())).1
    {
      ghost var whole, done := Drive(State()), [];
      code := EepromReady;
      AllRemains(State());
      while IsReady(code)
        invariant Ok() && uploads == old(uploads) + done && Going(whole, done, code, State())
        decreases IsReady(code), Left(State())
      {
        ghost var log;
        code, log := ProgramBlock(whole, done);
        Assoc(old(uploads), done, log);
        done := done + log;
      }
    }
  }

  /** The program, from its start on. */
  method ProgramFile(file: seq<byte>) returns (uploads: seq<Upload>, code: Code)
    ensures uploads == Drive(Start(file)).0 && code == Drive(Start(file)).1
  {
    var programmer := new HexProgrammer(file);
    code := programmer.Program();
    uploads := programmer.uploads;
  }
}
