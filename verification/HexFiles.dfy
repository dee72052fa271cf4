/** The main theorem on HEX files: the uploads of a file write what its records mean, and nothing else. */
module HexFiles {
  import opened Bytes
  import opened HexReading
  import opened HexCompiling
  import opened Uploading
  import opened Wrappers
  import opened HexMemory
  import opened HexImages
  import opened HexTheorems
  import opened HexCorrectness

  // ---------------------------------------------------------------- printed files

  /** A record as it stands in a file: text before its ':', its digits, and the end of its line. */
  datatype PrintedLine = PrintedLine(junk: seq<byte>, text: seq<byte>, eol: byte, record: Record)

  /** Text that the reader skips. */
  predicate Skipped(text: seq<byte>) {
    0 !in text && COLON !in text
  }

  predicate IsPrinted(l: PrintedLine) {
    && l.record.offset < 0x10000 && |l.record.payload| <= 58
    && Skipped(l.junk) && (l.eol == CR || l.eol == LF)
    && Spells(l.text, RecordBytes(l.record.kind, l.record.offset, l.record.payload))
  }

  /** A record on a line of its own. */
  function Printed(r: Record): (l: PrintedLine)
    requires r.offset < 0x10000 && |r.payload| <= 58
    ensures IsPrinted(l) && l.record == r
  {
    PrintedLine([], Digits(RecordBytes(r.kind, r.offset, r.payload)), CR, r)
  }

  function LineText(l: PrintedLine): (s: seq<byte>) {
    (l.junk + [COLON]) + (l.text + [l.eol])
  }

  /** The lines, one after the other, and text that follows them. */
  function FileOf(lines: seq<PrintedLine>, tail: seq<byte>): (file: seq<byte>) {
    if lines == [] then tail else LineText(lines[0]) + FileOf(lines[1..], tail)
  }

  function RecordsOf(lines: seq<PrintedLine>): (records: seq<Record>)
    ensures |records| == |lines|
  {
    if lines == [] then [] else [lines[0].record] + RecordsOf(lines[1..])
  }

  predicate ArePrinted(lines: seq<PrintedLine>) {
    forall l :: l in lines ==> IsPrinted(l)
  }

  predicate Printable(r: Record) {
    r.offset < 0x10000 && |r.payload| <= 58
  }

  predicate AllPrintable(records: seq<Record>) {
    forall i :: 0 <= i < |records| ==> Printable(records[i])
  }

  /** Records, each on a line of its own. */
  function PrintedAll(records: seq<Record>): (lines: seq<PrintedLine>)
    requires AllPrintable(records)
    ensures |lines| == |records|
  {
    if records == [] then [] else [Printed(records[0])] + PrintedAll(records[1..])
  }

  lemma {:induction false} PrintedRecords(records: seq<Record>)
    requires AllPrintable(records)
    ensures ArePrinted(PrintedAll(records)) && RecordsOf(PrintedAll(records)) == records
    decreases |records|
  {
    if records != [] {
      var rest := PrintedAll(records[1..]);
      PrintedRecords(records[1..]);
      assert ([Printed(records[0])] + rest)[1..] == rest;
    }
  }

  // ---------------------------------------------------------------- reading a record

  /** The line buffer starts with the bytes of r. */
  predicate Buffered(line: seq<byte>, r: Record) {
    && |line| == SIZE_OF_CODE_LINE_BUFFER && |r.payload| <= 58
    && line[0] == |r.payload| && Number(line[2], line[1]) == r.offset && line[3] == r.kind
    && line[4..4 + |r.payload|] == r.payload
  }

  lemma FilledLine(line: seq<byte>, r: Record)
    requires |line| == SIZE_OF_CODE_LINE_BUFFER && r.offset < 0x10000 && |r.payload| <= 58
    ensures |RecordBytes(r.kind, r.offset, r.payload)| <= |line|
    ensures Buffered(Fill(line, RecordBytes(r.kind, r.offset, r.payload)), r)
  {
    var n := |r.payload|;
    var bytes := RecordBytes(r.kind, r.offset, r.payload);
    RecordCloses(r.kind, r.offset, r.payload);
    var line' := Fill(line, bytes);
    assert forall i :: 0 <= i < n ==> line'[4 + i] == bytes[4 + i] == r.payload[i];
    assert line'[4..4 + n] == r.payload;
  }

  /** The next line of a file is read into the line buffer. */
  lemma FetchRecord(st: Prep, l: PrintedLine, rest: seq<byte>) returns (st1: Prep)
    requires Valid(st) && !st.ready && IsPrinted(l) && st.file[st.pos..] == LineText(l) + rest
    ensures Fetch(st) == Continue(st1) && st1 == st.(pos := st1.pos, line := st1.line, ready := true)
    ensures Valid(st1) && st1.file[st1.pos..] == rest && Buffered(st1.line, l.record)
  {
    var r, text := l.record, LineText(l);
    var pos := st.pos + |text|;
    HoldsHead(st.file, st.pos, text, rest);
    RecordReadsBack(st.file, st.pos, l.junk, l.text, l.eol, r.kind, r.offset, r.payload);
    FilledLine(st.line, r);
    st1 := st.(pos := pos, line := Fill(st.line, RecordBytes(r.kind, r.offset, r.payload)), ready := true);
  }

  // ---------------------------------------------------------------- what a record leaves unchanged

  lemma AddressIs(line: seq<byte>, hi: nat, r: Record)
    requires Buffered(line, r) && hi < 2 && r.offset < 0x10000
    ensures WordAddress(hi * 0x10000, line) == FirstWord(hi, r)
  {
    var n := hi * 0x10000 + r.offset;
    assert hi * 0x10000 + Number(line[2], line[1]) == n;
    Halved(n);
  }

  lemma Halved(n: nat)
    requires n < 0x20000
    ensures n / 2 % 0x10000 == n / 2
  {
  }

  /** A record that carries no data changes the upper address at most. */
  lemma OtherRecord(m: Memory, st: Prep, hi: nat, r: Record, cur: nat) returns (st': Prep)
    requires Standing(st, cur) && st.ready && st.hiAddress == hi * 0x10000
    requires Buffered(st.line, r) && WellFormed(hi, r) && r.kind != 0
    ensures Standing(st', cur) && !st'.ready && st'.file == st.file && st'.pos == st.pos
    ensures st'.hiAddress == HiAfter(hi, r) * 0x10000
    ensures Leads(m, st, m, st') && Mem(m, st') == Mem(m, st)
  {
    st' := Process(st).st;
    if r.kind == 4 {
      assert st.line[4] == st.line[4..6][0] && st.line[5] == st.line[4..6][1];
    }
    StepContinue(st);
    SamePending(m, st, st', cur);
  }

  // ---------------------------------------------------------------- the end of the file

  /** Nothing pending at the end of the file: the program ends. */
  lemma EndsFresh(st: Prep)
    requires Valid(st) && !st.ready && st.block == 0 && !st.overflow && Skipped(st.file[st.pos..])
    ensures DriveLoop(st) == ([], Success)
  {
    NothingLeft(st.file, st.pos);
  }

  /** What a call hands over at the end of the file is the last upload. */
  lemma EndsHandingOver(st: Prep, st1: Prep)
    requires Valid(st) && Valid(st1) && !st.ready && !st1.ready && Fetch(st) == AtEnd(st1)
    requires (st1.block != 0 && !st1.overflow) || (st1.block == 0 && st1.overflow)
    requires st1.pos == |st1.file|
    ensures DriveLoop(st) == (Uploads(AtEnd(st1).code, AtEnd(st1).st), Success)
  {
    var o := AtEnd(st1);
    assert Loop(st) == (o.code, o.st);
    AtItsEnd(o.st.file);
    EndsFresh(Begin(Uploaded(o.code, o.st)));
    NothingMore(Uploads(o.code, o.st));
  }

  lemma AtItsEnd(file: seq<byte>)
    ensures Skipped(file[|file|..])
  {
  }

  lemma NothingMore(log: seq<Upload>)
    ensures log + [] == log
  {
  }

  /** At the end of the file the active block, or an overflow, is uploaded. */
  lemma Ends(m: Memory, st: Prep, cur: nat)
    requires Standing(st, cur) && !st.ready && Skipped(st.file[st.pos..])
    ensures ReplayAll(m, DriveLoop(st).0) == Mem(m, st) && DriveLoop(st).1 == Success
  {
    if st.block == 0 && !st.overflow {
      EndsFresh(st);
    } else {
      NothingLeft(st.file, st.pos);
      var st1 := st.(pos := |st.file|, line := Fill(st.line, []));
      SamePending(m, st, st1, cur);
      EndsHandingOver(st, st1);
    }
  }

  // ---------------------------------------------------------------- whole files

  /** From any state between records on, lines are compiled one after the other. */
  lemma {:induction false} CompilesLines(m: Memory, st: Prep, lines: seq<PrintedLine>, rest: seq<byte>, hi: nat, cur: nat)
      returns (m': Memory, st': Prep)
    requires Standing(st, cur) && !st.ready && st.hiAddress == hi * 0x10000 && st.file[st.pos..] == FileOf(lines, rest)
    requires ArePrinted(lines) && AllStorable(RecordsOf(lines), hi) && NoneBeyond(m)
    ensures Valid(st) && Valid(st') && !st'.ready && st'.file[st'.pos..] == rest && NoneBeyond(m')
    ensures st'.hiAddress == HiBehind(hi, RecordsOf(lines)) * 0x10000
    ensures Leads(m, st, m', st')
    ensures var after := Compiled(Stand(Mem(m, st), cur), ChunksOf(hi, RecordsOf(lines)));
            Standing(st', after.cur) && Mem(m', st') == after.m
    decreases |lines|
  {
    if lines == [] {
      m', st' := m, st;
    } else {
      var r := lines[0].record;
      var m1, st1 := CompilesLine(m, st, lines[0], FileOf(lines[1..], rest), hi, cur);
      ChunksGoOn(r, RecordsOf(lines[1..]), hi);
      var before := Stand(Mem(m, st), cur);
      var after := if r.kind == 0 then Added(before, Chunk(FirstWord(hi, r), r.payload)) else before;
      m', st' := CompilesLines(m1, st1, lines[1..], rest, HiAfter(hi, r), after.cur);
    }
  }

  /** One line. */
  lemma CompilesLine(m: Memory, st: Prep, l: PrintedLine, rest: seq<byte>, hi: nat, cur: nat) returns (m': Memory, st': Prep)
    requires Standing(st, cur) && !st.ready && st.hiAddress == hi * 0x10000 && st.file[st.pos..] == LineText(l) + rest
    requires IsPrinted(l) && WellFormed(hi, l.record) && NoneBeyond(m)
    requires l.record.kind == 0 ==> Storable(Chunk(FirstWord(hi, l.record), l.record.payload))
    ensures Valid(st) && Valid(st') && !st'.ready && st'.file[st'.pos..] == rest && NoneBeyond(m')
    ensures st'.hiAddress == HiAfter(hi, l.record) * 0x10000
    ensures Leads(m, st, m', st')
    ensures var r := l.record;
            var before := Stand(Mem(m, st), cur);
            var after := if r.kind == 0 then Added(before, Chunk(FirstWord(hi, r), r.payload)) else before;
            Standing(st', after.cur) && Mem(m', st') == after.m
  {
    var st1 := FetchRecord(st, l, rest);
    SamePending(m, st, st1, cur);
    StepFetch(st);
    if l.record.kind == 0 {
      AddressIs(st1.line, hi, l.record);
      m', st' := DataRecord(m, st1, FirstWord(hi, l.record), l.record.payload, cur);
    } else {
      m' := m;
      st' := OtherRecord(m, st1, hi, l.record, cur);
    }
  }

  lemma ChunksGoOn(r: Record, records: seq<Record>, hi: nat)
    ensures ([r] + records)[1..] == records
    ensures var (c, rest) := (Chunk(FirstWord(hi, r), r.payload), ChunksOf(HiAfter(hi, r), records));
            && (r.kind != 0 ==> ChunksOf(hi, [r] + records) == rest)
            && (r.kind == 0 ==> ChunksOf(hi, [r] + records) == [c] + rest)
            && forall s :: r.kind == 0 ==> Compiled(s, ChunksOf(hi, [r] + records)) == Compiled(Added(s, c), rest)
  {
    assert ([r] + records)[1..] == records;
    var (c, rest) := (Chunk(FirstWord(hi, r), r.payload), ChunksOf(HiAfter(hi, r), records));
    assert ([c] + rest)[1..] == rest;
  }

  /** From any state between records: the uploads to come write what is pending and what is left of the file. */
  lemma CompilesFrom(m: Memory, st: Prep, lines: seq<PrintedLine>, tail: seq<byte>, hi: nat, cur: nat)
    requires Standing(st, cur) && !st.ready && st.hiAddress == hi * 0x10000 && st.file[st.pos..] == FileOf(lines, tail)
    requires ArePrinted(lines) && Skipped(tail) && AllStorable(RecordsOf(lines), hi) && NoneBeyond(m)
    ensures ReplayAll(m, DriveLoop(st).0) == Compiled(Stand(Mem(m, st), cur), ChunksOf(hi, RecordsOf(lines))).m
    ensures DriveLoop(st).1 == Success
  {
    var m', st' := CompilesLines(m, st, lines, tail, hi, cur);
    Ends(m', st', Compiled(Stand(Mem(m, st), cur), ChunksOf(hi, RecordsOf(lines))).cur);
  }

  /** The state in which a file is begun. */
  lemma Starts(file: seq<byte>) returns (st: Prep)
    ensures st == Begin(Start(file)) && Standing(st, 0) && !st.ready && st.hiAddress == 0 && st.file[st.pos..] == file
    ensures Drive(Start(file)) == DriveLoop(st) && Mem(BLANK, st) == BLANK
  {
    st := Begin(Start(file));
    assert st.file[0..] == file;
    PendingNothing(BLANK, st);
  }

  /**
   * The uploads of a file of storable records, replayed into blank memories, give exactly what Compiled
   * says: each data record writes what it means, but a block that is begun is emptied first, and what is
   * left over behind the external EEPROM goes to the flash when another data record comes.
   */
  lemma FileCompiled(lines: seq<PrintedLine>, tail: seq<byte>)
    requires ArePrinted(lines) && Skipped(tail) && AllStorable(RecordsOf(lines), 0)
    ensures var (log, code) := Drive(Start(FileOf(lines, tail)));
            && ReplayAll(BLANK, log) == Compiled(Stand(BLANK, 0), ChunksOf(0, RecordsOf(lines))).m
            && code == Success
  {
    var st := Starts(FileOf(lines, tail));
    CompilesFrom(BLANK, st, lines, tail, 0, 0);
  }

  // ---------------------------------------------------------------- records that do not come back to a block

  /** Only cells of the blocks begun are written. */
  ghost predicate Covered(m: Memory, seen: set<nat>) {
    && (forall a :: a in m.flash ==> a / 32 in seen)
    && (forall a :: a in m.eeeprom ==> (a + SERIAL_EEPROM_MIN_ADR) / 32 in seen)
  }

  lemma FlashCovered(flash: map<nat, nat>, w: nat, payload: seq<byte>, max: nat, seen: set<nat>)
    requires w <= max && WithinHalf(w, payload, max) && forall a :: a in flash ==> a / 32 in seen
    ensures forall a :: a in FlashAfter(flash, w, payload, max) ==> a / 32 in seen + {w / 32}
  {
    HalfOf(w, WordsBelow(w, payload, max));
    forall a | a in FlashAfter(flash, w, payload, max)
      ensures a / 32 in seen + {w / 32}
    {
      if a !in flash {
        assert 32 * (w / 32) <= a < 32 * (w / 32) + 32;
      }
    }
  }

  lemma CellsCovered(cells: map<nat, byte>, w: nat, payload: seq<byte>, seen: set<nat>)
    requires AreaOf(w) == Eeeprom && |payload| <= 58
    requires forall a :: a in cells ==> (a + SERIAL_EEPROM_MIN_ADR) / 32 in seen
    ensures forall a :: a in EeepromAfter(cells, EeepromBase(w / 32), w % 32, payload) ==>
              (a + SERIAL_EEPROM_MIN_ADR) / 32 in SeenAfter(w, payload, seen)
  {
    var b, top := w / 32, if RunsOver(w, payload) then 64 else 32;
    forall a | a in EeepromAfter(cells, EeepromBase(b), w % 32, payload)
      ensures (a + SERIAL_EEPROM_MIN_ADR) / 32 in SeenAfter(w, payload, seen)
    {
      if a !in cells {
        assert 32 * b <= a + SERIAL_EEPROM_MIN_ADR < 32 * b + top;
      }
    }
  }

  /** The blocks written are the ones begun. */
  lemma CoveredAfter(m: Memory, w: nat, payload: seq<byte>, cur: nat, seen: set<nat>)
    requires Covered(m, seen) && Placed(w, payload, cur, seen) && |payload| <= 58
    ensures Covered(Write(m, w, payload), SeenAfter(w, payload, seen))
  {
    match AreaOf(w)
    case Eeeprom => CellsCovered(m.eeeprom, w, payload, seen);
    case Flash(max) => FlashCovered(m.flash, w, payload, max, seen);
    case _ =>
  }

  /** Emptying blocks that were not begun yet makes no difference. */
  lemma FilledTwice<T>(m: map<nat, T>, p: map<nat, T>, base: int, lo: int, hi: int, top: int, v: T)
    requires Absent(m, lo, hi) && base <= lo <= hi <= top
    ensures Overwritten(m + Filled(lo, hi, v), p, base, top, v) == Overwritten(m, p, base, top, v)
  {
    assert Filled(base, top, v) + (m + Filled(lo, hi, v)) == Filled(base, top, v) + m;
  }

  lemma EmptyWordsMean(flash: map<nat, nat>, w: nat, payload: seq<byte>, max: nat, empty: map<nat, nat>)
    requires Absent(flash, 32 * (w / 32), 32 * (w / 32) + 32)
    requires empty == flash + EmptyWords(32 * (w / 32), 32 * (w / 32) + 32)
    ensures FlashAfter(empty, w, payload, max) == FlashAfter(flash, w, payload, max)
  {
    forall a: nat
      ensures Lookup(FlashAfter(empty, w, payload, max), a) == Lookup(FlashAfter(flash, w, payload, max), a)
    {
      EmptyWordMeans(flash, w, payload, max, empty, a);
    }
    MapsAgree(FlashAfter(empty, w, payload, max), FlashAfter(flash, w, payload, max));
  }

  lemma EmptyWordMeans(flash: map<nat, nat>, w: nat, payload: seq<byte>, max: nat, empty: map<nat, nat>, a: nat)
    requires Absent(flash, 32 * (w / 32), 32 * (w / 32) + 32)
    requires empty == flash + EmptyWords(32 * (w / 32), 32 * (w / 32) + 32)
    ensures Lookup(FlashAfter(empty, w, payload, max), a) == Lookup(FlashAfter(flash, w, payload, max), a)
  {
    WordOfBlock(flash, w, payload, max, a);
    WordOfBlock(empty, w, payload, max, a);
    EmptyReads(flash, 32 * (w / 32), a);
    assert Between(32 * (w / 32), a, 32 * (w / 32) + 32) <==> w / 32 == a / 32;
  }

  lemma EmptyReads(flash: map<nat, nat>, base: nat, a: nat)
    ensures Lookup(flash + EmptyWords(base, base + 32), a) ==
            if Between(base, a, base + 32) then Some(ERASED_WORD) else Lookup(flash, a)
  {
  }

  lemma EmptyCellsMean(cells: map<nat, byte>, lo: int, hi: int, base: nat, j: nat, payload: seq<byte>)
    requires Absent(cells, lo, hi) && base <= lo <= hi <= if j + |payload| / 2 > 32 then base + 64 else base + 32
    ensures EeepromAfter(cells + EmptyCells(lo, hi), base, j, payload) == EeepromAfter(cells, base, j, payload)
  {
    FilledTwice<byte>(cells, PayloadBytes(base + j, payload), base, lo, hi,
                      if j + |payload| / 2 > 32 then base + 64 else base + 32, 0);
  }

  lemma NotYet(m: Memory, seen: set<nat>, block: nat)
    requires Covered(m, seen) && block !in seen
    ensures Absent(m.flash, 32 * block, 32 * block + 32)
    ensures Absent(m.eeeprom, EeepromBase(block), EeepromBase(block) + 32)
  {
  }

  lemma NotBegunYet(m: Memory, w: nat, payload: seq<byte>, cur: nat, seen: set<nat>)
    requires Covered(m, seen) && AreaOf(w) == Eeeprom && Placed(w, payload, cur, seen)
    ensures Absent(m.eeeprom, Begun(w, payload, cur).0, Begun(w, payload, cur).1)
  {
    BegunIs(w, payload, cur);
    if w / 32 != cur {
      NotYet(m, seen, w / 32);
    }
    if RunsOver(w, payload) {
      NotYet(m, seen, w / 32 + 1);
    }
  }

  lemma EmptyingCells(m: Memory, w: nat, payload: seq<byte>, cur: nat, seen: set<nat>)
    requires Covered(m, seen) && AreaOf(w) == Eeeprom && Placed(w, payload, cur, seen)
    ensures Write(Emptied(m, w, payload, cur), w, payload) == Write(m, w, payload)
  {
    BegunIs(w, payload, cur);
    NotBegunYet(m, w, payload, cur, seen);
    EmptyCellsMean(m.eeeprom, Begun(w, payload, cur).0, Begun(w, payload, cur).1, EeepromBase(w / 32), w % 32, payload);
    CellsMean(m, w, payload, cur, CellsEmptied(m.eeeprom, w, payload, cur), EeepromBase(w / 32));
    WriteMeans(m, w, payload);
  }

  lemma EmptyingWords(m: Memory, w: nat, payload: seq<byte>, max: nat, cur: nat, seen: set<nat>)
    requires Covered(m, seen) && AreaOf(w) == Flash(max) && Placed(w, payload, cur, seen)
    ensures Write(Emptied(m, w, payload, cur), w, payload) == Write(m, w, payload)
  {
    if w / 32 != cur {
      NotYet(m, seen, w / 32);
      EmptyWordsMean(m.flash, w, payload, max, Emptied(m, w, payload, cur).flash);
      EmptiedFlash(m, w, payload, cur, max);
      WriteMeans(m, w, payload);
    }
  }

  lemma EmptyingNothing(m: Memory, w: nat, payload: seq<byte>, cur: nat, seen: set<nat>)
    requires Covered(m, seen) && Placed(w, payload, cur, seen)
    ensures Write(Emptied(m, w, payload, cur), w, payload) == Write(m, w, payload)
  {
    match AreaOf(w)
    case Flash(max) => EmptyingWords(m, w, payload, max, cur, seen);
    case Eeeprom => EmptyingCells(m, w, payload, cur, seen);
    case _ =>
  }

  lemma NotPastEnd(w: nat, payload: seq<byte>, cur: nat, seen: set<nat>)
    requires Placed(w, payload, cur, seen) && cur != BEYOND && |payload| <= 58
    ensures CurAfter(w, payload, cur) != BEYOND && Storable(Chunk(w, payload))
  {
  }

  /** What the compiler makes of properly placed records is what they mean. */
  lemma {:induction false} ProperCompiled(m: Memory, records: seq<Record>, hi: nat, cur: nat, seen: set<nat>)
    requires Proper(records, hi, cur, seen) && Covered(m, seen) && cur != BEYOND
    ensures AllStorable(records, hi)
    ensures Compiled(Stand(m, cur), ChunksOf(hi, records)).m == Meaning(m, hi, records)
    decreases |records|
  {
    if records != [] {
      var r := records[0];
      var w := FirstWord(hi, r);
      assert records == [r] + records[1..];
      ChunksGoOn(r, records[1..], hi);
      if r.kind == 0 {
        EmptyingNothing(m, w, r.payload, cur, seen);
        CoveredAfter(m, w, r.payload, cur, seen);
        NotPastEnd(w, r.payload, cur, seen);
        ProperCompiled(Write(m, w, r.payload), records[1..], hi, CurAfter(w, r.payload, cur), SeenAfter(w, r.payload, seen));
      } else {
        ProperCompiled(m, records[1..], HiAfter(hi, r), cur, seen);
      }
    }
  }

  /**
   * The uploads of a file of properly placed records, replayed into blank memories, give exactly what
   * the records mean, and the program ends with success.
   */
  lemma Compiles(lines: seq<PrintedLine>, tail: seq<byte>)
    requires ArePrinted(lines) && Skipped(tail) && Proper(RecordsOf(lines), 0, 0, {})
    ensures AllStorable(RecordsOf(lines), 0)
    ensures var (log, code) := Drive(Start(FileOf(lines, tail)));
            ReplayAll(BLANK, log) == Meaning(BLANK, 0, RecordsOf(lines)) && code == Success
  {
    ProperCompiled(BLANK, RecordsOf(lines), 0, 0, {});
    FileCompiled(lines, tail);
  }

  // ---------------------------------------------------------------- files in ascending order

  /** A data record lies within its area and, in the flash, within a half of a block. */
  predicate Fitting(w: nat, payload: seq<byte>) {
    var n := |payload| / 2;
    match AreaOf(w)
    case Eeeprom => w + n <= SERIAL_EEPROM_MAX_ADR + 1
    case Flash(max) => WithinHalf(w, payload, max)
    case Eeprom => w + n <= PIC_EEPROM_MAX
    case Nowhere => true
  }

  /** Each data record fits and begins at or behind the end of the one before it, which is top. */
  predicate Ascending(records: seq<Record>, hi: nat, top: nat)
    decreases |records|
  {
    records == [] ||
    var r := records[0];
    var w := FirstWord(hi, r);
    && WellFormed(hi, r)
    && if r.kind == 0 then
         top <= w && Fitting(w, r.payload) && Ascending(records[1..], hi, w + |r.payload| / 2)
       else Ascending(records[1..], HiAfter(hi, r), top)
  }

  /** The current block is the last of those begun, and none begins behind top. */
  ghost predicate LastBegun(cur: nat, seen: set<nat>, top: nat) {
    && (forall b :: b in seen ==> 32 * b <= top)
    && (top < PIC_EEPROM_MIN ==> forall b :: b in seen ==> b <= cur && (b == cur || cur in seen))
  }

  lemma PlacedNext(w: nat, payload: seq<byte>, cur: nat, seen: set<nat>, top: nat)
    requires LastBegun(cur, seen, top) && top <= w && Fitting(w, payload) && |payload| <= 58
    requires cur == 0 || cur in seen
    ensures Placed(w, payload, cur, seen)
    ensures LastBegun(CurAfter(w, payload, cur), SeenAfter(w, payload, seen), w + |payload| / 2)
    ensures CurAfter(w, payload, cur) == 0 || CurAfter(w, payload, cur) in SeenAfter(w, payload, seen)
  {
    forall b | b in seen
      ensures b <= w / 32
    {
      assert 32 * b <= w;
    }
  }

  /** Records in ascending order are properly placed. */
  lemma {:induction false} AscendingProper(records: seq<Record>, hi: nat, cur: nat, seen: set<nat>, top: nat)
    requires Ascending(records, hi, top) && LastBegun(cur, seen, top) && (cur == 0 || cur in seen)
    ensures Proper(records, hi, cur, seen)
    decreases |records|
  {
    if records != [] {
      var r := records[0];
      var w := FirstWord(hi, r);
      if r.kind == 0 {
        PlacedNext(w, r.payload, cur, seen, top);
        AscendingProper(records[1..], hi, CurAfter(w, r.payload, cur), SeenAfter(w, r.payload, seen), w + |r.payload| / 2);
      } else {
        AscendingProper(records[1..], HiAfter(hi, r), cur, seen, top);
      }
    }
  }

  /** In particular any file in ascending order is programmed as it means. */
  lemma AscendingCompiles(lines: seq<PrintedLine>, tail: seq<byte>)
    requires ArePrinted(lines) && Skipped(tail) && Ascending(RecordsOf(lines), 0, 0)
    ensures var (log, code) := Drive(Start(FileOf(lines, tail)));
            ReplayAll(BLANK, log) == Meaning(BLANK, 0, RecordsOf(lines)) && code == Success
  {
    AscendingProper(RecordsOf(lines), 0, 0, {}, 0);
    Compiles(lines, tail);
  }
}
