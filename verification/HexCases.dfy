/** Files that are not programmed as they mean, with what they leave. */
module HexCases {
  import opened Bytes
  import opened Wrappers
  import opened HexCompiling
  import opened HexMemory
  import opened HexTheorems
  import opened HexRecords
  import opened HexCorrectness
  import opened HexFiles
  import opened HexContents
  import opened HexForgetting
  import opened HexMisdirecting
  import opened HexLimits
  import opened HexStraddling

  // ---------------------------------------------------------------- files of data records

  /** Data that a record at upper address 0 can carry. */
  predicate Plain(c: Chunk) {
    c.w < 0x8000 && |c.payload| <= 58 && |c.payload| % 2 == 0 && Storable(c)
  }

  function DataRecords(chunks: seq<Chunk>): (records: seq<Record>)
    ensures |records| == |chunks|
  {
    if chunks == [] then [] else [Record(0, 2 * chunks[0].w, chunks[0].payload)] + DataRecords(chunks[1..])
  }

  lemma {:induction false} DataRecordsAre(chunks: seq<Chunk>)
    requires forall c :: c in chunks ==> Plain(c)
    ensures var records := DataRecords(chunks);
            && AllPrintable(records)
            && AllStorable(records, 0) && ChunksOf(0, records) == chunks
    decreases |chunks|
  {
    if chunks != [] {
      assert chunks[0] in chunks;
      DataRecordsAre(chunks[1..]);
      var r := Record(0, 2 * chunks[0].w, chunks[0].payload);
      ChunksGoOn(r, DataRecords(chunks[1..]), 0);
    }
  }

  function DataLines(chunks: seq<Chunk>): (lines: seq<PrintedLine>)
    requires forall c :: c in chunks ==> Plain(c)
  {
    DataRecordsAre(chunks);
    PrintedAll(DataRecords(chunks))
  }

  /** The memories after the uploads of a file of these data records, and as it means. */
  function Wrote(chunks: seq<Chunk>): (m: Memory)
    requires forall c :: c in chunks ==> Plain(c)
  {
    Programmed(FileOf(DataLines(chunks), []))
  }

  function Meant(chunks: seq<Chunk>): (m: Memory) {
    Meaning(BLANK, 0, DataRecords(chunks))
  }

  lemma WroteIs(chunks: seq<Chunk>)
    requires forall c :: c in chunks ==> Plain(c)
    ensures ArePrinted(DataLines(chunks)) && RecordsOf(DataLines(chunks)) == DataRecords(chunks)
    ensures AllStorable(DataRecords(chunks), 0) && ChunksOf(0, DataRecords(chunks)) == chunks
  {
    DataRecordsAre(chunks);
    PrintedRecords(DataRecords(chunks));
  }

  lemma WroteLeaves(chunks: seq<Chunk>, a: nat)
    requires (forall c :: c in chunks ==> Plain(c)) && Away(a)
    ensures AllLeave(Wrote(chunks), a, chunks) && IsWritten(BLANK, Meant(chunks), a, chunks)
  {
    WroteIs(chunks);
    FileLeaves(DataLines(chunks), [], a);
    MeaningWrites(BLANK, 0, DataRecords(chunks));
    AllWritten(BLANK, chunks, a);
  }

  // ---------------------------------------------------------------- back to a block

  /** Three records, of which the last begins the block of the first anew. */
  lemma ThirdReopens<T>(f: map<nat, T>, g: map<nat, T>, a: nat, v: View<T>, chunks: seq<Chunk>)
    requires |chunks| == 3 && Leaves(f, a, v, chunks) && Holding(map[], g, a, v, chunks)
    requires v.gives(chunks[0]) && !v.gives(chunks[1]) && !v.gives(chunks[2])
    requires v.begins(chunks[2], CurOf(chunks[..2]))
    ensures Lookup(f, a) == Some(v.rest) && Lookup(g, a) == Some(v.value(chunks[0]))
  {
    assert IsLast(v.gives, chunks, 0);
    var i: nat := 2;
    assert 0 < i < |chunks| && v.begins(chunks[i], CurOf(chunks[..i]));
  }

  lemma CurOfOne(c: Chunk)
    ensures CurOf([c]) == CurAfter(c.w, c.payload, 0)
  {
    assert [c][..0] == [];
    assert CurOf([]) == 0;
  }

  lemma CurOfTwo(chunks: seq<Chunk>)
    requires |chunks| == 3
    ensures var before := CurOf([chunks[0]]);
            CurOf(chunks[..2]) == CurAfter(chunks[1].w, chunks[1].payload, if before == BEYOND then 0 else before)
  {
    assert chunks[..2][..1] == [chunks[0]];
  }

  /** Word 1 for 0x3A00, word 2 for another block, and word 3 for 0x3A01. */
  const BACK_TO_WORDS := [Chunk(0x3A00, [1, 0]), Chunk(0x3A20, [2, 0]), Chunk(0x3A01, [3, 0])]

  lemma TheseWords()
    ensures forall c :: c in BACK_TO_WORDS ==> Plain(c)
    ensures CurOf(BACK_TO_WORDS[..2]) == 0x1D1
    ensures GivesWord(BACK_TO_WORDS[0], 0x3A00) && FlashView(0x3A00).value(BACK_TO_WORDS[0]) == 1
    ensures !GivesWord(BACK_TO_WORDS[1], 0x3A00) && !GivesWord(BACK_TO_WORDS[2], 0x3A00)
    ensures BeginsWord(BACK_TO_WORDS[2], 0x1D1, 0x3A00)
  {
    CurOfOne(BACK_TO_WORDS[0]);
    CurOfTwo(BACK_TO_WORDS);
  }

  /** Word 1 is forgotten. */
  lemma WordForgotten()
    ensures forall c :: c in BACK_TO_WORDS ==> Plain(c)
    ensures Lookup(Wrote(BACK_TO_WORDS).flash, 0x3A00) == Some(ERASED_WORD)
    ensures Lookup(Meant(BACK_TO_WORDS).flash, 0x3A00) == Some(1)
  {
    TheseWords();
    WroteLeaves(BACK_TO_WORDS, 0x3A00);
    ThirdReopens(Wrote(BACK_TO_WORDS).flash, Meant(BACK_TO_WORDS).flash, 0x3A00, FlashView(0x3A00), BACK_TO_WORDS);
  }

  /** The same in the external EEPROM. */
  const BACK_TO_CELLS := [Chunk(0x200, [1, 0]), Chunk(0x220, [2, 0]), Chunk(0x201, [3, 0])]

  lemma TheseCells()
    ensures forall c :: c in BACK_TO_CELLS ==> Plain(c)
    ensures CurOf(BACK_TO_CELLS[..2]) == 17
    ensures GivesCell(BACK_TO_CELLS[0], 0) && EeepromView(0).value(BACK_TO_CELLS[0]) == 1
    ensures !GivesCell(BACK_TO_CELLS[1], 0) && !GivesCell(BACK_TO_CELLS[2], 0)
    ensures BeginsCell(BACK_TO_CELLS[2], 17, 0)
  {
    CurOfOne(BACK_TO_CELLS[0]);
    CurOfTwo(BACK_TO_CELLS);
  }

  /** Cell 0 is cleared again. */
  lemma CellForgotten()
    ensures forall c :: c in BACK_TO_CELLS ==> Plain(c)
    ensures Lookup(Wrote(BACK_TO_CELLS).eeeprom, 0) == Some(0)
    ensures Lookup(Meant(BACK_TO_CELLS).eeeprom, 0) == Some(1)
  {
    TheseCells();
    WroteLeaves(BACK_TO_CELLS, 0);
    ThirdReopens(Wrote(BACK_TO_CELLS).eeeprom, Meant(BACK_TO_CELLS).eeeprom, 0, EeepromView(0), BACK_TO_CELLS);
  }

  // ---------------------------------------------------------------- past the end of the external EEPROM

  /** What a file of storable records leaves at the end of the external EEPROM. */
  lemma WroteBeyond(chunks: seq<Chunk>)
    requires forall c :: c in chunks ==> Plain(c)
    ensures WordBeyond(Wrote(chunks), chunks, 0) && CellBeyond(Wrote(chunks), chunks, 0)
    ensures BEYOND_ADR !in Meant(chunks).flash
  {
    WroteIs(chunks);
    MisdirectedExactly(DataLines(chunks), []);
    MeaningWrites(BLANK, 0, DataRecords(chunks));
    NoneMeant(chunks);
  }

  /** Nine words, of which the last lies behind the end; and one that is for no memory. */
  const NINE := Chunk(0x9F8, [1, 0, 2, 0, 3, 0, 4, 0, 5, 0, 6, 0, 7, 0, 8, 0, 9, 0])
  const IGNORED := Chunk(0, [1, 0])

  lemma TheseNine()
    ensures Plain(NINE) && Plain(IGNORED) && PastEnd(NINE) && !PastEnd(IGNORED)
    ensures LeftCell(NINE, 0) == 9 && LeftCell(NINE, 1) == 0 && LeftWord(NINE, 0) == 9
  {
  }

  /** Alone, the last byte goes to the cell behind the end. */
  lemma NinthAlone()
    ensures Plain(NINE) && Lookup(Wrote([NINE]).eeeprom, BEYOND_ADR) == Some(9) && BEYOND_ADR !in Wrote([NINE]).flash
  {
    TheseNine();
    WroteBeyond([NINE]);
    assert !Strays([NINE]);
  }

  /** With another data record behind it, even one that writes nothing, it goes to the flash. */
  lemma NinthMisdirected()
    ensures Plain(NINE) && Plain(IGNORED)
    ensures Lookup(Wrote([NINE, IGNORED]).flash, BEYOND_ADR) == Some(9)
    ensures BEYOND_ADR !in Wrote([NINE, IGNORED]).eeeprom && BEYOND_ADR !in Meant([NINE, IGNORED]).flash
  {
    TheseNine();
    WroteBeyond([NINE, IGNORED]);
    assert LastStray([NINE, IGNORED], 0);
  }

  // ---------------------------------------------------------------- refused

  /** A flash record and one that is refused: nothing at all is programmed. */
  lemma BlockLost(l: PrintedLine, r: PrintedLine, rest: seq<byte>, w: nat, max: nat, w': nat, max': nat)
    requires IsPrinted(l) && WellFormed(0, l.record) && l.record.kind == 0
    requires w == FirstWord(0, l.record) && AreaOf(w) == Flash(max) && WithinHalf(w, l.record.payload, max)
    requires IsPrinted(r) && WellFormed(0, r.record) && r.record.kind == 0
    requires w' == FirstWord(0, r.record) && AreaOf(w') == Flash(max') && !Fits(w', r.record.payload, max')
    ensures Programmed(FileOf([l], LineText(r) + rest)) == BLANK
    ensures w in Meaning(BLANK, 0, [l.record]).flash
  {
    var st := OneRecord(l, LineText(r) + rest, w, max);
    var st' := FlashBegun(BLANK, st, w, l.record.payload, max);
    StepContinue(st);
    var st1 := FetchRecord(st', r, rest);
    StepFetch(st');
    SamePending(BLANK, st', st1, w / 32);
    AddressIs(st1.line, 0, r.record);
    RefusalEnds(st1, w', r.record.payload, max', w / 32);
    OneMeaning(l.record);
    WordOfBlock(map[], w, l.record.payload, max, w);
  }

  /** Word 1 for 0x3A00, and two words for the last place of the block. */
  const FITTING := Record(0, 0x7400, [1, 0])
  const REFUSED := Record(0, 0x743E, [1, 0, 2, 0])

  lemma ThisRefused()
    ensures FirstWord(0, FITTING) == 0x3A00 && WithinHalf(0x3A00, FITTING.payload, MAIN_MEM_MAX_ADR)
    ensures FirstWord(0, REFUSED) == 0x3A1F && !Fits(0x3A1F, REFUSED.payload, MAIN_MEM_MAX_ADR)
  {
  }

  /** There are such files. */
  lemma BlockLostCase()
    ensures Programmed(FileOf([Printed(FITTING)], LineText(Printed(REFUSED)))) == BLANK
    ensures 0x3A00 in Meaning(BLANK, 0, [FITTING]).flash
  {
    ThisRefused();
    var r := Printed(REFUSED);
    assert LineText(r) + [] == LineText(r);
    BlockLost(Printed(FITTING), r, [], 0x3A00, MAIN_MEM_MAX_ADR, 0x3A1F, MAIN_MEM_MAX_ADR);
  }
}
