/** The memories after the uploads of a HEX file, address by address. */
module HexContents {
  import opened Bytes
  import opened HexCompiling
  import opened HexMemory
  import opened HexFiles

  // ---------------------------------------------------------------- what a chunk says about an address

  /**
   * What chunks say about one address: which reach it or its block, which give its value, and that
   * value; and which begin its block, given the block worked on before.
   */
  datatype View<!T> = View(
    touches: Chunk -> bool, gives: Chunk -> bool, value: Chunk -> T, rest: T, begins: (Chunk, nat) -> bool)

  predicate Reaches(c: Chunk, a: nat) {
    c.w <= a < c.w + |c.payload| / 2
  }

  /** The chunk gives the flash word at a, which is not the last one of its area. */
  predicate GivesWord(c: Chunk, a: nat) {
    AreaOf(c.w).Flash? && Reaches(c, a) && a < AreaOf(c.w).max
  }

  /** The chunk gives cell a of the external EEPROM. */
  predicate GivesCell(c: Chunk, a: nat) {
    AreaOf(c.w) == Eeeprom && Reaches(c, a + SERIAL_EEPROM_MIN_ADR)
  }

  /** The chunk gives cell a of the internal EEPROM. */
  predicate GivesByte(c: Chunk, a: nat) {
    AreaOf(c.w) == Eeprom && Reaches(c, a + PIC_EEPROM_MIN)
  }

  /** The chunk gives the flash word at a, or begins in the block of it. */
  predicate TouchesWord(c: Chunk, a: nat) {
    GivesWord(c, a) || (AreaOf(c.w).Flash? && c.w / 32 == a / 32)
  }

  /** The chunk gives cell a of the external EEPROM, begins in its block, or runs over into it. */
  predicate TouchesCell(c: Chunk, a: nat) {
    var block := (a + SERIAL_EEPROM_MIN_ADR) / 32;
    GivesCell(c, a) || (AreaOf(c.w) == Eeeprom && (block == c.w / 32 || block == LastBlock(c.w, c.payload)))
  }

  /** The chunk begins the block of the flash word at a. */
  predicate BeginsWord(c: Chunk, cur: nat, a: nat) {
    AreaOf(c.w).Flash? && c.w / 32 != cur && c.w / 32 == a / 32
  }

  /** The chunk begins the block of cell a of the external EEPROM. */
  predicate BeginsCell(c: Chunk, cur: nat, a: nat) {
    AreaOf(c.w) == Eeeprom && Between(Begun(c.w, c.payload, cur).0, a, Begun(c.w, c.payload, cur).1)
  }

  /** Flash: whole words; 0x3FFF in the rest of a block. */
  function FlashView(a: nat): (v: View<nat>) {
    View(c => TouchesWord(c, a), c => GivesWord(c, a),
         c => if GivesWord(c, a) then PayloadWord(c.payload, a - c.w) else ERASED_WORD, ERASED_WORD,
         (c: Chunk, cur: nat) => BeginsWord(c, cur, a))
  }

  /** External EEPROM: low bytes; 0 in the rest of a block. */
  function EeepromView(a: nat): (v: View<byte>) {
    View(c => TouchesCell(c, a), c => GivesCell(c, a),
         c => if GivesCell(c, a) then PayloadByte(c.payload, a + SERIAL_EEPROM_MIN_ADR - c.w) else 0, 0,
         (c: Chunk, cur: nat) => BeginsCell(c, cur, a))
  }

  /** Internal EEPROM: low bytes, and nothing but them. */
  function EepromView(a: nat): (v: View<byte>) {
    View(c => GivesByte(c, a), c => GivesByte(c, a),
         c => if GivesByte(c, a) then PayloadByte(c.payload, a + PIC_EEPROM_MIN - c.w) else 0, 0,
         (c: Chunk, cur: nat) => false)
  }

  /** Chunk i is the last one of those p holds for. */
  ghost predicate IsLast(p: Chunk -> bool, chunks: seq<Chunk>, i: nat) {
    i < |chunks| && p(chunks[i]) && forall j :: i < j < |chunks| ==> !p(chunks[j])
  }

  ghost predicate Any(p: Chunk -> bool, chunks: seq<Chunk>) {
    exists i :: 0 <= i < |chunks| && p(chunks[i])
  }

  /**
   * f0 has become f: address a is written if it was before, or if a chunk touches it; it holds the
   * value that the last chunk which gives one gives, and if none does, the old value or the rest value.
   */
  ghost predicate Holding<T>(f0: map<nat, T>, f: map<nat, T>, a: nat, v: View<T>, chunks: seq<Chunk>) {
    && (a in f <==> a in f0 || Any(v.touches, chunks))
    && (forall i: nat :: IsLast(v.gives, chunks, i) ==> a in f && f[a] == v.value(chunks[i]))
    && (a in f && !Any(v.gives, chunks) ==> f[a] == if a in f0 then f0[a] else v.rest)
  }

  // ---------------------------------------------------------------- writing chunk after chunk

  function WriteAll(m: Memory, chunks: seq<Chunk>): (m': Memory) {
    if chunks == [] then m
    else
      var last := chunks[|chunks| - 1];
      Write(WriteAll(m, chunks[..|chunks| - 1]), last.w, last.payload)
  }

  lemma {:induction false} WriteFirst(m: Memory, first: Chunk, chunks: seq<Chunk>)
    ensures WriteAll(m, [first] + chunks) == WriteAll(Write(m, first.w, first.payload), chunks)
    decreases |chunks|
  {
    var all := [first] + chunks;
    if chunks == [] {
      assert all[..0] == [];
    } else {
      assert all[..|all| - 1] == [first] + chunks[..|chunks| - 1];
      WriteFirst(m, first, chunks[..|chunks| - 1]);
    }
  }

  lemma {:induction false} MeaningWrites(m: Memory, hi: nat, records: seq<Record>)
    ensures Meaning(m, hi, records) == WriteAll(m, ChunksOf(hi, records))
    decreases |records|
  {
    if records != [] {
      var r := records[0];
      MeaningWrites(WriteRecord(m, hi, r), HiAfter(hi, r), records[1..]);
      if r.kind == 0 {
        WriteFirst(m, Chunk(FirstWord(hi, r), r.payload), ChunksOf(HiAfter(hi, r), records[1..]));
      } else {
        assert ChunksOf(hi, records) == ChunksOf(HiAfter(hi, r), records[1..]);
      }
    }
  }

  // ---------------------------------------------------------------- address by address

  /** What one chunk does to address a. */
  predicate Step<T(==)>(f: map<nat, T>, f': map<nat, T>, a: nat, v: View<T>, c: Chunk) {
    && (a in f' <==> a in f || v.touches(c))
    && (v.gives(c) ==> a in f' && f'[a] == v.value(c))
    && (a in f' && !v.gives(c) ==> f'[a] == if a in f then f[a] else v.rest)
  }

  lemma FlashStep(f: map<nat, nat>, c: Chunk, max: nat, a: nat)
    requires AreaOf(c.w) == Flash(max)
    ensures Step(f, FlashAfter(f, c.w, c.payload, max), a, FlashView(a), c)
  {
    WordOfBlock(f, c.w, c.payload, max, a);
    assert a in PayloadWords(c.w, c.payload, max) <==> GivesWord(c, a);
  }

  lemma WordWritten(m: Memory, c: Chunk, a: nat)
    ensures Step(m.flash, Write(m, c.w, c.payload).flash, a, FlashView(a), c)
  {
    if AreaOf(c.w).Flash? {
      FlashStep(m.flash, c, AreaOf(c.w).max, a);
    }
  }

  lemma CellWritten(m: Memory, c: Chunk, a: nat)
    ensures Step(m.eeeprom, Write(m, c.w, c.payload).eeeprom, a, EeepromView(a), c)
  {
    if AreaOf(c.w) == Eeeprom {
      var base := EeepromBase(c.w / 32);
      assert base + c.w % 32 + SERIAL_EEPROM_MIN_ADR == c.w;
    }
  }

  lemma ByteWritten(m: Memory, c: Chunk, a: nat)
    ensures Step(m.eeprom, Write(m, c.w, c.payload).eeprom, a, EepromView(a), c)
  {
  }

  /** How Any and IsLast go on with one more chunk. */
  lemma OneMore(p: Chunk -> bool, chunks: seq<Chunk>)
    requires chunks != []
    ensures var (front, c) := (chunks[..|chunks| - 1], chunks[|chunks| - 1]);
            && (Any(p, chunks) <==> Any(p, front) || p(c))
            && forall i :: IsLast(p, chunks, i) ==> if p(c) then i == |chunks| - 1 else IsLast(p, front, i)
  {
    var (front, c) := (chunks[..|chunks| - 1], chunks[|chunks| - 1]);
    assert forall i :: 0 <= i < |front| ==> front[i] == chunks[i];
    assert chunks[|front|] == c;
    forall i | IsLast(p, chunks, i)
      ensures if p(c) then i == |chunks| - 1 else IsLast(p, front, i)
    {
    }
    if Any(p, front) {
      var i :| 0 <= i < |front| && p(front[i]);
      assert p(chunks[i]);
    }
  }

  lemma {:induction false} HasLast(p: Chunk -> bool, chunks: seq<Chunk>) returns (i: nat)
    requires Any(p, chunks)
    ensures IsLast(p, chunks, i)
    decreases |chunks|
  {
    i := |chunks| - 1;
    if !p(chunks[i]) {
      var front := chunks[..i];
      OneMore(p, chunks);
      i := HasLast(p, front);
    }
  }

  lemma GoesOn<T>(f0: map<nat, T>, f: map<nat, T>, f': map<nat, T>, a: nat, v: View<T>, chunks: seq<Chunk>)
    requires chunks != [] && Holding(f0, f, a, v, chunks[..|chunks| - 1]) && Step(f, f', a, v, chunks[|chunks| - 1])
    ensures Holding(f0, f', a, v, chunks)
  {
    OneMore(v.touches, chunks);
    OneMore(v.gives, chunks);
  }

  /** m0 has become m, at address a of all memories. */
  ghost predicate IsWritten(m0: Memory, m: Memory, a: nat, chunks: seq<Chunk>) {
    && Holding(m0.flash, m.flash, a, FlashView(a), chunks)
    && Holding(m0.eeeprom, m.eeeprom, a, EeepromView(a), chunks)
    && Holding(m0.eeprom, m.eeprom, a, EepromView(a), chunks)
  }

  /** All memories, after all chunks. */
  lemma {:induction false} AllWritten(m0: Memory, chunks: seq<Chunk>, a: nat)
    ensures IsWritten(m0, WriteAll(m0, chunks), a, chunks)
    decreases |chunks|
  {
    if chunks != [] {
      var front, c := chunks[..|chunks| - 1], chunks[|chunks| - 1];
      var m := WriteAll(m0, front);
      AllWritten(m0, front, a);
      WordWritten(m, c, a);
      CellWritten(m, c, a);
      ByteWritten(m, c, a);
      var m' := Write(m, c.w, c.payload);
      GoesOn(m0.flash, m.flash, m'.flash, a, FlashView(a), chunks);
      GoesOn(m0.eeeprom, m.eeeprom, m'.eeeprom, a, EeepromView(a), chunks);
      GoesOn(m0.eeprom, m.eeprom, m'.eeprom, a, EepromView(a), chunks);
    }
  }

  // ---------------------------------------------------------------- the uploads of a file

  /** The memories after all uploads of a file. */
  function Programmed(file: seq<byte>): (m: Memory) {
    ReplayAll(BLANK, Drive(Start(file)).0)
  }

  lemma ProgrammedIs(lines: seq<PrintedLine>, tail: seq<byte>)
    requires ArePrinted(lines) && Skipped(tail) && Proper(RecordsOf(lines), 0, 0, {})
    ensures Programmed(FileOf(lines, tail)) == WriteAll(BLANK, ChunksOf(0, RecordsOf(lines)))
  {
    Compiles(lines, tail);
    MeaningWrites(BLANK, 0, RecordsOf(lines));
  }

  /**
   * After the uploads of a file, each flash address holds the word the file gives last for it, the
   * others of the blocks it reaches hold 0x3FFF, and no other address is written; each cell of the
   * external EEPROM holds the low byte of its word, however the records are split, the others of the
   * blocks reached hold 0; and of the internal EEPROM exactly the cells given are written.
   */
  lemma FileWritten(lines: seq<PrintedLine>, tail: seq<byte>, a: nat)
    requires ArePrinted(lines) && Skipped(tail) && Proper(RecordsOf(lines), 0, 0, {})
    ensures var (m, chunks) := (Programmed(FileOf(lines, tail)), ChunksOf(0, RecordsOf(lines)));
            IsWritten(BLANK, m, a, chunks)
  {
    ProgrammedIs(lines, tail);
    var chunks := ChunksOf(0, RecordsOf(lines));
    AllWritten(BLANK, chunks, a);
  }
}
