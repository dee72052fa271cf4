/** Records behind the end-of-file record: the compiler goes on with them, and exactly when that does no harm. */
module HexEnding {
  import opened Bytes
  import opened Wrappers
  import opened HexMemory
  import opened HexFiles
  import opened HexContents

  /** The kind of the record that ends a file. */
  const END_OF_FILE: byte := 1

  /** The records in front of the first end-of-file record. */
  function UpToEnd(records: seq<Record>): (front: seq<Record>)
    ensures |front| <= |records| && front == records[..|front|]
    ensures forall r :: r in front ==> r.kind != END_OF_FILE
    ensures |front| < |records| ==> records[|front|].kind == END_OF_FILE
  {
    if records == [] || records[0].kind == END_OF_FILE then []
    else
      var front := UpToEnd(records[1..]);
      assert [records[0]] + front == records[..|front| + 1];
      [records[0]] + front
  }

  /** The data behind the first end-of-file record. */
  function BehindEnd(records: seq<Record>): (chunks: seq<Chunk>) {
    var front := UpToEnd(records);
    ChunksOf(HiBehind(0, front), records[|front|..])
  }

  lemma {:induction false} MeaningJoins(m: Memory, hi: nat, a: seq<Record>, b: seq<Record>)
    ensures Meaning(m, hi, a + b) == Meaning(Meaning(m, hi, a), HiBehind(hi, a), b)
    decreases |a|
  {
    if a == [] {
      assert a + b == b;
    } else {
      assert (a + b)[0] == a[0] && (a + b)[1..] == a[1..] + b;
      MeaningJoins(WriteRecord(m, hi, a[0]), HiAfter(hi, a[0]), a[1..], b);
    }
  }

  lemma MeaningGoesOn(records: seq<Record>)
    ensures Meaning(BLANK, 0, records) == WriteAll(Meaning(BLANK, 0, UpToEnd(records)), BehindEnd(records))
  {
    var front := UpToEnd(records);
    var behind := records[|front|..];
    assert front + behind == records;
    MeaningJoins(BLANK, 0, front, behind);
    MeaningWrites(Meaning(BLANK, 0, front), HiBehind(0, front), behind);
  }

  // ---------------------------------------------------------------- what chunks leave as it is

  /** At a, the chunks touch nothing new, and the last value they give is held there already. */
  ghost predicate Settled<T>(f: map<nat, T>, a: nat, v: View<T>, chunks: seq<Chunk>) {
    && (Any(v.touches, chunks) ==> a in f)
    && forall i: nat :: IsLast(v.gives, chunks, i) ==> Lookup(f, a) == Some(v.value(chunks[i]))
  }

  lemma SettledExactly<T>(f0: map<nat, T>, f: map<nat, T>, a: nat, v: View<T>, chunks: seq<Chunk>)
    requires Holding(f0, f, a, v, chunks)
    ensures Lookup(f, a) == Lookup(f0, a) <==> Settled(f0, a, v, chunks)
  {
    if Any(v.gives, chunks) {
      var i := HasLast(v.gives, chunks);
      assert a in f && f[a] == v.value(chunks[i]);
    }
  }

  /** All chunks are settled at a. */
  ghost predicate AllSettled(m: Memory, a: nat, chunks: seq<Chunk>) {
    && Settled(m.flash, a, FlashView(a), chunks)
    && Settled(m.eeeprom, a, EeepromView(a), chunks)
    && Settled(m.eeprom, a, EepromView(a), chunks)
  }

  lemma ChunksSettled(m: Memory, chunks: seq<Chunk>)
    ensures WriteAll(m, chunks) == m <==> forall a: nat :: AllSettled(m, a, chunks)
  {
    var m' := WriteAll(m, chunks);
    MemoriesAgree(m', m);
    forall a: nat
      ensures SameAt(m', m, a) <==> AllSettled(m, a, chunks)
    {
      AllWritten(m, chunks, a);
      SettledExactly(m.flash, m'.flash, a, FlashView(a), chunks);
      SettledExactly(m.eeeprom, m'.eeeprom, a, EeepromView(a), chunks);
      SettledExactly(m.eeprom, m'.eeprom, a, EepromView(a), chunks);
    }
  }

  // ---------------------------------------------------------------- files

  /** A file is programmed as its records in front of the end-of-file record mean, and then those behind it. */
  lemma GoesOnBehind(lines: seq<PrintedLine>, tail: seq<byte>)
    requires ArePrinted(lines) && Skipped(tail) && Proper(RecordsOf(lines), 0, 0, {})
    ensures Programmed(FileOf(lines, tail)) ==
            WriteAll(Meaning(BLANK, 0, UpToEnd(RecordsOf(lines))), BehindEnd(RecordsOf(lines)))
  {
    Compiles(lines, tail);
    MeaningGoesOn(RecordsOf(lines));
  }

  /**
   * A file is programmed as the records in front of its end-of-file record mean exactly if those behind
   * it touch no address not written by then, and the last value they give for an address is held there.
   */
  lemma EndHeededExactly(lines: seq<PrintedLine>, tail: seq<byte>)
    requires ArePrinted(lines) && Skipped(tail) && Proper(RecordsOf(lines), 0, 0, {})
    ensures var (records, m) := (RecordsOf(lines), Meaning(BLANK, 0, UpToEnd(RecordsOf(lines))));
            Programmed(FileOf(lines, tail)) == m <==> forall a: nat :: AllSettled(m, a, BehindEnd(records))
  {
    GoesOnBehind(lines, tail);
    ChunksSettled(Meaning(BLANK, 0, UpToEnd(RecordsOf(lines))), BehindEnd(RecordsOf(lines)));
  }

  // ---------------------------------------------------------------- a file

  /** An end-of-file record, and behind it the word 1 for address 0x3A00. */
  const ENDED := [Record(END_OF_FILE, 0, []), Record(0, 0x7400, [1, 0])]

  lemma EndedIs()
    ensures UpToEnd(ENDED) == [] && Meaning(BLANK, 0, UpToEnd(ENDED)) == BLANK
    ensures Proper(ENDED, 0, 0, {}) && ChunksOf(0, ENDED) == [Chunk(0x3A00, [1, 0])]
  {
    var rest := [Record(0, 0x7400, [1, 0])];
    assert ENDED[1..] == rest && rest[1..] == [];
    assert ChunksOf(0, []) == [] && ChunksOf(0, rest) == [Chunk(0x3A00, [1, 0])];
    assert Placed(0x3A00, [1, 0], 0, {});
    assert Proper(rest, 0, 0, {});
  }

  const ENDED_FILE := PrintedAll(ENDED)

  lemma GivesOne(f: map<nat, nat>, chunks: seq<Chunk>)
    requires chunks == [Chunk(0x3A00, [1, 0])] && Holding(map[], f, 0x3A00, FlashView(0x3A00), chunks)
    ensures Lookup(f, 0x3A00) == Some(1)
  {
    assert IsLast(FlashView(0x3A00).gives, chunks, 0);
    assert FlashView(0x3A00).value(chunks[0]) == 1;
  }

  /** The word behind the end is programmed, although nothing stands in front of it. */
  lemma EndIgnored()
    ensures Meaning(BLANK, 0, UpToEnd(RecordsOf(ENDED_FILE))) == BLANK
    ensures Lookup(Programmed(FileOf(ENDED_FILE, [])).flash, 0x3A00) == Some(1)
  {
    EndedIs();
    PrintedRecords(ENDED);
    FileWritten(ENDED_FILE, [], 0x3A00);
    GivesOne(Programmed(FileOf(ENDED_FILE, [])).flash, ChunksOf(0, ENDED));
  }
}
