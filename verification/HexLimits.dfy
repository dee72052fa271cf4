/** Where the compiler departs from what a file means, and exactly when. */
module HexLimits {
  import opened Bytes
  import opened HexCompiling
  import opened Uploading
  import opened Wrappers
  import opened HexMemory
  import opened HexImages
  import opened HexTheorems
  import opened HexRecords
  import opened HexCorrectness
  import opened HexFiles
  import opened HexContents
  import opened HexForgetting
  import opened HexMisdirecting

  /** Whether k words from w on fit into the image. */
  lemma IndexOf(w: nat, k: nat)
    ensures FlashIndex(w) + 2 * k <= IMAGE_SIZE <==> w % 32 + k <= if w % 32 < 16 then 33 else 32
  {
  }

  /** What is written of a record does not run over the end of the image. */
  predicate Fits(w: nat, payload: seq<byte>, max: nat)
    requires w <= max
  {
    w % 32 + WordsBelow(w, payload, max) <= if w % 32 < 16 then 33 else 32
  }

  lemma FitsExactly(w: nat, payload: seq<byte>, max: nat)
    requires w <= max && |payload| < 256 && |payload| % 2 == 0
    ensures Kept(w, |payload|, max) == 2 * WordsBelow(w, payload, max) <= |payload|
    ensures FlashIndex(w) + Kept(w, |payload|, max) <= IMAGE_SIZE <==> Fits(w, payload, max)
  {
    KeptWords(w, payload, max);
    IndexOf(w, WordsBelow(w, payload, max));
  }

  /** A flash record is refused exactly when it runs over the end of the image, whatever block is being worked on. */
  lemma RefusedExactly(st: Prep, w: nat, payload: seq<byte>, max: nat)
    requires Valid(st) && Loaded(st, payload) && st.address == w && AreaOf(w) == Flash(max)
    ensures StoreFlash(st, max) == Return(Failure, st) <==> !Fits(w, payload, max)
  {
    FitsExactly(w, payload, max);
  }

  /** A refused record ends the program, and the block worked on is never uploaded. */
  lemma RefusalEnds(st: Prep, w: nat, payload: seq<byte>, max: nat, cur: nat)
    requires Standing(st, cur) && Loaded(st, payload) && WordAddress(st.hiAddress, st.line) == w
    requires AreaOf(w) == Flash(max) && !Fits(w, payload, max)
    ensures Valid(st) && DriveLoop(st) == ([], Failure)
  {
    var q := Located(st);
    RefusedExactly(q, w, payload, max);
    assert Process(st) == StoreFlash(q, max);
    assert Loop(st) == (Failure, q);
  }

  /**
   * What the records in front of a refused one have uploaded, m', is all that is ever uploaded; what
   * they have pending besides is lost, and so is all that stands behind.
   */
  lemma RefusalLoses(front: seq<PrintedLine>, l: PrintedLine, rest: seq<byte>, w: nat, max: nat) returns (m': Memory, st': Prep)
    requires ArePrinted(front) && AllStorable(RecordsOf(front), 0) && IsPrinted(l)
    requires var hi := HiBehind(0, RecordsOf(front)); WellFormed(hi, l.record) && w == FirstWord(hi, l.record)
    requires l.record.kind == 0 && AreaOf(w) == Flash(max) && !Fits(w, l.record.payload, max)
    ensures var file := FileOf(front, LineText(l) + rest); Programmed(file) == m' && Drive(Start(file)).1 == Failure
    ensures var after := Compiled(START, ChunksOf(0, RecordsOf(front)));
            Standing(st', after.cur) && Mem(m', st') == after.m
  {
    var hi := HiBehind(0, RecordsOf(front));
    var st := Starts(FileOf(front, LineText(l) + rest));
    m', st' := CompilesLines(BLANK, st, front, LineText(l) + rest, 0, 0);
    var cur := Compiled(START, ChunksOf(0, RecordsOf(front))).cur;
    var st1 := FetchRecord(st', l, rest);
    SamePending(m', st', st1, cur);
    StepFetch(st');
    AddressIs(st1.line, hi, l.record);
    RefusalEnds(st1, w, l.record.payload, max, cur);
  }

  // ---------------------------------------------------------------- one record

  /** Nothing but 0x3FFF, or 0, is in the blocks a record begins, but for what it gives itself. */
  ghost predicate ForgetsNothing(m: Memory, c: Chunk, cur: nat) {
    forall a: nat ::
      && (BeginsWord(c, cur, a) && !GivesWord(c, a) && a in m.flash ==> m.flash[a] == ERASED_WORD)
      && (BeginsCell(c, cur, a) && !GivesCell(c, a) && a in m.eeeprom ==> m.eeeprom[a] == 0)
  }

  lemma TurnedExactly<T>(f: map<nat, T>, f': map<nat, T>, g: map<nat, T>, a: nat, v: View<T>, c: Chunk, cur: nat)
    requires Turn(f, f', a, v, c, cur) && HexContents.Step(f, g, a, v, c)
    ensures Lookup(f', a) == Lookup(g, a) <==>
            (v.begins(c, cur) && !v.gives(c) && a in f ==> f[a] == v.rest)
  {
  }

  lemma EmptyingExactly(m: Memory, c: Chunk, cur: nat)
    requires cur != BEYOND
    ensures Added(Stand(m, cur), c).m == Write(m, c.w, c.payload) <==> ForgetsNothing(m, c, cur)
  {
    var s := Stand(m, cur);
    var m', n := Added(s, c).m, Write(m, c.w, c.payload);
    MemoriesAgree(m', n);
    forall a: nat
      ensures SameAt(m', n, a) <==>
              && (BeginsWord(c, cur, a) && !GivesWord(c, a) && a in m.flash ==> m.flash[a] == ERASED_WORD)
              && (BeginsCell(c, cur, a) && !GivesCell(c, a) && a in m.eeeprom ==> m.eeeprom[a] == 0)
    {
      FoundTurns(s, c, a);
      WordWritten(m, c, a);
      CellWritten(m, c, a);
      ByteWritten(m, c, a);
      BeginsTouches(c, cur, a);
      TurnedExactly(m.flash, m'.flash, n.flash, a, FlashView(a), c, cur);
      TurnedExactly(m.eeeprom, m'.eeeprom, n.eeeprom, a, EeepromView(a), c, cur);
      TurnedExactly(m.eeprom, m'.eeprom, n.eeprom, a, EepromView(a), c, cur);
    }
  }

  /** A storable data record writes what it means exactly if nothing is forgotten. */
  lemma RecordExactly(m: Memory, st: Prep, w: nat, payload: seq<byte>, cur: nat) returns (m': Memory, st': Prep)
    requires Standing(st, cur) && Loaded(st, payload) && WordAddress(st.hiAddress, st.line) == w
    requires NoneBeyond(m) && Storable(Chunk(w, payload)) && cur != BEYOND
    ensures Valid(st) && Valid(st') && Leads(m, st, m', st') && !st'.ready
    ensures Mem(m', st') == Write(Mem(m, st), w, payload) <==> ForgetsNothing(Mem(m, st), Chunk(w, payload), cur)
  {
    m', st' := DataRecord(m, st, w, payload, cur);
    EmptyingExactly(Mem(m, st), Chunk(w, payload), cur);
  }

  // ---------------------------------------------------------------- whole files

  lemma {:induction false} ChunksShort(records: seq<Record>, hi: nat)
    requires AllStorable(records, hi)
    ensures Short(ChunksOf(hi, records))
    decreases |records|
  {
    if records != [] {
      ChunksShort(records[1..], HiAfter(hi, records[0]));
    }
  }

  /** The memories after the uploads of any file of storable records, address by address. */
  lemma FileLeaves(lines: seq<PrintedLine>, tail: seq<byte>, a: nat)
    requires ArePrinted(lines) && Skipped(tail) && AllStorable(RecordsOf(lines), 0)
    requires Away(a) || !Strays(ChunksOf(0, RecordsOf(lines)))
    ensures AllLeave(Programmed(FileOf(lines, tail)), a, ChunksOf(0, RecordsOf(lines)))
  {
    FileCompiled(lines, tail);
    ChunksShort(RecordsOf(lines), 0);
    CompiledLeaves(ChunksOf(0, RecordsOf(lines)), a);
  }

  lemma {:induction false} HasLastStray(chunks: seq<Chunk>, n: nat) returns (i: nat)
    requires n < |chunks| && exists j :: 0 <= j < n && PastEnd(chunks[j])
    ensures i < n && PastEnd(chunks[i]) && forall j :: i < j < n ==> !PastEnd(chunks[j])
  {
    i := n - 1;
    if !PastEnd(chunks[i]) {
      i := HasLastStray(chunks, n - 1);
    }
  }

  /**
   * What runs past the end of the external EEPROM.  The flash words from 0x800 on are written exactly if
   * another data record stands anywhere behind one that runs past the end; they hold what the last such
   * record left over.  The cells behind the end are written exactly if the last data record runs past
   * it; they hold what it left over.
   */
  lemma MisdirectedExactly(lines: seq<PrintedLine>, tail: seq<byte>)
    requires ArePrinted(lines) && Skipped(tail) && AllStorable(RecordsOf(lines), 0)
    ensures var (m, chunks) := (Programmed(FileOf(lines, tail)), ChunksOf(0, RecordsOf(lines)));
            && (BEYOND_ADR in m.flash <==> Strays(chunks))
            && (BEYOND_ADR in m.eeeprom <==> chunks != [] && PastEnd(chunks[|chunks| - 1]))
            && (forall k: nat :: k < 16 ==> WordBeyond(m, chunks, k))
            && (forall k: nat :: k < 32 ==> CellBeyond(m, chunks, k))
  {
    var m, chunks := Programmed(FileOf(lines, tail)), ChunksOf(0, RecordsOf(lines));
    FileCompiled(lines, tail);
    ChunksShort(RecordsOf(lines), 0);
    CompiledBeyond(chunks);
    assert WordBeyond(m, chunks, 0) && CellBeyond(m, chunks, 0);
    if Strays(chunks) {
      var i := HasLastStray(chunks, |chunks| - 1);
      assert LastStray(chunks, i);
    }
  }

  /** Whatever value a was given last, its block was not begun since then, or it is the rest value anyway. */
  ghost predicate Remembers<T>(v: View<T>, chunks: seq<Chunk>) {
    forall i: nat :: IsLast(v.gives, chunks, i) && Reopened(v, chunks, i) ==> v.value(chunks[i]) == v.rest
  }

  lemma RemembersExactly<T>(f: map<nat, T>, g: map<nat, T>, a: nat, v: View<T>, chunks: seq<Chunk>)
    requires Leaves(f, a, v, chunks) && Holding(map[], g, a, v, chunks)
    ensures Lookup(f, a) == Lookup(g, a) <==> Remembers(v, chunks)
  {
    if Any(v.gives, chunks) {
      var i := HasLast(v.gives, chunks);
      assert Lookup(g, a) == Some(v.value(chunks[i]));
      forall j: nat | IsLast(v.gives, chunks, j)
        ensures j == i
      {
        assert !(i < j) && !(j < i);
      }
    }
  }

  lemma ByteRemembers(chunks: seq<Chunk>, a: nat)
    ensures Remembers(EepromView(a), chunks)
  {
    forall i: nat
      ensures !Reopened(EepromView(a), chunks, i)
    {
    }
  }

  ghost predicate AllRemember(a: nat, chunks: seq<Chunk>) {
    Remembers(FlashView(a), chunks) && Remembers(EeepromView(a), chunks)
  }

  lemma RemembersAt(m: Memory, n: Memory, a: nat, chunks: seq<Chunk>)
    requires AllLeave(m, a, chunks) && IsWritten(BLANK, n, a, chunks)
    ensures SameAt(m, n, a) <==> AllRemember(a, chunks)
  {
    RemembersExactly(m.flash, n.flash, a, FlashView(a), chunks);
    RemembersExactly(m.eeeprom, n.eeeprom, a, EeepromView(a), chunks);
    RemembersExactly(m.eeprom, n.eeprom, a, EepromView(a), chunks);
    ByteRemembers(chunks, a);
  }

  /** No record means a flash word that low. */
  lemma NoneMeant(chunks: seq<Chunk>)
    ensures BEYOND_ADR !in WriteAll(BLANK, chunks).flash
  {
    AllWritten(BLANK, chunks, BEYOND_ADR);
    var touches := FlashView(BEYOND_ADR).touches;
    forall i | 0 <= i < |chunks|
      ensures !touches(chunks[i])
    {
      assert !TouchesWord(chunks[i], BEYOND_ADR);
    }
  }

  /**
   * A file of storable records is programmed as it means exactly if no data record stands behind one
   * that runs past the end of the external EEPROM, and no block is begun anew after an address of it
   * was given a value, other than the rest value, that is not given again.
   */
  lemma CompilesExactly(lines: seq<PrintedLine>, tail: seq<byte>)
    requires ArePrinted(lines) && Skipped(tail) && AllStorable(RecordsOf(lines), 0)
    ensures var chunks := ChunksOf(0, RecordsOf(lines));
            Programmed(FileOf(lines, tail)) == Meaning(BLANK, 0, RecordsOf(lines)) <==>
            !Strays(chunks) && forall a: nat :: AllRemember(a, chunks)
  {
    var m, chunks := Programmed(FileOf(lines, tail)), ChunksOf(0, RecordsOf(lines));
    var n := WriteAll(BLANK, chunks);
    MeaningWrites(BLANK, 0, RecordsOf(lines));
    if Strays(chunks) {
      MisdirectedExactly(lines, tail);
      NoneMeant(chunks);
    } else {
      MemoriesAgree(m, n);
      forall a: nat
        ensures SameAt(m, n, a) <==> AllRemember(a, chunks)
      {
        FileLeaves(lines, tail, a);
        AllWritten(BLANK, chunks, a);
        RemembersAt(m, n, a, chunks);
      }
    }
  }

  // ---------------------------------------------------------------- the end of a flash area

  /** Chunk c reaches the last word of the flash area that ends at a. */
  predicate ReachesEnd(c: Chunk, a: nat) {
    AreaOf(c.w) == Flash(a) && Reaches(c, a)
  }

  lemma EndTouched(c: Chunk, a: nat)
    requires ReachesEnd(c, a) && Storable(c)
    ensures TouchesWord(c, a)
  {
    InHalf(c.w);
    InHalf(a);
  }

  lemma NotGiven(chunks: seq<Chunk>, a: nat)
    requires a == MAIN_MEM_MAX_ADR || a == LICENCED_MEM_MAX_ADR
    ensures !Any(FlashView(a).gives, chunks)
  {
    var gives := FlashView(a).gives;
    forall i | 0 <= i < |chunks|
      ensures !gives(chunks[i])
    {
      assert !GivesWord(chunks[i], a);
    }
  }

  lemma {:induction false} ChunksStorable(records: seq<Record>, hi: nat)
    requires AllStorable(records, hi)
    ensures forall c :: c in ChunksOf(hi, records) ==> Storable(c)
    decreases |records|
  {
    if records != [] {
      ChunksStorable(records[1..], HiAfter(hi, records[0]));
    }
  }

  /**
   * A value v that a record of a file gives for the last word of a flash area is there in the end
   * exactly if it is 0x3FFF.
   */
  lemma LastWordExactly(lines: seq<PrintedLine>, tail: seq<byte>, a: nat, i: nat)
    requires ArePrinted(lines) && Skipped(tail) && AllStorable(RecordsOf(lines), 0)
    requires a == MAIN_MEM_MAX_ADR || a == LICENCED_MEM_MAX_ADR
    requires var chunks := ChunksOf(0, RecordsOf(lines)); i < |chunks| && ReachesEnd(chunks[i], a)
    ensures var c := ChunksOf(0, RecordsOf(lines))[i];
            Lookup(Programmed(FileOf(lines, tail)).flash, a) == Some(PayloadWord(c.payload, a - c.w)) <==>
            PayloadWord(c.payload, a - c.w) == ERASED_WORD
  {
    var chunks := ChunksOf(0, RecordsOf(lines));
    FileLeaves(lines, tail, a);
    NotGiven(chunks, a);
    ChunksStorable(RecordsOf(lines), 0);
    EndTouched(chunks[i], a);
    assert FlashView(a).touches(chunks[i]);
  }

  // ---------------------------------------------------------------- memories with other contents

  /** m, with what n holds instead where it holds something. */
  function Over(m: Memory, n: Memory): (r: Memory) {
    Memory(m.flash + n.flash, m.eeeprom + n.eeeprom, m.eeprom + n.eeprom)
  }

  lemma ReplayOver(m: Memory, n: Memory, u: Upload)
    ensures Replay(Over(m, n), u) == Over(m, Replay(n, u))
  {
    if |u.data| == 34 {
      MapsJoin(m.flash, n.flash, PacketWords(u.data));
    }
    if |u.data| >= 2 {
      MapsJoin(m.eeeprom, n.eeeprom, PacketBytes(u.data));
      MapsJoin(m.eeprom, n.eeprom, PacketBytes(u.data));
    }
  }

  lemma {:induction false} ReplayAllOver(m: Memory, n: Memory, log: seq<Upload>)
    ensures ReplayAll(Over(m, n), log) == Over(m, ReplayAll(n, log))
    decreases |log|
  {
    if log != [] {
      ReplayOver(m, n, log[0]);
      ReplayAllOver(m, Replay(n, log[0]), log[1..]);
    }
  }

  /** Whatever the memories hold before, a file changes what it would write into blank ones and nothing else. */
  lemma NothingElse(m: Memory, file: seq<byte>)
    ensures ReplayAll(m, Drive(Start(file)).0) == Over(m, Programmed(file))
  {
    assert Over(m, BLANK) == m;
    ReplayAllOver(m, BLANK, Drive(Start(file)).0);
  }
}
