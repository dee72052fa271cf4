/** The whole program: uploading a HEX file writes what the file means, and nothing else. */
module HexCorrectness {
  import opened Bytes
  import opened HexCompiling
  import opened HexMemory
  import opened HexImages
  import opened HexTheorems
  import opened HexRecords

  // ---------------------------------------------------------------- one data record

  /** The rest of the program from st, replayed into m, is that from st', replayed into m'. */
  ghost predicate Leads(m: Memory, st: Prep, m': Memory, st': Prep)
    requires Valid(st) && Valid(st')
  {
    && ReplayAll(m, DriveLoop(st).0) == ReplayAll(m', DriveLoop(st').0)
    && DriveLoop(st).1 == DriveLoop(st').1
  }

  lemma {:induction false} UploadsOfImage(code: Code, a: Prep, b: Prep)
    requires Valid(a) && Valid(b) && a.image == b.image && a.processState == b.processState
    ensures Uploads(code, a) == Uploads(code, b)
    decreases a.processState
  {
    if a.processState > 0 {
      UploadsOfImage(code, AfterUpload(code, a), AfterUpload(code, b));
    }
  }

  /** What a state has pending lies in its image alone. */
  lemma SamePending(m: Memory, a: Prep, b: Prep, cur: nat)
    requires Standing(a, cur) && Valid(b)
    requires a.image == b.image && a.block == b.block && a.processState == b.processState && a.overflow == b.overflow
    ensures Standing(b, cur) && Mem(m, a) == Mem(m, b)
  {
    if a.block != 0 {
      UploadsOfImage(if a.block < 80 then EeepromReady else FlashReady, a, b);
    } else if a.overflow {
      UploadsOfImage(EeepromReady, MoveOverflow(a), MoveOverflow(b));
    }
  }

  /** Nothing is written behind the external EEPROM. */
  ghost predicate NoneBeyond(m: Memory) {
    forall a :: a in m.eeeprom ==> a < BEYOND_ADR
  }

  /** The record in the line buffer, and the state it is stored on. */
  predicate At(st: Prep, w: nat, payload: seq<byte>) {
    Valid(st) && Loaded(st, payload) && Loaded(Located(st), payload) && Located(st).address == w
  }

  lemma LocatedGood(m: Memory, st: Prep, cur: nat)
    requires Good(st, cur) && cur != BEYOND
    ensures var q := Located(st);
            Good(q, cur) && Mem(m, q) == Mem(m, st) && (q.block == 0 ==> IsFresh(q) && cur == 0)
  {
    var st1 := st.(address := WordAddress(st.hiAddress, st.line));
    SamePending(m, st, st1, cur);
    if st.overflow && st.block == 0 {
      Moved(st1, cur);
      OneUpload(MoveOverflow(st1));
    }
  }

  lemma LocatedBeyond(m: Memory, st: Prep)
    requires Good(st, BEYOND) && NoneBeyond(m)
    ensures Misplaced(Located(st)) && Mem(m, Located(st)) == Misdirected(Mem(m, st))
  {
    var st1 := st.(address := WordAddress(st.hiAddress, st.line));
    var q := MoveOverflow(st1);
    Moved(st1, BEYOND);
    PendingOverflow(m, st, BEYOND);
    PendingMisplaced(m, q);
    assert q.image[36..] == q.image[34..][2..] == st.image[..34][2..] == st.image[2..34];
    Misdirects(m, st.image[2..34]);
  }

  lemma OnlyBeyond(old_: map<nat, byte>, cells: map<nat, byte>)
    requires forall a :: a in old_ ==> a < BEYOND_ADR
    requires cells.Keys == Range(BEYOND_ADR, BEYOND_ADR + 32)
    ensures old_ + cells - Range(BEYOND_ADR, BEYOND_ADR + 32) == old_
  {
  }

  lemma SamePairs(old_: map<nat, byte>, cells: map<nat, byte>)
    requires cells.Keys == Range(BEYOND_ADR, BEYOND_ADR + 32)
    ensures PairWords(old_ + cells, BEYOND_ADR) == PairWords(cells, BEYOND_ADR)
  {
  }

  lemma Misdirects(m: Memory, bytes: seq<byte>)
    requires NoneBeyond(m) && |bytes| == 32
    ensures var cells := Cells(bytes, BEYOND_ADR);
            Misdirected(m.(eeeprom := m.eeeprom + cells)) == m.(flash := m.flash + PairWords(cells, BEYOND_ADR))
  {
    OnlyBeyond(m.eeeprom, Cells(bytes, BEYOND_ADR));
    SamePairs(m.eeeprom, Cells(bytes, BEYOND_ADR));
  }

  /** How the next data record finds the memories and the active block. */
  lemma LocatedStands(m: Memory, st: Prep, cur: nat)
    requires Standing(st, cur) && NoneBeyond(m)
    ensures var (q, found) := (Located(st), Found(Stand(Mem(m, st), cur)));
            && Standing(q, found.cur) && !q.overflow && Mem(m, q) == found.m
            && (q.block == 0 ==> IsFresh(q) && found.cur == 0)
  {
    if Misplaced(st) {
      SamePending(m, st, Located(st), 0);
    } else if cur == BEYOND {
      LocatedBeyond(m, st);
    } else {
      LocatedGood(m, st, cur);
    }
  }

  /** Handing the active block over uploads what was pending, and the record waits for the next call. */
  lemma HandsOver(m: Memory, st: Prep, payload: seq<byte>) returns (next: Prep)
    requires Valid(st) && st.ready && Loaded(st, payload)
    requires var q := Located(st); Loaded(q, payload) && !q.overflow && q.block != 0 && Process(st) == Flush(q)
    ensures next == Begin(Uploaded(if Located(st).block < 80 then EeepromReady else FlashReady, Located(st)))
    ensures Valid(next) && IsFresh(next) && Loaded(next, payload)
    ensures next.address == Located(st).address && Located(next) == next
    ensures next == Located(st).(image := next.image, block := 0, processState := 0)
    ensures Leads(m, st, Mem(m, Located(st)), next)
  {
    var q := Located(st);
    var code := if q.block < 80 then EeepromReady else FlashReady;
    next := Begin(Uploaded(code, q));
    StepReturn(st, m);
  }

  /**
   * What storing a record comes to: a state between records again, in which the record has been
   * written, and the blocks it begins were emptied before.
   */
  ghost predicate Becomes(m: Memory, st: Prep, m': Memory, st': Prep, w: nat, payload: seq<byte>, cur: nat, cur': nat) {
    && Valid(st) && !st'.ready && Standing(st', cur') && NoneBeyond(m')
    && st'.file == st.file && st'.pos == st.pos && st'.hiAddress == st.hiAddress
    && Leads(m, st, m', st')
    && Mem(m', st') == Write(Emptied(Mem(m, Located(st)), w, payload, cur), w, payload)
  }

  lemma WriteMeans(m: Memory, w: nat, payload: seq<byte>)
    ensures AreaOf(w).Flash? ==> Write(m, w, payload) == m.(flash := FlashAfter(m.flash, w, payload, AreaOf(w).max))
    ensures AreaOf(w) == Eeeprom ==>
              Write(m, w, payload) == m.(eeeprom := EeepromAfter(m.eeeprom, EeepromBase(w / 32), w % 32, payload))
    ensures AreaOf(w) == Eeprom ==>
              Write(m, w, payload) == m.(eeprom := m.eeprom + PayloadBytes(w - PIC_EEPROM_MIN, payload))
  {
  }

  lemma EmptiedFlash(m: Memory, w: nat, payload: seq<byte>, cur: nat, max: nat)
    requires AreaOf(w) == Flash(max)
    ensures var base := 32 * (w / 32);
            Write(Emptied(m, w, payload, cur), w, payload) ==
            m.(flash := FlashAfter(if w / 32 == cur then m.flash else m.flash + EmptyWords(base, base + 32),
                                   w, payload, max))
  {
  }

  lemma BegunIs(w: nat, payload: seq<byte>, cur: nat)
    ensures var base := EeepromBase(w / 32);
            Begun(w, payload, cur) ==
            (if w / 32 == cur then base + 32 else base, if RunsOver(w, payload) then base + 64 else base + 32)
  {
  }

  lemma NoneEmptied(cells: map<nat, byte>, base: int)
    ensures cells + EmptyCells(base, base) == cells
  {
  }

  lemma BothEmptied(cells: map<nat, byte>, base: int)
    ensures cells + EmptyCells(base, base + 64) == cells + EmptyCells(base, base + 32) + EmptyCells(base + 32, base + 64)
  {
  }

  // Which cells are emptied: none, those of the next block, those of the block, or those of both.

  lemma EmptiedNone(cells: map<nat, byte>, w: nat, payload: seq<byte>)
    requires !RunsOver(w, payload)
    ensures CellsEmptied(cells, w, payload, w / 32) == cells
  {
    BegunIs(w, payload, w / 32);
    NoneEmptied(cells, EeepromBase(w / 32) + 32);
  }

  lemma EmptiedNext(cells: map<nat, byte>, w: nat, payload: seq<byte>, base: nat)
    requires base == EeepromBase(w / 32) && RunsOver(w, payload)
    ensures CellsEmptied(cells, w, payload, w / 32) == NextEmptied(cells, base)
  {
    BegunIs(w, payload, w / 32);
  }

  lemma EmptiedOne(cells: map<nat, byte>, w: nat, payload: seq<byte>, base: nat)
    requires base == EeepromBase(w / 32) && w / 32 > 0 && !RunsOver(w, payload)
    ensures CellsEmptied(cells, w, payload, 0) == cells + Cells(Zeros(32), base)
  {
    BegunIs(w, payload, 0);
    ZeroCells(base);
  }

  lemma EmptiedBoth(cells: map<nat, byte>, w: nat, payload: seq<byte>, base: nat)
    requires base == EeepromBase(w / 32) && w / 32 > 0 && RunsOver(w, payload)
    ensures CellsEmptied(cells, w, payload, 0) == NextEmptied(cells + Cells(Zeros(32), base), base)
  {
    BegunIs(w, payload, 0);
    BothEmptied(cells, base);
    ZeroCells(base);
  }

  /** What a record of the external EEPROM comes to, by what is emptied. */
  lemma CellsMean(m: Memory, w: nat, payload: seq<byte>, cur: nat, cells: map<nat, byte>, base: nat)
    requires AreaOf(w) == Eeeprom && cells == CellsEmptied(m.eeeprom, w, payload, cur) && base == EeepromBase(w / 32)
    ensures Write(Emptied(m, w, payload, cur), w, payload) ==
            m.(eeeprom := EeepromAfter(cells, base, w % 32, payload))
  {
  }

  lemma ProcessIs(st: Prep, w: nat, payload: seq<byte>)
    requires At(st, w, payload)
    ensures AreaOf(w) == Eeeprom ==> Process(st) == StoreEeeprom(Located(st))
    ensures AreaOf(w) == Eeprom ==> Process(st) == StoreEeprom(Located(st))
    ensures AreaOf(w).Flash? ==> Process(st) == StoreFlash(Located(st), AreaOf(w).max)
  {
  }

  /** A record that is stored without handing a block over. */
  lemma BecomesBy(m: Memory, st: Prep, st': Prep, w: nat, payload: seq<byte>, cur: nat, cur': nat)
    requires At(st, w, payload) && NoneBeyond(m) && Process(st) == Continue(st') && Stored(Located(st), st')
    requires Standing(st', cur') && Mem(m, st') == Write(Emptied(Mem(m, Located(st)), w, payload, cur), w, payload)
    ensures Becomes(m, st, m, st', w, payload, cur, cur')
  {
    StepContinue(st);
  }

  /** A record whose storing hands a block over at once. */
  lemma BecomesUploading(m: Memory, st: Prep, code: Code, done: Prep, m': Memory, next: Prep,
                         w: nat, payload: seq<byte>, cur: nat, cur': nat)
    requires At(st, w, payload) && Process(st) == Return(code, done) && IsReady(code) && Valid(done)
    requires next == Begin(Uploaded(code, done)) && Stored(Located(st), next)
    requires m' == ReplayAll(m, Uploads(code, done)) && NoneBeyond(m')
    requires Standing(next, cur') && Mem(m', next) == Write(Emptied(Mem(m, Located(st)), w, payload, cur), w, payload)
    ensures Becomes(m, st, m', next, w, payload, cur, cur')
  {
    StepReturn(st, m);
  }

  /** A record that continues the active flash block. */
  lemma SameFlash(m: Memory, st: Prep, w: nat, payload: seq<byte>, max: nat) returns (st': Prep)
    requires At(st, w, payload) && NoneBeyond(m) && Good(Located(st), w / 32) && Located(st).block == w / 32
    requires AreaOf(w) == Flash(max) && WithinHalf(w, payload, max)
    ensures Becomes(m, st, m, st', w, payload, w / 32, w / 32)
  {
    st' := FlashContinued(m, Located(st), w, payload, max);
    EmptiedFlash(Mem(m, Located(st)), w, payload, w / 32, max);
    BecomesBy(m, st, st', w, payload, w / 32, w / 32);
  }

  /** A record of the flash that begins a block. */
  lemma FreshFlash(m: Memory, st: Prep, w: nat, payload: seq<byte>, max: nat) returns (st': Prep)
    requires At(st, w, payload) && NoneBeyond(m) && IsFresh(Located(st))
    requires AreaOf(w) == Flash(max) && WithinHalf(w, payload, max)
    ensures Becomes(m, st, m, st', w, payload, 0, w / 32)
  {
    st' := FlashBegun(m, Located(st), w, payload, max);
    PendingNothing(m, Located(st));
    EmptiedFlash(m, w, payload, 0, max);
    BecomesBy(m, st, st', w, payload, 0, w / 32);
  }

  /** A record that continues the active block of the external EEPROM. */
  lemma SameEeeprom(m: Memory, st: Prep, w: nat, payload: seq<byte>) returns (st': Prep)
    requires At(st, w, payload) && NoneBeyond(m) && Good(Located(st), w / 32) && Located(st).block == w / 32
    requires AreaOf(w) == Eeeprom && !RunsOver(w, payload)
    ensures Becomes(m, st, m, st', w, payload, w / 32, LastBlock(w, payload))
  {
    st' := EeepromContinued(m, Located(st), w, payload);
    var before := Mem(m, Located(st));
    EmptiedNone(before.eeeprom, w, payload);
    CellsMean(before, w, payload, w / 32, before.eeeprom, EeepromBase(w / 32));
    BecomesBy(m, st, st', w, payload, w / 32, LastBlock(w, payload));
  }

  /** The block that was run over is not one behind the external EEPROM. */
  lemma NoneUploadedBeyond(m: Memory, done: Prep, block: nat)
    requires NoneBeyond(m) && Valid(done) && done.processState == 1 && 16 <= block < BEYOND
    requires Number(done.image[34], done.image[35]) == EeepromBase(block)
    ensures NoneBeyond(ReplayAll(m, Uploads(EeepromReady, done)))
  {
    OneUpload(done);
    EeepromLogWrites(m, done.image, EeepromBase(block));
  }

  /** A record that runs over a block of the external EEPROM, which is uploaded at once. */
  lemma BecomesOver(m: Memory, st: Prep, done: Prep, next: Prep, w: nat, payload: seq<byte>, cur: nat)
    requires At(st, w, payload) && NoneBeyond(m) && AreaOf(w) == Eeeprom
    requires Ran(Located(st), done, next, w) && RunsOver(w, payload)
    requires Mem(ReplayAll(m, Uploads(EeepromReady, done)), next) ==
             Write(Emptied(Mem(m, Located(st)), w, payload, cur), w, payload)
    ensures Becomes(m, st, ReplayAll(m, Uploads(EeepromReady, done)), next, w, payload, cur, LastBlock(w, payload))
  {
    NoneUploadedBeyond(m, done, w / 32);
    ProcessIs(st, w, payload);
    StepReturn(st, m);
  }

  /** A record that runs over the active block of the external EEPROM. */
  lemma SameEeepromOver(m: Memory, st: Prep, w: nat, payload: seq<byte>) returns (m': Memory, next: Prep)
    requires At(st, w, payload) && NoneBeyond(m) && Good(Located(st), w / 32) && Located(st).block == w / 32
    requires AreaOf(w) == Eeeprom && RunsOver(w, payload)
    ensures Becomes(m, st, m', next, w, payload, w / 32, LastBlock(w, payload))
  {
    var (before, base) := (Mem(m, Located(st)), EeepromBase(w / 32));
    var done;
    done, next := EeepromRunsOver(m, Located(st), w, payload);
    m' := ReplayAll(m, Uploads(EeepromReady, done));
    EmptiedNext(before.eeeprom, w, payload, base);
    CellsMean(before, w, payload, w / 32, NextEmptied(before.eeeprom, base), base);
    BecomesOver(m, st, done, next, w, payload, w / 32);
  }

  /** A record of the external EEPROM that begins a block and keeps within it. */
  lemma FreshEeeprom(m: Memory, st: Prep, w: nat, payload: seq<byte>) returns (st': Prep)
    requires At(st, w, payload) && NoneBeyond(m) && IsFresh(Located(st))
    requires AreaOf(w) == Eeeprom && !RunsOver(w, payload)
    ensures Becomes(m, st, m, st', w, payload, 0, LastBlock(w, payload))
  {
    var q1 := OpensEmpty(Located(st), w, payload);
    OpenedPending(m, q1, w);
    PendingNothing(m, Located(st));
    st' := EeepromContinued(m, q1, w, payload);
    EmptiedOne(m.eeeprom, w, payload, EeepromBase(w / 32));
    CellsMean(m, w, payload, 0, Mem(m, q1).eeeprom, EeepromBase(w / 32));
    BecomesBy(m, st, st', w, payload, 0, LastBlock(w, payload));
  }

  /** A record of the external EEPROM that begins a block and runs over it. */
  lemma FreshEeepromOver(m: Memory, st: Prep, w: nat, payload: seq<byte>) returns (m': Memory, next: Prep)
    requires At(st, w, payload) && NoneBeyond(m) && IsFresh(Located(st))
    requires AreaOf(w) == Eeeprom && RunsOver(w, payload)
    ensures Becomes(m, st, m', next, w, payload, 0, LastBlock(w, payload))
  {
    var q1 := OpensEmpty(Located(st), w, payload);
    OpenedPending(m, q1, w);
    PendingNothing(m, Located(st));
    var done;
    done, next := EeepromRunsOver(m, q1, w, payload);
    m' := ReplayAll(m, Uploads(EeepromReady, done));
    RanOpened(Located(st), q1, done, next, w);
    EmptiedBoth(m.eeeprom, w, payload, EeepromBase(w / 32));
    CellsMean(m, w, payload, 0, NextEmptied(Mem(m, q1).eeeprom, EeepromBase(w / 32)), EeepromBase(w / 32));
    BecomesOver(m, st, done, next, w, payload, 0);
  }

  lemma RanOpened(q: Prep, q1: Prep, done: Prep, next: Prep, w: nat)
    requires Valid(q) && AreaOf(w) == Eeeprom && q.address == w && q1 == OpenEeeprom(q)
    requires StoreEeeprom(q) == StoreEeeprom(q1) && Ran(q1, done, next, w)
    ensures Ran(q, done, next, w)
  {
  }

  /** A record of the internal EEPROM. */
  lemma FreshEeprom(m: Memory, st: Prep, w: nat, payload: seq<byte>) returns (m': Memory, next: Prep)
    requires At(st, w, payload) && NoneBeyond(m) && IsFresh(Located(st))
    requires AreaOf(w) == Eeprom && w + |payload| / 2 <= PIC_EEPROM_MAX
    ensures Becomes(m, st, m', next, w, payload, 0, 0)
  {
    var done;
    done, next := EepromWritten(m, Located(st), w, payload);
    m' := ReplayAll(m, Uploads(EepromReady, done));
    PendingNothing(m, Located(st));
    PendingNothing(m', next);
    WriteMeans(m, w, payload);
    BecomesUploading(m, st, EepromReady, done, m', next, w, payload, 0, 0);
  }

  // ---------------------------------------------------------------- any data record

  /** A record in a fresh state begins its block. */
  lemma FreshRecord(m: Memory, st: Prep, w: nat, payload: seq<byte>) returns (m': Memory, st': Prep)
    requires At(st, w, payload) && NoneBeyond(m) && IsFresh(Located(st))
    requires AreaOf(w) != Nowhere && Storable(Chunk(w, payload))
    ensures Becomes(m, st, m', st', w, payload, 0, CurAfter(w, payload, 0))
  {
    m' := m;
    match AreaOf(w)
    case Eeeprom =>
      if RunsOver(w, payload) {
        m', st' := FreshEeepromOver(m, st, w, payload);
      } else {
        st' := FreshEeeprom(m, st, w, payload);
      }
    case Flash(max) => st' := FreshFlash(m, st, w, payload, max);
    case Eeprom => m', st' := FreshEeprom(m, st, w, payload);
  }

  /** A record of the active block of the external EEPROM. */
  lemma SameCells(m: Memory, st: Prep, w: nat, payload: seq<byte>) returns (m': Memory, st': Prep)
    requires At(st, w, payload) && NoneBeyond(m) && Good(Located(st), w / 32) && Located(st).block == w / 32
    requires AreaOf(w) == Eeeprom
    ensures Becomes(m, st, m', st', w, payload, w / 32, LastBlock(w, payload))
  {
    m' := m;
    if RunsOver(w, payload) {
      m', st' := SameEeepromOver(m, st, w, payload);
    } else {
      st' := SameEeeprom(m, st, w, payload);
    }
  }

  /** A record of the active block continues it. */
  lemma SameRecord(m: Memory, st: Prep, w: nat, payload: seq<byte>) returns (m': Memory, st': Prep)
    requires At(st, w, payload) && NoneBeyond(m) && Good(Located(st), w / 32) && Located(st).block == w / 32
    requires (AreaOf(w) == Eeeprom || AreaOf(w).Flash?) && Storable(Chunk(w, payload))
    ensures Becomes(m, st, m', st', w, payload, w / 32, CurAfter(w, payload, w / 32))
  {
    m' := m;
    if AreaOf(w).Flash? {
      st' := SameFlash(m, st, w, payload, AreaOf(w).max);
    } else {
      m', st' := SameCells(m, st, w, payload);
    }
  }

  /** A record for an address that is not written leaves everything as it is. */
  lemma NowhereRecord(m: Memory, st: Prep, w: nat, payload: seq<byte>, cur: nat) returns (st': Prep)
    requires At(st, w, payload) && NoneBeyond(m) && Standing(Located(st), cur)
    requires AreaOf(w) == Nowhere
    ensures Becomes(m, st, m, st', w, payload, cur, cur)
  {
    var q := Located(st);
    st' := q.(ready := false);
    SamePending(m, q, st', cur);
    BecomesBy(m, st, st', w, payload, cur, cur);
  }

  /** A record for another block hands the active block over first. */
  lemma OtherFlash(q: Prep, w: nat, payload: seq<byte>, max: nat)
    requires Valid(q) && q.line[0] == |payload| && q.address == w && q.block != 0 && q.block != w / 32
    requires AreaOf(w) == Flash(max) && |payload| % 2 == 0 && WithinHalf(w, payload, max)
    ensures StoreFlash(q, max) == Flush(q)
  {
    HalfFits(w, payload, max);
  }

  /** What is handed over does not lie behind the external EEPROM. */
  lemma NonePendingBeyond(m: Memory, q: Prep, cur: nat)
    requires NoneBeyond(m) && Standing(q, cur) && !q.overflow && q.block != 0
    ensures NoneBeyond(Mem(m, q))
  {
    if Misplaced(q) {
      PendingMisplaced(m, q);
    } else if q.block < 80 {
      PendingEeeprom(m, q);
    } else {
      PendingFlash(m, q);
    }
  }

  /** A record for another block, with the active one handed over before. */
  lemma HandedRecord(m: Memory, st: Prep, w: nat, payload: seq<byte>, cur: nat) returns (m': Memory, st': Prep)
    requires At(st, w, payload) && NoneBeyond(m) && Standing(Located(st), cur) && !Located(st).overflow
    requires Located(st).block != 0 && (Located(st).block != w / 32 || AreaOf(w) == Eeprom)
    requires AreaOf(w) != Nowhere && Storable(Chunk(w, payload))
    ensures Becomes(m, st, m', st', w, payload, 0, CurAfter(w, payload, 0))
  {
    var q := Located(st);
    if AreaOf(w).Flash? {
      OtherFlash(q, w, payload, AreaOf(w).max);
    }
    var next := HandsOver(m, st, payload);
    NonePendingBeyond(m, q, cur);
    PendingNothing(Mem(m, q), next);
    m', st' := FreshRecord(Mem(m, q), next, w, payload);
  }

  lemma OtherCur(m: Memory, w: nat, payload: seq<byte>, cur: nat)
    requires AreaOf(w) != Nowhere && (cur != w / 32 || AreaOf(w) == Eeprom)
    ensures Emptied(m, w, payload, cur) == Emptied(m, w, payload, 0)
    ensures CurAfter(w, payload, cur) == CurAfter(w, payload, 0)
  {
  }

  /** Any data record, once it is clear how it finds the memories. */
  lemma FoundRecord(m: Memory, st: Prep, w: nat, payload: seq<byte>, cur: nat) returns (m': Memory, st': Prep)
    requires At(st, w, payload) && NoneBeyond(m) && Standing(Located(st), cur) && !Located(st).overflow
    requires Located(st).block == 0 ==> IsFresh(Located(st)) && cur == 0
    requires Storable(Chunk(w, payload))
    ensures Becomes(m, st, m', st', w, payload, cur, CurAfter(w, payload, cur))
  {
    var q := Located(st);
    if AreaOf(w) == Nowhere {
      m' := m;
      st' := NowhereRecord(m, st, w, payload, cur);
    } else if q.block == w / 32 && AreaOf(w) != Eeprom {
      m', st' := SameRecord(m, st, w, payload);
    } else {
      OtherCur(Mem(m, q), w, payload, cur);
      if q.block == 0 {
        m', st' := FreshRecord(m, st, w, payload);
      } else {
        m', st' := HandedRecord(m, st, w, payload, cur);
      }
    }
  }

  /**
   * Any data record that is neither refused nor put over a border: it is stored, after the active
   * block was handed over if it begins another one, and all that is uploaded or pending is as said.
   */
  lemma DataRecord(m: Memory, st: Prep, w: nat, payload: seq<byte>, cur: nat) returns (m': Memory, st': Prep)
    requires Standing(st, cur) && Loaded(st, payload) && WordAddress(st.hiAddress, st.line) == w
    requires NoneBeyond(m) && Storable(Chunk(w, payload))
    ensures Valid(st) && Valid(st') && Leads(m, st, m', st') && NoneBeyond(m')
    ensures !st'.ready && st'.file == st.file && st'.pos == st.pos && st'.hiAddress == st.hiAddress
    ensures var after := Added(Stand(Mem(m, st), cur), Chunk(w, payload));
            Standing(st', after.cur) && Mem(m', st') == after.m
  {
    LocatedStands(m, st, cur);
    m', st' := FoundRecord(m, st, w, payload, Found(Stand(Mem(m, st), cur)).cur);
  }
}
