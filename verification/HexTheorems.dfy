/** The uploads of a HEX file write exactly what the file means. */
module HexTheorems {
  import opened Bytes
  import opened HexCompiling
  import opened Uploading
  import opened HexMemory
  import opened HexImages

  // ---------------------------------------------------------------- what a state still has to upload

  /** The uploads of the active block, or of an overflow, if they were handed over now. */
  ghost function Pending(st: Prep): (log: seq<Upload>)
    requires Valid(st)
  {
    if st.block != 0 then Uploads(if st.block < 80 then EeepromReady else FlashReady, st)
    else if st.overflow then Uploads(EeepromReady, MoveOverflow(st))
    else []
  }

  /** The memories after the uploads so far, which gave m, and the pending ones. */
  ghost function Mem(m: Memory, st: Prep): (m': Memory)
    requires Valid(st)
  {
    ReplayAll(m, Pending(st))
  }

  predicate IsFresh(st: Prep) {
    st.block == 0 && !st.overflow && st.image == Erased()
  }

  /** A state between records; cur is the block worked on, 0 for none. */
  predicate Good(st: Prep, cur: nat) {
    && Valid(st)
    && if st.block != 0 then
         && cur == st.block && !st.overflow
         && if st.block < 80 then EeepromImage(st.image, cur) && st.processState == 1
            else FlashImage(st.image, cur) && st.processState == 2
       else if st.overflow then OverflowImage(st.image, cur)
       else cur == 0 && st.image == Erased()
  }

  /** What ran past the end of the external EEPROM, once it is taken for a flash block. */
  predicate Misplaced(st: Prep) {
    Valid(st) && st.block == BEYOND && !st.overflow && st.processState == 1 && EeepromImage(st.image, BEYOND)
  }

  /** Any state between records. */
  predicate Standing(st: Prep, cur: nat) {
    Good(st, cur) || (cur == 0 && Misplaced(st))
  }

  lemma OneUpload(st: Prep)
    requires Valid(st) && st.processState == 1
    ensures Uploads(EeepromReady, st) == [Upload(TARGET_EEEPROM_W, st.image[34..])]
  {
    assert Uploads(EeepromReady, st.(processState := 0)) == [];
  }

  lemma TwoUploads(st: Prep)
    requires Valid(st) && st.processState == 2
    ensures Uploads(FlashReady, st) == FlashLog(st.image)
  {
    var st1 := st.(processState := 1);
    assert Uploads(FlashReady, st.(processState := 0)) == [];
    assert Uploads(FlashReady, st1) == [Upload(TARGET_FLASH_W, st.image[34..])];
  }

  // What a state has pending, as words and cells.

  lemma PendingFlash(m: Memory, st: Prep)
    requires Valid(st) && st.block >= 80 && FlashImage(st.image, st.block) && st.processState == 2
    ensures Mem(m, st) == m.(flash := m.flash + BlockWords(st.image, 32 * st.block))
  {
    TwoUploads(st);
    FlashLogWrites(m, st.image, st.block);
  }

  lemma PendingEeeprom(m: Memory, st: Prep)
    requires Valid(st) && 0 < st.block < 80 && EeepromImage(st.image, st.block) && st.processState == 1
    ensures Mem(m, st) == m.(eeeprom := m.eeeprom + Cells(st.image[36..], EeepromBase(st.block)))
  {
    OneUpload(st);
    EeepromLogWrites(m, st.image, EeepromBase(st.block));
  }

  lemma PendingOverflow(m: Memory, st: Prep, cur: nat)
    requires Valid(st) && st.block == 0 && st.overflow && OverflowImage(st.image, cur)
    ensures Mem(m, st) == m.(eeeprom := m.eeeprom + Cells(st.image[2..34], EeepromBase(cur)))
  {
    Moved(st, cur);
    var st' := MoveOverflow(st);
    OneUpload(st');
    EeepromLogWrites(m, st'.image, EeepromBase(cur));
    assert st'.image[36..] == st'.image[34..][2..] == st.image[..34][2..] == st.image[2..34];
  }

  lemma PacketPair(data: seq<byte>, base: nat, i: nat)
    requires |data| == 34 && i < 16
    ensures PacketWord(data, i) == PairAt(Cells(data[2..], base), base, base + i)
  {
    assert data[2..][2 * i] == data[2 * i + 2] && data[2..][2 * i + 1] == data[2 * i + 3];
  }

  lemma PacketPairAt(data: seq<byte>, base: nat, a: nat)
    requires |data| == 34 && Number(data[0], data[1]) == base
    ensures Lookup(PacketWords(data), a) == Lookup(PairWords(Cells(data[2..], base), base), a)
  {
    PacketReads(data, base, a);
    PairReads(Cells(data[2..], base), base, a);
    if Between(base, a, base + 16) {
      PacketPair(data, base, a - base);
    }
  }

  lemma PacketPairs(data: seq<byte>, base: nat)
    requires |data| == 34 && Number(data[0], data[1]) == base
    ensures PacketWords(data) == PairWords(Cells(data[2..], base), base)
  {
    forall a: nat
      ensures Lookup(PacketWords(data), a) == Lookup(PairWords(Cells(data[2..], base), base), a)
    {
      PacketPairAt(data, base, a);
    }
    MapsAgree(PacketWords(data), PairWords(Cells(data[2..], base), base));
  }

  lemma PendingMisplaced(m: Memory, st: Prep)
    requires Misplaced(st)
    ensures Mem(m, st) == m.(flash := m.flash + PairWords(Cells(st.image[36..], BEYOND_ADR), BEYOND_ADR))
  {
    var data := st.image[34..];
    var log := [Upload(TARGET_FLASH_W, data)];
    assert Uploads(FlashReady, st.(processState := 0)) == [];
    assert Uploads(FlashReady, st) == log;
    PacketPairs(data, BEYOND_ADR);
    assert data[2..] == st.image[36..] && log[1..] == [];
    assert ReplayAll(m, log) == Replay(m, log[0]);
  }

  lemma PendingNothing(m: Memory, st: Prep)
    requires Valid(st) && st.block == 0 && !st.overflow
    ensures Mem(m, st) == m
  {
  }

  // ---------------------------------------------------------------- steps of the program

  /** The uploads still to come from inside a call, and the last code. */
  ghost function DriveLoop(st: Prep): (r: (seq<Upload>, Code))
    requires Valid(st)
  {
    var (code, st1) := Loop(st);
    if !IsReady(code) then ([], code)
    else
      var more := Drive(Uploaded(code, st1));
      (Uploads(code, st1) + more.0, more.1)
  }

  lemma StepFetch(st: Prep)
    requires Valid(st) && Fetch(st).Continue?
    ensures DriveLoop(st) == DriveLoop(Fetch(st).st)
  {
    assert Fetch(Fetch(st).st) == Fetch(st);
  }

  lemma StepContinue(st: Prep)
    requires Valid(st) && st.ready && Process(st).Continue?
    ensures DriveLoop(st) == DriveLoop(Process(st).st)
  {
    ProcessProgress(st);
  }

  /** A block handed over is uploaded, and the next call begins. */
  lemma StepReturn(st: Prep, m: Memory)
    requires Valid(st) && st.ready && Process(st).Return? && IsReady(Process(st).code)
    ensures var o := Process(st);
            var next := Begin(Uploaded(o.code, o.st));
            && DriveLoop(st).0 == Uploads(o.code, o.st) + DriveLoop(next).0
            && DriveLoop(st).1 == DriveLoop(next).1
            && ReplayAll(m, DriveLoop(st).0) == ReplayAll(ReplayAll(m, Uploads(o.code, o.st)), DriveLoop(next).0)
  {
    var o := Process(st);
    ReplayJoin(m, Uploads(o.code, o.st), DriveLoop(Begin(Uploaded(o.code, o.st))).0);
  }

  // ---------------------------------------------------------------- maps

  /**
   * after is the cells from base to top: those of p where it has some, up to mid as in before
   * otherwise, and v from there on.
   */
  ghost predicate Patched<T>(before: map<nat, T>, after: map<nat, T>, p: map<nat, T>, base: int, mid: int, top: int, v: T) {
    && base <= mid <= top
    && before.Keys == Range(base, mid) && after.Keys == Range(base, top) && p.Keys <= Range(base, top)
    && forall a :: a in after ==> after[a] == if a in p then p[a] else if a in before then before[a] else v
  }

  /** Patching cells of which those from mid on are not there yet. */
  lemma Patch<T>(m: map<nat, T>, before: map<nat, T>, after: map<nat, T>, p: map<nat, T>, base: int, mid: int,
                 top: int, v: T)
    requires Patched(before, after, p, base, mid, top, v) && Absent(m, mid, top)
    ensures m + after == Overwritten(m + before, p, base, top, v)
  {
  }
}
