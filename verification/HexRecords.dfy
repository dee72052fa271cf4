/** What the compiler does with one record is what the record means. */
module HexRecords {
  import opened Bytes
  import opened HexReading
  import opened HexCompiling
  import opened HexMemory
  import opened HexImages
  import opened HexTheorems

  /** The line buffer holds the payload of a data record. */
  predicate Loaded(st: Prep, payload: seq<byte>) {
    && st.ready && |st.line| == SIZE_OF_CODE_LINE_BUFFER
    && |payload| <= 58 && |payload| % 2 == 0
    && st.line[0] == |payload| && st.line[3] == 0 && st.line[4..4 + |payload|] == payload
  }

  /** Whether a step stored the record: nothing but image, block and counters changed. */
  predicate Stored(st: Prep, st': Prep) {
    st' == st.(image := st'.image, block := st'.block, processState := st'.processState, overflow := st'.overflow, ready := false)
  }

  // ---------------------------------------------------------------- flash

  /** How much of a record is kept: the words below the end of the area. */
  lemma KeptWords(w: nat, payload: seq<byte>, max: nat)
    requires w <= max && |payload| < 256 && |payload| % 2 == 0
    ensures var n := Kept(w, |payload|, max);
            && n % 2 == 0 && n <= |payload| && n / 2 == WordsBelow(w, payload, max)
            && forall a :: a in PayloadWords(w, payload, max) <==> Between(w, a, w + n / 2)
  {
  }

  /** The image of a block after a record was stored in it: its words, up to the end of the area. */
  predicate Overlay(before: seq<byte>, image: seq<byte>, w: nat, payload: seq<byte>, max: nat)
    requires |before| == IMAGE_SIZE && |image| == IMAGE_SIZE && w <= max && |payload| < 256
  {
    var k := Kept(w, |payload|, max) / 2;
    2 * k <= |payload| && w % 32 + k <= 32 && Overlaid(before, image, w % 32, payload, k)
  }

  /** A record within a half of a flash block fits its image. */
  lemma HalfFits(w: nat, payload: seq<byte>, max: nat)
    requires w <= max && |payload| < 256 && |payload| % 2 == 0 && WithinHalf(w, payload, max)
    ensures FlashIndex(w) + Kept(w, |payload|, max) <= IMAGE_SIZE
  {
    KeptWords(w, payload, max);
    InHalf(w);
  }

  lemma KeptEven(w: nat, len: byte, max: nat)
    requires w <= max && len % 2 == 0
    ensures Kept(w, len, max) % 2 == 0 && Kept(w, len, max) <= len
  {
  }

  lemma FirstBytes(line: seq<byte>, payload: seq<byte>, n: nat)
    requires n <= |payload| && 4 + |payload| <= |line| && line[4..4 + |payload|] == payload
    ensures line[4..4 + n] == payload[..n]
  {
  }

  lemma StoresFitting(st: Prep, w: nat, max: nat, headed: seq<byte>)
    requires Valid(st) && st.address == w && AreaOf(w) == Flash(max) && (st.block == 0 || st.block == w / 32)
    requires FlashIndex(w) + Kept(w, st.line[0], max) <= IMAGE_SIZE && Kept(w, st.line[0], max) <= 58
    requires |headed| == IMAGE_SIZE && headed == Put(Put(st.image, 0, Word(w / 32 * 32)), 34, Word(w / 32 * 32 + 0x10))
    ensures StoreFlash(st, max) ==
            Continue(st.(image := Put(headed, FlashIndex(w), st.line[4..4 + Kept(w, st.line[0], max)]),
                         block := w / 32, processState := 2, ready := false))
  {
  }

  /** What a record that fits puts into the image, behind the headers of its block. */
  lemma StoredImage(st: Prep, w: nat, payload: seq<byte>, max: nat) returns (image: seq<byte>)
    requires Valid(st) && Loaded(st, payload) && st.address == w && AreaOf(w) == Flash(max)
    requires st.block == 0 || st.block == w / 32
    requires FlashIndex(w) + Kept(w, |payload|, max) <= IMAGE_SIZE
    ensures FlashImage(image, w / 32) && Kept(w, |payload|, max) <= |payload|
    ensures forall x :: 0 <= x < 32 ==> ImageWord(image, x) == ImageWord(st.image, x)
    ensures StoreFlash(st, max) ==
            Continue(st.(image := Put(image, FlashIndex(w), payload[..Kept(w, |payload|, max)]),
                         block := w / 32, processState := 2, ready := false))
  {
    KeptEven(w, |payload|, max);
    image := HeadersPut(st.image, w / 32);
    FirstBytes(st.line, payload, Kept(w, |payload|, max));
    StoresFitting(st, w, max, image);
  }

  /** The image of a block after a flash record is stored in it. */
  lemma FlashStored(st: Prep, w: nat, payload: seq<byte>, max: nat) returns (st': Prep)
    requires Valid(st) && Loaded(st, payload) && st.address == w && AreaOf(w) == Flash(max)
    requires WithinHalf(w, payload, max) && (st.block == 0 || st.block == w / 32) && !st.overflow
    ensures StoreFlash(st, max) == Continue(st') && Stored(st, st')
    ensures st'.block == w / 32 && st'.processState == 2 && FlashImage(st'.image, w / 32) && !st'.overflow
    ensures Overlay(st.image, st'.image, w, payload, max)
  {
    HalfFits(w, payload, max);
    KeptWords(w, payload, max);
    var headed := StoredImage(st, w, payload, max);
    st' := StoreFlash(st, max).st;
    HalfStored(st.image, headed, st'.image, w, payload, max);
  }

  lemma HalfStored(before: seq<byte>, headed: seq<byte>, image: seq<byte>, w: nat, payload: seq<byte>, max: nat)
    requires |before| == IMAGE_SIZE && FlashImage(headed, w / 32) && |payload| < 256 && |payload| % 2 == 0
    requires w <= max && WithinHalf(w, payload, max)
    requires forall x :: 0 <= x < 32 ==> ImageWord(headed, x) == ImageWord(before, x)
    requires Kept(w, |payload|, max) <= |payload| && FlashIndex(w) + Kept(w, |payload|, max) <= IMAGE_SIZE
    requires image == Put(headed, FlashIndex(w), payload[..Kept(w, |payload|, max)])
    ensures FlashImage(image, w / 32) && Overlay(before, image, w, payload, max)
  {
    var n := Kept(w, |payload|, max);
    KeptWords(w, payload, max);
    var image' := WordsPut(headed, w / 32, w, payload[..n]);
    OverlaidThrough(before, headed, image, w % 32, payload, n);
  }

  lemma OverlaidThrough(before: seq<byte>, image1: seq<byte>, image: seq<byte>, j: nat, payload: seq<byte>, n: nat)
    requires |before| == IMAGE_SIZE && |image1| == IMAGE_SIZE && |image| == IMAGE_SIZE && n <= |payload| && n % 2 == 0
    requires forall i :: 0 <= i < 32 ==> ImageWord(image1, i) == ImageWord(before, i)
    requires Overlaid(image1, image, j, payload[..n], n / 2)
    ensures Overlaid(before, image, j, payload, n / 2)
  {
    assert forall i :: 0 <= i < n / 2 ==> PayloadWord(payload[..n], i) == PayloadWord(payload, i);
  }

  /** The words of an open block are the old ones, patched with those of the record. */
  lemma BlockPatched(before: seq<byte>, image: seq<byte>, w: nat, payload: seq<byte>, max: nat)
    requires |before| == IMAGE_SIZE && |image| == IMAGE_SIZE && w <= max && |payload| < 256 && |payload| % 2 == 0
    requires Overlay(before, image, w, payload, max)
    ensures var base := 32 * (w / 32);
            Patched(BlockWords(before, base), BlockWords(image, base), PayloadWords(w, payload, max),
                    base, base + 32, base + 32, ERASED_WORD)
  {
    var base, j, k := 32 * (w / 32), w % 32, Kept(w, |payload|, max) / 2;
    var p := PayloadWords(w, payload, max);
    KeptWords(w, payload, max);
    assert w == base + j;
    forall a | a in BlockWords(image, base)
      ensures BlockWords(image, base)[a] == if a in p then p[a] else BlockWords(before, base)[a]
    {
      var i := a - base;
      assert ImageWord(image, i) == if j <= i < j + k then PayloadWord(payload, i - j) else ImageWord(before, i);
    }
  }

  lemma ErasedWord(j: nat)
    requires j < 32
    ensures ImageWord(Erased(), j) == ERASED_WORD
  {
  }

  /** The words of a block a record is added to. */
  lemma OpenBlock(flash: map<nat, nat>, before: seq<byte>, image: seq<byte>, w: nat, payload: seq<byte>, max: nat)
    requires |before| == IMAGE_SIZE && |image| == IMAGE_SIZE && w <= max && |payload| < 256 && |payload| % 2 == 0
    requires Overlay(before, image, w, payload, max)
    ensures flash + BlockWords(image, 32 * (w / 32)) ==
            FlashAfter(flash + BlockWords(before, 32 * (w / 32)), w, payload, max)
  {
    var base := 32 * (w / 32);
    var p := PayloadWords(w, payload, max);
    BlockPatched(before, image, w, payload, max);
    Patch(flash, BlockWords(before, base), BlockWords(image, base), p, base, base + 32, base + 32, ERASED_WORD);
  }

  lemma ErasedBlock(base: nat)
    ensures BlockWords(Erased(), base) == EmptyWords(base, base + 32)
  {
    forall a: nat | Between(base, a, base + 32)
      ensures BlockWords(Erased(), base)[a] == ERASED_WORD
    {
      ErasedWord(a - base);
    }
  }

  /** The words of a block begun with a record. */
  lemma NewBlock(flash: map<nat, nat>, image: seq<byte>, w: nat, payload: seq<byte>, max: nat)
    requires |image| == IMAGE_SIZE && w <= max && |payload| < 256 && |payload| % 2 == 0
    requires Overlay(Erased(), image, w, payload, max)
    ensures var base := 32 * (w / 32);
            flash + BlockWords(image, base) ==
            FlashAfter(flash + EmptyWords(base, base + 32), w, payload, max)
  {
    ErasedBlock(32 * (w / 32));
    OpenBlock(flash, Erased(), image, w, payload, max);
  }

  /** A record goes into a flash block that is begun with it, and emptied. */
  lemma FlashBegun(m: Memory, st: Prep, w: nat, payload: seq<byte>, max: nat) returns (st': Prep)
    requires Valid(st) && Loaded(st, payload) && st.address == w && AreaOf(w) == Flash(max)
    requires WithinHalf(w, payload, max) && IsFresh(st)
    ensures StoreFlash(st, max) == Continue(st') && Stored(st, st') && Good(st', w / 32)
    ensures var base := 32 * (w / 32);
            Mem(m, st') ==
            m.(flash := FlashAfter(m.flash + EmptyWords(base, base + 32), w, payload, max))
  {
    st' := FlashStored(st, w, payload, max);
    PendingFlash(m, st');
    NewBlock(m.flash, st'.image, w, payload, max);
  }

  /** A record goes into the flash block being worked on. */
  lemma FlashContinued(m: Memory, st: Prep, w: nat, payload: seq<byte>, max: nat) returns (st': Prep)
    requires Valid(st) && Loaded(st, payload) && st.address == w && AreaOf(w) == Flash(max)
    requires WithinHalf(w, payload, max) && Good(st, w / 32) && st.block == w / 32
    ensures StoreFlash(st, max) == Continue(st') && Stored(st, st') && Good(st', w / 32)
    ensures Mem(m, st') == Mem(m, st).(flash := FlashAfter(Mem(m, st).flash, w, payload, max))
  {
    st' := FlashStored(st, w, payload, max);
    PendingFlash(m, st');
    PendingFlash(m, st);
    OpenBlock(m.flash, st.image, st'.image, w, payload, max);
  }

  // ---------------------------------------------------------------- external EEPROM

  function Upper(image: seq<byte>): (cells: seq<byte>)
    requires |image| == IMAGE_SIZE
  {
    image[36..]
  }

  function Lower(image: seq<byte>): (cells: seq<byte>)
    requires |image| == IMAGE_SIZE
  {
    image[2..34]
  }

  /** The image after the low bytes of a record were copied into it from cell j on, and on into the next block. */
  predicate CellsOverlay(before: seq<byte>, image: seq<byte>, j: nat, payload: seq<byte>)
    requires |before| == IMAGE_SIZE && |image| == IMAGE_SIZE && j < 32 && |payload| <= 58 && |payload| % 2 == 0
  {
    var n := |payload| / 2;
    && image[..2] == before[..2] && image[34..36] == before[34..36]
    && (forall c :: 0 <= c < 32 ==>
          Upper(image)[c] == if j <= c < j + n then PayloadByte(payload, c - j) else Upper(before)[c])
    && (forall c :: 0 <= c < 32 ==>
          Lower(image)[c] == if c + 32 < j + n then PayloadByte(payload, c + 32 - j) else Lower(before)[c])
  }

  lemma CellsCopied(before: seq<byte>, line: seq<byte>, j: nat, payload: seq<byte>) returns (image: seq<byte>)
    requires |before| == IMAGE_SIZE && j < 32 && |payload| <= 58 && |payload| % 2 == 0
    requires |line| == SIZE_OF_CODE_LINE_BUFFER && line[4..4 + |payload|] == payload
    ensures image == CopyEveryOther(before, j + 36, line, 0, |payload| / 2)
    ensures CellsOverlay(before, image, j, payload)
  {
    var n := |payload| / 2;
    image := CopyEveryOther(before, j + 36, line, 0, n);
    assert forall i :: 0 <= i < |payload| ==> payload[i] == line[i + 4];
    forall i | 0 <= i < IMAGE_SIZE
      ensures image[i] == if j + 36 <= i < j + 36 + n then line[2 * (i - j - 36) + 4]
                          else if 2 <= i < 2 + (j + n - 32) then line[2 * (i - 2 + (32 - j)) + 4]
                          else before[i]
    {
      Copied(before, j + 36, line, 0, n, i);
    }
    forall c | 0 <= c < 32
      ensures Upper(image)[c] == if j <= c < j + n then PayloadByte(payload, c - j) else Upper(before)[c]
    {
      assert Upper(image)[c] == image[36 + c] && Upper(before)[c] == before[36 + c];
      assert j <= c < j + n ==> payload[2 * (c - j)] == line[2 * (c - j) + 4];
    }
    forall c | 0 <= c < 32
      ensures Lower(image)[c] == if c + 32 < j + n then PayloadByte(payload, c + 32 - j) else Lower(before)[c]
    {
      assert Lower(image)[c] == image[2 + c] && Lower(before)[c] == before[2 + c];
      assert c + 32 < j + n ==> payload[2 * (c + 32 - j)] == line[2 * (c + 32 - j) + 4];
    }
    assert image[..2] == before[..2] && image[34..36] == before[34..36];
  }

  /** The cells of the two halves, as one stretch. */
  function BothCells(image: seq<byte>, base: int): (m: map<nat, byte>)
    requires |image| == IMAGE_SIZE
  {
    Cells(Upper(image), base) + Cells(Lower(image), base + 32)
  }

  /** Within its block, a record changes the cells of the block only. */
  lemma CellsPatched(before: seq<byte>, image: seq<byte>, base: nat, j: nat, payload: seq<byte>)
    requires |before| == IMAGE_SIZE && |image| == IMAGE_SIZE && |payload| <= 58 && |payload| % 2 == 0
    requires j < 32 && CellsOverlay(before, image, j, payload) && j + |payload| / 2 <= 32
    ensures Patched(Cells(Upper(before), base), Cells(Upper(image), base), PayloadBytes(base + j, payload),
                    base, base + 32, base + 32, 0)
  {
    var n := |payload| / 2;
    var p := PayloadBytes(base + j, payload);
    forall a | a in Cells(Upper(image), base)
      ensures Cells(Upper(image), base)[a] == if a in p then p[a] else Cells(Upper(before), base)[a]
    {
      var c := a - base;
      assert Upper(image)[c] == if j <= c < j + n then PayloadByte(payload, c - j) else Upper(before)[c];
    }
  }

  /** The cells of an open block, and the next one, emptied. */
  function NextEmptied(cells: map<nat, byte>, base: nat): (cells': map<nat, byte>) {
    cells + EmptyCells(base + 32, base + 64)
  }

  /** Running over, it fills up the block and begins the next one, which is empty but for it. */
  lemma CellsPatchedOver(before: seq<byte>, image: seq<byte>, base: nat, j: nat, payload: seq<byte>)
    requires |before| == IMAGE_SIZE && |image| == IMAGE_SIZE && |payload| <= 58 && |payload| % 2 == 0
    requires j < 32 && CellsOverlay(before, image, j, payload) && j + |payload| / 2 > 32 && Lower(before) == Zeros(32)
    ensures Patched(NextEmptied(Cells(Upper(before), base), base), BothCells(image, base), PayloadBytes(base + j, payload),
                    base, base + 64, base + 64, 0)
  {
    var p := PayloadBytes(base + j, payload);
    var old_, after := NextEmptied(Cells(Upper(before), base), base), BothCells(image, base);
    BothKeys(before, image, base);
    assert p.Keys <= Range(base, base + 64);
    forall a | a in after
      ensures after[a] == if a in p then p[a] else old_[a]
    {
      CellPatchedOver(before, image, base, j, payload, a);
    }
  }

  lemma BothKeys(before: seq<byte>, image: seq<byte>, base: nat)
    requires |before| == IMAGE_SIZE && |image| == IMAGE_SIZE
    ensures NextEmptied(Cells(Upper(before), base), base).Keys == Range(base, base + 64) == BothCells(image, base).Keys
  {
  }

  lemma CellPatchedOver(before: seq<byte>, image: seq<byte>, base: nat, j: nat, payload: seq<byte>, a: nat)
    requires |before| == IMAGE_SIZE && |image| == IMAGE_SIZE && |payload| <= 58 && |payload| % 2 == 0
    requires j < 32 && CellsOverlay(before, image, j, payload) && j + |payload| / 2 > 32 && Lower(before) == Zeros(32)
    requires base <= a < base + 64
    ensures a in BothCells(image, base) && a in NextEmptied(Cells(Upper(before), base), base)
    ensures BothCells(image, base)[a] ==
            if base + j <= a < base + j + |payload| / 2 then PayloadByte(payload, a - base - j)
            else NextEmptied(Cells(Upper(before), base), base)[a]
  {
    var c, n := a - base, |payload| / 2;
    if c < 32 {
      assert Upper(image)[c] == if j <= c < j + n then PayloadByte(payload, c - j) else Upper(before)[c];
    } else {
      assert Lower(image)[c - 32] == if c < j + n then PayloadByte(payload, c - j) else Lower(before)[c - 32];
    }
  }

  /** The cells after a record within an open block. */
  lemma CellsAfter(cells: map<nat, byte>, before: seq<byte>, image: seq<byte>, base: nat, j: nat, payload: seq<byte>)
    requires |before| == IMAGE_SIZE && |image| == IMAGE_SIZE && |payload| <= 58 && |payload| % 2 == 0
    requires j < 32 && CellsOverlay(before, image, j, payload) && j + |payload| / 2 <= 32
    ensures cells + Cells(image[36..], base) == EeepromAfter(cells + Cells(before[36..], base), base, j, payload)
  {
    CellsPatched(before, image, base, j, payload);
    Patch(cells, Cells(Upper(before), base), Cells(Upper(image), base), PayloadBytes(base + j, payload),
          base, base + 32, base + 32, 0);
  }

  /** The cells after a record that runs over an open block. */
  lemma CellsAfterOver(cells: map<nat, byte>, before: seq<byte>, image: seq<byte>, base: nat, j: nat, payload: seq<byte>)
    requires |before| == IMAGE_SIZE && |image| == IMAGE_SIZE && |payload| <= 58 && |payload| % 2 == 0
    requires j < 32 && CellsOverlay(before, image, j, payload) && j + |payload| / 2 > 32 && Lower(before) == Zeros(32)
    ensures cells + BothCells(image, base) ==
            EeepromAfter(NextEmptied(cells + Cells(before[36..], base), base), base, j, payload)
  {
    CellsPatchedOver(before, image, base, j, payload);
    Patch(cells, NextEmptied(Cells(Upper(before), base), base), BothCells(image, base), PayloadBytes(base + j, payload),
          base, base + 64, base + 64, 0);
    MapsJoin(cells, Cells(Upper(before), base), EmptyCells(base + 32, base + 64));
  }

  lemma HeadersKept(before: seq<byte>, image: seq<byte>, j: nat, payload: seq<byte>)
    requires |before| == IMAGE_SIZE && |image| == IMAGE_SIZE && j < 32 && |payload| <= 58 && |payload| % 2 == 0
    requires CellsOverlay(before, image, j, payload)
    ensures Number(image[0], image[1]) == Number(before[0], before[1])
    ensures Number(image[34], image[35]) == Number(before[34], before[35])
  {
    assert image[0] == image[..2][0] && image[1] == image[..2][1];
    assert image[34] == image[34..36][0] && image[35] == image[34..36][1];
  }

  lemma LowerKept(before: seq<byte>, image: seq<byte>, j: nat, payload: seq<byte>)
    requires |before| == IMAGE_SIZE && |image| == IMAGE_SIZE && j < 32 && |payload| <= 58 && |payload| % 2 == 0
    requires CellsOverlay(before, image, j, payload) && j + |payload| / 2 <= 32
    ensures image[2..34] == before[2..34]
  {
    assert Lower(image) == Lower(before);
  }

  /** A record of the external EEPROM is stored in the block being worked on. */
  lemma EeepromStored(st: Prep, w: nat, payload: seq<byte>) returns (st': Prep)
    requires Valid(st) && Loaded(st, payload) && st.address == w && AreaOf(w) == Eeeprom
    requires Good(st, w / 32) && st.block == w / 32
    ensures st' == st.(image := st'.image, ready := false, overflow := RunsOver(w, payload)) && Valid(st')
    ensures StoreEeeprom(st) == if RunsOver(w, payload) then Return(EeepromReady, st') else Continue(st')
    ensures CellsOverlay(st.image, st'.image, w % 32, payload)
    ensures Number(st'.image[0], st'.image[1]) == EeepromBase(w / 32) + 32
    ensures Number(st'.image[34], st'.image[35]) == EeepromBase(w / 32)
    ensures !RunsOver(w, payload) ==> EeepromImage(st'.image, w / 32)
  {
    var image := CellsCopied(st.image, st.line, w % 32, payload);
    HeadersKept(st.image, image, w % 32, payload);
    if !RunsOver(w, payload) {
      LowerKept(st.image, image, w % 32, payload);
    }
    st' := st.(image := image, ready := false, overflow := RunsOver(w, payload));
  }

  /** Without running over, the cells of the block are those the record means. */
  lemma StoredWithin(st: Prep, w: nat, payload: seq<byte>, cells: map<nat, byte>) returns (st': Prep)
    requires Valid(st) && Loaded(st, payload) && st.address == w && AreaOf(w) == Eeeprom
    requires Good(st, w / 32) && st.block == w / 32 && !RunsOver(w, payload)
    ensures StoreEeeprom(st) == Continue(st') && st' == st.(image := st'.image, ready := false)
    ensures Valid(st') && EeepromImage(st'.image, w / 32)
    ensures var base := EeepromBase(w / 32);
            cells + Cells(st'.image[36..], base) ==
            EeepromAfter(cells + Cells(st.image[36..], base), base, w % 32, payload)
  {
    st' := EeepromStored(st, w, payload);
    CellsAfter(cells, st.image, st'.image, EeepromBase(w / 32), w % 32, payload);
  }

  /** Running over, the cells of the block and of the next one are those the record means. */
  lemma StoredOver(st: Prep, w: nat, payload: seq<byte>, cells: map<nat, byte>) returns (st': Prep)
    requires Valid(st) && Loaded(st, payload) && st.address == w && AreaOf(w) == Eeeprom
    requires Good(st, w / 32) && st.block == w / 32 && RunsOver(w, payload)
    ensures StoreEeeprom(st) == Return(EeepromReady, st')
    ensures st' == st.(image := st'.image, ready := false, overflow := true) && Valid(st')
    ensures Number(st'.image[0], st'.image[1]) == EeepromBase(w / 32) + 32
    ensures Number(st'.image[34], st'.image[35]) == EeepromBase(w / 32)
    ensures var base := EeepromBase(w / 32);
            cells + BothCells(st'.image, base) ==
            EeepromAfter(NextEmptied(cells + Cells(st.image[36..], base), base), base, w % 32, payload)
  {
    st' := EeepromStored(st, w, payload);
    CellsAfterOver(cells, st.image, st'.image, EeepromBase(w / 32), w % 32, payload);
  }

  /** A record goes into the block being worked on. */
  lemma EeepromContinued(m: Memory, st: Prep, w: nat, payload: seq<byte>) returns (st': Prep)
    requires Valid(st) && Loaded(st, payload) && st.address == w && AreaOf(w) == Eeeprom
    requires Good(st, w / 32) && st.block == w / 32 && !RunsOver(w, payload)
    ensures StoreEeeprom(st) == Continue(st') && Stored(st, st') && Good(st', w / 32)
    ensures Mem(m, st') == Mem(m, st).(eeeprom := EeepromAfter(Mem(m, st).eeeprom, EeepromBase(w / 32), w % 32, payload))
  {
    st' := StoredWithin(st, w, payload, m.eeeprom);
    PendingEeeprom(m, st);
    PendingEeeprom(m, st');
  }

  /** What is written when a block with an overflow is uploaded and the overflow later on. */
  lemma OverflowWritten(m: Memory, st': Prep, next: Prep, block: nat)
    requires Valid(st') && st'.overflow && st'.processState == 1 && 16 <= block < BEYOND
    requires Number(st'.image[0], st'.image[1]) == EeepromBase(block) + 32
    requires Number(st'.image[34], st'.image[35]) == EeepromBase(block)
    requires next == Begin(Uploaded(EeepromReady, st'))
    ensures Good(next, block + 1)
    ensures Mem(ReplayAll(m, Uploads(EeepromReady, st')), next) ==
            m.(eeeprom := m.eeeprom + BothCells(st'.image, EeepromBase(block)))
  {
    OneUpload(st');
    EeepromLogWrites(m, st'.image, EeepromBase(block));
    PendingOverflow(ReplayAll(m, Uploads(EeepromReady, st')), next, block + 1);
    MapsJoin(m.eeeprom, Cells(Upper(st'.image), EeepromBase(block)), Cells(Lower(st'.image), EeepromBase(block) + 32));
  }

  /** A record ran over the end of its block, which is handed over; the overflow is what the next call works on. */
  predicate Ran(st: Prep, done: Prep, next: Prep, w: nat) {
    && Valid(st) && Valid(done) && AreaOf(w) == Eeeprom && st.address == w
    && StoreEeeprom(st) == Return(EeepromReady, done) && next == Begin(Uploaded(EeepromReady, done))
    && Stored(st, next) && Good(next, w / 32 + 1)
    && done.processState == 1 && Number(done.image[34], done.image[35]) == EeepromBase(w / 32)
  }

  /**
   * A record runs over the end of the block being worked on: the block is uploaded, and the overflow
   * is what the next call works on; the next block is emptied first.
   */
  lemma EeepromRunsOver(m: Memory, st: Prep, w: nat, payload: seq<byte>) returns (st': Prep, next: Prep)
    requires Valid(st) && Loaded(st, payload) && st.address == w && AreaOf(w) == Eeeprom
    requires Good(st, w / 32) && st.block == w / 32 && RunsOver(w, payload)
    ensures Ran(st, st', next, w)
    ensures Mem(ReplayAll(m, Uploads(EeepromReady, st')), next) ==
            Mem(m, st).(eeeprom := EeepromAfter(NextEmptied(Mem(m, st).eeeprom, EeepromBase(w / 32)),
                                                EeepromBase(w / 32), w % 32, payload))
  {
    st' := StoredOver(st, w, payload, m.eeeprom);
    next := Begin(Uploaded(EeepromReady, st'));
    PendingEeeprom(m, st);
    OverflowWritten(m, st', next, w / 32);
  }

  /** A fresh state opens the block of the record, empty. */
  lemma OpensEmpty(st: Prep, w: nat, payload: seq<byte>) returns (st1: Prep)
    requires Valid(st) && IsFresh(st) && Loaded(st, payload) && st.address == w && AreaOf(w) == Eeeprom
    ensures st1 == OpenEeeprom(st) && StoreEeeprom(st) == StoreEeeprom(st1)
    ensures Good(st1, w / 32) && st1.block == w / 32 && Loaded(st1, payload) && st1.address == w
    ensures st1.image[36..] == Zeros(32)
  {
    st1 := OpenEeeprom(st);
    Opened(st);
  }

  lemma OpenedPending(m: Memory, st1: Prep, w: nat)
    requires Good(st1, w / 32) && st1.block == w / 32 && AreaOf(w) == Eeeprom && st1.image[36..] == Zeros(32)
    ensures Mem(m, st1) == m.(eeeprom := m.eeeprom + Cells(Zeros(32), EeepromBase(w / 32)))
  {
    PendingEeeprom(m, st1);
  }

  lemma ZeroCells(base: nat)
    ensures Cells(Zeros(32), base) == EmptyCells(base, base + 32)
  {
  }

  // ---------------------------------------------------------------- internal EEPROM

  lemma EepromPacket(image: seq<byte>, w: nat, payload: seq<byte>)
    requires |image| == IMAGE_SIZE && AreaOf(w) == Eeprom && |payload| <= 58 && |payload| % 2 == 0
    requires image[0] == w % 256 && image[1] == |payload| / 2
    requires forall i :: 0 <= i < |payload| / 2 ==> image[2..][i] == PayloadByte(payload, i)
    ensures PacketBytes(EepromUpload(image).data) == PayloadBytes(w - PIC_EEPROM_MIN, payload)
  {
    var n := |payload| / 2;
    var data := EepromUpload(image).data;
    assert |data| == n + 2;
    var base := w - PIC_EEPROM_MIN;
    assert Number(data[0], data[1]) == base;
    assert forall i :: 0 <= i < n ==> data[i + 2] == image[2..][i];
    forall a | a in PacketBytes(data)
      ensures PacketBytes(data)[a] == PayloadByte(payload, a - base)
    {
      assert data[a - base + 2] == image[2..][a - base];
    }
  }

  /** A record of the internal EEPROM is uploaded at once. */
  lemma EepromWritten(m: Memory, st: Prep, w: nat, payload: seq<byte>) returns (st': Prep, next: Prep)
    requires Valid(st) && Loaded(st, payload) && st.address == w && AreaOf(w) == Eeprom && IsFresh(st)
    requires w + |payload| / 2 <= PIC_EEPROM_MAX
    ensures StoreEeprom(st) == Return(EepromReady, st') && next == Begin(Uploaded(EepromReady, st'))
    ensures Valid(st') && Valid(next) && Stored(st, next) && IsFresh(next)
    ensures ReplayAll(m, Uploads(EepromReady, st')) ==
            m.(eeprom := m.eeprom + PayloadBytes(w - PIC_EEPROM_MIN, payload))
  {
    var n := |payload| / 2;
    st' := StoreEeprom(st).st;
    var image := st'.image;
    var low := LowBytes(st.line, n);
    next := Begin(Uploaded(EepromReady, st'));
    assert forall i :: 0 <= i < |payload| ==> payload[i] == st.line[i + 4] by {
      assert st.line[4..4 + |payload|] == payload;
    }
    forall i | 0 <= i < n
      ensures image[2..][i] == PayloadByte(payload, i)
    {
      assert image[2..][i] == image[i + 2] == low[i];
    }
    EepromPacket(image, w, payload);
    assert Uploads(EepromReady, AfterUpload(EepromReady, st')) == [];
    var u := EepromUpload(image);
    assert Uploads(EepromReady, st') == [u];
    assert [u][1..] == [];
    assert ReplayAll(m, [u]) == Replay(m, u);
  }
}
