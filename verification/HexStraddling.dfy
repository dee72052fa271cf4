/** Flash records over the border between the halves of a block: exactly when they still write what they mean. */
module HexStraddling {
  import opened Bytes
  import opened HexCompiling
  import opened Uploading
  import opened Wrappers
  import opened HexMemory
  import opened HexImages
  import opened HexTheorems
  import opened HexRecords
  import opened HexReading
  import opened HexCorrectness
  import opened HexFiles
  import opened HexContents
  import opened HexLimits

  /** The record lies over the border, and the image has room for it. */
  predicate Straddles(w: nat, k: nat) {
    w % 32 < 16 < w % 32 + k <= 33
  }

  /** Address of the second half of the block of w. */
  function Border(w: nat): (a: nat) {
    32 * (w / 32) + 16
  }

  // ---------------------------------------------------------------- the image

  /**
   * What becomes of the image: the word at the border takes the place of the second header, and those
   * behind it end up one place too early.
   */
  predicate Slipped(before: seq<byte>, image: seq<byte>, w: nat, payload: seq<byte>, k: nat)
    requires |before| == IMAGE_SIZE && |image| == IMAGE_SIZE && Straddles(w, k) && 2 * k <= |payload|
  {
    var j := w % 32;
    && Number(image[0], image[1]) == 32 * (w / 32)
    && Number(image[34], image[35]) == PayloadWord(payload, 16 - j)
    && (forall x :: 0 <= x < 16 ==>
          ImageWord(image, x) == if j <= x then PayloadWord(payload, x - j) else ImageWord(before, x))
    && (forall x :: 16 <= x < 32 ==>
          ImageWord(image, x) == if x + 1 < j + k then PayloadWord(payload, x + 1 - j) else ImageWord(before, x))
  }

  /** Word x of the image, when the record was put into it. */
  lemma WordPut(headed: seq<byte>, w: nat, payload: seq<byte>, k: nat, x: nat)
    requires |headed| == IMAGE_SIZE && Straddles(w, k) && 2 * k <= |payload| && x < 32
    ensures FlashIndex(w) == 2 * (w % 32) + 2 && FlashIndex(w) + 2 * k <= IMAGE_SIZE
    ensures var i := if x < 16 then x - w % 32 else x + 1 - w % 32;
            ImageWord(Put(headed, FlashIndex(w), payload[..2 * k]), x) ==
            if 0 <= i < k then PayloadWord(payload, i) else ImageWord(headed, x)
  {
    PutReads(headed, FlashIndex(w), payload[..2 * k], Place(x));
    PutReads(headed, FlashIndex(w), payload[..2 * k], Place(x) + 1);
  }

  /** The first header stays; in the place of the second one is the word at the border. */
  lemma HeadersSlip(headed: seq<byte>, w: nat, payload: seq<byte>, k: nat)
    requires FlashImage(headed, w / 32) && Straddles(w, k) && 2 * k <= |payload|
    ensures FlashIndex(w) + 2 * k <= IMAGE_SIZE
    ensures var image := Put(headed, FlashIndex(w), payload[..2 * k]);
            && Number(image[0], image[1]) == 32 * (w / 32)
            && Number(image[34], image[35]) == PayloadWord(payload, 16 - w % 32)
  {
    WordPut(headed, w, payload, k, 0);
    var dest, bytes := FlashIndex(w), payload[..2 * k];
    PutReads(headed, dest, bytes, 0);
    PutReads(headed, dest, bytes, 1);
    PutReads(headed, dest, bytes, 34);
    PutReads(headed, dest, bytes, 35);
  }

  lemma StraddlerSlips(before: seq<byte>, headed: seq<byte>, w: nat, payload: seq<byte>, k: nat)
    requires |before| == IMAGE_SIZE && FlashImage(headed, w / 32) && Straddles(w, k) && 2 * k <= |payload|
    requires forall x :: 0 <= x < 32 ==> ImageWord(headed, x) == ImageWord(before, x)
    ensures FlashIndex(w) + 2 * k <= IMAGE_SIZE
    ensures Slipped(before, Put(headed, FlashIndex(w), payload[..2 * k]), w, payload, k)
  {
    var j := w % 32;
    HeadersSlip(headed, w, payload, k);
    var image := Put(headed, FlashIndex(w), payload[..2 * k]);
    forall x | 0 <= x < 16
      ensures ImageWord(image, x) == if j <= x then PayloadWord(payload, x - j) else ImageWord(before, x)
    {
      WordPut(headed, w, payload, k, x);
    }
    forall x | 16 <= x < 32
      ensures ImageWord(image, x) == if x + 1 < j + k then PayloadWord(payload, x + 1 - j) else ImageWord(before, x)
    {
      WordPut(headed, w, payload, k, x);
    }
  }

  // ---------------------------------------------------------------- the memory

  /** The flash after the two packets of an image, whatever their headers say. */
  function AfterPackets(flash: map<nat, nat>, image: seq<byte>): (flash': map<nat, nat>)
    requires |image| == IMAGE_SIZE
  {
    flash + PacketWords(image[..34]) + PacketWords(image[34..])
  }

  lemma PendingPackets(m: Memory, st: Prep)
    requires Valid(st) && st.block >= 80 && st.processState == 2
    ensures Mem(m, st) == m.(flash := AfterPackets(m.flash, st.image))
  {
    TwoUploads(st);
    ReplayTwo(m, Upload(TARGET_FLASH_W, st.image[..34]), Upload(TARGET_FLASH_W, st.image[34..]));
  }

  /** The flash after the packets, address by address. */
  function PacketsAt(flash: map<nat, nat>, image: seq<byte>, base: nat, second: nat, a: nat): (n: Option<nat>)
    requires |image| == IMAGE_SIZE
  {
    if Between(second, a, second + 16) then Some(ImageWord(image, 16 + a - second))
    else if Between(base, a, base + 16) then Some(ImageWord(image, a - base))
    else Lookup(flash, a)
  }

  /** What a record of k words means for a block not written before, address by address. */
  function MeantAt(flash: map<nat, nat>, before: seq<byte>, w: nat, payload: seq<byte>, k: nat, a: nat): (n: Option<nat>)
    requires |before| == IMAGE_SIZE && 2 * k <= |payload|
  {
    var base := 32 * (w / 32);
    if Between(w, a, w + k) then Some(PayloadWord(payload, a - w))
    else if Between(base, a, base + 32) then Some(ImageWord(before, a - base))
    else Lookup(flash, a)
  }

  /** The packets are the halves of the image. */
  lemma PacketsOf(image: seq<byte>, i: nat)
    requires |image| == IMAGE_SIZE && i < 16
    ensures PacketWord(image[..34], i) == ImageWord(image, i) && PacketWord(image[34..], i) == ImageWord(image, 16 + i)
  {
    var one, two := image[..34], image[34..];
    assert one[2 * i + 2] == image[2 * i + 2] && one[2 * i + 3] == image[2 * i + 3];
    assert two[2 * i + 2] == image[2 * i + 36] && two[2 * i + 3] == image[2 * i + 37];
  }

  lemma PacketsRead(flash: map<nat, nat>, image: seq<byte>, base: nat, second: nat, a: nat)
    requires |image| == IMAGE_SIZE && Number(image[0], image[1]) == base && Number(image[34], image[35]) == second
    ensures Lookup(AfterPackets(flash, image), a) == PacketsAt(flash, image, base, second, a)
  {
    var one, two := image[..34], image[34..];
    assert one[0] == image[0] && one[1] == image[1] && two[0] == image[34] && two[1] == image[35];
    PacketReads(one, base, a);
    PacketReads(two, second, a);
    if Between(second, a, second + 16) {
      PacketsOf(image, a - second);
    }
    if Between(base, a, base + 16) {
      PacketsOf(image, a - base);
    }
    LookupJoin(flash + PacketWords(one), PacketWords(two), a);
    LookupJoin(flash, PacketWords(one), a);
  }

  lemma LookupJoin(f: map<nat, nat>, g: map<nat, nat>, a: nat)
    ensures Lookup(f + g, a) == if Lookup(g, a) == None then Lookup(f, a) else Lookup(g, a)
  {
  }

  /** The flash before: without the block, or with the words of its image. */
  ghost predicate Opened(flash: map<nat, nat>, pending: map<nat, nat>, before: seq<byte>, w: nat)
    requires |before| == IMAGE_SIZE
  {
    && Absent(flash, 32 * (w / 32), 32 * (w / 32) + 32)
    && ((before == Erased() && pending == flash) || pending == flash + BlockWords(before, 32 * (w / 32)))
  }

  /** What is there before, at a. */
  lemma OpenedReads(flash: map<nat, nat>, pending: map<nat, nat>, before: seq<byte>, w: nat, a: nat)
    requires |before| == IMAGE_SIZE && Opened(flash, pending, before, w)
    ensures var base := 32 * (w / 32);
            if Between(base, a, base + 32) then
              && (Lookup(pending, a) == None || Lookup(pending, a) == Some(ImageWord(before, a - base)))
              && (Lookup(pending, a) == None ==> ImageWord(before, a - base) == ERASED_WORD)
            else Lookup(pending, a) == Lookup(flash, a)
  {
    var base := 32 * (w / 32);
    if Between(base, a, base + 32) {
      ErasedWord(a - base);
    }
  }

  lemma AfterReads(pending: map<nat, nat>, w: nat, payload: seq<byte>, max: nat, k: nat, a: nat)
    requires w <= max && |payload| < 256 && |payload| % 2 == 0 && k == WordsBelow(w, payload, max) && 2 * k <= |payload|
    ensures Lookup(FlashAfter(pending, w, payload, max), a) ==
            if Between(w, a, w + k) then Some(PayloadWord(payload, a - w))
            else if w / 32 == a / 32 && Lookup(pending, a) == None then Some(ERASED_WORD)
            else Lookup(pending, a)
  {
    KeptWords(w, payload, max);
    WordOfBlock(pending, w, payload, max, a);
  }

  lemma MeaningReads(flash: map<nat, nat>, pending: map<nat, nat>, before: seq<byte>, w: nat,
                     payload: seq<byte>, max: nat, k: nat, a: nat)
    requires |before| == IMAGE_SIZE && Opened(flash, pending, before, w)
    requires w <= max && |payload| < 256 && |payload| % 2 == 0 && k == WordsBelow(w, payload, max) && 2 * k <= |payload|
    ensures Lookup(FlashAfter(pending, w, payload, max), a) == MeantAt(flash, before, w, payload, k, a)
  {
    AfterReads(pending, w, payload, max, k, a);
    OpenedReads(flash, pending, before, w, a);
    assert Between(32 * (w / 32), a, 32 * (w / 32) + 32) <==> w / 32 == a / 32;
  }

  // ---------------------------------------------------------------- exactly

  /** From the border on, the record holds nothing but the address of the border. */
  predicate Uniform(w: nat, payload: seq<byte>, k: nat)
    requires Straddles(w, k) && 2 * k <= |payload|
  {
    forall i :: 16 - w % 32 <= i < k ==> PayloadWord(payload, i) == Border(w)
  }

  /** What the word the record ends in was before. */
  function LastBefore(flash: map<nat, nat>, before: seq<byte>, w: nat, k: nat): (n: Option<nat>)
    requires |before| == IMAGE_SIZE && Straddles(w, k)
  {
    if w % 32 + k == 33 then Lookup(flash, w + k - 1) else Some(ImageWord(before, w % 32 + k - 1))
  }

  /** Then the words that slip are the right ones nevertheless. */
  lemma SlippedSame(before: seq<byte>, image: seq<byte>, w: nat, payload: seq<byte>, k: nat, x: nat)
    requires |before| == IMAGE_SIZE && |image| == IMAGE_SIZE && Straddles(w, k) && 2 * k <= |payload|
    requires Slipped(before, image, w, payload, k) && Uniform(w, payload, k) && 16 <= x < 32
    requires w % 32 + k == 33 || ImageWord(before, w % 32 + k - 1) == Border(w)
    ensures ImageWord(image, x) == if x < w % 32 + k then PayloadWord(payload, x - w % 32) else ImageWord(before, x)
  {
    var j := w % 32;
    assert ImageWord(image, x) == if x + 1 < j + k then PayloadWord(payload, x + 1 - j) else ImageWord(before, x);
    if x < j + k {
      assert PayloadWord(payload, x - j) == Border(w);
      if x + 1 < j + k {
        assert PayloadWord(payload, x + 1 - j) == Border(w);
      }
    }
  }

  lemma UniformSame(flash: map<nat, nat>, before: seq<byte>, image: seq<byte>, w: nat, payload: seq<byte>, k: nat, a: nat)
    requires |before| == IMAGE_SIZE && |image| == IMAGE_SIZE && Straddles(w, k) && 2 * k <= |payload|
    requires Slipped(before, image, w, payload, k) && Uniform(w, payload, k)
    requires LastBefore(flash, before, w, k) == Some(Border(w))
    ensures PacketsAt(flash, image, 32 * (w / 32), Border(w), a) == MeantAt(flash, before, w, payload, k, a)
  {
    var base, j := 32 * (w / 32), w % 32;
    assert w == base + j && Border(w) == base + 16;
    if Between(base + 16, a, base + 32) {
      SlippedSame(before, image, w, payload, k, a - base);
    } else if Between(base, a, base + 16) {
      FirstSame(before, image, w, payload, k, a - base);
    } else if a == w + k - 1 {
      assert PayloadWord(payload, k - 1) == Border(w);
    }
  }

  lemma FirstSame(before: seq<byte>, image: seq<byte>, w: nat, payload: seq<byte>, k: nat, x: nat)
    requires |before| == IMAGE_SIZE && |image| == IMAGE_SIZE && Straddles(w, k) && 2 * k <= |payload|
    requires Slipped(before, image, w, payload, k) && x < 16
    ensures ImageWord(image, x) == if w % 32 <= x then PayloadWord(payload, x - w % 32) else ImageWord(before, x)
  {
  }

  /** If all is right, the second half was written at the border. */
  lemma SecondAtBorder(flash: map<nat, nat>, before: seq<byte>, image: seq<byte>, w: nat, payload: seq<byte>,
                       k: nat, second: nat)
    requires |before| == IMAGE_SIZE && |image| == IMAGE_SIZE && Straddles(w, k) && 2 * k <= |payload|
    requires Absent(flash, 32 * (w / 32), 32 * (w / 32) + 32)
    requires forall a: nat :: PacketsAt(flash, image, 32 * (w / 32), second, a) == MeantAt(flash, before, w, payload, k, a)
    ensures second == Border(w)
  {
    var first, last := Border(w), Border(w) + 15;
    assert PacketsAt(flash, image, 32 * (w / 32), second, first) != None;
    assert PacketsAt(flash, image, 32 * (w / 32), second, last) != None;
    assert first !in flash && last !in flash;
  }

  lemma SecondReads(flash: map<nat, nat>, image: seq<byte>, w: nat, x: nat)
    requires |image| == IMAGE_SIZE && 16 <= x < 32
    ensures PacketsAt(flash, image, 32 * (w / 32), Border(w), 32 * (w / 32) + x) == Some(ImageWord(image, x))
  {
  }

  lemma WordMeant(flash: map<nat, nat>, before: seq<byte>, w: nat, payload: seq<byte>, k: nat, i: nat)
    requires |before| == IMAGE_SIZE && 2 * k <= |payload| && i < k
    ensures MeantAt(flash, before, w, payload, k, w + i) == Some(PayloadWord(payload, i))
  {
  }

  /** ... and the record is uniform, and so was the word it ends in. */
  lemma {:induction false} SameUniform(flash: map<nat, nat>, before: seq<byte>, image: seq<byte>, w: nat,
                                       payload: seq<byte>, k: nat, i: nat)
    requires |before| == IMAGE_SIZE && |image| == IMAGE_SIZE && Straddles(w, k) && 2 * k <= |payload|
    requires Slipped(before, image, w, payload, k) && PayloadWord(payload, 16 - w % 32) == Border(w)
    requires forall a: nat :: PacketsAt(flash, image, 32 * (w / 32), Border(w), a) == MeantAt(flash, before, w, payload, k, a)
    requires 16 - w % 32 <= i < k
    ensures PayloadWord(payload, i) == Border(w)
  {
    if i > 16 - w % 32 {
      SameUniform(flash, before, image, w, payload, k, i - 1);
      var a, x := w + i - 1, w % 32 + i - 1;
      assert a == 32 * (w / 32) + x;
      SecondReads(flash, image, w, x);
      WordMeant(flash, before, w, payload, k, i - 1);
      assert PacketsAt(flash, image, 32 * (w / 32), Border(w), a) == MeantAt(flash, before, w, payload, k, a);
      assert ImageWord(image, x) == PayloadWord(payload, i);
    }
  }

  lemma SameLast(flash: map<nat, nat>, before: seq<byte>, image: seq<byte>, w: nat, payload: seq<byte>, k: nat)
    requires |before| == IMAGE_SIZE && |image| == IMAGE_SIZE && Straddles(w, k) && 2 * k <= |payload|
    requires Slipped(before, image, w, payload, k) && Uniform(w, payload, k)
    requires forall a: nat :: PacketsAt(flash, image, 32 * (w / 32), Border(w), a) == MeantAt(flash, before, w, payload, k, a)
    ensures LastBefore(flash, before, w, k) == Some(Border(w))
  {
    var a := w + k - 1;
    assert PacketsAt(flash, image, 32 * (w / 32), Border(w), a) == MeantAt(flash, before, w, payload, k, a);
    assert PayloadWord(payload, k - 1) == Border(w);
    if w % 32 + k < 33 {
      assert ImageWord(image, w % 32 + k - 1) == ImageWord(before, w % 32 + k - 1);
    }
  }

  /** What the word a record ends in was before the record, in the memories. */
  lemma LastReads(flash: map<nat, nat>, pending: map<nat, nat>, before: seq<byte>, w: nat, k: nat)
    requires |before| == IMAGE_SIZE && Opened(flash, pending, before, w) && Straddles(w, k)
    ensures LastBefore(flash, before, w, k) == Some(Border(w)) <==> Lookup(pending, w + k - 1) == Some(Border(w))
  {
    var base, a := 32 * (w / 32), w + k - 1;
    assert Between(base, a, base + 32) <==> w % 32 + k < 33;
    OpenedReads(flash, pending, before, w, a);
  }

  /**
   * A record over the border does no harm if from the border on it holds nothing but the address of
   * the border, and the word it ends in held that as well.
   */
  predicate Harmless(flash: map<nat, nat>, w: nat, payload: seq<byte>, max: nat)
    requires w <= max
  {
    var k := WordsBelow(w, payload, max);
    Straddles(w, k) ==> Uniform(w, payload, k) && Lookup(flash, w + k - 1) == Some(Border(w))
  }

  /** In any case, and whatever the flash held before, this is what a record over the border leaves at a. */
  lemma StraddlerWrites(m: Memory, st: Prep, w: nat, payload: seq<byte>, max: nat, k: nat, a: nat) returns (st': Prep)
    requires InBlock(st, w) && Loaded(st, payload) && st.address == w && AreaOf(w) == Flash(max)
    requires k == WordsBelow(w, payload, max) && Straddles(w, k)
    ensures StoreFlash(st, max) == Continue(st') && Valid(st')
    ensures 2 * k <= |payload| && Slipped(st.image, st'.image, w, payload, k)
    ensures Mem(m, st') == m.(flash := Mem(m, st').flash)
    ensures Lookup(Mem(m, st').flash, a) ==
            PacketsAt(m.flash, st'.image, 32 * (w / 32), PayloadWord(payload, 16 - w % 32), a)
  {
    st' := StraddlerStored(st, w, payload, max, k);
    PendingPackets(m, st');
    PacketsRead(m.flash, st'.image, 32 * (w / 32), Number(st'.image[34], st'.image[35]), a);
  }

  lemma HarmlessIs(flash: map<nat, nat>, w: nat, payload: seq<byte>, max: nat, k: nat)
    requires w <= max && k == WordsBelow(w, payload, max) && Straddles(w, k) && 2 * k <= |payload|
    ensures Harmless(flash, w, payload, max) <==> Uniform(w, payload, k) && Lookup(flash, w + k - 1) == Some(Border(w))
  {
  }

  /** A straddling record, on the flash alone. */
  lemma SlippedExactly(flash: map<nat, nat>, pending: map<nat, nat>, before: seq<byte>, image: seq<byte>,
                       w: nat, payload: seq<byte>, max: nat, k: nat)
    requires |before| == IMAGE_SIZE && |image| == IMAGE_SIZE && Straddles(w, k) && 2 * k <= |payload|
    requires w <= max && |payload| < 256 && |payload| % 2 == 0 && k == WordsBelow(w, payload, max)
    requires Opened(flash, pending, before, w) && Slipped(before, image, w, payload, k)
    ensures AfterPackets(flash, image) == FlashAfter(pending, w, payload, max) <==>
            Uniform(w, payload, k) && Lookup(pending, w + k - 1) == Some(Border(w))
  {
    var base, second := 32 * (w / 32), Number(image[34], image[35]);
    var after, meant := AfterPackets(flash, image), FlashAfter(pending, w, payload, max);
    MapsAgree(after, meant);
    LastReads(flash, pending, before, w, k);
    forall a: nat
      ensures Lookup(after, a) == PacketsAt(flash, image, base, second, a)
      ensures Lookup(meant, a) == MeantAt(flash, before, w, payload, k, a)
    {
      PacketsRead(flash, image, base, second, a);
      MeaningReads(flash, pending, before, w, payload, max, k, a);
    }
    if after == meant {
      assert forall a: nat :: PacketsAt(flash, image, base, second, a) == MeantAt(flash, before, w, payload, k, a);
      SecondAtBorder(flash, before, image, w, payload, k, second);
      forall i | 16 - w % 32 <= i < k
        ensures PayloadWord(payload, i) == Border(w)
      {
        SameUniform(flash, before, image, w, payload, k, i);
      }
      SameLast(flash, before, image, w, payload, k);
    } else if Uniform(w, payload, k) && LastBefore(flash, before, w, k) == Some(Border(w)) {
      assert second == PayloadWord(payload, 16 - w % 32) == Border(w);
      forall a: nat
        ensures Lookup(after, a) == Lookup(meant, a)
      {
        UniformSame(flash, before, image, w, payload, k, a);
      }
    }
  }

  /** The compiler is in no block, or in that of word w. */
  predicate InBlock(st: Prep, w: nat) {
    Valid(st) && (IsFresh(st) || (Good(st, w / 32) && st.block == w / 32))
  }

  /** The flash with the pending block. */
  lemma PendingOpened(m: Memory, st: Prep, w: nat)
    requires InBlock(st, w) && AreaOf(w).Flash? && Absent(m.flash, 32 * (w / 32), 32 * (w / 32) + 32)
    ensures Opened(m.flash, Mem(m, st).flash, st.image, w)
    ensures Mem(m, st) == m.(flash := Mem(m, st).flash)
  {
    if IsFresh(st) {
      PendingNothing(m, st);
    } else {
      PendingFlash(m, st);
    }
  }

  lemma StraddlerFits(w: nat, payload: seq<byte>, max: nat, k: nat)
    requires w <= max && |payload| < 256 && |payload| % 2 == 0 && k == WordsBelow(w, payload, max) && Straddles(w, k)
    ensures Kept(w, |payload|, max) == 2 * k <= |payload| && FlashIndex(w) + 2 * k <= IMAGE_SIZE
  {
    KeptWords(w, payload, max);
    IndexOf(w, k);
  }

  /** A straddling record leaves the slipped image. */
  lemma StraddlerStored(st: Prep, w: nat, payload: seq<byte>, max: nat, k: nat) returns (st': Prep)
    requires InBlock(st, w) && Loaded(st, payload) && st.address == w && AreaOf(w) == Flash(max)
    requires k == WordsBelow(w, payload, max) && Straddles(w, k)
    ensures StoreFlash(st, max) == Continue(st') && Stored(st, st') && !st'.overflow
    ensures Valid(st') && st'.block == w / 32 && st'.processState == 2
    ensures 2 * k <= |payload| && Slipped(st.image, st'.image, w, payload, k)
  {
    StraddlerFits(w, payload, max, k);
    var headed := StoredImage(st, w, payload, max);
    StraddlerSlips(st.image, headed, w, payload, k);
    st' := StoreFlash(st, max).st;
  }

  /** The flash is the only memory concerned. */
  lemma OnlyFlash(m: Memory, m1: Memory, f: map<nat, nat>, w: nat, payload: seq<byte>, max: nat)
    requires AreaOf(w) == Flash(max) && m1 == m.(flash := m1.flash)
    ensures m.(flash := f) == Write(m1, w, payload) <==> f == FlashAfter(m1.flash, w, payload, max)
  {
  }

  lemma StraddlerExactly(m: Memory, st: Prep, st': Prep, w: nat, payload: seq<byte>, max: nat, k: nat)
    requires InBlock(st, w) && AreaOf(w) == Flash(max) && Absent(m.flash, 32 * (w / 32), 32 * (w / 32) + 32)
    requires |payload| < 256 && |payload| % 2 == 0 && k == WordsBelow(w, payload, max) && Straddles(w, k) && 2 * k <= |payload|
    requires Valid(st') && st'.block == w / 32 && st'.processState == 2 && Slipped(st.image, st'.image, w, payload, k)
    ensures Mem(m, st') == Write(Mem(m, st), w, payload) <==> Harmless(Mem(m, st).flash, w, payload, max)
  {
    PendingPackets(m, st');
    PendingOpened(m, st, w);
    OnlyFlash(m, Mem(m, st), AfterPackets(m.flash, st'.image), w, payload, max);
    SlippedExactly(m.flash, Mem(m, st).flash, st.image, st'.image, w, payload, max, k);
    HarmlessIs(Mem(m, st).flash, w, payload, max, k);
  }

  /** One that keeps within a half writes what it means. */
  lemma HalfRecord(m: Memory, st: Prep, w: nat, payload: seq<byte>, max: nat) returns (st': Prep)
    requires InBlock(st, w) && Loaded(st, payload) && st.address == w && AreaOf(w) == Flash(max)
    requires Absent(m.flash, 32 * (w / 32), 32 * (w / 32) + 32) && WithinHalf(w, payload, max)
    ensures StoreFlash(st, max) == Continue(st') && Stored(st, st') && !st'.overflow
    ensures Valid(st') && st'.block == w / 32 && st'.processState == 2
    ensures Mem(m, st') == Write(Mem(m, st), w, payload)
  {
    WriteMeans(Mem(m, st), w, payload);
    st' := FlashStored(st, w, payload, max);
    PendingFlash(m, st');
    if IsFresh(st) {
      PendingNothing(m, st);
      NewBlock(m.flash, st'.image, w, payload, max);
      EmptyWordsMean(m.flash, w, payload, max, m.flash + EmptyWords(32 * (w / 32), 32 * (w / 32) + 32));
    } else {
      PendingFlash(m, st);
      OpenBlock(m.flash, st.image, st'.image, w, payload, max);
    }
  }

  lemma HalfOrStraddles(w: nat, payload: seq<byte>, max: nat)
    requires w <= max
    ensures WithinHalf(w, payload, max) <==> Fits(w, payload, max) && !Straddles(w, WordsBelow(w, payload, max))
  {
    InHalf(w);
  }

  lemma StraddlerHarms(m: Memory, st: Prep, w: nat, payload: seq<byte>, max: nat) returns (st': Prep)
    requires InBlock(st, w) && Loaded(st, payload) && st.address == w && AreaOf(w) == Flash(max)
    requires Absent(m.flash, 32 * (w / 32), 32 * (w / 32) + 32) && Straddles(w, WordsBelow(w, payload, max))
    ensures StoreFlash(st, max) == Continue(st') && Valid(st')
    ensures Mem(m, st') == Write(Mem(m, st), w, payload) <==> Harmless(Mem(m, st).flash, w, payload, max)
  {
    var k := WordsBelow(w, payload, max);
    st' := StraddlerStored(st, w, payload, max, k);
    StraddlerExactly(m, st, st', w, payload, max, k);
  }

  /** A flash record that fits writes what it means exactly if it does not lie over the border, or does no harm there. */
  lemma StraddleExactly(m: Memory, st: Prep, w: nat, payload: seq<byte>, max: nat) returns (st': Prep)
    requires InBlock(st, w) && Loaded(st, payload) && st.address == w && AreaOf(w) == Flash(max)
    requires Absent(m.flash, 32 * (w / 32), 32 * (w / 32) + 32) && Fits(w, payload, max)
    ensures StoreFlash(st, max) == Continue(st') && Valid(st')
    ensures Mem(m, st') == Write(Mem(m, st), w, payload) <==> Harmless(Mem(m, st).flash, w, payload, max)
  {
    HalfOrStraddles(w, payload, max);
    if Straddles(w, WordsBelow(w, payload, max)) {
      st' := StraddlerHarms(m, st, w, payload, max);
    } else {
      st' := HalfRecord(m, st, w, payload, max);
    }
  }

  // ---------------------------------------------------------------- files of one record

  lemma OneLine(l: PrintedLine, tail: seq<byte>)
    ensures FileOf([l], tail) == LineText(l) + tail
  {
    assert [l][1..] == [];
    assert FileOf([], tail) == tail;
  }

  lemma OneMeaning(r: Record)
    requires r.kind == 0
    ensures Meaning(BLANK, 0, [r]) == Write(BLANK, FirstWord(0, r), r.payload)
  {
    assert [r][1..] == [];
  }

  /** A file of one flash record, up to its storing. */
  lemma OneRecord(l: PrintedLine, tail: seq<byte>, w: nat, max: nat) returns (st: Prep)
    requires IsPrinted(l) && WellFormed(0, l.record) && l.record.kind == 0
    requires w == FirstWord(0, l.record) && AreaOf(w) == Flash(max)
    ensures Valid(st) && IsFresh(st) && Loaded(st, l.record.payload) && st.address == w && st.file[st.pos..] == tail
    ensures st.hiAddress == 0
    ensures Programmed(FileOf([l], tail)) == ReplayAll(BLANK, DriveLoop(st).0)
    ensures Process(st) == StoreFlash(st, max)
  {
    var file := FileOf([l], tail);
    var st0 := Begin(Start(file));
    OneLine(l, tail);
    assert st0.file[0..] == file;
    var st1 := FetchRecord(st0, l, tail);
    AddressIs(st1.line, 0, l.record);
    StepFetch(st0);
    st := Located(st1);
    assert Located(st) == st;
    assert Process(st1) == Process(st);
    SameProcess(st1, st);
  }

  lemma SameProcess(a: Prep, b: Prep)
    requires Valid(a) && Valid(b) && a.ready && b.ready && Process(a) == Process(b)
    ensures DriveLoop(a) == DriveLoop(b)
  {
    ProcessProgress(a);
  }

  /** What was stored is uploaded at the end of the file. */
  lemma UploadsLast(m: Memory, st: Prep, st': Prep)
    requires Valid(st) && st.ready && Process(st) == Continue(st') && Valid(st') && Stored(st, st')
    requires Skipped(st.file[st.pos..]) && st'.block >= 80 && !st'.overflow
    ensures ReplayAll(m, DriveLoop(st).0) == Mem(m, st')
  {
    StepContinue(st);
    NothingLeft(st'.file, st'.pos);
    var st1 := st'.(pos := |st'.file|, line := Fill(st'.line, []));
    EndsHandingOver(st', st1);
    UploadsOfImage(FlashReady, st', st1);
  }

  /** A file of one flash record is programmed as it means exactly if the record keeps within a half of a block. */
  lemma AloneExactly(l: PrintedLine, tail: seq<byte>, w: nat, max: nat)
    requires IsPrinted(l) && Skipped(tail) && WellFormed(0, l.record) && l.record.kind == 0
    requires w == FirstWord(0, l.record) && AreaOf(w) == Flash(max)
    ensures Programmed(FileOf([l], tail)) == Meaning(BLANK, 0, [l.record]) <==> WithinHalf(w, l.record.payload, max)
  {
    OneMeaning(l.record);
    var st := OneRecord(l, tail, w, max);
    if Fits(w, l.record.payload, max) {
      StoredAlone(st, w, l.record.payload, max);
    } else {
      RefusedAlone(st, w, l.record.payload, max);
    }
  }

  lemma StoredAlone(st: Prep, w: nat, payload: seq<byte>, max: nat)
    requires Valid(st) && IsFresh(st) && Loaded(st, payload) && st.address == w && AreaOf(w) == Flash(max)
    requires Process(st) == StoreFlash(st, max) && Skipped(st.file[st.pos..]) && Fits(w, payload, max)
    ensures ReplayAll(BLANK, DriveLoop(st).0) == Write(BLANK, w, payload) <==> WithinHalf(w, payload, max)
  {
    var st' := StraddleExactly(BLANK, st, w, payload, max);
    HalfOrStraddles(w, payload, max);
    PendingNothing(BLANK, st);
    StoredInBlock(st, w, max);
    UploadsLast(BLANK, st, st');
  }

  lemma StoredInBlock(st: Prep, w: nat, max: nat)
    requires Valid(st) && IsFresh(st) && st.address == w && AreaOf(w) == Flash(max) && StoreFlash(st, max).Continue?
    ensures var st' := StoreFlash(st, max).st; Stored(st, st') && st'.block >= 80 && !st'.overflow
  {
  }

  /** Nothing is written of a record that does not fit. */
  lemma RefusedAlone(st: Prep, w: nat, payload: seq<byte>, max: nat)
    requires Valid(st) && IsFresh(st) && Loaded(st, payload) && st.address == w && AreaOf(w) == Flash(max)
    requires Process(st) == StoreFlash(st, max) && !Fits(w, payload, max)
    ensures ReplayAll(BLANK, DriveLoop(st).0) != Write(BLANK, w, payload) && !WithinHalf(w, payload, max)
  {
    HalfOrStraddles(w, payload, max);
    RefusedExactly(st, w, payload, max);
    StopsAtOnce(st);
    BeginsBlock(w, payload, max);
  }

  lemma StopsAtOnce(st: Prep)
    requires Valid(st) && st.ready && Process(st) == Return(Failure, st)
    ensures DriveLoop(st) == ([], Failure)
  {
    assert Loop(st) == (Failure, st);
  }

  lemma BeginsBlock(w: nat, payload: seq<byte>, max: nat)
    requires AreaOf(w) == Flash(max)
    ensures Write(BLANK, w, payload) != BLANK
  {
    WordOfBlock(map[], w, payload, max, w);
    assert w in Write(BLANK, w, payload).flash;
  }

  /** The words of the slipped image, if it was erased before. */
  function SlippedWord(j: nat, payload: seq<byte>, k: nat, x: nat): (n: nat)
    requires j < 16 < j + k && 2 * k <= |payload| && x < 32
  {
    if x < 16 then if j <= x then PayloadWord(payload, x - j) else ERASED_WORD
    else if x + 1 < j + k then PayloadWord(payload, x + 1 - j) else ERASED_WORD
  }

  lemma SlippedWords(image: seq<byte>, w: nat, payload: seq<byte>, k: nat, x: nat)
    requires |image| == IMAGE_SIZE && Straddles(w, k) && 2 * k <= |payload| && Slipped(Erased(), image, w, payload, k)
    requires x < 32
    ensures ImageWord(image, x) == SlippedWord(w % 32, payload, k, x)
  {
    ErasedWord(x);
    if x < 16 {
      FirstSame(Erased(), image, w, payload, k, x);
    }
  }

  /** What a record over the border leaves at a in blank flash. */
  function LeftAt(w: nat, payload: seq<byte>, k: nat, a: nat): (n: Option<nat>)
    requires Straddles(w, k) && 2 * k <= |payload|
  {
    var (j, base, second) := (w % 32, 32 * (w / 32), PayloadWord(payload, 16 - w % 32));
    if Between(second, a, second + 16) then Some(SlippedWord(j, payload, k, 16 + a - second))
    else if Between(base, a, base + 16) then Some(SlippedWord(j, payload, k, a - base))
    else None
  }

  lemma LeftBySlipped(image: seq<byte>, w: nat, payload: seq<byte>, k: nat, a: nat)
    requires |image| == IMAGE_SIZE && Straddles(w, k) && 2 * k <= |payload| && Slipped(Erased(), image, w, payload, k)
    ensures PacketsAt(map[], image, 32 * (w / 32), Number(image[34], image[35]), a) == LeftAt(w, payload, k, a)
  {
    var base, second := 32 * (w / 32), Number(image[34], image[35]);
    if Between(second, a, second + 16) {
      SlippedWords(image, w, payload, k, 16 + a - second);
    } else if Between(base, a, base + 16) {
      SlippedWords(image, w, payload, k, a - base);
    }
  }

  /**
   * The whole flash after a file of one record over the border: the words in front of it are right, the
   * word at the border has become the address of the second half, and what follows it is written there.
   */
  lemma StraddlerLeaves(l: PrintedLine, tail: seq<byte>, w: nat, max: nat, k: nat, a: nat)
    requires IsPrinted(l) && Skipped(tail) && WellFormed(0, l.record) && l.record.kind == 0
    requires w == FirstWord(0, l.record) && AreaOf(w) == Flash(max)
    requires k == WordsBelow(w, l.record.payload, max) && Straddles(w, k)
    ensures 2 * k <= |l.record.payload|
    ensures Lookup(Programmed(FileOf([l], tail)).flash, a) == LeftAt(w, l.record.payload, k, a)
  {
    var st := OneRecord(l, tail, w, max);
    var st' := StraddlerStored(st, w, l.record.payload, max, k);
    UploadsLast(BLANK, st, st');
    PendingPackets(BLANK, st');
    PacketsRead(map[], st'.image, 32 * (w / 32), Number(st'.image[34], st'.image[35]), a);
    LeftBySlipped(st'.image, w, l.record.payload, k, a);
  }

  /** What the record means there. */
  lemma StraddlerMeans(r: Record, w: nat, max: nat, a: nat)
    requires r.kind == 0 && w == FirstWord(0, r) && AreaOf(w) == Flash(max) && |r.payload| < 256 && |r.payload| % 2 == 0
    ensures Lookup(Meaning(BLANK, 0, [r]).flash, a) ==
            if Between(w, a, w + WordsBelow(w, r.payload, max)) then Some(PayloadWord(r.payload, a - w))
            else if w / 32 == a / 32 then Some(ERASED_WORD)
            else None
  {
    OneMeaning(r);
    KeptWords(w, r.payload, max);
    AfterReads(map[], w, r.payload, max, WordsBelow(w, r.payload, max), a);
  }

  /** A record of four words from 0x3A0E on. */
  predicate FourWords(l: PrintedLine, third: nat, fourth: nat) {
    && IsPrinted(l) && l.record.kind == 0 && l.record.offset == 0x741C && |l.record.payload| == 8
    && PayloadWord(l.record.payload, 2) == third && PayloadWord(l.record.payload, 3) == fourth
  }

  lemma FourLeft(payload: seq<byte>, third: nat, a: nat)
    requires |payload| == 8 && PayloadWord(payload, 2) == third
    requires third <= a < third + 16 || 0x3A10 <= a
    ensures LeftAt(0x3A0E, payload, 4, a) ==
            if a == third then Some(PayloadWord(payload, 3))
            else if Between(third, a, third + 16) then Some(ERASED_WORD)
            else None
  {
  }

  lemma FourWritten(l: PrintedLine, third: nat, fourth: nat)
    requires FourWords(l, third, fourth)
    ensures FirstWord(0, l.record) == 0x3A0E && WordsBelow(0x3A0E, l.record.payload, MAIN_MEM_MAX_ADR) == 4
  {
  }

  /** What it leaves at a. */
  lemma FourLeave(l: PrintedLine, tail: seq<byte>, third: nat, fourth: nat, a: nat)
    requires Skipped(tail) && FourWords(l, third, fourth)
    requires third <= a < third + 16 || 0x3A10 <= a
    ensures Lookup(Programmed(FileOf([l], tail)).flash, a) ==
            if a == third then Some(fourth) else if Between(third, a, third + 16) then Some(ERASED_WORD) else None
  {
    FourWritten(l, third, fourth);
    StraddlerLeaves(l, tail, 0x3A0E, MAIN_MEM_MAX_ADR, 4, a);
    FourLeft(l.record.payload, third, a);
  }

  /** What it means at a. */
  lemma FourMean(l: PrintedLine, third: nat, fourth: nat, a: nat)
    requires FourWords(l, third, fourth)
    ensures var meant := Meaning(BLANK, 0, [l.record]).flash;
            && (a == 0x3A10 ==> Lookup(meant, a) == Some(third)) && (a == 0x3A11 ==> Lookup(meant, a) == Some(fourth))
            && (a < 0x3A00 ==> Lookup(meant, a) == None)
  {
    FourWritten(l, third, fourth);
    StraddlerMeans(l.record, 0x3A0E, MAIN_MEM_MAX_ADR, a);
  }

  /**
   * If the third word is the address of the border, both headers are right in the end, and still the
   * fourth word lands where the third belongs.
   */
  lemma LandsOneEarly()
    ensures var r := Record(0, 0x741C, [1, 0, 2, 0, 0x10, 0x3A, 3, 0]);
            var (f, meant) := (Programmed(FileOf([Printed(r)], [])).flash, Meaning(BLANK, 0, [r]).flash);
            && Lookup(f, 0x3A10) == Some(3) && Lookup(f, 0x3A11) == Some(ERASED_WORD)
            && Lookup(meant, 0x3A10) == Some(0x3A10) && Lookup(meant, 0x3A11) == Some(3)
  {
    var l := Printed(Record(0, 0x741C, [1, 0, 2, 0, 0x10, 0x3A, 3, 0]));
    FourLeave(l, [], 0x3A10, 3, 0x3A10);
    FourMean(l, 0x3A10, 3, 0x3A10);
    FourLeave(l, [], 0x3A10, 3, 0x3A11);
    FourMean(l, 0x3A10, 3, 0x3A11);
  }

  /** If it is 3, the second half goes to address 3. */
  lemma LandsElsewhere()
    ensures var r := Record(0, 0x741C, [1, 0, 2, 0, 3, 0, 4, 0]);
            var (f, meant) := (Programmed(FileOf([Printed(r)], [])).flash, Meaning(BLANK, 0, [r]).flash);
            && Lookup(f, 3) == Some(4) && Lookup(f, 0x3A10) == None
            && Lookup(meant, 3) == None && Lookup(meant, 0x3A10) == Some(3)
  {
    var l := Printed(Record(0, 0x741C, [1, 0, 2, 0, 3, 0, 4, 0]));
    FourLeave(l, [], 3, 4, 3);
    FourMean(l, 3, 4, 3);
    FourLeave(l, [], 3, 4, 0x3A10);
    FourMean(l, 3, 4, 0x3A10);
  }
}
