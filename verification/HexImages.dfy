/** What the 68-byte image stands for: the words of a flash block, or the cells of an EEPROM block and the next. */
module HexImages {
  import opened Bytes
  import opened HexCompiling
  import opened Uploading
  import opened HexMemory

  // ---------------------------------------------------------------- flash

  /** Place of word j of a block, behind the headers of its halves. */
  function Place(j: nat): (i: nat)
    requires j < 32
    ensures i + 2 <= IMAGE_SIZE
  {
    if j < 16 then 2 * j + 2 else 2 * j + 4
  }

  function ImageWord(image: seq<byte>, j: nat): (w: nat)
    requires |image| == IMAGE_SIZE && j < 32
  {
    Number(image[Place(j)], image[Place(j) + 1])
  }

  function BlockWords(image: seq<byte>, base: nat): (m: map<nat, nat>)
    requires |image| == IMAGE_SIZE
  {
    var words := Range(base, base + 32);
    map a | a in words :: ImageWord(image, a - base)
  }

  /** The image is that of a flash block. */
  predicate FlashImage(image: seq<byte>, block: nat) {
    && |image| == IMAGE_SIZE && BEYOND < block < 0x200
    && Number(image[0], image[1]) == 32 * block && Number(image[34], image[35]) == 32 * block + 16
  }

  function FlashLog(image: seq<byte>): (log: seq<Upload>)
    requires |image| == IMAGE_SIZE
  {
    [Upload(TARGET_FLASH_W, image[..34]), Upload(TARGET_FLASH_W, image[34..])]
  }

  lemma ReplayTwo(m: Memory, first: Upload, second: Upload)
    ensures ReplayAll(m, [first, second]) == Replay(Replay(m, first), second)
  {
    var log := [first, second];
    assert log[1..] == [second] && [second][1..] == [];
    assert ReplayAll(Replay(m, first), [second]) == Replay(Replay(m, first), second);
  }

  lemma HalvesJoin(image: seq<byte>, block: nat)
    requires FlashImage(image, block)
    ensures PacketWords(image[..34]) + PacketWords(image[34..]) == BlockWords(image, 32 * block)
  {
    var first, second := image[..34], image[34..];
    var base := 32 * block;
    assert Number(first[0], first[1]) == base && Number(second[0], second[1]) == base + 16;
    var whole := BlockWords(image, base);
    forall a | a in whole
      ensures a in PacketWords(first) + PacketWords(second)
      ensures (PacketWords(first) + PacketWords(second))[a] == whole[a]
    {
      var i := Place(a - base);
      assert image[i] == if i < 34 then first[i] else second[i - 34];
      assert image[i + 1] == if i < 34 then first[i + 1] else second[i - 33];
    }
  }

  /** The two packets of a flash block carry its words. */
  lemma FlashLogWrites(m: Memory, image: seq<byte>, block: nat)
    requires FlashImage(image, block)
    ensures ReplayAll(m, FlashLog(image)) == m.(flash := m.flash + BlockWords(image, 32 * block))
  {
    HalvesJoin(image, block);
    ReplayTwo(m, Upload(TARGET_FLASH_W, image[..34]), Upload(TARGET_FLASH_W, image[34..]));
    MapsJoin(m.flash, PacketWords(image[..34]), PacketWords(image[34..]));
  }

  lemma MapsJoin<T>(a: map<nat, T>, b: map<nat, T>, c: map<nat, T>)
    ensures (a + b) + c == a + (b + c)
  {
  }

  lemma WordReads(n: nat)
    requires n < 0x10000
    ensures Number(Word(n)[0], Word(n)[1]) == n
  {
  }

  lemma PutReads(image: seq<byte>, at: nat, bytes: seq<byte>, i: nat)
    requires at + |bytes| <= |image| && i < |image|
    ensures Put(image, at, bytes)[i] == if at <= i < at + |bytes| then bytes[i - at] else image[i]
  {
  }

  /** Writing both headers leaves the words alone. */
  lemma HeadersPut(image: seq<byte>, block: nat) returns (image': seq<byte>)
    requires |image| == IMAGE_SIZE && BEYOND < block < 0x200
    ensures image' == Put(Put(image, 0, Word(block * 32)), 34, Word(block * 32 + 0x10))
    ensures FlashImage(image', block)
    ensures forall j :: 0 <= j < 32 ==> ImageWord(image', j) == ImageWord(image, j)
  {
    var image1 := Put(image, 0, Word(block * 32));
    image' := Put(image1, 34, Word(block * 32 + 0x10));
    WordReads(block * 32);
    WordReads(block * 32 + 0x10);
    forall i | 0 <= i < IMAGE_SIZE
      ensures image'[i] == if i < 2 then Word(block * 32)[i] else if 34 <= i < 36 then Word(block * 32 + 0x10)[i - 34] else image[i]
    {
      PutReads(image, 0, Word(block * 32), i);
      PutReads(image1, 34, Word(block * 32 + 0x10), i);
    }
  }

  /** The words of the image from word j on are the first k of the payload, the others as before. */
  predicate Overlaid(before: seq<byte>, image: seq<byte>, j: nat, payload: seq<byte>, k: nat)
    requires |before| == IMAGE_SIZE && |image| == IMAGE_SIZE && 2 * k <= |payload|
  {
    forall i :: 0 <= i < 32 ==>
      ImageWord(image, i) == if j <= i < j + k then PayloadWord(payload, i - j) else ImageWord(before, i)
  }

  lemma HalfOf(w: nat, k: nat)
    requires w % 16 + k <= 16
    ensures FlashIndex(w) == Place(w % 32) && Place(w % 32) + 2 * k <= IMAGE_SIZE
    ensures w % 32 + k <= if w % 32 < 16 then 16 else 32
  {
    InHalf(w);
  }

  lemma InHalf(w: nat)
    ensures w % 16 == if w % 32 < 16 then w % 32 else w % 32 - 16
  {
    var (q, r) := (w / 32, w % 32);
    assert w == 16 * (2 * q) + r;
  }

  /** Where word i lies, from k words from word j on. */
  lemma PlaceFrom(j: nat, k: nat, i: nat)
    requires j < 32 && i < 32 && j + k <= if j < 16 then 16 else 32
    ensures if j <= i < j + k then Place(i) == Place(j) + 2 * (i - j)
            else Place(i) + 1 < Place(j) || Place(j) + 2 * k <= Place(i)
  {
  }

  /** Word i of the image, when words from w on, within a half, were put into it. */
  lemma WordPlaced(image: seq<byte>, w: nat, bytes: seq<byte>, i: nat)
    requires |image| == IMAGE_SIZE && |bytes| % 2 == 0 && w % 16 + |bytes| / 2 <= 16 && i < 32
    ensures FlashIndex(w) == Place(w % 32) && FlashIndex(w) + |bytes| <= IMAGE_SIZE
    ensures var (j, k) := (w % 32, |bytes| / 2);
            ImageWord(Put(image, FlashIndex(w), bytes), i) ==
            if j <= i < j + k then PayloadWord(bytes, i - j) else ImageWord(image, i)
  {
    HalfOf(w, |bytes| / 2);
    PlaceFrom(w % 32, |bytes| / 2, i);
    PutReads(image, FlashIndex(w), bytes, Place(i));
    PutReads(image, FlashIndex(w), bytes, Place(i) + 1);
  }

  /** Words written within one half of the block end up at their places, and the headers stay. */
  lemma WordsPut(image: seq<byte>, block: nat, w: nat, bytes: seq<byte>) returns (image': seq<byte>)
    requires FlashImage(image, block) && w / 32 == block && |bytes| % 2 == 0 && w % 16 + |bytes| / 2 <= 16
    ensures FlashIndex(w) + |bytes| <= IMAGE_SIZE
    ensures image' == Put(image, FlashIndex(w), bytes) && FlashImage(image', block)
    ensures Overlaid(image, image', w % 32, bytes, |bytes| / 2)
  {
    WordPlaced(image, w, bytes, 0);
    image' := Put(image, FlashIndex(w), bytes);
    HeadersStay(image, w, bytes);
    forall i | 0 <= i < 32
      ensures ImageWord(image', i) ==
              if w % 32 <= i < w % 32 + |bytes| / 2 then PayloadWord(bytes, i - w % 32) else ImageWord(image, i)
    {
      WordPlaced(image, w, bytes, i);
    }
  }

  lemma HeadersStay(image: seq<byte>, w: nat, bytes: seq<byte>)
    requires |image| == IMAGE_SIZE && |bytes| % 2 == 0 && w % 16 + |bytes| / 2 <= 16
    ensures FlashIndex(w) + |bytes| <= IMAGE_SIZE
    ensures var image' := Put(image, FlashIndex(w), bytes);
            image'[0] == image[0] && image'[1] == image[1] && image'[34] == image[34] && image'[35] == image[35]
  {
    HalfOf(w, |bytes| / 2);
    var dest := FlashIndex(w);
    PutReads(image, dest, bytes, 0);
    PutReads(image, dest, bytes, 1);
    PutReads(image, dest, bytes, 34);
    PutReads(image, dest, bytes, 35);
  }

  // ---------------------------------------------------------------- external EEPROM

  function Cells(bytes: seq<byte>, base: int): (m: map<nat, byte>)
    requires |bytes| == 32
  {
    var cells := Range(base, base + 32);
    map a | a in cells :: bytes[a - base]
  }

  /** The image is that of a block of the external EEPROM, with nothing yet in the part for the next block. */
  predicate EeepromImage(image: seq<byte>, block: nat) {
    && |image| == IMAGE_SIZE && 16 <= block <= BEYOND
    && Number(image[34], image[35]) == EeepromBase(block)
    && Number(image[0], image[1]) == EeepromBase(block) + 32
    && image[2..34] == Zeros(32)
  }

  /** The first half of the image holds what ran over into a block of the external EEPROM. */
  predicate OverflowImage(image: seq<byte>, block: nat) {
    && |image| == IMAGE_SIZE && 16 <= block <= BEYOND
    && Number(image[0], image[1]) == EeepromBase(block)
  }

  lemma PacketCells(data: seq<byte>, base: nat)
    requires |data| == 34 && Number(data[0], data[1]) == base
    ensures PacketBytes(data) == Cells(data[2..], base)
  {
  }

  lemma EeepromLogWrites(m: Memory, image: seq<byte>, base: nat)
    requires |image| == IMAGE_SIZE && Number(image[34], image[35]) == base
    ensures ReplayAll(m, [Upload(TARGET_EEEPROM_W, image[34..])]) ==
            m.(eeeprom := m.eeeprom + Cells(image[36..], base))
  {
    var data := image[34..];
    PacketCells(data, base);
    assert data[2..] == image[36..];
    var log := [Upload(TARGET_EEEPROM_W, data)];
    assert log[1..] == [];
    assert ReplayAll(m, log) == Replay(m, log[0]);
  }

  lemma ZerosWithHeaders(low: nat, high: nat) returns (image: seq<byte>)
    requires low < 0x10000 && high < 0x10000
    ensures image == Put(Put(Zeros(IMAGE_SIZE), 34, Word(low)), 0, Word(high))
    ensures |image| == IMAGE_SIZE && Number(image[34], image[35]) == low && Number(image[0], image[1]) == high
    ensures image[2..34] == Zeros(32) && image[36..] == Zeros(32)
  {
    var image1 := Put(Zeros(IMAGE_SIZE), 34, Word(low));
    image := Put(image1, 0, Word(high));
    WordReads(low);
    WordReads(high);
    forall i | 0 <= i < IMAGE_SIZE
      ensures image[i] == if i < 2 then Word(high)[i] else if 34 <= i < 36 then Word(low)[i - 34] else 0
    {
      PutReads(Zeros(IMAGE_SIZE), 34, Word(low), i);
      PutReads(image1, 0, Word(high), i);
    }
  }

  /** Opening a block of the external EEPROM gives its empty image. */
  lemma Opened(st: Prep)
    requires Valid(st) && SERIAL_EEPROM_MIN_ADR <= st.address <= SERIAL_EEPROM_MAX_ADR
    ensures var st' := OpenEeeprom(st);
            && EeepromImage(st'.image, st.address / 32) && st'.image[36..] == Zeros(32)
            && st'.block == st.address / 32
  {
    var base := (st.address - 0x200) / 32 * 32;
    assert base == EeepromBase(st.address / 32);
    var image := ZerosWithHeaders(base, base + 0x20);
  }

  lemma HeaderBehind(block: nat)
    requires 16 <= block <= BEYOND
    ensures NextHeader(EeepromBase(block) / 32) == EeepromBase(block) + 32
  {
    assert EeepromBase(block) == 32 * (block - 16);
    assert EeepromBase(block) / 32 == block - 16;
  }

  /** Moving the overflow gives the image of its block. */
  lemma Moved(st: Prep, block: nat)
    requires Valid(st) && OverflowImage(st.image, block)
    ensures var st' := MoveOverflow(st);
            EeepromImage(st'.image, block) && st'.image[34..] == st.image[..34] && st'.block == block
  {
    var base := EeepromBase(block);
    var half := Zeros(34) + st.image[..34];
    HeaderBehind(block);
    var image := Put(half, 0, Word(base + 32));
    WordReads(base + 32);
    forall i | 0 <= i < IMAGE_SIZE
      ensures image[i] == if i < 2 then Word(base + 32)[i] else if i < 34 then 0 else st.image[i - 34]
    {
      PutReads(half, 0, Word(base + 32), i);
    }
    assert image[2..34] == Zeros(32);
    assert image[34..] == st.image[..34];
  }

  /** The copy loop: cell by cell of the block, and on into the next one. */
  lemma {:induction false} Copied(image: seq<byte>, dest: nat, line: seq<byte>, cnt: nat, n: nat, i: nat)
    requires |image| == IMAGE_SIZE && 36 <= dest <= IMAGE_SIZE && cnt <= n && 2 * n + 3 <= |line| && i < IMAGE_SIZE
    requires n - cnt <= 30
    ensures CopyEveryOther(image, if dest == IMAGE_SIZE then 2 else dest, line, cnt, n)[i] ==
            if dest <= i < dest + (n - cnt) then line[2 * (cnt + (i - dest)) + 4]
            else if 2 <= i < 2 + (dest + (n - cnt) - IMAGE_SIZE) then line[2 * (cnt + (i - 2) + (IMAGE_SIZE - dest)) + 4]
            else image[i]
    decreases IMAGE_SIZE - dest
  {
    if dest == IMAGE_SIZE {
      CopiedFront(image, 2, line, cnt, n, i);
    } else if cnt < n {
      Copied(image[dest := line[2 * cnt + 4]], dest + 1, line, cnt + 1, n, i);
    }
  }

  lemma {:induction false} CopiedFront(image: seq<byte>, dest: nat, line: seq<byte>, cnt: nat, n: nat, i: nat)
    requires |image| == IMAGE_SIZE && 2 <= dest && cnt <= n && dest + (n - cnt) < IMAGE_SIZE
    requires 2 * n + 3 <= |line| && i < IMAGE_SIZE
    ensures CopyEveryOther(image, dest, line, cnt, n)[i] ==
            if dest <= i < dest + (n - cnt) then line[2 * (cnt + (i - dest)) + 4] else image[i]
    decreases n - cnt
  {
    if cnt < n {
      CopiedFront(image[dest := line[2 * cnt + 4]], dest + 1, line, cnt + 1, n, i);
    }
  }
}
