/**
 * What a HEX file means, and what uploads do: the memories of the module, the records written into
 * them one after the other, and the packets replayed into them.
 */
module HexMemory {
  import opened Bytes
  import opened HexCompiling
  import opened Uploading
  import opened Wrappers

  /** Words of the flash, bytes of the external and of the internal EEPROM, by address, where written. */
  datatype Memory = Memory(flash: map<nat, nat>, eeeprom: map<nat, byte>, eeprom: map<nat, byte>)

  const BLANK := Memory(map[], map[], map[])

  /** What there is at an address, if anything. */
  function Lookup<T>(f: map<nat, T>, a: nat): (v: Option<T>) {
    if a in f then Some(f[a]) else None
  }

  /** Maps are equal exactly if they agree at every address. */
  lemma MapsAgree<T>(f: map<nat, T>, g: map<nat, T>)
    ensures f == g <==> forall a: nat :: Lookup(f, a) == Lookup(g, a)
  {
    if forall a: nat :: Lookup(f, a) == Lookup(g, a) {
      forall a: nat
        ensures a in f <==> a in g
        ensures a in f ==> f[a] == g[a]
      {
        assert Lookup(f, a) == Lookup(g, a);
      }
      assert f == g;
    }
  }

  predicate SameAt(m: Memory, n: Memory, a: nat) {
    && Lookup(m.flash, a) == Lookup(n.flash, a)
    && Lookup(m.eeeprom, a) == Lookup(n.eeeprom, a)
    && Lookup(m.eeprom, a) == Lookup(n.eeprom, a)
  }

  lemma MemoriesAgree(m: Memory, n: Memory)
    ensures m == n <==> forall a: nat :: SameAt(m, n, a)
  {
    if forall a: nat :: SameAt(m, n, a) {
      forall a: nat
        ensures Lookup(m.flash, a) == Lookup(n.flash, a)
        ensures Lookup(m.eeeprom, a) == Lookup(n.eeeprom, a)
        ensures Lookup(m.eeprom, a) == Lookup(n.eeprom, a)
      {
        assert SameAt(m, n, a);
      }
      MapsAgree(m.flash, n.flash);
      MapsAgree(m.eeeprom, n.eeeprom);
      MapsAgree(m.eeprom, n.eeprom);
    }
  }

  const ERASED_WORD := 0x3FFF

  // ---------------------------------------------------------------- the meaning of a file

  datatype Record = Record(kind: byte, offset: nat, payload: seq<byte>)

  /** Flash up to, but without, the word at max; external and internal EEPROM; addresses that are not written. */
  datatype Area = Eeeprom | Flash(max: nat) | Eeprom | Nowhere

  function AreaOf(w: nat): (a: Area) {
    if SERIAL_EEPROM_MIN_ADR <= w <= SERIAL_EEPROM_MAX_ADR then Eeeprom
    else if MAIN_MEM_MIN_ADR <= w <= MAIN_MEM_MAX_ADR then Flash(MAIN_MEM_MAX_ADR)
    else if LICENCED_MEM_MIN_ADR <= w <= LICENCED_MEM_MAX_ADR then Flash(LICENCED_MEM_MAX_ADR)
    else if PIC_EEPROM_MIN <= w <= PIC_EEPROM_MAX then Eeprom
    else Nowhere
  }

  /** First word of a record, under the upper address hi. */
  function FirstWord(hi: nat, r: Record): (w: nat) {
    (hi * 0x10000 + r.offset) / 2
  }

  /** The upper address behind a record. */
  function HiAfter(hi: nat, r: Record): (hi': nat) {
    if r.kind == 4 && |r.payload| == 2 then Number(r.payload[1], r.payload[0]) else hi
  }

  /** The upper address behind records. */
  function HiBehind(hi: nat, records: seq<Record>): (hi': nat)
    decreases |records|
  {
    if records == [] then hi else HiBehind(HiAfter(hi, records[0]), records[1..])
  }

  predicate Between(lo: int, a: nat, hi: int) {
    lo <= a < hi
  }

  function Range(lo: int, hi: int): (s: set<nat>)
    ensures forall a :: a in s <==> Between(lo, a, hi)
  {
    set a: nat | lo <= a < hi && Between(lo, a, hi)
  }

  /** Word i of the payload. */
  function PayloadWord(payload: seq<byte>, i: nat): (n: nat)
    requires 2 * i + 1 < |payload|
  {
    Number(payload[2 * i], payload[2 * i + 1])
  }

  /** Low byte of word i of the payload. */
  function PayloadByte(payload: seq<byte>, i: nat): (b: byte)
    requires 2 * i < |payload|
  {
    payload[2 * i]
  }

  /** m has no cell from lo to hi. */
  predicate Absent<T>(m: map<nat, T>, lo: int, hi: int) {
    forall a :: a in m ==> !Between(lo, a, hi)
  }

  /** Number of words of the payload that lie below max. */
  function WordsBelow(w: nat, payload: seq<byte>, max: nat): (k: nat)
    requires w <= max
  {
    if w + |payload| / 2 > max then max - w else |payload| / 2
  }

  /** What is written of a flash record keeps within a half of a block. */
  predicate WithinHalf(w: nat, payload: seq<byte>, max: nat)
    requires w <= max
  {
    w % 16 + WordsBelow(w, payload, max) <= 16
  }

  /** Words of the payload from word w on, below max. */
  function PayloadWords(w: nat, payload: seq<byte>, max: nat): (m: map<nat, nat>) {
    var words := Range(w, if w + |payload| / 2 < max then w + |payload| / 2 else max);
    map a | a in words :: PayloadWord(payload, a - w)
  }

  /** Low bytes of the words of the payload, from cell w on. */
  function PayloadBytes(w: nat, payload: seq<byte>): (m: map<nat, byte>) {
    var cells := Range(w, w + |payload| / 2);
    map a | a in cells :: PayloadByte(payload, a - w)
  }

  /** All cells from base to top, each with the value v. */
  function Filled<T>(base: int, top: int, v: T): (m: map<nat, T>) {
    map a | a in Range(base, top) :: v
  }

  /** Cells of the external EEPROM as they are cleared. */
  function EmptyCells(base: int, top: int): (m: map<nat, byte>) {
    Filled(base, top, 0)
  }

  /** Words of the flash as they are erased. */
  function EmptyWords(base: int, top: int): (m: map<nat, nat>) {
    Filled(base, top, ERASED_WORD)
  }

  /** Last block of 32 words a record in the external EEPROM reaches. */
  function LastBlock(w: nat, payload: seq<byte>): (b: nat) {
    if RunsOver(w, payload) then w / 32 + 1 else w / 32
  }

  /** First external EEPROM cell of a block. */
  function EeepromBase(block: nat): (a: int) {
    32 * block - SERIAL_EEPROM_MIN_ADR
  }

  /** m with the cells from base to top, where it has none yet, set to v, and then with those of p. */
  function Overwritten<T>(m: map<nat, T>, p: map<nat, T>, base: int, top: int, v: T): (m': map<nat, T>) {
    Filled(base, top, v) + m + p
  }

  /** The flash after a record: its words, below max; a block written for the first time is erased first. */
  function FlashAfter(flash: map<nat, nat>, w: nat, payload: seq<byte>, max: nat): (flash': map<nat, nat>) {
    var base := 32 * (w / 32);
    Overwritten(flash, PayloadWords(w, payload, max), base, base + 32, ERASED_WORD)
  }

  /** The flash after a record, address by address. */
  lemma WordOfBlock(f: map<nat, nat>, w: nat, payload: seq<byte>, max: nat, a: nat)
    ensures var p := PayloadWords(w, payload, max);
            Lookup(FlashAfter(f, w, payload, max), a) ==
            if a in p then Some(p[a]) else if w / 32 == a / 32 && a !in f then Some(ERASED_WORD) else Lookup(f, a)
  {
    assert Between(32 * (w / 32), a, 32 * (w / 32) + 32) <==> w / 32 == a / 32;
  }

  /**
   * The external EEPROM after a record that starts at cell j of the block at base: the low bytes; the
   * block, and the next one if the record runs over, is cleared first when written for the first time.
   */
  function EeepromAfter(cells: map<nat, byte>, base: nat, j: nat, payload: seq<byte>): (cells': map<nat, byte>) {
    Overwritten(cells, PayloadBytes(base + j, payload), base, if j + |payload| / 2 > 32 then base + 64 else base + 32, 0)
  }

  /** Whether a record reaches the block behind that of its first word. */
  predicate RunsOver(w: nat, payload: seq<byte>) {
    w % 32 + |payload| / 2 > 32
  }

  /** A data record writes its words into the area its address lies in. */
  function Write(m: Memory, w: nat, payload: seq<byte>): (m': Memory) {
    match AreaOf(w)
    case Eeeprom => m.(eeeprom := EeepromAfter(m.eeeprom, EeepromBase(w / 32), w % 32, payload))
    case Flash(max) => m.(flash := FlashAfter(m.flash, w, payload, max))
    case Eeprom => m.(eeprom := m.eeprom + PayloadBytes(w - PIC_EEPROM_MIN, payload))
    case Nowhere => m
  }

  function WriteRecord(m: Memory, hi: nat, r: Record): (m': Memory) {
    if r.kind == 0 then Write(m, FirstWord(hi, r), r.payload) else m
  }

  /** The memories after all records. */
  function Meaning(m: Memory, hi: nat, records: seq<Record>): (m': Memory)
    decreases |records|
  {
    if records == [] then m
    else Meaning(WriteRecord(m, hi, records[0]), HiAfter(hi, records[0]), records[1..])
  }

  /** The data of a file: payloads, each with the address of its first word. */
  datatype Chunk = Chunk(w: nat, payload: seq<byte>)

  function ChunksOf(hi: nat, records: seq<Record>): (chunks: seq<Chunk>)
    decreases |records|
  {
    if records == [] then []
    else
      var r := records[0];
      (if r.kind == 0 then [Chunk(FirstWord(hi, r), r.payload)] else []) + ChunksOf(HiAfter(hi, r), records[1..])
  }

  // ---------------------------------------------------------------- what the compiler makes of a file

  /** The block the compiler works on after a record, 0 for none. */
  function CurAfter(w: nat, payload: seq<byte>, cur: nat): (cur': nat) {
    match AreaOf(w)
    case Eeeprom => LastBlock(w, payload)
    case Flash(_) => w / 32
    case Eeprom => 0
    case Nowhere => cur
  }

  /** The cells from the first to behind the last of the blocks a record begins. */
  function Begun(w: nat, payload: seq<byte>, cur: nat): (r: (int, int)) {
    (EeepromBase(if w / 32 == cur then w / 32 + 1 else w / 32), EeepromBase(LastBlock(w, payload) + 1))
  }

  /** The cells of the external EEPROM, with the blocks a record begins emptied. */
  function CellsEmptied(cells: map<nat, byte>, w: nat, payload: seq<byte>, cur: nat): (cells': map<nat, byte>) {
    cells + EmptyCells(Begun(w, payload, cur).0, Begun(w, payload, cur).1)
  }

  /** The memories with the blocks a record begins emptied. */
  function Emptied(m: Memory, w: nat, payload: seq<byte>, cur: nat): (m': Memory) {
    match AreaOf(w)
    case Eeeprom => m.(eeeprom := CellsEmptied(m.eeeprom, w, payload, cur))
    case Flash(_) =>
      if w / 32 == cur then m
      else m.(flash := m.flash + EmptyWords(32 * (w / 32), 32 * (w / 32) + 32))
    case _ => m
  }

  /** The block behind the external EEPROM, for what runs past its end; the compiler takes it for a flash block. */
  const BEYOND := 80

  /** Its first cell, and, taken for a flash block, its first word. */
  const BEYOND_ADR := 0x800

  function CellOr0(cells: map<nat, byte>, a: nat): (b: byte) {
    if a in cells then cells[a] else 0
  }

  /** The two cells that become the word at a, of words from base on. */
  function PairAt(cells: map<nat, byte>, base: nat, a: nat): (n: nat)
    requires base <= a
  {
    Number(CellOr0(cells, base + 2 * (a - base)), CellOr0(cells, base + 2 * (a - base) + 1))
  }

  /** Cells two by two, as flash words from the first of them on. */
  function PairWords(cells: map<nat, byte>, base: nat): (words: map<nat, nat>) {
    var range := Range(base, base + 16);
    map a | a in range :: PairAt(cells, base, a)
  }

  lemma PairReads(cells: map<nat, byte>, base: nat, a: nat)
    ensures Lookup(PairWords(cells, base), a) == if Between(base, a, base + 16) then Some(PairAt(cells, base, a)) else None
  {
  }

  /** What was left over for the block behind the external EEPROM goes to the flash instead. */
  function Misdirected(m: Memory): (m': Memory) {
    m.(flash := m.flash + PairWords(m.eeeprom, BEYOND_ADR), eeeprom := m.eeeprom - Range(BEYOND_ADR, BEYOND_ADR + 32))
  }

  /** The memories with what is pending, and the block worked on. */
  datatype Stand = Stand(m: Memory, cur: nat)

  /** As the next data record finds it. */
  function Found(s: Stand): (s': Stand) {
    if s.cur == BEYOND then Stand(Misdirected(s.m), 0) else s
  }

  /** A data record writes what it means, once the blocks it begins are emptied. */
  function Added(s: Stand, c: Chunk): (s': Stand) {
    Stand(Write(Emptied(Found(s).m, c.w, c.payload, Found(s).cur), c.w, c.payload),
          CurAfter(c.w, c.payload, Found(s).cur))
  }

  /** What the compiler makes of the data of a file. */
  function Compiled(s: Stand, chunks: seq<Chunk>): (s': Stand)
    decreases |chunks|
  {
    if chunks == [] then s else Compiled(Added(s, chunks[0]), chunks[1..])
  }

  /** A data record that the compiler neither refuses nor puts over the border of two halves. */
  predicate Storable(c: Chunk) {
    match AreaOf(c.w)
    case Flash(max) => WithinHalf(c.w, c.payload, max)
    case Eeprom => c.w + |c.payload| / 2 <= PIC_EEPROM_MAX
    case _ => true
  }

  /** All records are well formed, and the data records storable. */
  predicate AllStorable(records: seq<Record>, hi: nat)
    decreases |records|
  {
    records == [] ||
    var r := records[0];
    && WellFormed(hi, r) && (r.kind == 0 ==> Storable(Chunk(FirstWord(hi, r), r.payload)))
    && AllStorable(records[1..], HiAfter(hi, r))
  }

  // ---------------------------------------------------------------- the files the compiler is right on

  /**
   * The block the compiler works on (0 for none) after a record, and the blocks begun so far.  A
   * record may go on with the current block or begin new ones, but not go back to an older one.
   */
  ghost predicate Placed(w: nat, payload: seq<byte>, cur: nat, seen: set<nat>) {
    var n := |payload| / 2;
    match AreaOf(w)
    case Eeeprom =>
      && w + n <= SERIAL_EEPROM_MAX_ADR + 1
      && (w / 32 == cur || w / 32 !in seen)
      && (RunsOver(w, payload) ==> w / 32 + 1 !in seen)
    case Flash(max) =>
      && WithinHalf(w, payload, max)
      && (w / 32 == cur || w / 32 !in seen)
    case Eeprom => w + n <= PIC_EEPROM_MAX
    case Nowhere => true
  }

  ghost function SeenAfter(w: nat, payload: seq<byte>, seen: set<nat>): (seen': set<nat>) {
    match AreaOf(w)
    case Eeeprom => seen + {w / 32, LastBlock(w, payload)}
    case Flash(_) => seen + {w / 32}
    case _ => seen
  }

  /** A record as the compiler expects it: even, at most 58 bytes, an address below 0x20000. */
  predicate WellFormed(hi: nat, r: Record) {
    && r.offset < 0x10000 && |r.payload| <= 58
    && (r.kind == 0 ==> hi < 2 && r.offset % 2 == 0 && |r.payload| % 2 == 0)
    && (r.kind == 4 ==> |r.payload| == 2)
  }

  ghost predicate Proper(records: seq<Record>, hi: nat, cur: nat, seen: set<nat>)
    decreases |records|
  {
    records == [] ||
    var r := records[0];
    var w := FirstWord(hi, r);
    && WellFormed(hi, r)
    && if r.kind == 0 then
         Placed(w, r.payload, cur, seen) &&
         Proper(records[1..], hi, CurAfter(w, r.payload, cur), SeenAfter(w, r.payload, seen))
       else Proper(records[1..], HiAfter(hi, r), cur, seen)
  }

  // ---------------------------------------------------------------- replaying uploads

  /** Word i of a flash packet. */
  function PacketWord(data: seq<byte>, i: nat): (n: nat)
    requires |data| == 34 && i < 16
  {
    Number(data[2 * i + 2], data[2 * i + 3])
  }

  /** The words of a flash packet, behind its header. */
  function PacketWords(data: seq<byte>): (m: map<nat, nat>)
    requires |data| == 34
  {
    var base := Number(data[0], data[1]);
    var words := Range(base, base + 16);
    map a | a in words :: PacketWord(data, a - base)
  }

  lemma PacketReads(data: seq<byte>, base: nat, a: nat)
    requires |data| == 34 && Number(data[0], data[1]) == base
    ensures Lookup(PacketWords(data), a) == if Between(base, a, base + 16) then Some(PacketWord(data, a - base)) else None
  {
  }

  /** The bytes of an EEPROM packet, behind its header. */
  function PacketBytes(data: seq<byte>): (m: map<nat, byte>)
    requires |data| >= 2
  {
    var base := Number(data[0], data[1]);
    var cells := Range(base, base + |data| - 2);
    map a | a in cells :: data[a - base + 2]
  }

  function Replay(m: Memory, u: Upload): (m': Memory) {
    if u.target == TARGET_FLASH_W && |u.data| == 34 then m.(flash := m.flash + PacketWords(u.data))
    else if u.target == TARGET_EEEPROM_W && |u.data| >= 2 then m.(eeeprom := m.eeeprom + PacketBytes(u.data))
    else if u.target == TARGET_EEPROM_W && |u.data| >= 2 then m.(eeprom := m.eeprom + PacketBytes(u.data))
    else m
  }

  function ReplayAll(m: Memory, log: seq<Upload>): (m': Memory)
    decreases |log|
  {
    if log == [] then m else ReplayAll(Replay(m, log[0]), log[1..])
  }

  lemma {:induction false} ReplayJoin(m: Memory, a: seq<Upload>, b: seq<Upload>)
    ensures ReplayAll(m, a + b) == ReplayAll(ReplayAll(m, a), b)
    decreases |a|
  {
    if a == [] {
      assert a + b == b;
    } else {
      assert (a + b)[1..] == a[1..] + b;
      ReplayJoin(Replay(m, a[0]), a[1..], b);
    }
  }
}
