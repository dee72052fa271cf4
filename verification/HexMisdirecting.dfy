/** What becomes of records that run past the end of the external EEPROM. */
module HexMisdirecting {
  import opened Bytes
  import opened Wrappers
  import opened HexMemory
  import opened HexCorrectness
  import opened HexContents
  import opened HexForgetting

  /** What a record that runs past the end leaves over: cell k behind the end. */
  function LeftCell(c: Chunk, k: nat): (b: byte) {
    if 32 + k < c.w % 32 + |c.payload| / 2 then PayloadByte(c.payload, 32 + k - c.w % 32) else 0
  }

  /** Two by two, as words. */
  function LeftWord(c: Chunk, i: nat): (w: nat) {
    Number(LeftCell(c, 2 * i), LeftCell(c, 2 * i + 1))
  }

  /** Chunk i is the last that runs past the end before another one comes. */
  ghost predicate LastStray(chunks: seq<Chunk>, i: nat) {
    i + 1 < |chunks| && PastEnd(chunks[i]) && forall j :: i < j < |chunks| - 1 ==> !PastEnd(chunks[j])
  }

  /** Cell k behind the end: as left over by the last record, and none if that did not run past the end. */
  predicate CellBeyond(m: Memory, chunks: seq<Chunk>, k: nat) {
    Lookup(m.eeeprom, BEYOND_ADR + k) ==
    if chunks != [] && PastEnd(chunks[|chunks| - 1]) then Some(LeftCell(chunks[|chunks| - 1], k)) else None
  }

  /**
   * Word k of the flash from 0x800 on: as left over by the last record past the end that another one
   * followed, and none if there is none.
   */
  ghost predicate WordBeyond(m: Memory, chunks: seq<Chunk>, k: nat) {
    && (!Strays(chunks) ==> Lookup(m.flash, BEYOND_ADR + k) == None)
    && (forall i: nat :: LastStray(chunks, i) ==> Lookup(m.flash, BEYOND_ADR + k) == Some(LeftWord(chunks[i], k)))
  }

  lemma PastEndCell(m: Memory, c: Chunk, cur: nat, k: nat)
    requires k < 32 && PastEnd(c) && |c.payload| <= 58
    ensures Lookup(Write(Emptied(m, c.w, c.payload, cur), c.w, c.payload).eeeprom, BEYOND_ADR + k) == Some(LeftCell(c, k))
  {
    var empty := Emptied(m, c.w, c.payload, cur);
    var a := BEYOND_ADR + k;
    BegunIs(c.w, c.payload, cur);
    CellEmptied(m, c, cur, a);
    CellWritten(empty, c, a);
    assert c.w / 32 == 79 && c.w % 32 == c.w - 32 * 79;
  }

  lemma NoCellBeyond(m: Memory, c: Chunk, cur: nat, k: nat)
    requires k < 32 && !PastEnd(c) && |c.payload| <= 58 && BEYOND_ADR + k !in m.eeeprom
    ensures BEYOND_ADR + k !in Write(Emptied(m, c.w, c.payload, cur), c.w, c.payload).eeeprom
  {
    var empty := Emptied(m, c.w, c.payload, cur);
    var a := BEYOND_ADR + k;
    NotTouchedBeyond(c, cur, k);
    CellEmptied(m, c, cur, a);
    CellWritten(empty, c, a);
  }

  lemma NotTouchedBeyond(c: Chunk, cur: nat, k: nat)
    requires k < 32 && !PastEnd(c)
    ensures !BeginsCell(c, cur, BEYOND_ADR + k) && !TouchesCell(c, BEYOND_ADR + k)
  {
    BegunIs(c.w, c.payload, cur);
  }

  lemma NoWordBeyond(m: Memory, c: Chunk, cur: nat, k: nat)
    requires k < 16
    ensures Lookup(Write(Emptied(m, c.w, c.payload, cur), c.w, c.payload).flash, BEYOND_ADR + k) ==
            Lookup(m.flash, BEYOND_ADR + k)
  {
    var empty := Emptied(m, c.w, c.payload, cur);
    WordEmptied(m, c, cur, BEYOND_ADR + k);
    WordWritten(empty, c, BEYOND_ADR + k);
  }
  /** Misdirecting, as seen from behind the end. */
  lemma MisdirectedBeyond(m: Memory, chunks: seq<Chunk>, k: nat)
    requires chunks != [] && PastEnd(chunks[|chunks| - 1])
    requires forall k: nat :: k < 32 ==> CellBeyond(m, chunks, k)
    ensures k < 16 ==> Lookup(Misdirected(m).flash, BEYOND_ADR + k) == Some(LeftWord(chunks[|chunks| - 1], k))
    ensures k < 32 ==> BEYOND_ADR + k !in Misdirected(m).eeeprom
  {
    if k < 16 {
      assert CellBeyond(m, chunks, 2 * k) && CellBeyond(m, chunks, 2 * k + 1);
    }
  }

  /** How the last stray goes on with one more chunk. */
  lemma StrayOneMore(chunks: seq<Chunk>)
    requires |chunks| > 0
    ensures var front := chunks[..|chunks| - 1];
            if front != [] && PastEnd(front[|front| - 1]) then
              Strays(chunks) && forall i: nat :: LastStray(chunks, i) ==> i == |chunks| - 2
            else (Strays(chunks) <==> Strays(front)) && forall i: nat :: LastStray(chunks, i) ==> LastStray(front, i)
  {
    var front := chunks[..|chunks| - 1];
    assert forall i :: 0 <= i < |front| ==> front[i] == chunks[i];
    if front != [] && PastEnd(front[|front| - 1]) {
      assert PastEnd(chunks[|chunks| - 2]);
    } else {
      if Strays(front) {
        var i :| 0 <= i < |front| - 1 && PastEnd(front[i]);
        assert PastEnd(chunks[i]);
      }
      if Strays(chunks) {
        var i :| 0 <= i < |chunks| - 1 && PastEnd(chunks[i]);
        assert PastEnd(front[i]);
      }
    }
  }

  lemma {:induction false} CompiledBeyond(chunks: seq<Chunk>)
    requires Short(chunks)
    ensures var m := Compiled(START, chunks).m;
            && (forall k: nat :: k < 32 ==> CellBeyond(m, chunks, k))
            && (forall k: nat :: k < 16 ==> WordBeyond(m, chunks, k))
    decreases |chunks|
  {
    if chunks != [] {
      var (front, c) := (chunks[..|chunks| - 1], chunks[|chunks| - 1]);
      FrontStrays(chunks);
      CompiledBeyond(front);
      CompiledOneMore(START, chunks);
      CurIs(front);
      CurBeyond(front);
      var s := Compiled(START, front);
      forall k: nat | k < 32
        ensures CellBeyond(Added(s, c).m, chunks, k)
      {
        CellAdded(s, chunks, k);
      }
      forall k: nat | k < 16
        ensures WordBeyond(Added(s, c).m, chunks, k)
      {
        WordAdded(s, chunks, k);
      }
    }
  }

  /** Behind front, the state is as it should be. */
  ghost predicate Ready(s: Stand, front: seq<Chunk>) {
    && (s.cur == BEYOND <==> front != [] && PastEnd(front[|front| - 1]))
    && (forall k: nat :: k < 32 ==> CellBeyond(s.m, front, k))
    && (forall k: nat :: k < 16 ==> WordBeyond(s.m, front, k))
  }

  lemma CellAdded(s: Stand, chunks: seq<Chunk>, k: nat)
    requires chunks != [] && |chunks[|chunks| - 1].payload| <= 58 && k < 32 && Ready(s, chunks[..|chunks| - 1])
    ensures CellBeyond(Added(s, chunks[|chunks| - 1]).m, chunks, k)
  {
    var (front, c) := (chunks[..|chunks| - 1], chunks[|chunks| - 1]);
    if PastEnd(c) {
      PastEndCell(Found(s).m, c, Found(s).cur, k);
    } else {
      assert CellBeyond(s.m, front, k);
      if s.cur == BEYOND {
        MisdirectedBeyond(s.m, front, k);
      }
      NoCellBeyond(Found(s).m, c, Found(s).cur, k);
    }
  }

  lemma WordAdded(s: Stand, chunks: seq<Chunk>, k: nat)
    requires chunks != [] && k < 16 && Ready(s, chunks[..|chunks| - 1])
    ensures WordBeyond(Added(s, chunks[|chunks| - 1]).m, chunks, k)
  {
    var (front, c) := (chunks[..|chunks| - 1], chunks[|chunks| - 1]);
    assert forall i :: 0 <= i < |front| ==> front[i] == chunks[i];
    StrayOneMore(chunks);
    NoWordBeyond(Found(s).m, c, Found(s).cur, k);
    if s.cur == BEYOND {
      MisdirectedBeyond(s.m, front, k);
    } else {
      assert WordBeyond(s.m, front, k);
    }
  }
}
