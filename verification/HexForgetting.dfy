/** Files whose records come back to blocks: what they leave, address by address. */
module HexForgetting {
  import opened Wrappers
  import opened HexCompiling
  import opened HexMemory
  import opened HexCorrectness
  import opened HexFiles
  import opened HexContents

  // ---------------------------------------------------------------- chunk after chunk

  const START := Stand(BLANK, 0)

  lemma {:induction false} CompiledOneMore(s: Stand, chunks: seq<Chunk>)
    requires chunks != []
    ensures Compiled(s, chunks) == Added(Compiled(s, chunks[..|chunks| - 1]), chunks[|chunks| - 1])
    decreases |chunks|
  {
    var s1, rest := Added(s, chunks[0]), chunks[1..];
    FrontOfRest(chunks);
    if rest == [] {
      assert Compiled(s1, rest) == s1;
    } else {
      CompiledOneMore(s1, rest);
    }
  }

  lemma FrontOfRest(chunks: seq<Chunk>)
    requires chunks != []
    ensures var (front, rest) := (chunks[..|chunks| - 1], chunks[1..]);
            if rest == [] then front == []
            else front[0] == chunks[0] && front[1..] == rest[..|rest| - 1] && rest[|rest| - 1] == chunks[|chunks| - 1]
  {
  }

  /** The block worked on after chunks. */
  function CurOf(chunks: seq<Chunk>): (cur: nat) {
    if chunks == [] then 0
    else
      var before := CurOf(chunks[..|chunks| - 1]);
      CurAfter(chunks[|chunks| - 1].w, chunks[|chunks| - 1].payload, if before == BEYOND then 0 else before)
  }

  lemma {:induction false} CurIs(chunks: seq<Chunk>)
    ensures Compiled(START, chunks).cur == CurOf(chunks)
    decreases |chunks|
  {
    if chunks != [] {
      CompiledOneMore(START, chunks);
      CurIs(chunks[..|chunks| - 1]);
    }
  }

  /** The record runs past the end of the external EEPROM. */
  predicate PastEnd(c: Chunk) {
    AreaOf(c.w) == Eeeprom && c.w + |c.payload| / 2 > SERIAL_EEPROM_MAX_ADR + 1
  }

  /** A record past the end comes before another one. */
  ghost predicate Strays(chunks: seq<Chunk>) {
    exists i :: 0 <= i < |chunks| - 1 && PastEnd(chunks[i])
  }

  predicate Short(chunks: seq<Chunk>) {
    forall c :: c in chunks ==> |c.payload| <= 58
  }

  lemma CurBeyond(chunks: seq<Chunk>)
    requires Short(chunks)
    ensures CurOf(chunks) == BEYOND <==> chunks != [] && PastEnd(chunks[|chunks| - 1])
  {
    if chunks != [] {
      var c := chunks[|chunks| - 1];
      assert c in chunks;
    }
  }

  // ---------------------------------------------------------------- what one chunk does to an address

  /** Address a from f to f', with the block of a emptied if the chunk begins it. */
  predicate Turn<T(==)>(f: map<nat, T>, f': map<nat, T>, a: nat, v: View<T>, c: Chunk, cur: nat) {
    && (a in f' <==> a in f || v.touches(c))
    && (v.gives(c) ==> a in f' && f'[a] == v.value(c))
    && (a in f' && !v.gives(c) ==> f'[a] == if a in f && !v.begins(c, cur) then f[a] else v.rest)
  }

  /** Emptying a block, as seen from a. */
  predicate Emptying<T(==)>(f: map<nat, T>, f': map<nat, T>, a: nat, v: View<T>, c: Chunk, cur: nat) {
    Lookup(f', a) == if v.begins(c, cur) then Some(v.rest) else Lookup(f, a)
  }

  lemma EmptyThenWrite<T>(f: map<nat, T>, empty: map<nat, T>, f': map<nat, T>, a: nat, v: View<T>, c: Chunk, cur: nat)
    requires Emptying(f, empty, a, v, c, cur) && HexContents.Step(empty, f', a, v, c)
    requires v.begins(c, cur) ==> v.touches(c)
    ensures Turn(f, f', a, v, c, cur)
  {
  }

  lemma WordEmptied(m: Memory, c: Chunk, cur: nat, a: nat)
    ensures Emptying(m.flash, Emptied(m, c.w, c.payload, cur).flash, a, FlashView(a), c, cur)
  {
    if AreaOf(c.w).Flash? && c.w / 32 != cur {
      EmptyReads(m.flash, 32 * (c.w / 32), a);
      assert Between(32 * (c.w / 32), a, 32 * (c.w / 32) + 32) <==> c.w / 32 == a / 32;
    }
  }

  lemma CellEmptied(m: Memory, c: Chunk, cur: nat, a: nat)
    ensures Emptying(m.eeeprom, Emptied(m, c.w, c.payload, cur).eeeprom, a, EeepromView(a), c, cur)
  {
  }

  lemma BeginsTouches(c: Chunk, cur: nat, a: nat)
    ensures FlashView(a).begins(c, cur) ==> FlashView(a).touches(c)
    ensures EeepromView(a).begins(c, cur) ==> EeepromView(a).touches(c)
  {
    if BeginsCell(c, cur, a) {
      BegunIs(c.w, c.payload, cur);
    }
  }

  /** Whether misdirected data stays away from address a of both memories. */
  predicate Away(a: nat) {
    a < BEYOND_ADR || BEYOND_ADR + 32 <= a
  }

  lemma MisdirectedAway(m: Memory, a: nat)
    requires Away(a)
    ensures Lookup(Misdirected(m).flash, a) == Lookup(m.flash, a)
    ensures Lookup(Misdirected(m).eeeprom, a) == Lookup(m.eeeprom, a)
  {
  }

  lemma BeginsBeyond(c: Chunk, a: nat)
    ensures FlashView(a).begins(c, BEYOND) == FlashView(a).begins(c, 0)
    ensures EeepromView(a).begins(c, BEYOND) == EeepromView(a).begins(c, 0)
  {
  }

  /** One data record, as seen from an address that misdirected data does not reach. */
  ghost predicate Turns(s: Stand, a: nat, c: Chunk) {
    var m' := Added(s, c).m;
    && Turn(s.m.flash, m'.flash, a, FlashView(a), c, s.cur)
    && Turn(s.m.eeeprom, m'.eeeprom, a, EeepromView(a), c, s.cur)
    && Turn(s.m.eeprom, m'.eeprom, a, EepromView(a), c, s.cur)
  }

  lemma FoundTurns(s: Stand, c: Chunk, a: nat)
    requires s.cur != BEYOND
    ensures Turns(s, a, c)
  {
    var empty := Emptied(s.m, c.w, c.payload, s.cur);
    var m' := Added(s, c).m;
    WordEmptied(s.m, c, s.cur, a);
    CellEmptied(s.m, c, s.cur, a);
    BeginsTouches(c, s.cur, a);
    WordWritten(empty, c, a);
    CellWritten(empty, c, a);
    ByteWritten(empty, c, a);
    EmptyThenWrite(s.m.flash, empty.flash, m'.flash, a, FlashView(a), c, s.cur);
    EmptyThenWrite(s.m.eeeprom, empty.eeeprom, m'.eeeprom, a, EeepromView(a), c, s.cur);
    EmptyThenWrite(s.m.eeprom, empty.eeprom, m'.eeprom, a, EepromView(a), c, s.cur);
  }

  lemma AddedTurns(s: Stand, c: Chunk, a: nat)
    requires Away(a) || s.cur != BEYOND
    ensures Turns(s, a, c)
  {
    if s.cur == BEYOND {
      FoundTurns(Found(s), c, a);
      assert Added(Found(s), c) == Added(s, c);
      MisdirectedAway(s.m, a);
      BeginsBeyond(c, a);
    } else {
      FoundTurns(s, c, a);
    }
  }

  // ---------------------------------------------------------------- all chunks

  /** A chunk behind i begins the block anew. */
  ghost predicate Reopened<T>(v: View<T>, chunks: seq<Chunk>, i: nat) {
    exists j: nat :: i < j < |chunks| && v.begins(chunks[j], CurOf(chunks[..j]))
  }

  /**
   * Address a of f is written if a chunk touches it; it holds the value that the last chunk which gives
   * one gives, unless the block was begun anew since then: then, or if none gives one, the rest value.
   */
  ghost predicate Leaves<T>(f: map<nat, T>, a: nat, v: View<T>, chunks: seq<Chunk>) {
    && (a in f <==> Any(v.touches, chunks))
    && (forall i: nat :: IsLast(v.gives, chunks, i) ==>
          Lookup(f, a) == Some(if Reopened(v, chunks, i) then v.rest else v.value(chunks[i])))
    && (a in f && !Any(v.gives, chunks) ==> f[a] == v.rest)
  }

  lemma StillReopened<T>(v: View<T>, front: seq<Chunk>, c: Chunk, i: nat)
    requires Reopened(v, front, i)
    ensures Reopened(v, front + [c], i)
  {
    var chunks := front + [c];
    var j: nat :| i < j < |front| && v.begins(front[j], CurOf(front[..j]));
    assert chunks[j] == front[j] && chunks[..j] == front[..j];
    assert v.begins(chunks[j], CurOf(chunks[..j]));
  }

  lemma NowReopened<T>(v: View<T>, front: seq<Chunk>, c: Chunk, i: nat)
    requires i < |front| && v.begins(c, CurOf(front))
    ensures Reopened(v, front + [c], i)
  {
    var chunks := front + [c];
    var j: nat := |front|;
    assert chunks[j] == c && chunks[..j] == front;
    assert i < j < |chunks| && v.begins(chunks[j], CurOf(chunks[..j]));
  }

  lemma NotReopened<T>(v: View<T>, front: seq<Chunk>, c: Chunk, i: nat)
    requires Reopened(v, front + [c], i) && !v.begins(c, CurOf(front))
    ensures Reopened(v, front, i)
  {
    var chunks := front + [c];
    var j: nat :| i < j < |chunks| && v.begins(chunks[j], CurOf(chunks[..j]));
    assert chunks[|front|] == c && chunks[..|front|] == front;
    assert chunks[j] == front[j] && chunks[..j] == front[..j];
    assert v.begins(front[j], CurOf(front[..j]));
  }

  lemma ReopenedOneMore<T>(v: View<T>, chunks: seq<Chunk>, i: nat)
    requires i < |chunks| - 1
    ensures var (front, c) := (chunks[..|chunks| - 1], chunks[|chunks| - 1]);
            Reopened(v, chunks, i) <==> Reopened(v, front, i) || v.begins(c, CurOf(front))
  {
    var (front, c) := (chunks[..|chunks| - 1], chunks[|chunks| - 1]);
    assert chunks == front + [c];
    if v.begins(c, CurOf(front)) {
      NowReopened(v, front, c, i);
    } else if Reopened(v, front, i) {
      StillReopened(v, front, c, i);
    } else if Reopened(v, chunks, i) {
      NotReopened(v, front, c, i);
    }
  }

  lemma LeavesOneMore<T>(f: map<nat, T>, f': map<nat, T>, a: nat, v: View<T>, chunks: seq<Chunk>)
    requires chunks != [] && Leaves(f, a, v, chunks[..|chunks| - 1])
    requires Turn(f, f', a, v, chunks[|chunks| - 1], CurOf(chunks[..|chunks| - 1]))
    ensures Leaves(f', a, v, chunks)
  {
    var (front, c) := (chunks[..|chunks| - 1], chunks[|chunks| - 1]);
    OneMore(v.touches, chunks);
    OneMore(v.gives, chunks);
    forall i: nat | IsLast(v.gives, chunks, i)
      ensures Lookup(f', a) == Some(if Reopened(v, chunks, i) then v.rest else v.value(chunks[i]))
    {
      if i < |front| {
        ReopenedOneMore(v, chunks, i);
        assert IsLast(v.gives, front, i) && front[i] == chunks[i];
      }
    }
  }

  /** Address a of all memories. */
  ghost predicate AllLeave(m: Memory, a: nat, chunks: seq<Chunk>) {
    && Leaves(m.flash, a, FlashView(a), chunks)
    && Leaves(m.eeeprom, a, EeepromView(a), chunks)
    && Leaves(m.eeprom, a, EepromView(a), chunks)
  }

  lemma {:induction false} CompiledLeaves(chunks: seq<Chunk>, a: nat)
    requires Short(chunks) && (Away(a) || !Strays(chunks))
    ensures AllLeave(Compiled(START, chunks).m, a, chunks)
    decreases |chunks|
  {
    if chunks != [] {
      var (front, c) := (chunks[..|chunks| - 1], chunks[|chunks| - 1]);
      FrontStrays(chunks);
      CompiledLeaves(front, a);
      CompiledOneMore(START, chunks);
      CurIs(front);
      CurBeyond(front);
      var s := Compiled(START, front);
      AddedTurns(s, c, a);
      var m' := Added(s, c).m;
      LeavesOneMore(s.m.flash, m'.flash, a, FlashView(a), chunks);
      LeavesOneMore(s.m.eeeprom, m'.eeeprom, a, EeepromView(a), chunks);
      LeavesOneMore(s.m.eeprom, m'.eeprom, a, EepromView(a), chunks);
    }
  }

  lemma FrontStrays(chunks: seq<Chunk>)
    requires chunks != [] && Short(chunks)
    ensures var front := chunks[..|chunks| - 1];
            && Short(front)
            && (Strays(front) ==> Strays(chunks))
            && (front != [] && PastEnd(front[|front| - 1]) ==> Strays(chunks))
  {
    var front := chunks[..|chunks| - 1];
    assert forall i :: 0 <= i < |front| ==> front[i] == chunks[i];
    if Strays(front) {
      var i :| 0 <= i < |front| - 1 && PastEnd(front[i]);
      assert PastEnd(chunks[i]);
    }
    if front != [] && PastEnd(front[|front| - 1]) {
      assert PastEnd(chunks[|chunks| - 2]);
    }
  }
}
