/**
 * The two reader loops as functions of what the port hands them, and that the messages they deliver
 * do not depend on how it was cut up.
 */
module Feeding {
  import opened Bytes
  import opened Parsing
  import opened ParserTheorems
  import opened Draining

  // ---------------------------------------------------------------- the loops

  /** One wake-up of the Linux loop: a chunk is appended, and a buffer that holds any terminator is drained. */
  function LinuxRead(buffer: ustring, chunk: ustring): (d: Drained) {
    var b := buffer + chunk;
    if CR in b then Drain(b) else Drained([], b)
  }

  function LinuxReads(buffer: ustring, chunks: seq<ustring>): (d: Drained)
    decreases |chunks|
  {
    if chunks == [] then Drained([], buffer)
    else
      var first := LinuxRead(buffer, chunks[0]);
      var others := LinuxReads(first.rest, chunks[1..]);
      Drained(first.events + others.events, others.rest)
  }

  /**
   * What one read of the Windows loop brings: a byte; nothing, when it was waited for; or nothing
   * although it was completed at once, in which case the byte read last is taken for a new one.
   */
  datatype Arrival = Byte(b: byte) | Nought | Stale

  /** The byte the loop holds after a read. */
  function LastRead(byteRead: byte, a: Arrival): (b: byte) {
    if a.Byte? then a.b else byteRead
  }

  /**
   * One read of the Windows loop: a byte is appended, unless nothing came; then, if the last byte
   * read is a terminator, be it this one or an earlier one, the buffer is drained.
   */
  function WindowsRead(buffer: ustring, byteRead: byte, a: Arrival): (d: Drained) {
    var last := LastRead(byteRead, a);
    var b := if a.Nought? then buffer else buffer + [last];
    if last == CR then Drain(b) else Drained([], b)
  }

  function WindowsReads(buffer: ustring, byteRead: byte, arrivals: seq<Arrival>): (d: Drained)
    decreases |arrivals|
  {
    if arrivals == [] then Drained([], buffer)
    else
      var first := WindowsRead(buffer, byteRead, arrivals[0]);
      var others := WindowsReads(first.rest, LastRead(byteRead, arrivals[0]), arrivals[1..]);
      Drained(first.events + others.events, others.rest)
  }

  /** The bytes that are appended to the buffer. */
  function Pushed(byteRead: byte, arrivals: seq<Arrival>): (s: ustring)
    decreases |arrivals|
  {
    if arrivals == [] then []
    else
      var last := LastRead(byteRead, arrivals[0]);
      (if arrivals[0].Nought? then [] else [last]) + Pushed(last, arrivals[1..])
  }

  /** The bytes that came in. */
  function BytesOf(arrivals: seq<Arrival>): (s: ustring) {
    if arrivals == [] then []
    else (if arrivals[0].Byte? then [arrivals[0].b] else []) + BytesOf(arrivals[1..])
  }

  lemma {:induction false} PushedSize(byteRead: byte, arrivals: seq<Arrival>)
    ensures |BytesOf(arrivals)| <= |Pushed(byteRead, arrivals)|
    ensures Stale in arrivals ==> |BytesOf(arrivals)| < |Pushed(byteRead, arrivals)|
    decreases |arrivals|
  {
    if arrivals != [] {
      PushedSize(LastRead(byteRead, arrivals[0]), arrivals[1..]);
      assert Stale in arrivals <==> arrivals[0] == Stale || Stale in arrivals[1..];
    }
  }

  lemma {:induction false} PushedAll(byteRead: byte, arrivals: seq<Arrival>)
    requires Stale !in arrivals
    ensures Pushed(byteRead, arrivals) == BytesOf(arrivals)
    decreases |arrivals|
  {
    if arrivals != [] {
      PushedAll(LastRead(byteRead, arrivals[0]), arrivals[1..]);
    }
  }

  /** The buffer gets exactly the bytes that came in if and only if no read completes at once without one. */
  lemma PushedExactly(byteRead: byte, arrivals: seq<Arrival>)
    ensures Pushed(byteRead, arrivals) == BytesOf(arrivals) <==> Stale !in arrivals
  {
    PushedSize(byteRead, arrivals);
    if Stale !in arrivals {
      PushedAll(byteRead, arrivals);
    }
  }

  // ---------------------------------------------------------------- streams

  /** A message on the wire, perhaps with '>' for '<', and what is to become of it. */
  datatype Item = Item(raw: ustring, event: Event)

  function Stream(items: seq<Item>): (s: ustring) {
    if items == [] then [] else items[0].raw + Stream(items[1..])
  }

  function Events(items: seq<Item>): (events: seq<Event>)
    ensures |events| == |items|
  {
    if items == [] then [] else [items[0].event] + Events(items[1..])
  }

  ghost predicate SolidItem(item: Item) {
    Solid(Fix(item.raw), item.event)
  }

  ghost predicate CutItem(item: Item) {
    CutBefore(Fix(item.raw), item.event)
  }

  /** Item i is cut off whole in its place; the first may also be a line without inner terminator. */
  ghost predicate InPlace(items: seq<Item>, i: nat)
    requires i < |items|
  {
    var m, e := Fix(items[i].raw), items[i].event;
    (if i == |items| - 1 then Final(m, e) else Steady(m, e)) || (i == 0 && Opening(m, e))
  }

  ghost predicate Orderly(items: seq<Item>) {
    forall i :: 0 <= i < |items| ==> InPlace(items, i)
  }

  lemma OrderlyRest(items: seq<Item>, k: nat)
    requires Orderly(items) && k <= |items|
    ensures Orderly(items[k..])
  {
    forall i | 0 <= i < |items| - k
      ensures InPlace(items[k..], i)
    {
      assert InPlace(items, k + i);
    }
  }

  /** Every item ends in a terminator, and those before the last are cut off before what follows. */
  lemma InPlaceFacts(items: seq<Item>, i: nat)
    requires Orderly(items) && i < |items|
    ensures items[i].raw != [] && items[i].raw[|items[i].raw| - 1] == CR
    ensures i < |items| - 1 ==> CutItem(items[i])
  {
    assert InPlace(items, i);
    var m := Fix(items[i].raw);
    assert m[|m| - 1] == CR;
  }

  lemma FixPrefix(s: ustring, k: nat)
    requires 0 < k <= |s|
    ensures Fix(s[..k]) == Fix(s)[..k] && Fix(s) == Fix(s[..k]) + s[k..]
    ensures Fix(Fix(s)) == Fix(s)
  {
    assert s[..k][0] == s[0];
    if s[0] == GT {
      assert s[..k][1..] == s[1..][..k - 1];
      assert s[1..] == s[..k][1..] + s[k..];
    } else {
      assert s == s[..k] + s[k..];
    }
  }

  lemma FixDrain(s: ustring)
    ensures Drain(Fix(s)) == Drain(s)
  {
    assert Fix(Fix(s)) == Fix(s);
  }

  lemma FixAppend(p: ustring, chunk: ustring)
    ensures p != [] ==> Fix(p) + chunk == Fix(p + chunk)
  {
    if p != [] {
      assert (p + chunk)[1..] == p[1..] + chunk;
    }
  }

  /** An item is drained before what follows it. */
  lemma DrainItem(item: Item, more: ustring)
    requires CutItem(item) && more != []
    ensures Drain(item.raw + more) == Drained([item.event] + Drain(more).events, Drain(more).rest)
  {
    var m := Fix(item.raw);
    FixAppend(item.raw, more);
    assert HeadOf(m + more) == Cut(item.event);
    assert (m + more)[|m|..] == more;
  }

  /** Items are drained one by one before what follows them. */
  lemma {:induction false} DrainItems(items: seq<Item>, more: ustring)
    requires more != [] && forall i :: 0 <= i < |items| ==> CutItem(items[i])
    ensures Drain(Stream(items) + more) == Drained(Events(items) + Drain(more).events, Drain(more).rest)
  {
    if items == [] {
      assert [] + more == more;
      assert [] + Drain(more).events == Drain(more).events;
    } else {
      var others := Stream(items[1..]) + more;
      Assoc(items[0].raw, Stream(items[1..]), more);
      DrainItem(items[0], others);
      DrainItems(items[1..], more);
      Assoc([items[0].event], Events(items[1..]), Drain(more).events);
    }
  }

  /** An item that is the whole buffer is drained, or left alone. */
  lemma DrainWhole(item: Item)
    requires Slice(item.event) == Fix(item.raw) != []
    ensures HeadOf(Fix(item.raw)) == Cut(item.event) ==> Drain(item.raw) == Drained([item.event], [])
    ensures HeadOf(Fix(item.raw)) == Nothing ==> Drain(item.raw) == Drained([], Fix(item.raw))
  {
    var m := Fix(item.raw);
    assert m[|m|..] == [];
    assert Drain([]) == Drained([], []);
  }

  lemma {:induction false} StreamSplits(items: seq<Item>, k: nat)
    requires k <= |items|
    ensures Stream(items) == Stream(items[..k]) + Stream(items[k..])
    ensures Events(items) == Events(items[..k]) + Events(items[k..])
  {
    if k == 0 {
      assert items[k..] == items;
    } else {
      StreamSplits(items[1..], k - 1);
      assert items[1..][..k - 1] == items[..k][1..] && items[1..][k - 1..] == items[k..];
      Assoc(items[0].raw, Stream(items[..k][1..]), Stream(items[k..]));
      Assoc([items[0].event], Events(items[..k][1..]), Events(items[k..]));
    }
  }

  lemma WithoutFirst(items: seq<Item>, q: ustring, rest: ustring)
    requires items != [] && q + rest == Stream(items) && |items[0].raw| <= |q|
    ensures q == items[0].raw + q[|items[0].raw|..] && q[|items[0].raw|..] + rest == Stream(items[1..])
  {
    var raw := items[0].raw;
    assert q[..|raw|] == (q + rest)[..|raw|] == raw;
    assert q[|raw|..] + rest == (q + rest)[|raw|..] == Stream(items[1..]);
  }

  lemma FirstAgain(items: seq<Item>, k: nat, p: ustring)
    requires k < |items|
    ensures items[0].raw + (Stream(items[1..][..k]) + p) == Stream(items[..k + 1]) + p
    ensures items[1..][k..] == items[k + 1..]
  {
    assert items[1..][..k] == items[..k + 1][1..];
    Assoc(items[0].raw, Stream(items[1..][..k]), p);
  }

  /** How many whole items a beginning of the stream holds, and what is there of the next one. */
  lemma {:induction false} WholeItems(items: seq<Item>, q: ustring, rest: ustring) returns (k: nat, p: ustring)
    requires q + rest == Stream(items) && forall i :: 0 <= i < |items| ==> items[i].raw != []
    ensures k <= |items| && q == Stream(items[..k]) + p && p + rest == Stream(items[k..])
    ensures if k == |items| then p == [] else |p| < |items[k].raw|
    ensures items != [] && |items[0].raw| <= |q| ==> 0 < k
  {
    if items == [] || |q| < |items[0].raw| {
      k, p := 0, q;
      assert items[k..] == items;
    } else {
      WithoutFirst(items, q, rest);
      k, p := WholeItems(items[1..], q[|items[0].raw|..], rest);
      FirstAgain(items, k, p);
      k := k + 1;
    }
  }

  // ---------------------------------------------------------------- Linux

  /** The buffer holds p, with or without a '>' at its start rewritten. */
  ghost predicate Holds(buffer: ustring, p: ustring) {
    buffer == p || buffer == Fix(p)
  }

  lemma HoldsMore(buffer: ustring, p: ustring, chunk: ustring)
    requires Holds(buffer, p)
    ensures Holds(buffer + chunk, p + chunk)
    ensures Drain(buffer + chunk) == Drain(p + chunk)
    ensures CR in buffer + chunk <==> CR in p + chunk
  {
    var b, q := buffer + chunk, p + chunk;
    if buffer != p {
      FixAppend(p, chunk);
      FixDrain(q);
      FixTerminator(q);
    }
  }

  lemma FixTerminator(s: ustring)
    ensures CR in s <==> CR in Fix(s)
  {
    if s != [] && s[0] == GT {
      assert s == [GT] + s[1..];
    }
  }

  /** Where the loop stands in the stream: before the end of the first item, or behind it while it is left alone. */
  ghost predicate Inside(items: seq<Item>, p: ustring, rest: ustring) {
    && p + rest == Stream(items)
    && if items == [] then p == []
       else |p| < |items[0].raw| || (|items| > 1 && p == items[0].raw && HeadOf(Fix(p)) == Nothing)
  }

  /** A proper beginning of an item is left alone. */
  lemma DrainPart(item: Item, p: ustring)
    requires Undivided(Fix(item.raw)) && |p| < |item.raw| && p == item.raw[..|p|]
    ensures Drain(p) == Drained([], Fix(p))
  {
    if p != [] {
      FixPrefix(item.raw, |p|);
      assert Parse(Fix(item.raw)[..|p|]).NotComplete?;
    }
  }

  lemma PartOf(items: seq<Item>, p: ustring, rest: ustring)
    requires p + rest == Stream(items) && items != [] && |p| <= |items[0].raw|
    ensures p == items[0].raw[..|p|]
  {
    assert p == (p + rest)[..|p|];
  }

  /** A proper beginning of an item, with a terminator in it or behind other items, belongs to one that is undivided. */
  lemma UndividedInside(items: seq<Item>, i: nat, p: ustring)
    requires Orderly(items) && i < |items| && |p| < |items[i].raw| && p == items[i].raw[..|p|]
    requires i > 0 || CR in p
    ensures Undivided(Fix(items[i].raw))
  {
    assert InPlace(items, i);
    var raw := items[i].raw;
    if i == 0 {
      var j :| 0 <= j < |p| && p[j] == CR;
      assert Fix(raw)[j] == CR;
      assert Fix(raw)[..|raw| - 1][j] == CR;
    }
  }

  /** A beginning of the stream that covers the first item has a terminator. */
  lemma TerminatorBehind(items: seq<Item>, q: ustring, rest: ustring)
    requires Orderly(items) && items != [] && q + rest == Stream(items) && |items[0].raw| <= |q|
    ensures CR in q
  {
    InPlaceFacts(items, 0);
    var raw := items[0].raw;
    var i := |raw| - 1;
    assert q[i] == (q + rest)[i] == raw[i];
  }

  /** Draining whole items and a part of the next. */
  lemma DrainMore(items: seq<Item>, k: nat, p: ustring, rest: ustring)
    requires Orderly(items) && k < |items| && p != [] && |p| < |items[k].raw| && p + rest == Stream(items[k..])
    requires k > 0 || CR in p
    ensures Drain(Stream(items[..k]) + p) == Drained(Events(items[..k]), Fix(p))
  {
    CutBeforeLast(items, k);
    PartOf(items[k..], p, rest);
    UndividedInside(items, k, p);
    DrainPart(items[k], p);
    DrainItems(items[..k], p);
  }

  lemma CutBeforeLast(items: seq<Item>, k: nat)
    requires Orderly(items) && k < |items|
    ensures forall i :: 0 <= i < k ==> CutItem(items[..k][i])
  {
    forall i | 0 <= i < k
      ensures CutItem(items[..k][i])
    {
      InPlaceFacts(items, i);
    }
  }

  /** Draining whole items and nothing else, if the last of them is cut off alone, too. */
  lemma DrainCutOff(items: seq<Item>, j: nat)
    requires Orderly(items) && j < |items| && HeadOf(Fix(items[j].raw)) == Cut(items[j].event)
    requires Slice(items[j].event) == Fix(items[j].raw)
    ensures Inside(items[j + 1..], [], Stream(items[j + 1..]))
    ensures Drain(Stream(items[..j]) + items[j].raw) == Drained(Events(items[..j + 1]), [])
  {
    var item := items[j];
    InPlaceFacts(items, j);
    CutBeforeLast(items, j);
    DrainWhole(item);
    DrainItems(items[..j], item.raw);
    EventsOneMore(items, j);
    Units(items, Stream(items[j + 1..]), Stream(items[j + 1..]));
    if j + 1 < |items| {
      InPlaceFacts(items, j + 1);
    }
  }

  /** ... and if it is left alone. */
  lemma DrainLeftAlone(items: seq<Item>, j: nat)
    requires Orderly(items) && j < |items| && HeadOf(Fix(items[j].raw)) == Nothing && j + 1 < |items|
    requires Slice(items[j].event) == Fix(items[j].raw)
    ensures Inside(items[j..], items[j].raw, Stream(items[j + 1..]))
    ensures Drain(Stream(items[..j]) + items[j].raw) == Drained(Events(items[..j]), Fix(items[j].raw))
  {
    var item := items[j];
    InPlaceFacts(items, j);
    CutBeforeLast(items, j);
    DrainWhole(item);
    DrainItems(items[..j], item.raw);
    assert items[j..][1..] == items[j + 1..] && items[j..][0] == item;
    assert Events(items[..j]) + [] == Events(items[..j]);
  }

  /** The last of the items is cut off, or left alone before others. */
  lemma DrainExactly(items: seq<Item>, j: nat) returns (k: nat, p: ustring)
    requires Orderly(items) && j < |items|
    ensures j <= k <= j + 1 && Inside(items[k..], p, Stream(items[j + 1..]))
    ensures Drain(Stream(items[..j]) + items[j].raw) == Drained(Events(items[..k]), Fix(p))
  {
    assert InPlace(items, j);
    AlwaysHead(Fix(items[j].raw), items[j].event);
    if HeadOf(Fix(items[j].raw)) == Cut(items[j].event) {
      k, p := j + 1, [];
      DrainCutOff(items, j);
    } else {
      k, p := j, items[j].raw;
      DrainLeftAlone(items, j);
    }
  }

  /** What is always cut off is cut off alone, too. */
  lemma AlwaysHead(m: ustring, e: Event)
    ensures AlwaysCut(m, e) ==> HeadOf(m) == Cut(e)
  {
    if AlwaysCut(m, e) {
      assert HeadOf(m + []) == Cut(e);
      assert m + [] == m;
    }
  }

  lemma EventsOneMore(items: seq<Item>, j: nat)
    requires j < |items|
    ensures Events(items[..j + 1]) == Events(items[..j]) + [items[j].event]
  {
    StreamSplits(items[..j + 1], j);
    assert items[..j + 1][..j] == items[..j] && items[..j + 1][j..] == [items[j]];
    assert [items[j]][1..] == [];
    assert Events([items[j]]) == [items[j].event] + Events([]);
  }

  /** Draining whole items. */
  lemma DrainItemsOnly(items: seq<Item>, n: nat, q: ustring, rest: ustring) returns (k: nat, p: ustring)
    requires Orderly(items) && 0 < n <= |items| && q == Stream(items[..n]) && rest == Stream(items[n..])
    ensures k <= |items| && Inside(items[k..], p, rest)
    ensures Drain(q) == Drained(Events(items[..k]), Fix(p))
  {
    StreamOneMore(items, n - 1);
    k, p := DrainExactly(items, n - 1);
  }

  /** Draining a beginning of the stream delivers its whole items and keeps what there is of the next. */
  lemma DrainBeginning(items: seq<Item>, q: ustring, rest: ustring) returns (k: nat, p: ustring)
    requires Orderly(items) && q + rest == Stream(items)
    ensures k <= |items| && Inside(items[k..], p, rest)
    ensures CR in q ==> Drain(q) == Drained(Events(items[..k]), Fix(p))
    ensures CR !in q ==> k == 0 && p == q
  {
    forall i | 0 <= i < |items|
      ensures items[i].raw != []
    {
      InPlaceFacts(items, i);
    }
    k, p := WholeItems(items, q, rest);
    Units(items, q, rest);
    if k > 0 {
      StreamFirst(items, k);
      TerminatorBehind(items, q, rest);
    }
    if p != [] {
      if k > 0 || CR in q {
        DrainMore(items, k, p, rest);
      }
    } else if k > 0 {
      Units(items, Stream(items[..k]), rest);
      k, p := DrainItemsOnly(items, k, q, rest);
    }
  }

  lemma Units(items: seq<Item>, q: ustring, rest: ustring)
    ensures items[..0] == [] && items[0..] == items
    ensures Stream([]) + q == q && q + [] == q && [] + rest == rest
  {
  }

  lemma StreamFirst(items: seq<Item>, k: nat)
    requires 0 < k <= |items|
    ensures |items[0].raw| <= |Stream(items[..k])|
  {
    assert Stream(items[..k]) == items[0].raw + Stream(items[..k][1..]);
  }

  lemma StreamOneMore(items: seq<Item>, j: nat)
    requires j < |items|
    ensures Stream(items[..j + 1]) == Stream(items[..j]) + items[j].raw
  {
    StreamSplits(items[..j + 1], j);
    assert items[..j + 1][..j] == items[..j] && items[..j + 1][j..] == [items[j]];
    assert [items[j]][1..] == [];
    assert Stream([items[j]]) == items[j].raw + Stream([]);
  }

  /** One wake-up: whole items are delivered, and the loop stands inside the next one. */
  lemma LinuxWakes(items: seq<Item>, p: ustring, buffer: ustring, chunk: ustring, rest: ustring)
      returns (k: nat, p': ustring)
    requires Orderly(items) && Inside(items, p, chunk + rest) && Holds(buffer, p)
    ensures k <= |items| && Inside(items[k..], p', rest)
    ensures var d := LinuxRead(buffer, chunk);
            d.events == Events(items[..k]) && Holds(d.rest, p')
  {
    assert (p + chunk) + rest == p + (chunk + rest);
    HoldsMore(buffer, p, chunk);
    k, p' := DrainBeginning(items, p + chunk, rest);
    assert items[..0] == [];
  }

  /** However the stream is cut up, the Linux loop delivers its items, in order, and keeps nothing. */
  lemma {:induction false} LinuxDelivers(items: seq<Item>, p: ustring, buffer: ustring, chunks: seq<ustring>)
    requires Orderly(items) && Inside(items, p, Concat(chunks)) && Holds(buffer, p)
    ensures LinuxReads(buffer, chunks) == Drained(Events(items), [])
    decreases |chunks|
  {
    if chunks == [] {
      NothingBehind(items, p);
    } else {
      var rest := Concat(chunks[1..]);
      var k, p' := LinuxWakes(items, p, buffer, chunks[0], rest);
      OrderlyRest(items, k);
      LinuxDelivers(items[k..], p', LinuxRead(buffer, chunks[0]).rest, chunks[1..]);
      StreamSplits(items, k);
    }
  }

  /** At the end of the stream nothing is left. */
  lemma NothingBehind(items: seq<Item>, p: ustring)
    requires Orderly(items) && Inside(items, p, [])
    ensures items == [] && p == []
  {
    if items != [] {
      StreamAtLeast(items);
      if |items| > 1 {
        StreamAtLeast(items[1..]);
        InPlaceFacts(items, 1);
      }
    }
  }

  lemma StreamAtLeast(items: seq<Item>)
    ensures items != [] ==> |Stream(items)| >= |items[0].raw|
  {
  }

  // ---------------------------------------------------------------- Windows

  /** m ends in a terminator, and is left alone at every terminator inside it. */
  ghost predicate Unbroken(m: ustring) {
    && m != [] && m[|m| - 1] == CR
    && forall k :: 0 < k < |m| && m[k - 1] == CR ==> Parse(m[..k]).NotComplete?
  }

  /** Item i is right for the Windows loop: if it is not cut off as the whole buffer, then before what follows it. */
  ghost predicate LineAt(items: seq<Item>, i: nat)
    requires i < |items|
  {
    var m, e := Fix(items[i].raw), items[i].event;
    && Unbroken(m) && Slice(e) == m
    && (HeadOf(m) == Cut(e) || (i < |items| - 1 && HeadOf(m) == Nothing && CutBefore(m, e)))
  }

  ghost predicate Lines(items: seq<Item>) {
    forall i :: 0 <= i < |items| ==> LineAt(items, i)
  }

  lemma LinesRest(items: seq<Item>, k: nat)
    requires Lines(items) && k <= |items|
    ensures Lines(items[k..])
  {
    forall i | 0 <= i < |items| - k
      ensures LineAt(items[k..], i)
    {
      assert LineAt(items, k + i);
    }
  }

  lemma OrderlyLines(items: seq<Item>)
    requires Orderly(items)
    ensures Lines(items)
  {
    forall i | 0 <= i < |items|
      ensures LineAt(items, i)
    {
      assert InPlace(items, i);
      var m, e := Fix(items[i].raw), items[i].event;
      AlwaysHead(m, e);
      if Opening(m, e) {
        NoneInside(m);
      }
    }
  }

  lemma NoneInside(m: ustring)
    requires m != [] && m[|m| - 1] == CR && CR !in m[..|m| - 1]
    ensures Unbroken(m)
  {
    forall j | 0 <= j < |m| - 1
      ensures m[j] != CR
    {
      assert m[..|m| - 1][j] == m[j];
    }
  }

  /**
   * Where the Windows loop stands in the stream: before the end of an item; that is the first one,
   * or, while that is held back, the second.
   */
  ghost predicate Stands(items: seq<Item>, held: bool, p: ustring, rest: ustring) {
    if held then
      && |items| > 1 && HeadOf(Fix(items[0].raw)) == Nothing
      && p + rest == Stream(items[1..]) && |p| < |items[1].raw|
    else p + rest == Stream(items) && if items == [] then p == [] else |p| < |items[0].raw|
  }

  function HeldBytes(items: seq<Item>, held: bool, p: ustring): (s: ustring) {
    if held && items != [] then items[0].raw + p else p
  }

  /** A terminator inside an item delivers nothing. */
  lemma WindowsWaits(item: Item, q: ustring)
    requires Unbroken(Fix(item.raw)) && 0 < |q| < |item.raw| && q == item.raw[..|q|] && q[|q| - 1] == CR
    ensures Drain(q) == Drained([], Fix(q))
  {
    var m := Fix(item.raw);
    var k := |q|;
    FixPrefix(item.raw, k);
    assert m[k - 1] == CR;
    assert Parse(m[..k]).NotComplete?;
  }

  /** A terminator in or at the end of the first item: it is delivered, held back, or gone on with. */
  lemma WindowsEnds(items: seq<Item>, q: ustring, rest: ustring) returns (k: nat, held: bool, p: ustring)
    requires Lines(items) && items != [] && q + rest == Stream(items)
    requires 0 < |q| <= |items[0].raw| && q[|q| - 1] == CR
    ensures k <= 1 && Stands(items[k..], held, p, rest)
    ensures Drain(q) == Drained(Events(items[..k]), Fix(HeldBytes(items[k..], held, p)))
  {
    var item := items[0];
    assert LineAt(items, 0);
    PartOf(items, q, rest);
    assert items[..0] == [] && items[0..] == items;
    if |q| < |item.raw| {
      k, held, p := 0, false, q;
      WindowsWaits(item, q);
    } else {
      assert q == item.raw;
      DrainWhole(item);
      assert rest == (q + rest)[|q|..] == Stream(items)[|q|..] == Stream(items[1..]);
      assert [] + rest == rest;
      if HeadOf(Fix(item.raw)) == Cut(item.event) {
        k, held, p := 1, false, [];
        EventsOneMore(items, 0);
        if |items| > 1 {
          assert LineAt(items, 1);
        }
      } else {
        k, held, p := 0, true, [];
        assert LineAt(items, 1);
        assert item.raw + [] == item.raw;
      }
    }
  }

  /** The same while the first item is held back. */
  lemma WindowsEndsHeld(items: seq<Item>, q: ustring, rest: ustring) returns (k: nat, held: bool, p: ustring)
    requires Lines(items) && |items| > 1 && HeadOf(Fix(items[0].raw)) == Nothing && q + rest == Stream(items[1..])
    requires 0 < |q| <= |items[1].raw| && q[|q| - 1] == CR
    ensures k <= |items| && Stands(items[k..], held, p, rest)
    ensures Drain(items[0].raw + q) == Drained(Events(items[..k]), Fix(HeldBytes(items[k..], held, p)))
  {
    var tail := items[1..];
    LinesRest(items, 1);
    k, held, p := WindowsEnds(tail, q, rest);
    assert LineAt(items, 0);
    DrainItem(items[0], q);
    assert items[..k + 1][1..] == tail[..k] && tail[k..] == items[k + 1..];
    assert Events(items[..k + 1]) == [items[0].event] + Events(items[..k + 1][1..]);
    k := k + 1;
  }

  /** A terminator delivers items, or is one inside an item. */
  lemma WindowsTerminator(items: seq<Item>, held: bool, p: ustring, rest: ustring)
      returns (k: nat, held': bool, p': ustring)
    requires Lines(items) && Stands(items, held, p, [CR] + rest)
    ensures k <= |items| && Stands(items[k..], held', p', rest)
    ensures Drain(HeldBytes(items, held, p) + [CR]) ==
            Drained(Events(items[..k]), Fix(HeldBytes(items[k..], held', p')))
  {
    var q := p + [CR];
    Assoc(p, [CR], rest);
    if held {
      Assoc(items[0].raw, p, [CR]);
      k, held', p' := WindowsEndsHeld(items, q, rest);
    } else {
      k, held', p' := WindowsEnds(items, q, rest);
    }
  }

  /** Any other byte only takes the loop further. */
  lemma WindowsGoesOn(items: seq<Item>, held: bool, p: ustring, b: byte, rest: ustring)
    requires Lines(items) && Stands(items, held, p, [b] + rest) && b != CR
    ensures Stands(items, held, p + [b], rest)
    ensures HeldBytes(items, held, p) + [b] == HeldBytes(items, held, p + [b])
  {
    Assoc(p, [b], rest);
    if held {
      Assoc(items[0].raw, p, [b]);
    }
    NotTheEnd(items, if held then 1 else 0, p + [b], rest);
  }

  /** One byte: it delivers items, or the loop stands one byte further. */
  lemma WindowsByte(items: seq<Item>, held: bool, p: ustring, buffer: ustring, b: byte, rest: ustring)
      returns (k: nat, held': bool, p': ustring)
    requires Lines(items) && Stands(items, held, p, [b] + rest) && Holds(buffer, HeldBytes(items, held, p))
    ensures k <= |items| && Stands(items[k..], held', p', rest)
    ensures var d := WindowsRead(buffer, 0, Byte(b));
            d.events == Events(items[..k]) && Holds(d.rest, HeldBytes(items[k..], held', p'))
  {
    HoldsMore(buffer, HeldBytes(items, held, p), [b]);
    assert items[..0] == [] && items[0..] == items;
    if b == CR {
      k, held', p' := WindowsTerminator(items, held, p, rest);
    } else {
      k, held', p' := 0, held, p + [b];
      WindowsGoesOn(items, held, p, b, rest);
    }
  }

  lemma NotTheEnd(items: seq<Item>, h: nat, q: ustring, rest: ustring)
    requires Lines(items) && h < |items| && q + rest == Stream(items[h..])
    requires 0 < |q| <= |items[h].raw| && q[|q| - 1] != CR
    ensures |q| < |items[h].raw|
  {
    assert LineAt(items, h);
    PartOf(items[h..], q, rest);
    var raw := items[h].raw;
    assert Fix(raw)[|raw| - 1] == CR;
  }

  /** One arrival with a byte. */
  lemma WindowsArrives(items: seq<Item>, held: bool, p: ustring, buffer: ustring, byteRead: byte, a: Arrival, rest: ustring)
      returns (k: nat, held': bool, p': ustring)
    requires !a.Nought? && Lines(items) && Stands(items, held, p, [LastRead(byteRead, a)] + rest)
    requires Holds(buffer, HeldBytes(items, held, p))
    ensures k <= |items| && Lines(items[k..]) && Stands(items[k..], held', p', rest)
    ensures Events(items) == Events(items[..k]) + Events(items[k..])
    ensures var (d, b) := (WindowsRead(buffer, byteRead, a), LastRead(byteRead, a));
            && d.events == Events(items[..k]) && Holds(d.rest, HeldBytes(items[k..], held', p'))
            && (b == CR ==> Drain(d.rest) == Drained([], d.rest))
  {
    k, held', p' := WindowsByte(items, held, p, buffer, LastRead(byteRead, a), rest);
    WindowsKeeps(buffer, byteRead, a);
    LinesRest(items, k);
    StreamSplits(items, k);
  }

  /**
   * Byte by byte, with any empty reads in between, the Windows loop delivers the items of a stream of
   * lines, in order, and keeps nothing.
   */
  lemma {:induction false} WindowsDelivers(
      items: seq<Item>, held: bool, p: ustring, buffer: ustring, byteRead: byte, arrivals: seq<Arrival>)
    requires Lines(items) && Stands(items, held, p, Pushed(byteRead, arrivals)) && Holds(buffer, HeldBytes(items, held, p))
    requires byteRead == CR ==> Drain(buffer) == Drained([], buffer)
    ensures WindowsReads(buffer, byteRead, arrivals) == Drained(Events(items), [])
    decreases |arrivals|
  {
    if arrivals == [] {
      NothingToCome(items, held, p);
    } else {
      var b := LastRead(byteRead, arrivals[0]);
      var rest := Pushed(b, arrivals[1..]);
      if arrivals[0].Nought? {
        assert [] + rest == rest;
        WindowsDelivers(items, held, p, buffer, byteRead, arrivals[1..]);
      } else {
        var k, held', p' := WindowsArrives(items, held, p, buffer, byteRead, arrivals[0], rest);
        WindowsDelivers(items[k..], held', p', WindowsRead(buffer, byteRead, arrivals[0]).rest, b, arrivals[1..]);
      }
    }
  }

  lemma NothingToCome(items: seq<Item>, held: bool, p: ustring)
    requires Lines(items) && Stands(items, held, p, [])
    ensures items == [] && p == []
  {
    StreamAtLeast(items);
    StreamAtLeast(items[if items == [] then 0 else 1..]);
    assert p + [] == p;
  }

  /** What a terminator leaves in the buffer, an empty read leaves there too. */
  lemma WindowsKeeps(buffer: ustring, byteRead: byte, a: Arrival)
    requires !a.Nought?
    ensures var d, b := WindowsRead(buffer, byteRead, a), LastRead(byteRead, a);
            && d == WindowsRead(buffer, 0, Byte(b))
            && (b == CR ==> Drain(d.rest) == Drained([], d.rest))
  {
    DrainedDry(buffer + [LastRead(byteRead, a)]);
  }

  // ---------------------------------------------------------------- both platforms

  /** From an empty buffer, the Linux loop delivers a stream of orderly items, however it is cut up. */
  lemma LinuxFromEmpty(items: seq<Item>, chunks: seq<ustring>)
    requires Orderly(items) && Concat(chunks) == Stream(items)
    ensures LinuxReads([], chunks) == Drained(Events(items), [])
  {
    assert [] + Stream(items) == Stream(items);
    if items != [] {
      InPlaceFacts(items, 0);
    }
    LinuxDelivers(items, [], [], chunks);
  }

  /** From an empty buffer, the Windows loop delivers a stream of lines. */
  lemma LinesDelivered(items: seq<Item>, arrivals: seq<Arrival>)
    requires Lines(items) && Pushed(0, arrivals) == Stream(items)
    ensures WindowsReads([], 0, arrivals) == Drained(Events(items), [])
  {
    assert [] + Stream(items) == Stream(items);
    if items != [] {
      assert LineAt(items, 0);
    }
    WindowsDelivers(items, false, [], [], 0, arrivals);
  }

  /** However the two platforms are fed with a stream of orderly items, they deliver the same. */
  lemma PlatformsAgree(items: seq<Item>, chunks: seq<ustring>, arrivals: seq<Arrival>)
    requires Orderly(items) && Concat(chunks) == Stream(items) && Pushed(0, arrivals) == Stream(items)
    ensures LinuxReads([], chunks) == WindowsReads([], 0, arrivals) == Drained(Events(items), [])
  {
    LinuxFromEmpty(items, chunks);
    OrderlyLines(items);
    LinesDelivered(items, arrivals);
  }
}
