/** Reading lines of Intel HEX files. */
module HexReading {
  import opened Bytes

  datatype LineResult = DataReady | DataError | EndOfFile

  /** A line read: how that went, the bytes decoded, and where the file is read on. */
  datatype Line = Line(result: LineResult, data: seq<byte>, pos: nat)

  const SIZE_OF_CODE_LINE_BUFFER := 64
  const LF: byte := 0x0A

  /** The next byte; 0 at the end of the file. */
  function ByteAt(file: seq<byte>, pos: nat): (b: byte) {
    if pos < |file| then file[pos] else 0
  }

  function Next(file: seq<byte>, pos: nat): (pos': nat) {
    if pos < |file| then pos + 1 else pos
  }

  function ToLower(b: byte): (c: byte) {
    if 'A' as int <= b <= 'Z' as int then b + 32 else b
  }

  /** Value of a lower-case hex digit; 0 for anything else. */
  function Nibble(c: byte): (v: byte)
    ensures v < 16
  {
    if '0' as int <= c <= '9' as int then c - '0' as int
    else if 'a' as int <= c <= 'f' as int then c - 87
    else 0
  }

  function ConvertToNum(hi: byte, lo: byte): (b: byte) {
    Nibble(hi) * 16 + Nibble(lo)
  }

  function Sum(data: seq<byte>): (n: nat) {
    if data == [] then 0 else Sum(data[..|data| - 1]) + data[|data| - 1]
  }

  /** Behind the next ':', if one comes before the end of the file. */
  function FindColon(file: seq<byte>, pos: nat): (r: (bool, nat))
    ensures pos <= r.1 && (r.0 ==> r.1 <= |file|) && (pos <= |file| ==> r.1 <= |file|)
    ensures r.0 ==> pos < r.1
    decreases |file| - pos
  {
    var sign := ByteAt(file, pos);
    if sign == 0 then (false, Next(file, pos))
    else if sign == COLON then (true, pos + 1)
    else FindColon(file, pos + 1)
  }

  /** Decodes byte after byte up to the end of the line; data are the ones decoded so far. */
  function DecodeLine(file: seq<byte>, pos: nat, data: seq<byte>): (l: Line)
    requires |data| < SIZE_OF_CODE_LINE_BUFFER
    ensures pos <= l.pos && (pos <= |file| ==> l.pos <= |file|)
    ensures l.result == DataReady ==> |l.data| < SIZE_OF_CODE_LINE_BUFFER && Sum(l.data) % 256 == 0
    ensures l.result != EndOfFile && data <= l.data && |l.data| <= SIZE_OF_CODE_LINE_BUFFER
    decreases SIZE_OF_CODE_LINE_BUFFER - |data|
  {
    var hi := ToLower(ByteAt(file, pos));
    var pos1 := Next(file, pos);
    if hi == LF || hi == CR then
      Line(if Sum(data) % 256 != 0 then DataError else DataReady, data, pos1)
    else
      var lo := ToLower(ByteAt(file, pos1));
      var pos2 := Next(file, pos1);
      var data' := data + [ConvertToNum(hi, lo)];
      if |data'| >= SIZE_OF_CODE_LINE_BUFFER then Line(DataError, data', pos2)
      else DecodeLine(file, pos2, data')
  }

  /** One call of the line reader. */
  function ReadLine(file: seq<byte>, pos: nat): (l: Line)
    requires pos <= |file|
    ensures pos <= l.pos <= |file| && |l.data| <= SIZE_OF_CODE_LINE_BUFFER
    ensures l.result == DataReady ==>
              pos < l.pos && |l.data| < SIZE_OF_CODE_LINE_BUFFER && Sum(l.data) % 256 == 0
    ensures l.result == EndOfFile ==> l.data == []
  {
    var (found, start) := FindColon(file, pos);
    if !found then Line(EndOfFile, [], start) else DecodeLine(file, start, [])
  }

  // ---------------------------------------------------------------- printed lines

  /** c is a digit for v, in either case. */
  predicate IsDigit(c: byte, v: nat) {
    || (v < 10 && c == '0' as int + v)
    || (10 <= v < 16 && (c == 'a' as int + v - 10 || c == 'A' as int + v - 10))
  }

  /** text spells data with two digits a byte. */
  predicate Spells(text: seq<byte>, data: seq<byte>)
    ensures Spells(text, data) ==> |text| == 2 * |data|
  {
    if data == [] then text == []
    else
      && 2 <= |text| && IsDigit(text[0], data[0] / 16) && IsDigit(text[1], data[0] % 16)
      && Spells(text[2..], data[1..])
  }

  function Digit(v: nat): (c: byte)
    requires v < 16
    ensures IsDigit(c, v)
  {
    if v < 10 then '0' as int + v else 'A' as int + v - 10
  }

  /** Two upper-case digits for each byte. */
  function Digits(data: seq<byte>): (text: seq<byte>)
    ensures Spells(text, data)
  {
    if data == [] then [] else [Digit(data[0] / 16), Digit(data[0] % 16)] + Digits(data[1..])
  }

  lemma DigitReads(c: byte, v: nat)
    requires IsDigit(c, v)
    ensures v < 16 && Nibble(ToLower(c)) == v && ToLower(c) != LF && ToLower(c) != CR
  {
  }

  lemma PairReads(c: byte, d: byte, b: byte)
    requires IsDigit(c, b / 16) && IsDigit(d, b % 16)
    ensures ConvertToNum(ToLower(c), ToLower(d)) == b
  {
    DigitReads(c, b / 16);
    DigitReads(d, b % 16);
  }

  /** file holds s from pos on. */
  predicate Holds(file: seq<byte>, pos: nat, s: seq<byte>) {
    pos + |s| <= |file| && forall i :: 0 <= i < |s| ==> s[i] == file[pos + i]
  }

  lemma HoldsTail(file: seq<byte>, pos: nat, s: seq<byte>, k: nat)
    requires Holds(file, pos, s) && k <= |s|
    ensures Holds(file, pos + k, s[k..])
    ensures forall i :: 0 <= i < k ==> file[pos + i] == s[i]
  {
  }

  lemma DecodesByte(file: seq<byte>, pos: nat, done: seq<byte>, b: byte)
    requires pos + 2 <= |file| && |done| + 1 < SIZE_OF_CODE_LINE_BUFFER
    requires IsDigit(file[pos], b / 16) && IsDigit(file[pos + 1], b % 16)
    ensures DecodeLine(file, pos, done) == DecodeLine(file, pos + 2, done + [b])
  {
    DigitReads(file[pos], b / 16);
    PairReads(file[pos], file[pos + 1], b);
  }

  lemma DecodesEnd(file: seq<byte>, pos: nat, eol: byte, data: seq<byte>)
    requires |data| < SIZE_OF_CODE_LINE_BUFFER && Sum(data) % 256 == 0
    requires pos < |file| && file[pos] == eol && (eol == CR || eol == LF)
    ensures DecodeLine(file, pos, data) == Line(DataReady, data, pos + 1)
  {
  }

  /** One digit pair of a printed text, and what is left of it. */
  lemma NextPair(file: seq<byte>, pos: nat, text: seq<byte>, eol: byte, data: seq<byte>)
    requires data != [] && Spells(text, data) && Holds(file, pos, text + [eol])
    ensures pos + 2 <= |file| && IsDigit(file[pos], data[0] / 16) && IsDigit(file[pos + 1], data[0] % 16)
    ensures Spells(text[2..], data[1..]) && Holds(file, pos + 2, text[2..] + [eol])
  {
    HoldsTail(file, pos, text + [eol], 2);
    assert (text + [eol])[2..] == text[2..] + [eol];
  }

  lemma DecodesPair(file: seq<byte>, pos: nat, text: seq<byte>, eol: byte, all: seq<byte>, k: nat)
    requires k < |all| < SIZE_OF_CODE_LINE_BUFFER && Spells(text, all[k..]) && Holds(file, pos, text + [eol])
    ensures DecodeLine(file, pos, all[..k]) == DecodeLine(file, pos + 2, all[..k + 1])
    ensures 2 <= |text| && Spells(text[2..], all[k + 1..]) && Holds(file, pos + 2, text[2..] + [eol])
  {
    NextPair(file, pos, text, eol, all[k..]);
    DecodesByte(file, pos, all[..k], all[k]);
    assert all[..k] + [all[k]] == all[..k + 1];
    assert all[k..][1..] == all[k + 1..];
  }

  /** What is left of a printed text decodes to what is left of all its bytes. */
  lemma {:induction false} DecodesPrinted(file: seq<byte>, pos: nat, text: seq<byte>, eol: byte, all: seq<byte>, k: nat)
    requires |all| < SIZE_OF_CODE_LINE_BUFFER && Sum(all) % 256 == 0 && k <= |all|
    requires Spells(text, all[k..]) && Holds(file, pos, text + [eol]) && (eol == CR || eol == LF)
    ensures DecodeLine(file, pos, all[..k]) == Line(DataReady, all, pos + |text| + 1)
    decreases |all| - k
  {
    if k == |all| {
      assert all[..k] == all && text == [];
      assert (text + [eol])[0] == file[pos];
      DecodesEnd(file, pos, eol, all);
    } else {
      DecodesPair(file, pos, text, eol, all, k);
      DecodesPrinted(file, pos + 2, text[2..], eol, all, k + 1);
    }
  }

  lemma {:induction false} ColonFound(file: seq<byte>, pos: nat, junk: seq<byte>)
    requires Holds(file, pos, junk + [COLON]) && 0 !in junk && COLON !in junk
    ensures FindColon(file, pos) == (true, pos + |junk| + 1)
    decreases |junk|
  {
    var s := junk + [COLON];
    assert s[0] == file[pos];
    if junk != [] {
      HoldsTail(file, pos, s, 1);
      assert s[1..] == junk[1..] + [COLON];
      ColonFound(file, pos + 1, junk[1..]);
    }
  }

  /** The bytes of a record, from its length to its checksum. */
  function RecordBytes(kind: byte, offset: nat, payload: seq<byte>): (bytes: seq<byte>)
    requires |payload| < 256 && offset < 0x10000
  {
    var front := [|payload|, offset / 256, offset % 256, kind] + payload;
    front + [Checksum(front)]
  }

  /** Two's complement of the sum. */
  function Checksum(data: seq<byte>): (c: byte) {
    (256 - Sum(data) % 256) % 256
  }

  lemma ChecksumCloses(data: seq<byte>)
    ensures Sum(data + [Checksum(data)]) % 256 == 0
  {
    var n, c := Sum(data), Checksum(data);
    assert (data + [c])[..|data|] == data;
    assert n + c == if n % 256 == 0 then 256 * (n / 256) else 256 * (n / 256 + 1);
  }

  lemma HeadAndTail(file: seq<byte>, pos: nat, a: seq<byte>, b: seq<byte>, mid: nat)
    requires Holds(file, pos, a + b) && mid == pos + |a|
    ensures Holds(file, pos, a) && Holds(file, mid, b) && pos <= |file|
  {
    HoldsTail(file, pos, a + b, |a|);
    assert (a + b)[|a|..] == b;
    assert forall i :: 0 <= i < |a| ==> (a + b)[i] == a[i];
  }

  lemma HoldsHead(file: seq<byte>, pos: nat, text: seq<byte>, rest: seq<byte>)
    requires pos <= |file| && file[pos..] == text + rest
    ensures Holds(file, pos, text) && file[pos + |text|..] == rest
  {
    var all := text + rest;
    assert forall i :: 0 <= i < |text| ==> text[i] == all[i] == file[pos + i];
    assert file[pos + |text|..] == file[pos..][|text|..] == all[|text|..];
  }

  /** From its ':' on, a printed line reads back. */
  lemma ReadsFrom(file: seq<byte>, pos: nat, start: nat, text: seq<byte>, eol: byte, bytes: seq<byte>)
    requires pos <= |file| && FindColon(file, pos) == (true, start)
    requires |bytes| < SIZE_OF_CODE_LINE_BUFFER && Sum(bytes) % 256 == 0
    requires Spells(text, bytes) && Holds(file, start, text + [eol]) && (eol == CR || eol == LF)
    ensures ReadLine(file, pos) == Line(DataReady, bytes, start + |text| + 1)
  {
    assert bytes[..0] == [] && bytes[0..] == bytes;
    DecodesPrinted(file, start, text, eol, bytes, 0);
  }

  /** A printed line whose bytes sum up to 0 reads back to them, after any text without ':' and NUL. */
  lemma LineReadsBack(file: seq<byte>, pos: nat, junk: seq<byte>, text: seq<byte>, eol: byte, bytes: seq<byte>)
    requires |bytes| < SIZE_OF_CODE_LINE_BUFFER && Sum(bytes) % 256 == 0
    requires 0 !in junk && COLON !in junk && (eol == CR || eol == LF) && Spells(text, bytes)
    requires Holds(file, pos, (junk + [COLON]) + (text + [eol]))
    ensures ReadLine(file, pos) == Line(DataReady, bytes, pos + |junk| + 1 + |text| + 1)
  {
    var start := pos + |junk| + 1;
    HeadAndTail(file, pos, junk + [COLON], text + [eol], start);
    ColonFound(file, pos, junk);
    ReadsFrom(file, pos, start, text, eol, bytes);
  }

  lemma RecordCloses(kind: byte, offset: nat, payload: seq<byte>)
    requires |payload| <= 58 && offset < 0x10000
    ensures var bytes := RecordBytes(kind, offset, payload);
            |bytes| == |payload| + 5 && Sum(bytes) % 256 == 0
  {
    ChecksumCloses([|payload|, offset / 256, offset % 256, kind] + payload);
  }

  /**
   * A printed record of at most 58 bytes of payload, in either hex case, with either line end, and
   * after any text without ':' and NUL, reads back to its bytes.
   */
  lemma RecordReadsBack(file: seq<byte>, pos: nat, junk: seq<byte>, text: seq<byte>, eol: byte, kind: byte,
                        offset: nat, payload: seq<byte>)
    requires |payload| <= 58 && offset < 0x10000
    requires 0 !in junk && COLON !in junk && (eol == CR || eol == LF)
    requires Spells(text, RecordBytes(kind, offset, payload))
    requires Holds(file, pos, (junk + [COLON]) + (text + [eol]))
    ensures ReadLine(file, pos) ==
            Line(DataReady, RecordBytes(kind, offset, payload), pos + |junk| + 1 + |text| + 1)
  {
    RecordCloses(kind, offset, payload);
    LineReadsBack(file, pos, junk, text, eol, RecordBytes(kind, offset, payload));
  }

  /** Text without ':' and NUL up to the end of the file reads as its end. */
  lemma {:induction false} NothingLeft(file: seq<byte>, pos: nat)
    requires pos <= |file| && 0 !in file[pos..] && COLON !in file[pos..]
    ensures ReadLine(file, pos) == Line(EndOfFile, [], |file|)
    decreases |file| - pos
  {
    if pos < |file| {
      assert file[pos] == file[pos..][0] && file[pos + 1..] == file[pos..][1..];
      NothingLeft(file, pos + 1);
    }
  }

  /** A line that the file ends in the middle of is rejected, after at most 64 bytes. */
  lemma {:induction false} CutLineRejected(file: seq<byte>, pos: nat, data: seq<byte>)
    requires |data| < SIZE_OF_CODE_LINE_BUFFER && pos <= |file|
    requires CR !in file[pos..] && LF !in file[pos..]
    ensures DecodeLine(file, pos, data).result == DataError
    decreases SIZE_OF_CODE_LINE_BUFFER - |data|
  {
    var pos1 := Next(file, pos);
    var pos2 := Next(file, pos1);
    var data' := data + [ConvertToNum(ToLower(ByteAt(file, pos)), ToLower(ByteAt(file, pos1)))];
    assert pos < |file| ==> file[pos] == file[pos..][0];
    assert file[pos2..] == file[pos..][pos2 - pos..];
    if |data'| < SIZE_OF_CODE_LINE_BUFFER {
      CutLineRejected(file, pos2, data');
    }
  }
}
