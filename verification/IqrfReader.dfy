/** Reading plugin files: comments, blank lines and rows of 20 bytes in hex. */
module IqrfReading {
  import opened Bytes
  import opened HexReading
  import opened Uploading

  const ROW_SIZE := 20

  /** Behind a comment: the byte that ends it, CR or 0 for the end of the file, and where it is read on. */
  function SkipComment(file: seq<byte>, pos: nat): (r: (byte, nat))
    requires pos <= |file|
    ensures pos <= r.1 <= |file| && (r.0 == 0 || r.0 == CR)
    decreases |file| - pos
  {
    var c := ByteAt(file, pos);
    if c == 0 || c == CR then (c, Next(file, pos)) else SkipComment(file, pos + 1)
  }

  /** The next byte, or the one that ends a comment if one begins here. */
  function FirstChar(file: seq<byte>, pos: nat): (r: (byte, nat))
    requires pos <= |file|
    ensures pos <= r.1 <= |file| && (r.0 != 0 ==> pos < r.1)
  {
    var first := ToLower(ByteAt(file, pos));
    if first == HASH then SkipComment(file, Next(file, pos)) else (first, Next(file, pos))
  }

  /** One call of the row reader, with row read so far. */
  function ReadFrom(file: seq<byte>, pos: nat, row: seq<byte>): (l: Line)
    requires pos <= |file| && |row| <= ROW_SIZE
    ensures pos <= l.pos <= |file| && row <= l.data && |l.data| <= ROW_SIZE
    ensures l.result == DataReady ==> |l.data| == ROW_SIZE && pos < l.pos
    decreases |file| - pos
  {
    var (first, pos1) := FirstChar(file, pos);
    var pos2 := Next(file, pos1);
    if first == CR then
      if row == [] then ReadFrom(file, pos2, row)
      else Line(if |row| == ROW_SIZE then DataReady else DataError, row, pos2)
    else if first == 0 then Line(EndOfFile, row, pos1)
    else if |row| >= ROW_SIZE then Line(DataError, row, pos2)
    else ReadFrom(file, pos2, row + [ConvertToNum(first, ToLower(ByteAt(file, pos1)))])
  }

  /** The rows that successive calls return, and the result of the last one. */
  function Rows(file: seq<byte>, pos: nat): (r: (seq<seq<byte>>, LineResult))
    requires pos <= |file|
    ensures r.1 != DataReady && forall row :: row in r.0 ==> |row| == ROW_SIZE
    decreases |file| - pos
  {
    var l := ReadFrom(file, pos, []);
    if l.result != DataReady then ([], l.result)
    else
      var rest := Rows(file, l.pos);
      ([l.data] + rest.0, rest.1)
  }

  // ---------------------------------------------------------------- printed files

  datatype IqrfLine = Comment(text: seq<byte>) | Blank | Row(text: seq<byte>, bytes: seq<byte>)

  predicate IsPrinted(l: IqrfLine) {
    match l
    case Comment(text) => 0 !in text && CR !in text
    case Blank => true
    case Row(text, bytes) => |bytes| == ROW_SIZE && Spells(text, bytes)
  }

  function LineText(l: IqrfLine): (s: seq<byte>) {
    match l
    case Comment(text) => [HASH] + text + [CR, LF]
    case Blank => [CR, LF]
    case Row(text, _) => text + [CR, LF]
  }

  function FileOf(lines: seq<IqrfLine>): (file: seq<byte>) {
    if lines == [] then [] else LineText(lines[0]) + FileOf(lines[1..])
  }

  function RowsOf(lines: seq<IqrfLine>): (rows: seq<seq<byte>>) {
    if lines == [] then []
    else (if lines[0].Row? then [lines[0].bytes] else []) + RowsOf(lines[1..])
  }

  // ---------------------------------------------------------------- reading what is printed

  lemma {:induction false} CommentSkipped(file: seq<byte>, pos: nat, text: seq<byte>)
    requires Holds(file, pos, text + [CR]) && 0 !in text && CR !in text
    ensures SkipComment(file, pos) == (CR, pos + |text| + 1)
    decreases |text|
  {
    var s := text + [CR];
    assert s[0] == file[pos];
    if text != [] {
      HoldsTail(file, pos, s, 1);
      assert s[1..] == text[1..] + [CR];
      CommentSkipped(file, pos + 1, text[1..]);
    }
  }

  /** A comment or a blank line at the start of a row is passed over. */
  lemma LinePassed(file: seq<byte>, pos: nat, l: IqrfLine)
    requires !l.Row? && IsPrinted(l) && Holds(file, pos, LineText(l))
    ensures ReadFrom(file, pos, []) == ReadFrom(file, pos + |LineText(l)|, [])
  {
    var s := LineText(l);
    assert s[0] == file[pos];
    if l.Comment? {
      HoldsTail(file, pos, s, 1);
      assert s[1..] == (l.text + [CR]) + [LF];
      HeadAndTail(file, pos + 1, l.text + [CR], [LF], pos + 1 + |l.text| + 1);
      CommentSkipped(file, pos + 1, l.text);
    }
  }

  lemma DigitBegins(file: seq<byte>, pos: nat, v: nat)
    requires pos < |file| && IsDigit(file[pos], v)
    ensures FirstChar(file, pos) == (ToLower(file[pos]), pos + 1)
    ensures ToLower(file[pos]) != CR && ToLower(file[pos]) != 0
  {
  }

  lemma ReadsByte(file: seq<byte>, pos: nat, row: seq<byte>, b: byte)
    requires pos + 2 <= |file| && |row| < ROW_SIZE
    requires IsDigit(file[pos], b / 16) && IsDigit(file[pos + 1], b % 16)
    ensures ReadFrom(file, pos, row) == ReadFrom(file, pos + 2, row + [b])
  {
    DigitBegins(file, pos, b / 16);
    PairReads(file[pos], file[pos + 1], b);
  }

  /** The next two digits of a row. */
  lemma PairRead(file: seq<byte>, pos: nat, text: seq<byte>, all: seq<byte>, k: nat)
    requires k < |all| == ROW_SIZE && Spells(text, all[k..]) && Holds(file, pos, text)
    ensures ReadFrom(file, pos, all[..k]) == ReadFrom(file, pos + 2, all[..k + 1])
    ensures 2 <= |text| && Spells(text[2..], all[k + 1..]) && Holds(file, pos + 2, text[2..])
  {
    HoldsTail(file, pos, text, 2);
    assert file[pos] == text[0] && file[pos + 1] == text[1];
    ReadsByte(file, pos, all[..k], all[k]);
    assert all[..k] + [all[k]] == all[..k + 1] && all[k..][1..] == all[k + 1..];
  }

  /** The digits of a row, behind those of its first k bytes, are read into it. */
  lemma {:induction false} DigitsRead(file: seq<byte>, pos: nat, text: seq<byte>, end: nat, all: seq<byte>, k: nat)
    requires |all| == ROW_SIZE && k <= |all| && Spells(text, all[k..]) && Holds(file, pos, text) && end == pos + |text|
    ensures ReadFrom(file, pos, all[..k]) == ReadFrom(file, end, all)
    decreases |all| - k
  {
    if k == |all| {
      assert all[..k] == all;
    } else {
      PairRead(file, pos, text, all, k);
      DigitsRead(file, pos + 2, text[2..], end, all, k + 1);
    }
  }

  /** A printed row is returned. */
  lemma RowRead(file: seq<byte>, pos: nat, l: IqrfLine)
    requires l.Row? && IsPrinted(l) && Holds(file, pos, LineText(l))
    ensures ReadFrom(file, pos, []) == Line(DataReady, l.bytes, pos + |LineText(l)|)
  {
    var end := pos + |l.text|;
    assert l.bytes[..0] == [] && l.bytes[0..] == l.bytes;
    HeadAndTail(file, pos, l.text, [CR, LF], end);
    DigitsRead(file, pos, l.text, end, l.bytes, 0);
    assert [CR, LF][0] == file[end];
  }

  lemma {:induction false} RowsReadFrom(file: seq<byte>, pos: nat, lines: seq<IqrfLine>)
    requires pos <= |file| && file[pos..] == FileOf(lines) && forall l :: l in lines ==> IsPrinted(l)
    ensures Rows(file, pos) == (RowsOf(lines), EndOfFile)
    decreases |lines|
  {
    if lines != [] {
      var l := lines[0];
      HoldsHead(file, pos, LineText(l), FileOf(lines[1..]));
      RowsReadFrom(file, pos + |LineText(l)|, lines[1..]);
      if l.Row? {
        RowRead(file, pos, l);
      } else {
        LinePassed(file, pos, l);
        assert RowsOf(lines) == RowsOf(lines[1..]);
        assert Rows(file, pos) == Rows(file, pos + |LineText(l)|);
      }
    }
  }

  /**
   * For any file of comments, blank lines and rows, successive calls return exactly the rows, in
   * order, and then the end of the file.
   */
  lemma RowsReadBack(lines: seq<IqrfLine>)
    requires forall l :: l in lines ==> IsPrinted(l)
    ensures Rows(FileOf(lines), 0) == (RowsOf(lines), EndOfFile)
  {
    RowsReadFrom(FileOf(lines), 0, lines);
  }

  /**
   * What ends a row decides: the 40 digits of a row are returned exactly if CR follows, or a comment
   * ended by CR; at the end of the file, or a NUL, they are lost; anything else, as a lone LF, is an error.
   */
  lemma RowEndsExactly(file: seq<byte>, pos: nat, text: seq<byte>, row: seq<byte>)
    requires |row| == ROW_SIZE && Spells(text, row) && Holds(file, pos, text)
    ensures var (l, end) := (ReadFrom(file, pos, []), FirstChar(file, pos + |text|).0);
            && l.data == row
            && (l.result == DataReady <==> end == CR)
            && (l.result == EndOfFile <==> end == 0)
  {
    assert row[..0] == [] && row[0..] == row;
    DigitsRead(file, pos, text, pos + |text|, row, 0);
  }

  // ---------------------------------------------------------------- the program

  function UploadsOf(rows: seq<seq<byte>>): (log: seq<Upload>) {
    seq(|rows|, i requires 0 <= i < |rows| => Upload(TARGET_PLUGIN_W, rows[i]))
  }

  lemma OneRowMore(rows: seq<seq<byte>>, row: seq<byte>, rest: seq<seq<byte>>)
    ensures UploadsOf(rows + [row]) == UploadsOf(rows) + [Upload(TARGET_PLUGIN_W, row)]
    ensures rows + ([row] + rest) == rows + [row] + rest
  {
  }

  /** One more byte in front leaves the same rest. */
  lemma RestKept(now: seq<byte>, was: seq<byte>, n: nat, b: byte)
    requires n < |now| == |was| && now[n..] == was[n..]
    ensures now[n := b][..n + 1] == now[..n] + [b] && now[n := b][n + 1..] == was[n + 1..]
  {
    assert now[n..][1..] == was[n..][1..];
  }


  /** The program on its buffer. */
  class IqrfProgrammer {
    const file: seq<byte>
    var pos: nat
    const codeLineBuffer: array<byte>
    var uploads: seq<Upload>

    ghost predicate Valid()
      reads this
    {
      pos <= |file| && codeLineBuffer.Length == SIZE_OF_CODE_LINE_BUFFER
    }

    constructor (file: seq<byte>)
      ensures Valid() && fresh(codeLineBuffer) && this.file == file && pos == 0 && uploads == []
    {
      this.file := file;
      pos := 0;
      codeLineBuffer := new byte[SIZE_OF_CODE_LINE_BUFFER](_ => 0);
      uploads := [];
    }

    method ReadByteFromFile() returns (b: byte)
      requires pos <= |file|
      modifies this`pos
      ensures b == ByteAt(file, old(pos)) && pos == Next(file, old(pos))
    {
      if pos == |file| {
        b := 0;
      } else {
        b := file[pos];
        pos := pos + 1;
      }
    }

    method ReadFirstChar() returns (first: byte)
      requires pos <= |file|
      modifies this`pos
      ensures (first, pos) == FirstChar(file, old(pos)) && pos <= |file|
    {
      first := ReadByteFromFile();
      first := ToLower(first);
      if first == HASH {
        ghost var start := pos;
        first := ReadByteFromFile();
        while first != 0 && first != CR
          invariant pos <= |file|
          invariant SkipComment(file, start) ==
                    if first == 0 || first == CR then (first, pos) else SkipComment(file, pos)
          decreases |file| - pos, first != 0
        {
          first := ReadByteFromFile();
        }
      }
    }

    method ReadIQRFFileLine() returns (result: LineResult)
      requires Valid()
      modifies this`pos, codeLineBuffer
      ensures var l := ReadFrom(file, old(pos), []);
              && result == l.result && pos == l.pos
              && codeLineBuffer[..|l.data|] == l.data
              && codeLineBuffer[|l.data|..] == old(codeLineBuffer[..])[|l.data|..]
      ensures Valid()
    {
      ghost var row: seq<byte> := [];
      var codeLineBufferPtr := 0;
      while true
        invariant pos <= |file| && codeLineBufferPtr == |row| <= ROW_SIZE
        invariant codeLineBuffer[..|row|] == row
        invariant codeLineBuffer[|row|..] == old(codeLineBuffer[..])[|row|..]
        invariant ReadFrom(file, pos, row) == ReadFrom(file, old(pos), [])
        decreases |file| - pos
      {
        var first := ReadFirstChar();
        if first == CR {
          var _ := ReadByteFromFile();
          if codeLineBufferPtr == 0 {
            continue;
          }
          return if codeLineBufferPtr == ROW_SIZE then DataReady else DataError;
        }
        if first == 0 {
          return EndOfFile;
        }
        var second := ReadByteFromFile();
        if codeLineBufferPtr >= ROW_SIZE {
          return DataError;
        }
        RestKept(codeLineBuffer[..], old(codeLineBuffer[..]), |row|, ConvertToNum(first, ToLower(second)));
        codeLineBuffer[codeLineBufferPtr] := ConvertToNum(first, ToLower(second));
        row := row + [codeLineBuffer[codeLineBufferPtr]];
        codeLineBufferPtr := codeLineBufferPtr + 1;
      }
    }

    /** Uploads row after row. */
    method Program() returns (result: LineResult)
      requires Valid()
      modifies this, codeLineBuffer
      ensures uploads == old(uploads) + UploadsOf(Rows(file, old(pos)).0)
      ensures result == Rows(file, old(pos)).1
    {
      ghost var rows: seq<seq<byte>> := [];
      ghost var whole, from := Rows(file, pos), pos;
      result := ReadIQRFFileLine();
      while result == DataReady
        invariant Valid() && uploads == old(uploads) + UploadsOf(rows) && from <= |file|
        invariant var l := ReadFrom(file, from, []);
                  pos == l.pos && result == l.result && (result == DataReady ==> codeLineBuffer[..ROW_SIZE] == l.data)
        invariant whole.0 == rows + Rows(file, from).0 && whole.1 == Rows(file, from).1
        decreases |file| - from
      {
        ghost var row := codeLineBuffer[..ROW_SIZE];
        Assoc(old(uploads), UploadsOf(rows), [Upload(TARGET_PLUGIN_W, row)]);
        OneRowMore(rows, row, Rows(file, pos).0);
        uploads := uploads + [Upload(TARGET_PLUGIN_W, codeLineBuffer[..ROW_SIZE])];
        rows := rows + [row];
        from := pos;
        result := ReadIQRFFileLine();
      }
      assert rows + [] == rows;
    }
  }

  /** The program, from its start on. */
  method ProgramFile(file: seq<byte>) returns (uploads: seq<Upload>, result: LineResult)
    ensures uploads == UploadsOf(Rows(file, 0).0) && result == Rows(file, 0).1
  {
    var programmer := new IqrfProgrammer(file);
    result := programmer.Program();
    uploads := programmer.uploads;
  }
}
