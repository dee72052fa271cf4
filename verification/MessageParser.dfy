/** The parser object: it scans a buffer in place of the text it keeps, and remembers its last result. */
module MessageParsing {
  import opened Bytes
  import opened Messages
  import opened Automaton
  import opened Parsing

  datatype ParseResultType = PARSE_OK | PARSE_NOT_COMPLETE | PARSE_BAD_FORMAT

  datatype ParseResult = ParseResult(msgType: MessageType, resultType: ParseResultType, lastPosition: nat)

  /**
   * The result a verdict on data stands for, after an earlier result: the message type is replaced
   * only by an acceptance, and the position is kept only on an empty buffer.
   */
  function ResultOf(v: Verdict, data: ustring, before: ParseResult): (r: ParseResult) {
    match v
    case Ok(t, last) => ParseResult(t, PARSE_OK, last)
    case NotComplete =>
      ParseResult(before.msgType, PARSE_NOT_COMPLETE, if data == [] then before.lastPosition else |data| - 1)
    case BadFormat(last) => ParseResult(before.msgType, PARSE_BAD_FORMAT, last)
  }

  /** The verdict from a special state is that of its handler, or is found further on. */
  lemma RunsSpecial(data: ustring, state: nat, pos: nat)
    requires Placed(data, state, pos) && pos < |data| && IsSpecialState(state)
    ensures 3 <= pos
    ensures var r := Parsing.ProcessSpecialState(state, data, pos);
            && Placed(data, r.newState, r.lastPosition + 1)
            && (Stage(r.newState) < Stage(state) || (Stage(r.newState) == Stage(state) && pos <= r.lastPosition))
            && Run(data, state, pos) ==
               if r.formatError then BadFormat(r.lastPosition)
               else if IsFiniteState(r.newState) then Ok(StateType(r.newState), r.lastPosition)
               else Run(data, r.newState, r.lastPosition + 1)
  {
    SpecialPlaced(data, state, pos);
  }

  /** The verdict from any other state is that of its transition. */
  lemma RunsTransition(data: ustring, state: nat, pos: nat)
    requires Placed(data, state, pos) && pos < |data| && !IsSpecialState(state)
    ensures var next := DoTransition(state, data[pos]);
            && (next == NO_TRANSITION ==> Run(data, state, pos) == BadFormat(pos))
            && (next != NO_TRANSITION ==>
                  && Placed(data, next, pos + 1) && Stage(next) <= Stage(state)
                  && Run(data, state, pos) ==
                     if IsFiniteState(next) then Ok(StateType(next), pos) else Run(data, next, pos + 1))
  {
    TransitionPlaced(data, state, pos);
  }

  /** What a turn of the loop comes to: the result, or a place further on with the same verdict. */
  ghost predicate Stepped(
      data: ustring, state: nat, pos: nat, before: ParseResult, ended: bool, next: nat, nextPos: nat, after: ParseResult)
    requires Placed(data, state, pos)
  {
    if ended then
      !Run(data, state, pos).NotComplete? && after == ResultOf(Run(data, state, pos), data, before)
    else
      && 0 < nextPos && Placed(data, next, nextPos) && Run(data, next, nextPos) == Run(data, state, pos)
      && (Stage(next) < Stage(state) || (Stage(next) == Stage(state) && pos < nextPos))
      && after == before.(lastPosition := nextPos - 1)
  }

  /** The result of a turn that ends in a state, or goes on from it. */
  function ResultIn(before: ParseResult, next: nat, last: nat): (r: ParseResult) {
    if next == NO_TRANSITION then before.(lastPosition := last, resultType := PARSE_BAD_FORMAT)
    else if IsFiniteState(next) then ParseResult(StateType(next), PARSE_OK, last)
    else before.(lastPosition := last)
  }

  lemma TransitionStepped(data: ustring, state: nat, pos: nat, before: ParseResult)
    requires Placed(data, state, pos) && pos < |data| && !IsSpecialState(state)
    requires before.resultType == PARSE_NOT_COMPLETE
    ensures var next := DoTransition(state, data[pos]);
            Stepped(data, state, pos, before, next == NO_TRANSITION || IsFiniteState(next), next, pos + 1,
                    ResultIn(before, next, pos))
  {
    RunsTransition(data, state, pos);
  }

  class MessageParser {
    var lastParsedData: ustring
    var lastParseResult: ParseResult

    constructor ()
      ensures lastParsedData == [] && lastParseResult == ParseResult(Error, PARSE_NOT_COMPLETE, 0)
    {
      lastParsedData := [];
      lastParseResult := ParseResult(Error, PARSE_NOT_COMPLETE, 0);
    }

    /** State 17. */
    static method ProcessUSBInfo(data: ustring, pos: nat) returns (procResult: StateProcResult)
      requires pos < |data|
      ensures procResult == Parsing.ProcessUSBInfo(data, pos)
    {
      procResult := StateProcResult(17, pos, false);
      if pos == |data| - 1 {
        return;
      }
      var activeSection := Type;
      procResult := procResult.(newState := 18);
      var i := pos;
      while i < |data|
        invariant pos <= i <= |data|
        invariant procResult == StateProcResult(18, if i == pos then pos else i - 1, false)
        invariant Parsing.ScanUSBInfo(data, pos, Type) == Parsing.ScanUSBInfo(data, i, activeSection)
      {
        procResult := procResult.(lastPosition := i);
        if data[i] == CR && activeSection == Id {
          procResult := procResult.(newState := 19);
          return;
        }
        if data[i] == HASH {
          match activeSection {
            case Type => activeSection := Version;
            case Version => activeSection := Id;
            case Id =>
              procResult := procResult.(formatError := true);
              return;
          }
        } else if !SectionAccepts(activeSection, data[i]) {
          procResult := procResult.(formatError := true);
          return;
        }
        i := i + 1;
      }
    }

    method ProcessSpecialState(state: nat, data: ustring, pos: nat) returns (procResult: StateProcResult)
      requires IsSpecialState(state) && 2 <= pos < |data|
      ensures procResult == Parsing.ProcessSpecialState(state, data, pos)
    {
      match state {
        case 17 => procResult := ProcessUSBInfo(data, pos);
        case 21 => procResult := ProcessTRInfo(data, pos);
        case 50 => procResult := ProcessAsynData(data, pos);
        case _ => procResult := ProcessPMRespData(data, pos);
      }
    }

    /**
     * A turn of the loop in a special state: the parse ends, or it goes on in a place from which the
     * verdict is the same.
     */
    method SpecialStep(state: nat, pos: nat) returns (ended: bool, next: nat, nextPos: nat)
      requires Placed(lastParsedData, state, pos) && pos < |lastParsedData| && IsSpecialState(state)
      requires lastParseResult.resultType == PARSE_NOT_COMPLETE
      modifies this`lastParseResult
      ensures Stepped(lastParsedData, state, pos, old(lastParseResult), ended, next, nextPos, lastParseResult)
    {
      RunsSpecial(lastParsedData, state, pos);
      var procResult := ProcessSpecialState(state, lastParsedData, pos);
      lastParseResult := lastParseResult.(lastPosition := procResult.lastPosition);
      next, nextPos := procResult.newState, procResult.lastPosition + 1;
      if procResult.formatError {
        lastParseResult := lastParseResult.(resultType := PARSE_BAD_FORMAT);
        return true, next, nextPos;
      }
      if IsFiniteState(next) {
        lastParseResult := lastParseResult.(msgType := StateType(next), resultType := PARSE_OK);
        return true, next, nextPos;
      }
      ended := false;
    }

    /** A turn of the loop in any other state. */
    method TransitionStep(state: nat, pos: nat) returns (ended: bool, next: nat, nextPos: nat)
      requires Placed(lastParsedData, state, pos) && pos < |lastParsedData| && !IsSpecialState(state)
      requires lastParseResult.resultType == PARSE_NOT_COMPLETE
      modifies this`lastParseResult
      ensures Stepped(lastParsedData, state, pos, old(lastParseResult), ended, next, nextPos, lastParseResult)
    {
      TransitionStepped(lastParsedData, state, pos, lastParseResult);
      lastParseResult := lastParseResult.(lastPosition := pos);
      next, nextPos := DoTransition(state, lastParsedData[pos]), pos + 1;
      if next == NO_TRANSITION {
        lastParseResult := lastParseResult.(resultType := PARSE_BAD_FORMAT);
        return true, next, nextPos;
      }
      if IsFiniteState(next) {
        lastParseResult := lastParseResult.(msgType := StateType(next), resultType := PARSE_OK);
        return true, next, nextPos;
      }
      ended := false;
    }

    /**
     * The parsing loop.  It terminates although a special state may step the position back, because
     * then the stage drops; no position leaves the buffer.
     */
    method ParseData(data: ustring) returns (r: ParseResult)
      modifies this
      ensures lastParsedData == data && lastParseResult == r
      ensures r == ResultOf(Parse(data), data, old(lastParseResult))
      ensures data != [] ==> r.lastPosition < |data|
    {
      lastParsedData := data;
      lastParseResult := lastParseResult.(resultType := PARSE_NOT_COMPLETE);
      var state: nat, pos: nat := INITIAL_STATE, 0;
      ghost var verdict, before := Parse(data), lastParseResult;
      while pos < |lastParsedData|
        invariant lastParsedData == data && Placed(data, state, pos) && verdict == Run(data, state, pos)
        invariant lastParseResult == if pos == 0 then before else before.(lastPosition := pos - 1)
        decreases Stage(state), |data| - pos
      {
        var ended;
        if IsSpecialState(state) {
          ended, state, pos := SpecialStep(state, pos);
        } else {
          ended, state, pos := TransitionStep(state, pos);
        }
        if ended {
          return lastParseResult;
        }
      }
      return lastParseResult;
    }
  }
}
