/**
 * What the parsing loop computes: the handlers of the four special states and the run of the
 * automaton over a buffer, from any configuration the loop can be in.
 */
module Parsing {
  import opened Bytes
  import opened Messages
  import opened Automaton

  datatype StateProcResult = StateProcResult(newState: nat, lastPosition: nat, formatError: bool)

  /** The outcome of parsing a buffer; the position is the last one looked at. */
  datatype Verdict = Ok(msgType: MessageType, last: nat) | NotComplete | BadFormat(last: nat)

  // ---------------------------------------------------------------- special states

  datatype Section = Type | Version | Id

  /** Bytes, other than '#' and the terminator, a section of the USB info may hold. */
  predicate SectionAccepts(section: Section, b: byte) {
    match section
    case Type => true
    case Version => IsVersionByte(b)
    case Id => IsIdByte(b)
  }

  /** State 17, from position i on inside the given section. */
  function ScanUSBInfo(data: ustring, i: nat, section: Section): (r: StateProcResult)
    requires 0 < |data| && i <= |data|
    ensures r.lastPosition < |data| && r.newState in {18, 19}
    ensures i < |data| ==> i <= r.lastPosition
    ensures !r.formatError && r.newState == 18 ==> r.lastPosition == |data| - 1
    decreases |data| - i
  {
    if i == |data| then StateProcResult(18, |data| - 1, false)
    else if data[i] == CR && section == Id then StateProcResult(19, i, false)
    else if data[i] == HASH then
      match section
      case Type => ScanUSBInfo(data, i + 1, Version)
      case Version => ScanUSBInfo(data, i + 1, Id)
      case Id => StateProcResult(18, i, true)
    else if !SectionAccepts(section, data[i]) then StateProcResult(18, i, true)
    else ScanUSBInfo(data, i + 1, section)
  }

  function ProcessUSBInfo(data: ustring, pos: nat): (r: StateProcResult)
    requires pos < |data|
  {
    if pos == |data| - 1 then StateProcResult(17, pos, false) else ScanUSBInfo(data, pos, Type)
  }

  const MODULE_DATA_SIZE := 32
  const STANDARD_IDF_SIZE := 21
  const EXTENDED_IDF_SIZE := 37

  /** State 21: decides by the size of the whole buffer. */
  function ProcessTRInfo(data: ustring, pos: nat): (r: StateProcResult)
    requires pos < |data|
  {
    if pos == |data| - 1 then StateProcResult(21, pos, false)
    else if |data| <= EXTENDED_IDF_SIZE && |data| != STANDARD_IDF_SIZE && |data| != EXTENDED_IDF_SIZE then
      StateProcResult(21, pos, false)
    else if |data| == STANDARD_IDF_SIZE && data[STANDARD_IDF_SIZE - 1] != CR then
      StateProcResult(21, pos, false)
    else if |data| - 1 > pos + MODULE_DATA_SIZE then
      StateProcResult(22, pos + MODULE_DATA_SIZE - 1, false)
    else
      StateProcResult(22, |data| - 2, false)
  }

  /** State 50: skips the data, whose length is the byte two positions back. */
  function ProcessAsynData(data: ustring, pos: nat): (r: StateProcResult)
    requires 2 <= pos < |data|
  {
    if pos == |data| - 1 then StateProcResult(50, pos, false)
    else
      var dataLength := data[pos - 2];
      if pos + dataLength >= |data| then StateProcResult(51, |data| - 1, false)
      else StateProcResult(51, pos - 1 + dataLength, false)
  }

  /** State 95: a buffer of 7 or 9 bytes holds a status, any other one download data. */
  function ProcessPMRespData(data: ustring, pos: nat): (r: StateProcResult)
    requires 1 <= pos < |data|
  {
    if pos == |data| - 1 then StateProcResult(95, pos, false)
    else if |data| == 7 || |data| == 9 then StateProcResult(80, pos - 1, false)
    else StateProcResult(96, |data| - 2, false)
  }

  function ProcessSpecialState(state: nat, data: ustring, pos: nat): (r: StateProcResult)
    requires IsSpecialState(state) && 2 <= pos < |data|
    ensures r.lastPosition < |data|
  {
    match state
    case 17 => ProcessUSBInfo(data, pos)
    case 21 => ProcessTRInfo(data, pos)
    case 50 => ProcessAsynData(data, pos)
    case _ => ProcessPMRespData(data, pos)
  }

  // ---------------------------------------------------------------- runs

  /**
   * Where the loop can be in a state: a spelled state is reached right behind its text; states 17,
   * 50 and 95 are otherwise kept only at the end of the buffer, 21 anywhere behind its text.
   */
  ghost predicate Placed(data: ustring, state: nat, pos: nat) {
    && pos <= |data|
    && (Spelled(state) ==>
          || pos == |Spelling(state)|
          || (state in {17, 50, 95} && |Spelling(state)| < pos == |data|)
          || (state == 21 && |Spelling(state)| < pos))
  }

  /** A transition leads from a place of the loop to a place of the loop. */
  lemma TransitionPlaced(data: ustring, state: nat, pos: nat)
    requires Placed(data, state, pos) && pos < |data| && !IsSpecialState(state)
    ensures var next := DoTransition(state, data[pos]);
            next != NO_TRANSITION ==> Placed(data, next, pos + 1) && Stage(next) <= Stage(state)
  {
    var next := DoTransition(state, data[pos]);
    StageNeverRises(state, data[pos]);
    if Spelled(state) {
      TransitionFollowsEdge(state, data[pos]);
      if next != NO_TRANSITION {
        SpellingGrows(next);
      }
    } else {
      assert next in {19, 23, 52, 97, NO_TRANSITION};
    }
  }

  /** The handler of a special state leads to a place of the loop, and it moves on or lowers the stage. */
  ghost predicate HandlerPlaced(data: ustring, state: nat, pos: nat)
    requires IsSpecialState(state) && 2 <= pos < |data|
  {
    var r := ProcessSpecialState(state, data, pos);
    && Placed(data, r.newState, r.lastPosition + 1)
    && (Stage(r.newState) < Stage(state) || (Stage(r.newState) == Stage(state) && pos <= r.lastPosition))
  }

  lemma USBInfoPlaced(data: ustring, state: nat, pos: nat)
    requires Placed(data, state, pos) && pos < |data| && state == 17
    ensures pos == 3 && HandlerPlaced(data, state, pos)
  {
    var r := ProcessUSBInfo(data, pos);
    assert r.newState == 17 || !Spelled(r.newState);
  }

  lemma TRInfoPlaced(data: ustring, state: nat, pos: nat)
    requires Placed(data, state, pos) && pos < |data| && state == 21
    ensures 4 <= pos && HandlerPlaced(data, state, pos)
  {
    var r := ProcessTRInfo(data, pos);
    assert r.newState == 21 || !Spelled(r.newState);
  }

  lemma AsyncPlaced(data: ustring, state: nat, pos: nat)
    requires Placed(data, state, pos) && pos < |data| && state == 50
    ensures pos == 5 && HandlerPlaced(data, state, pos)
  {
    var r := ProcessAsynData(data, pos);
    assert r.newState == 50 || !Spelled(r.newState);
  }

  lemma PMPlaced(data: ustring, state: nat, pos: nat)
    requires Placed(data, state, pos) && pos < |data| && state == 95
    ensures pos == 4 && HandlerPlaced(data, state, pos)
  {
    var r := ProcessPMRespData(data, pos);
    assert r.newState == 95 || r.newState == 80 || !Spelled(r.newState);
  }

  lemma SpecialPlaced(data: ustring, state: nat, pos: nat)
    requires Placed(data, state, pos) && pos < |data| && IsSpecialState(state)
    ensures 3 <= pos && HandlerPlaced(data, state, pos)
  {
    if state == 17 {
      USBInfoPlaced(data, state, pos);
    } else if state == 21 {
      TRInfoPlaced(data, state, pos);
    } else if state == 50 {
      AsyncPlaced(data, state, pos);
    } else {
      PMPlaced(data, state, pos);
    }
  }

  /** The loop of the parser from position pos in the given state. */
  function Run(data: ustring, state: nat, pos: nat): (v: Verdict)
    requires Placed(data, state, pos)
    ensures !v.NotComplete? ==> v.last < |data|
    decreases Stage(state), |data| - pos
  {
    if pos == |data| then NotComplete
    else if IsSpecialState(state) then
      SpecialPlaced(data, state, pos);
      var r := ProcessSpecialState(state, data, pos);
      if r.formatError then BadFormat(r.lastPosition)
      else if IsFiniteState(r.newState) then Ok(StateType(r.newState), r.lastPosition)
      else Run(data, r.newState, r.lastPosition + 1)
    else
      TransitionPlaced(data, state, pos);
      var next := DoTransition(state, data[pos]);
      if next == NO_TRANSITION then BadFormat(pos)
      else if IsFiniteState(next) then Ok(StateType(next), pos)
      else Run(data, next, pos + 1)
  }

  /** The verdict on a buffer. */
  function Parse(data: ustring): (v: Verdict)
    ensures !v.NotComplete? ==> v.last < |data|
  {
    Run(data, INITIAL_STATE, 0)
  }
}
