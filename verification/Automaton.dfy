/**
 * The automaton of the reply parser: its tables, and that they form a tree in which every state is
 * reached by the text it stands for.
 */
module Automaton {
  import opened Bytes
  import opened Messages

  const INITIAL_STATE: nat := 0
  const NO_TRANSITION: nat := 65535

  // ---------------------------------------------------------------- tables

  /** ERR, OK, R:, RT:, I:, IT:, B: and S:; the bodies of I: and IT: are taken by the special states 17 and 21. */
  function StatusTransition(state: nat, input: byte): (next: nat) {
    var c := input as char;
    match state
    // ERR
    case 2 => if c == 'R' then 3 else NO_TRANSITION
    case 3 => if c == 'R' then 4 else NO_TRANSITION
    case 4 => if c == '\r' then 5 else NO_TRANSITION
    // OK
    case 6 => if c == 'K' then 7 else NO_TRANSITION
    case 7 => if c == '\r' then 8 else NO_TRANSITION
    // R:OK and RT:OK
    case 9 => if c == ':' then 10 else if c == 'T' then 11 else NO_TRANSITION
    case 10 => if c == 'O' then 101 else NO_TRANSITION
    case 11 => if c == ':' then 12 else NO_TRANSITION
    case 12 => if c == 'O' then 13 else NO_TRANSITION
    case 13 => if c == 'K' then 14 else NO_TRANSITION
    case 14 => if c == '\r' then 15 else NO_TRANSITION
    // I: and IT:, whose bodies the special states 17 and 21 take
    case 16 => if c == ':' then 17 else if c == 'T' then 20 else NO_TRANSITION
    case 18 => if c == '\r' then 19 else NO_TRANSITION
    case 20 => if c == ':' then 21 else NO_TRANSITION
    case 22 => if c == '\r' then 23 else NO_TRANSITION
    // B:OK
    case 24 => if c == ':' then 25 else NO_TRANSITION
    case 25 => if c == 'O' then 26 else NO_TRANSITION
    case 26 => if c == 'K' then 27 else NO_TRANSITION
    case 27 => if c == '\r' then 28 else NO_TRANSITION
    // S:
    case 29 => if c == ':' then 30 else NO_TRANSITION
    case 30 => 31
    case 31 => if c == '\r' then 32 else NO_TRANSITION
    case _ => NO_TRANSITION
  }

  /** The end of R:OK. */
  function ResetTransition(state: nat, input: byte): (next: nat) {
    var c := input as char;
    match state
    case 101 => if c == 'K' then 102 else NO_TRANSITION
    case 102 => if c == '\r' then 103 else NO_TRANSITION
    case _ => NO_TRANSITION
  }

  /** DS:, DR and U:; the data of DR is taken by the special state 50. */
  function DataTransition(state: nat, input: byte): (next: nat) {
    var c := input as char;
    match state
    // DS: with OK, ERR or BUSY
    case 33 => if c == 'S' then 34 else if c == 'R' then 48 else NO_TRANSITION
    case 34 => if c == ':' then 35 else NO_TRANSITION
    case 35 => if c == 'O' then 36 else if c == 'E' then 39 else if c == 'B' then 43 else NO_TRANSITION
    case 36 => if c == 'K' then 37 else NO_TRANSITION
    case 37 => if c == '\r' then 38 else NO_TRANSITION
    case 39 => if c == 'R' then 40 else NO_TRANSITION
    case 40 => if c == 'R' then 41 else NO_TRANSITION
    case 41 => if c == '\r' then 42 else NO_TRANSITION
    case 43 => if c == 'U' then 44 else NO_TRANSITION
    case 44 => if c == 'S' then 45 else NO_TRANSITION
    case 45 => if c == 'Y' then 46 else NO_TRANSITION
    case 46 => if c == '\r' then 47 else NO_TRANSITION
    // DR, whose data the special state 50 takes
    case 48 => 49
    case 49 => if c == ':' then 50 else NO_TRANSITION
    case 51 => if c == '\r' then 52 else NO_TRANSITION
    // U:OK
    case 53 => if c == ':' then 54 else NO_TRANSITION
    case 54 => if c == 'O' then 55 else NO_TRANSITION
    case 55 => if c == 'K' then 56 else NO_TRANSITION
    case 56 => if c == '\r' then 57 else NO_TRANSITION
    case _ => NO_TRANSITION
  }

  /** PE:, PT: and the head of PM:. */
  function ProgrammingTransition(state: nat, input: byte): (next: nat) {
    var c := input as char;
    match state
    // PE: and PT: with OK or ERR1
    case 58 => if c == 'E' then 59 else if c == 'T' then 69 else if c == 'M' then 79 else NO_TRANSITION
    case 59 => if c == ':' then 60 else NO_TRANSITION
    case 60 => if c == 'O' then 61 else if c == 'E' then 64 else NO_TRANSITION
    case 61 => if c == 'K' then 62 else NO_TRANSITION
    case 62 => if c == '\r' then 63 else NO_TRANSITION
    case 64 => if c == 'R' then 65 else NO_TRANSITION
    case 65 => if c == 'R' then 66 else NO_TRANSITION
    case 66 => if c == '1' then 67 else NO_TRANSITION
    case 67 => if c == '\r' then 68 else NO_TRANSITION
    case 69 => if c == ':' then 70 else NO_TRANSITION
    case 70 => if c == 'O' then 71 else if c == 'E' then 74 else NO_TRANSITION
    case 71 => if c == 'K' then 72 else NO_TRANSITION
    case 72 => if c == '\r' then 73 else NO_TRANSITION
    case 74 => if c == 'R' then 75 else NO_TRANSITION
    case 75 => if c == 'R' then 76 else NO_TRANSITION
    case 76 => if c == '1' then 77 else NO_TRANSITION
    case 77 => if c == '\r' then 78 else NO_TRANSITION
    // PM:, which the special state 95 sends to 80 (status) or 96 (download data)
    case 79 => if c == ':' then 95 else NO_TRANSITION
    case _ => NO_TRANSITION
  }

  /** The status texts of PM: and the end of its download data, to which the special state 95 leads. */
  function UploadTransition(state: nat, input: byte): (next: nat) {
    var c := input as char;
    match state
    case 80 => if c == 'O' then 81 else if c == 'E' then 84 else if c == 'B' then 89 else NO_TRANSITION
    case 81 => if c == 'K' then 82 else NO_TRANSITION
    case 82 => if c == '\r' then 83 else NO_TRANSITION
    case 84 => if c == 'R' then 85 else NO_TRANSITION
    case 85 => if c == 'R' then 86 else NO_TRANSITION
    case 86 => if '2' <= c <= '7' then 87 else NO_TRANSITION
    case 87 => if c == '\r' then 88 else NO_TRANSITION
    case 89 => if c == 'U' then 90 else NO_TRANSITION
    case 90 => if c == 'S' then 91 else NO_TRANSITION
    case 91 => if c == 'Y' then 92 else NO_TRANSITION
    case 92 => if c == '\r' then 93 else NO_TRANSITION
    case 96 => if c == '\r' then 97 else NO_TRANSITION
    case _ => NO_TRANSITION
  }

  /** The transition table.  States 30 and 48 accept every input. */
  function DoTransition(state: nat, input: byte): (next: nat) {
    var c := input as char;
    if state == 0 then if c == '<' then 1 else NO_TRANSITION
    else if state == 1 then
      match c
      case 'E' => 2 case 'O' => 6 case 'R' => 9 case 'I' => 16 case 'B' => 24
      case 'S' => 29 case 'D' => 33 case 'U' => 53 case 'P' => 58 case _ => NO_TRANSITION
    else if state < 33 then StatusTransition(state, input)
    else if state < 58 then DataTransition(state, input)
    else if state < 80 then ProgrammingTransition(state, input)
    else if state < 100 then UploadTransition(state, input)
    else ResetTransition(state, input)
  }

  predicate IsFiniteState(state: nat) {
    state in {5, 8, 15, 19, 23, 28, 32, 38, 42, 47, 52, 57, 103, 63, 68, 73, 78, 83, 88, 93, 97}
  }

  predicate IsSpecialState(state: nat) {
    state in {17, 21, 50, 95}
  }

  /** Message type the state-info table gives a finite state. */
  function StateType(state: nat): (t: MessageType)
    requires IsFiniteState(state)
  {
    match state
    case 5 => Error
    case 8 => Test
    case 103 => ResUsb
    case 15 => ResTr
    case 19 => UsbInfo
    case 23 => TrInfo
    case 28 => UsbConn
    case 32 => SpiStat
    case 52 => Async
    case 57 => Switch
    case 73 => ModeNormal
    case 78 => ModeNormal
    case 63 => ModeProgram
    case 68 => ModeProgram
    case 97 => DownloadData
    case _ => if state < 80 then DataSend else UploadDownload
  }

  // ---------------------------------------------------------------- what a state has read

  /** How a state of the fixed-form part is entered: from which state, on which pattern character. */
  datatype Edge = Edge(from: nat, on: char) | NoEdge

  ghost function StatusEdge(state: nat): (e: Edge)
    ensures e.Edge? ==> e.from < state
  {
    match state
    case 1 => Edge(0, '<') case 2 => Edge(1, 'E') case 3 => Edge(2, 'R') case 4 => Edge(3, 'R')
    case 5 => Edge(4, '\r') case 6 => Edge(1, 'O') case 7 => Edge(6, 'K') case 8 => Edge(7, '\r')
    case 9 => Edge(1, 'R') case 10 => Edge(9, ':') case 11 => Edge(9, 'T') case 12 => Edge(11, ':')
    case 13 => Edge(12, 'O') case 14 => Edge(13, 'K') case 15 => Edge(14, '\r') case 16 => Edge(1, 'I')
    case 17 => Edge(16, ':') case 20 => Edge(16, 'T') case 21 => Edge(20, ':') case 24 => Edge(1, 'B')
    case 25 => Edge(24, ':') case 26 => Edge(25, 'O') case 27 => Edge(26, 'K') case 28 => Edge(27, '\r')
    case 29 => Edge(1, 'S') case 30 => Edge(29, ':') case 31 => Edge(30, '?') case 32 => Edge(31, '\r')
    case _ => NoEdge
  }

  ghost function DataEdge(state: nat): (e: Edge)
    ensures e.Edge? ==> e.from < state
  {
    match state
    case 33 => Edge(1, 'D') case 34 => Edge(33, 'S') case 35 => Edge(34, ':') case 36 => Edge(35, 'O')
    case 37 => Edge(36, 'K') case 38 => Edge(37, '\r') case 39 => Edge(35, 'E') case 40 => Edge(39, 'R')
    case 41 => Edge(40, 'R') case 42 => Edge(41, '\r') case 43 => Edge(35, 'B') case 44 => Edge(43, 'U')
    case 45 => Edge(44, 'S') case 46 => Edge(45, 'Y') case 47 => Edge(46, '\r') case 48 => Edge(33, 'R')
    case 49 => Edge(48, '?') case 50 => Edge(49, ':') case 53 => Edge(1, 'U') case 54 => Edge(53, ':')
    case 55 => Edge(54, 'O') case 56 => Edge(55, 'K') case 57 => Edge(56, '\r')
    case _ => NoEdge
  }

  ghost function ProgrammingEdge(state: nat): (e: Edge)
    ensures e.Edge? ==> e.from < state
  {
    match state
    case 58 => Edge(1, 'P') case 59 => Edge(58, 'E') case 60 => Edge(59, ':') case 61 => Edge(60, 'O')
    case 62 => Edge(61, 'K') case 63 => Edge(62, '\r') case 64 => Edge(60, 'E') case 65 => Edge(64, 'R')
    case 66 => Edge(65, 'R') case 67 => Edge(66, '1') case 68 => Edge(67, '\r') case 69 => Edge(58, 'T')
    case 70 => Edge(69, ':') case 71 => Edge(70, 'O') case 72 => Edge(71, 'K') case 73 => Edge(72, '\r')
    case 74 => Edge(70, 'E') case 75 => Edge(74, 'R') case 76 => Edge(75, 'R') case 77 => Edge(76, '1')
    case 78 => Edge(77, '\r') case 79 => Edge(58, 'M')
    case _ => NoEdge
  }

  ghost function UploadEdge(state: nat): (e: Edge)
    ensures e.Edge? ==> e.from < state
  {
    match state
    case 95 => Edge(79, ':') case 80 => Edge(79, ':') case 81 => Edge(80, 'O') case 82 => Edge(81, 'K')
    case 83 => Edge(82, '\r') case 84 => Edge(80, 'E') case 85 => Edge(84, 'R') case 86 => Edge(85, 'R')
    case 87 => Edge(86, '%') case 88 => Edge(87, '\r') case 89 => Edge(80, 'B') case 90 => Edge(89, 'U')
    case 91 => Edge(90, 'S') case 92 => Edge(91, 'Y') case 93 => Edge(92, '\r')
    case _ => NoEdge
  }

  ghost function ResetEdge(state: nat): (e: Edge)
    ensures e.Edge? ==> e.from < state
  {
    match state
    case 101 => Edge(10, 'O') case 102 => Edge(101, 'K') case 103 => Edge(102, '\r')
    case _ => NoEdge
  }

  ghost function InEdge(state: nat): (e: Edge)
    ensures e.Edge? ==> e.from < state
  {
    if state < 33 then StatusEdge(state)
    else if state < 58 then DataEdge(state)
    else if state < 80 then ProgrammingEdge(state)
    else if state < 100 then UploadEdge(state)
    else ResetEdge(state)
  }

  /** States of the fixed-form part; not 18, 19, 22, 23, 51, 52, 96, 97, which lie behind a special state. */
  ghost predicate Spelled(state: nat) {
    state == 0 || InEdge(state).Edge?
  }

  ghost function StatusSpelling(state: nat): (text: string) {
    match state
    case 1 => "<" case 2 => "<E" case 3 => "<ER" case 4 => "<ERR" case 5 => "<ERR\r" case 6 => "<O"
    case 7 => "<OK" case 8 => "<OK\r" case 9 => "<R" case 10 => "<R:" case 11 => "<RT" case 12 => "<RT:"
    case 13 => "<RT:O" case 14 => "<RT:OK" case 15 => "<RT:OK\r" case 16 => "<I" case 17 => "<I:"
    case 20 => "<IT" case 21 => "<IT:" case 24 => "<B" case 25 => "<B:" case 26 => "<B:O" case 27 => "<B:OK"
    case 28 => "<B:OK\r" case 29 => "<S" case 30 => "<S:" case 31 => "<S:?" case 32 => "<S:?\r"
    case _ => ""
  }

  ghost function DataSpelling(state: nat): (text: string) {
    match state
    case 33 => "<D" case 34 => "<DS" case 35 => "<DS:" case 36 => "<DS:O" case 37 => "<DS:OK"
    case 38 => "<DS:OK\r" case 39 => "<DS:E" case 40 => "<DS:ER" case 41 => "<DS:ERR" case 42 => "<DS:ERR\r"
    case 43 => "<DS:B" case 44 => "<DS:BU" case 45 => "<DS:BUS" case 46 => "<DS:BUSY" case 47 => "<DS:BUSY\r"
    case 48 => "<DR" case 49 => "<DR?" case 50 => "<DR?:" case 53 => "<U" case 54 => "<U:" case 55 => "<U:O"
    case 56 => "<U:OK" case 57 => "<U:OK\r"
    case _ => ""
  }

  ghost function ProgrammingSpelling(state: nat): (text: string) {
    match state
    case 58 => "<P" case 59 => "<PE" case 60 => "<PE:" case 61 => "<PE:O" case 62 => "<PE:OK"
    case 63 => "<PE:OK\r" case 64 => "<PE:E" case 65 => "<PE:ER" case 66 => "<PE:ERR" case 67 => "<PE:ERR1"
    case 68 => "<PE:ERR1\r" case 69 => "<PT" case 70 => "<PT:" case 71 => "<PT:O" case 72 => "<PT:OK"
    case 73 => "<PT:OK\r" case 74 => "<PT:E" case 75 => "<PT:ER" case 76 => "<PT:ERR" case 77 => "<PT:ERR1"
    case 78 => "<PT:ERR1\r" case 79 => "<PM"
    case _ => ""
  }

  ghost function UploadSpelling(state: nat): (text: string) {
    match state
    case 80 => "<PM:" case 81 => "<PM:O" case 82 => "<PM:OK" case 83 => "<PM:OK\r" case 84 => "<PM:E"
    case 85 => "<PM:ER" case 86 => "<PM:ERR" case 87 => "<PM:ERR%" case 88 => "<PM:ERR%\r" case 89 => "<PM:B"
    case 90 => "<PM:BU" case 91 => "<PM:BUS" case 92 => "<PM:BUSY" case 93 => "<PM:BUSY\r" case 95 => "<PM:"
    case _ => ""
  }

  ghost function ResetSpelling(state: nat): (text: string) {
    match state
    case 101 => "<R:O" case 102 => "<R:OK" case 103 => "<R:OK\r"
    case _ => ""
  }

  /** The text that leads from the initial state to a spelled state. */
  ghost function Spelling(state: nat): (text: string) {
    if state < 33 then StatusSpelling(state)
    else if state < 58 then DataSpelling(state)
    else if state < 80 then ProgrammingSpelling(state)
    else if state < 100 then UploadSpelling(state)
    else ResetSpelling(state)
  }

  ghost predicate Grows(state: nat) {
    InEdge(state).Edge? ==> Spelling(state) == Spelling(InEdge(state).from) + [InEdge(state).on]
  }

  lemma StatusGrows(state: nat)
    requires 1 <= state < 33
    ensures Grows(state)
  {
  }

  lemma DataGrows(state: nat)
    requires 33 <= state < 58
    ensures Grows(state)
  {
  }

  lemma ProgrammingGrows(state: nat)
    requires 58 <= state < 80
    ensures Grows(state)
  {
  }

  lemma UploadGrows(state: nat)
    requires 80 <= state < 100
    ensures Grows(state)
  {
  }

  lemma ResetGrows(state: nat)
    requires 100 <= state < 104
    ensures Grows(state)
  {
  }

  /** An in-edge spells one character more. */
  lemma SpellingGrows(state: nat)
    requires InEdge(state).Edge?
    ensures Spelling(state) == Spelling(InEdge(state).from) + [InEdge(state).on]
  {
    if state < 33 {
      StatusGrows(state);
    } else if state < 58 {
      DataGrows(state);
    } else if state < 80 {
      ProgrammingGrows(state);
    } else if state < 100 {
      UploadGrows(state);
    } else {
      ResetGrows(state);
    }
  }

  /** 1 up to and including the special states 50 and 95, 0 behind them, where the position may have stepped back. */
  ghost function Stage(state: nat): nat {
    if 51 <= state <= 52 || 80 <= state <= 93 || 96 <= state <= 97 then 0 else 1
  }

  ghost predicate FollowsEdge(state: nat, input: byte) {
    var next := DoTransition(state, input);
    next != NO_TRANSITION ==>
      InEdge(next).Edge? && InEdge(next).from == state && Fits(input, InEdge(next).on)
  }

  lemma StatusFollowsEdge(state: nat, input: byte)
    requires state < 33 && Spelled(state)
    ensures FollowsEdge(state, input)
  {
  }

  lemma DataFollowsEdge(state: nat, input: byte)
    requires 33 <= state < 58 && Spelled(state)
    ensures FollowsEdge(state, input)
  {
  }

  lemma ProgrammingFollowsEdge(state: nat, input: byte)
    requires 58 <= state < 80 && Spelled(state)
    ensures FollowsEdge(state, input)
  {
  }

  lemma UploadFollowsEdge(state: nat, input: byte)
    requires 80 <= state && Spelled(state)
    ensures FollowsEdge(state, input)
  {
  }

  /** A transition out of a spelled state follows the in-edge of its target. */
  lemma TransitionFollowsEdge(state: nat, input: byte)
    requires Spelled(state)
    ensures FollowsEdge(state, input)
  {
    if state < 33 {
      StatusFollowsEdge(state, input);
    } else if state < 58 {
      DataFollowsEdge(state, input);
    } else if state < 80 {
      ProgrammingFollowsEdge(state, input);
    } else {
      UploadFollowsEdge(state, input);
    }
  }

  lemma StatusEdgeIsTransition(state: nat, input: byte)
    requires state < 33 && InEdge(state).Edge? && Fits(input, InEdge(state).on)
    ensures DoTransition(InEdge(state).from, input) == state
  {
  }

  lemma DataEdgeIsTransition(state: nat, input: byte)
    requires 33 <= state < 58 && InEdge(state).Edge? && Fits(input, InEdge(state).on)
    ensures DoTransition(InEdge(state).from, input) == state
  {
  }

  lemma ProgrammingEdgeIsTransition(state: nat, input: byte)
    requires 58 <= state < 80 && InEdge(state).Edge? && Fits(input, InEdge(state).on)
    ensures DoTransition(InEdge(state).from, input) == state
  {
  }

  lemma UploadEdgeIsTransition(state: nat, input: byte)
    requires 80 < state && InEdge(state).Edge? && Fits(input, InEdge(state).on)
    ensures DoTransition(InEdge(state).from, input) == state
  {
  }

  /** Every in-edge but that of state 80 is a transition. */
  lemma EdgeIsTransition(state: nat, input: byte)
    requires state != 80 && InEdge(state).Edge? && Fits(input, InEdge(state).on)
    ensures DoTransition(InEdge(state).from, input) == state
  {
    if state < 33 {
      StatusEdgeIsTransition(state, input);
    } else if state < 58 {
      DataEdgeIsTransition(state, input);
    } else if state < 80 {
      ProgrammingEdgeIsTransition(state, input);
    } else {
      UploadEdgeIsTransition(state, input);
    }
  }

  lemma StageNeverRises(state: nat, input: byte)
    ensures Stage(DoTransition(state, input)) <= Stage(state) || DoTransition(state, input) == NO_TRANSITION
  {
  }
}
