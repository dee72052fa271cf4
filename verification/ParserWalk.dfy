/**
 * The fixed-form part of the automaton is a tree of texts: where a run over a buffer leaves it, and
 * that a run follows any text the buffer begins with.
 */
module ParserWalk {
  import opened Bytes
  import opened Messages
  import opened Automaton
  import opened Parsing

  /** data begins with the text of a state. */
  ghost predicate Reads(data: ustring, state: nat) {
    Spelled(state) && Begins(data, Spelling(state))
  }

  lemma ReadsStep(data: ustring, state: nat, next: nat)
    requires Reads(data, state) && |Spelling(state)| < |data|
    requires InEdge(next).Edge? && InEdge(next).from == state
    requires Fits(data[|Spelling(state)|], InEdge(next).on)
    ensures Reads(data, next) && |Spelling(next)| == |Spelling(state)| + 1
  {
    var k := |Spelling(state)|;
    SpellingGrows(next);
    forall i | 0 <= i < k + 1
      ensures Fits(data[..k + 1][i], Spelling(next)[i])
    {
      if i < k {
        assert data[..k][i] == data[i] && Spelling(next)[i] == Spelling(state)[i];
      }
    }
  }

  lemma ReadsParent(data: ustring, state: nat)
    requires Reads(data, state) && state != 0
    ensures var from := InEdge(state).from;
            && Reads(data, from) && |Spelling(from)| + 1 == |Spelling(state)|
            && Fits(data[|Spelling(from)|], InEdge(state).on)
  {
    var from := InEdge(state).from;
    SpellingGrows(state);
    SpelledFrom(state);
    var k := |Spelling(from)|;
    assert data[..k + 1][k] == data[k];
    forall i | 0 <= i < k
      ensures Fits(data[..k][i], Spelling(from)[i])
    {
      assert data[..k + 1][i] == data[i];
    }
  }

  lemma SpelledFrom(state: nat)
    requires InEdge(state).Edge?
    ensures Spelled(InEdge(state).from) && !IsFiniteState(InEdge(state).from)
    ensures !IsSpecialState(InEdge(state).from)
  {
  }

  // ---------------------------------------------------------------- following a text

  lemma ThroughPM(data: ustring)
    requires Reads(data, 80) && (|data| == 7 || |data| == 9)
    ensures Spelling(79) == "<PM" && Placed(data, 79, 3) && Placed(data, 80, 4)
    ensures Run(data, 79, 3) == Run(data, 80, 4)
  {
    var s79, s95 := 79, 95;
    assert Spelling(95) == Spelling(s79) + [':'];
    assert Spelling(s79) == Spelling(95)[..3] == "<PM";
    assert data[3] == data[..4][3];
    assert DoTransition(s79, data[3]) == s95;
    assert Run(data, 79, 3) == Run(data, s95, 4);
    assert ProcessSpecialState(s95, data, 4) == StateProcResult(80, 3, false);
  }

  /** A run follows every text the buffer begins with; behind "<PM:" only in buffers of 7 or 9 bytes. */
  lemma {:induction false} Follow(data: ustring, state: nat)
    requires Reads(data, state) && !IsFiniteState(state)
    requires 80 <= state <= 93 ==> |data| == 7 || |data| == 9
    ensures Parse(data) == Run(data, state, |Spelling(state)|)
    decreases state
  {
    if state != 0 {
      var from := InEdge(state).from;
      ReadsParent(data, state);
      SpelledFrom(state);
      if state == 80 {
        Follow(data, 79);
        ThroughPM(data);
      } else {
        Follow(data, from);
        EdgeIsTransition(state, data[|Spelling(from)|]);
      }
    }
  }

  // ---------------------------------------------------------------- leaving the tree

  /** In state `at`, a run over data leaves the tree: it ends, dies, accepts, or meets a special state. */
  ghost predicate Leaves(data: ustring, at: nat) {
    && Reads(data, at) && !IsFiniteState(at)
    && (|data| == |Spelling(at)| || IsSpecialState(at) ||
        var next := DoTransition(at, data[|Spelling(at)|]);
        next == NO_TRANSITION || IsFiniteState(next))
  }

  /** Every run leaves the tree in some state. */
  lemma {:induction false} Walk(data: ustring, state: nat) returns (at: nat)
    requires Reads(data, state) && !IsFiniteState(state)
    ensures Leaves(data, at) && Run(data, state, |Spelling(state)|) == Run(data, at, |Spelling(at)|)
    ensures 80 <= state <= 93 ==> 80 <= at <= 93
    ensures !(80 <= state <= 93) ==> !(80 <= at <= 93)
    decreases |data| - |Spelling(state)|
  {
    var k := |Spelling(state)|;
    if Leaves(data, state) {
      at := state;
    } else {
      var next := DoTransition(state, data[k]);
      TransitionFollowsEdge(state, data[k]);
      ReadsStep(data, state, next);
      WithinUpload(state, data[k]);
      at := Walk(data, next);
    }
  }

  lemma WithinUpload(state: nat, input: byte)
    requires Spelled(state) && !IsSpecialState(state) && DoTransition(state, input) != NO_TRANSITION
    ensures 80 <= state <= 93 <==> 80 <= DoTransition(state, input) <= 93
  {
  }
}
