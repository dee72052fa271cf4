/**
 * Commands and replies as a step relation: the calling thread, the reading thread and the device
 * take steps in any order.  A run is a list of steps; the theorems hold for every run.
 */
module Protocol {
  import opened Wrappers

  datatype Platform = Linux | Windows

  /** A reply, marked with the number of the command it answers; an asynchronous message. */
  datatype Message = Reply(to: nat, content: int) | Async(data: int)

  /** Where the caller is in processCommand: outside, before writing the command, waiting, before reading the response. */
  datatype Pc = Idle | Armed | Waiting | Woken

  /** A command that returned: its number, what it read, and the signals raised before its start and before its wake-up. */
  datatype Completion = Completion(cmd: nat, message: Option<Message>, signalsBefore: nat, signalsAtWake: nat)

  datatype State = State(
    pc: Pc,
    sent: nat,                       // commands written so far, numbered from 0
    current: nat,                    // the one written last
    inbox: seq<nat>,                 // commands the device has not answered
    wire: seq<Message>,              // messages the reader has not taken
    storing: bool,                   // lastResponse is written, the signal not yet raised
    lastResponse: Option<Message>,
    event: nat,                      // Linux: the counter of the event; Windows: 1 if signalled
    signals: nat,                    // signals raised so far
    signalsBefore: nat,              // ... when the current command started
    signalsAtWake: nat,              // ... when it was woken
    stopped: bool,
    completed: seq<Completion>,
    heard: seq<int>)

  datatype Step =
    | Start | Send | Wake | Read | Timeout          // the caller
    | Answer(content: int) | Emit(data: int)        // the device
    | Take | Signal | Break                         // the reader

  predicate Enabled(s: State, step: Step) {
    match step
    case Start => s.pc == Idle && !s.stopped
    case Send => s.pc == Armed
    case Wake => s.pc == Waiting && s.event > 0
    case Read => s.pc == Woken
    case Timeout => s.pc == Waiting
    case Answer(_) => s.inbox != []
    case Emit(_) => true
    case Take => s.wire != [] && !s.storing && !s.stopped
    case Signal => s.storing
    case Break => !s.storing && !s.stopped
  }

  function Do(p: Platform, s: State, step: Step): (s': State)
    requires Enabled(s, step)
  {
    match step
    // only Windows clears the event before it sends
    case Start => s.(pc := Armed, event := if p == Windows then 0 else s.event, signalsBefore := s.signals)
    case Send => s.(pc := Waiting, sent := s.sent + 1, current := s.sent, inbox := s.inbox + [s.sent])
    // reading an eventfd sets it back to 0; a manual-reset event stays signalled
    case Wake => s.(pc := Woken, event := if p == Linux then 0 else s.event, signalsAtWake := s.signals)
    case Read =>
      var c := Completion(s.current, s.lastResponse, s.signalsBefore, s.signalsAtWake);
      s.(pc := Idle, completed := s.completed + [c])
    case Timeout => s.(pc := Idle)
    case Answer(content) => s.(inbox := s.inbox[1..], wire := s.wire + [Reply(s.inbox[0], content)])
    case Emit(data) => s.(wire := s.wire + [Async(data)])
    case Take =>
      (match s.wire[0]
       case Async(data) => s.(wire := s.wire[1..], heard := s.heard + [data])
       case Reply(_, _) => s.(wire := s.wire[1..], lastResponse := Some(s.wire[0]), storing := true))
    case Signal =>
      s.(storing := false, event := if p == Linux then s.event + 1 else 1, signals := s.signals + 1)
    case Break => s.(stopped := true)
  }

  predicate IsRun(p: Platform, s: State, steps: seq<Step>)
    decreases |steps|
  {
    steps == [] || (Enabled(s, steps[0]) && IsRun(p, Do(p, s, steps[0]), steps[1..]))
  }

  function After(p: Platform, s: State, steps: seq<Step>): (s': State)
    requires IsRun(p, s, steps)
    decreases |steps|
  {
    if steps == [] then s else After(p, Do(p, s, steps[0]), steps[1..])
  }

  predicate Initial(s: State) {
    && s.pc == Idle && s.sent == 0 && s.inbox == [] && s.wire == [] && !s.storing && s.lastResponse.None?
    && s.event == 0 && s.signals == 0 && s.signalsBefore == 0 && s.signalsAtWake == 0
    && s.completed == [] && s.heard == []
  }

  /** No wait times out. */
  predicate Prompt(steps: seq<Step>) {
    Timeout !in steps
  }

  // ---------------------------------------------------------------- what every run keeps

  function Answers(wire: seq<Message>): (tags: seq<nat>) {
    if wire == [] then []
    else (if wire[0].Reply? then [wire[0].to] else []) + Answers(wire[1..])
  }

  lemma {:induction false} AnswersAppend(wire: seq<Message>, m: Message)
    ensures Answers(wire + [m]) == Answers(wire) + if m.Reply? then [m.to] else []
  {
    if wire != [] {
      assert (wire + [m])[1..] == wire[1..] + [m];
      AnswersAppend(wire[1..], m);
    } else {
      assert [m][1..] == [];
    }
  }

  /** The commands without a stored reply yet, oldest first. */
  function Unanswered(s: State): (tags: seq<nat>) {
    Answers(s.wire) + s.inbox
  }

  /** An answer moves the oldest command to the wire, and asynchronous messages do not count. */
  lemma DeviceKeepsUnanswered(p: Platform, s: State, step: Step)
    requires Enabled(s, step) && (step.Answer? || step.Emit?)
    ensures Unanswered(Do(p, s, step)) == Unanswered(s)
  {
    if step.Answer? {
      AnswersAppend(s.wire, Reply(s.inbox[0], step.content));
      assert s.inbox == [s.inbox[0]] + s.inbox[1..];
    } else {
      AnswersAppend(s.wire, Async(step.data));
    }
  }

  /** How a step changes the commands without a stored reply. */
  lemma UnansweredAfter(p: Platform, s: State, step: Step)
    requires Enabled(s, step)
    ensures var s' := Do(p, s, step);
            if step == Send then Unanswered(s') == Unanswered(s) + [s.sent]
            else if step == Take && s.wire[0].Reply? then Unanswered(s) == [s.wire[0].to] + Unanswered(s')
            else Unanswered(s') == Unanswered(s)
  {
    if step.Answer? || step.Emit? {
      DeviceKeepsUnanswered(p, s, step);
    }
  }

  /** Replies only answer commands that were sent, and nothing is signalled before anything is stored. */
  ghost predicate Sane(s: State) {
    && (forall tag :: tag in Unanswered(s) ==> tag < s.sent)
    && (s.lastResponse.Some? ==> s.lastResponse.value.Reply? && s.lastResponse.value.to < s.sent)
    && (s.event > 0 || s.storing ==> s.lastResponse.Some?)
  }

  lemma SaneKept(p: Platform, s: State, step: Step)
    requires Sane(s) && Enabled(s, step)
    ensures Sane(Do(p, s, step))
  {
    UnansweredAfter(p, s, step);
    if step == Take && s.wire[0].Reply? {
      var rest := Unanswered(Do(p, s, step));
      assert s.wire[0].to in [s.wire[0].to] + rest;
      assert forall tag :: tag in rest ==> tag in [s.wire[0].to] + rest;
    }
  }

  lemma {:induction false} SaneAlways(p: Platform, s: State, steps: seq<Step>)
    requires Sane(s) && IsRun(p, s, steps)
    ensures Sane(After(p, s, steps))
    decreases |steps|
  {
    if steps != [] {
      SaneKept(p, s, steps[0]);
      SaneAlways(p, Do(p, s, steps[0]), steps[1..]);
    }
  }

  // ---------------------------------------------------------------- pairing

  /** Nothing of an earlier command is under way; on Linux, no signal of one is left either. */
  predicate Quiet(p: Platform, s: State) {
    s.pc == Idle && Unanswered(s) == [] && !s.storing && (p == Linux ==> s.event == 0)
  }

  predicate ReadsOwn(c: Completion) {
    c.message.Some? && c.message.value.Reply? && c.message.value.to == c.cmd
  }

  /** All commands completed since the first n read their own reply. */
  predicate PairedSince(s: State, n: nat) {
    forall i :: n <= i < |s.completed| ==> ReadsOwn(s.completed[i])
  }

  /** The reply of the current command is in exactly one place. */
  predicate InStep(p: Platform, s: State) {
    var own := s.lastResponse.Some? && s.lastResponse.value.Reply? && s.lastResponse.value.to == s.current;
    match s.pc
    case Idle => Quiet(p, s)
    case Armed => Unanswered(s) == [] && !s.storing && s.event == 0
    case Waiting =>
      && (|| (Unanswered(s) == [s.current] && !s.storing && s.event == 0)
          || (Unanswered(s) == [] && s.storing && s.event == 0 && own)
          || (Unanswered(s) == [] && !s.storing && s.event == 1 && own))
    case Woken => Unanswered(s) == [] && !s.storing && own && (p == Linux ==> s.event == 0)
  }

  lemma InStepKept(p: Platform, s: State, step: Step, n: nat)
    requires InStep(p, s) && PairedSince(s, n) && Enabled(s, step) && step != Timeout
    ensures InStep(p, Do(p, s, step)) && PairedSince(Do(p, s, step), n)
  {
    UnansweredAfter(p, s, step);
    if step == Take && s.wire[0].Reply? {
      var rest := Unanswered(Do(p, s, step));
      assert Unanswered(s)[0] == s.wire[0].to && |Unanswered(s)| == 1 + |rest|;
    }
  }

  /**
   * While no wait times out, every command reads the reply to itself; the event counts at most one
   * signal, on Linux none between commands.
   */
  lemma {:induction false} RepliesPair(p: Platform, s: State, steps: seq<Step>, n: nat)
    requires InStep(p, s) && PairedSince(s, n) && IsRun(p, s, steps) && Prompt(steps)
    ensures var s' := After(p, s, steps);
            && InStep(p, s') && PairedSince(s', n)
            && (p == Linux ==> s'.event <= 1 && (s'.pc == Idle ==> s'.event == 0))
    decreases |steps|
  {
    if steps != [] {
      InStepKept(p, s, steps[0], n);
      RepliesPair(p, Do(p, s, steps[0]), steps[1..], n);
    }
  }

  /** From the start, the n-th completed command is command n, and reads the n-th reply. */
  ghost predicate InOrder(s: State) {
    && (forall i :: 0 <= i < |s.completed| ==> s.completed[i].cmd == i)
    && |s.completed| + (if s.pc == Waiting || s.pc == Woken then 1 else 0) == s.sent
    && (s.pc == Waiting || s.pc == Woken ==> s.current == s.sent - 1)
  }

  lemma {:induction false} CompletesInOrder(p: Platform, s: State, steps: seq<Step>)
    requires InOrder(s) && IsRun(p, s, steps) && Prompt(steps)
    ensures InOrder(After(p, s, steps))
    decreases |steps|
  {
    if steps != [] {
      CompletesInOrder(p, Do(p, s, steps[0]), steps[1..]);
    }
  }

  lemma NthReadsNth(p: Platform, s: State, steps: seq<Step>, i: nat)
    requires Initial(s) && IsRun(p, s, steps) && Prompt(steps) && i < |After(p, s, steps).completed|
    ensures var c := After(p, s, steps).completed[i];
            c.cmd == i && ReadsOwn(c)
  {
    RepliesPair(p, s, steps, 0);
    CompletesInOrder(p, s, steps);
  }

  // ---------------------------------------------------------------- after timeouts

  lemma {:induction false} RunsJoin(p: Platform, s: State, a: seq<Step>, b: seq<Step>)
    requires IsRun(p, s, a) && IsRun(p, After(p, s, a), b)
    ensures IsRun(p, s, a + b) && After(p, s, a + b) == After(p, After(p, s, a), b)
    decreases |a|
  {
    if a == [] {
      assert a + b == b;
    } else {
      assert (a + b)[1..] == a[1..] + b;
      RunsJoin(p, Do(p, s, a[0]), a[1..], b);
    }
  }

  /** A run from s in which the next command to complete reads the reply to another one. */
  ghost predicate Crosses(p: Platform, s: State, steps: seq<Step>) {
    && IsRun(p, s, steps) && Prompt(steps)
    && var s' := After(p, s, steps);
       |s'.completed| == |s.completed| + 1 && !ReadsOwn(s'.completed[|s.completed|])
  }

  /** With a signal left on Linux, the next command is woken at once by it. */
  lemma LeftSignalCrosses(s: State)
    requires Sane(s) && s.pc == Idle && !s.stopped && s.event > 0
    ensures Crosses(Linux, s, [Start, Send, Wake, Read])
  {
    var s1 := Do(Linux, s, Start);
    var s2 := Do(Linux, s1, Send);
    var s3 := Do(Linux, s2, Wake);
    var s4 := Do(Linux, s3, Read);
    Four(Linux, s, Start, Send, Wake, Read);
    assert s4.completed[|s.completed|].message == s.lastResponse;
  }

  /** A run of one step, and of one step more. */
  lemma OneStep(p: Platform, s: State, step: Step)
    requires Enabled(s, step)
    ensures IsRun(p, s, [step]) && After(p, s, [step]) == Do(p, s, step)
  {
    assert [step][1..] == [];
    assert IsRun(p, Do(p, s, step), []);
    assert After(p, Do(p, s, step), []) == Do(p, s, step);
  }

  lemma StepMore(p: Platform, s: State, step: Step, steps: seq<Step>)
    requires Enabled(s, step) && IsRun(p, Do(p, s, step), steps)
    ensures IsRun(p, s, [step] + steps) && After(p, s, [step] + steps) == After(p, Do(p, s, step), steps)
  {
    assert ([step] + steps)[1..] == steps;
  }

  lemma Four(p: Platform, s: State, a: Step, b: Step, c: Step, d: Step)
    requires Enabled(s, a)
    requires var s1 := Do(p, s, a); Enabled(s1, b)
    requires var s2 := Do(p, Do(p, s, a), b); Enabled(s2, c)
    requires var s3 := Do(p, Do(p, Do(p, s, a), b), c); Enabled(s3, d)
    ensures IsRun(p, s, [a, b, c, d])
    ensures After(p, s, [a, b, c, d]) == Do(p, Do(p, Do(p, Do(p, s, a), b), c), d)
  {
    var s1 := Do(p, s, a);
    var s2 := Do(p, s1, b);
    var s3 := Do(p, s2, c);
    OneStep(p, s3, d);
    StepMore(p, s2, c, [d]);
    StepMore(p, s1, b, [c] + [d]);
    StepMore(p, s, a, [b] + ([c] + [d]));
    assert [a] + ([b] + ([c] + [d])) == [a, b, c, d];
  }

  /** With a reply stored but not signalled, the signal comes after the start and wakes the next command. */
  lemma LateSignalCrosses(p: Platform, s: State)
    requires Sane(s) && s.pc == Idle && !s.stopped && s.storing
    ensures Crosses(p, s, [Start] + [Signal, Send, Wake, Read])
  {
    var s1 := Do(p, s, Start);
    Four(p, s1, Signal, Send, Wake, Read);
    StepMore(p, s, Start, [Signal, Send, Wake, Read]);
    var s5 := After(p, s, [Start] + [Signal, Send, Wake, Read]);
    assert s5.completed[|s.completed|].message == s.lastResponse;
  }

  /** A reply under way can be stored while the caller stays where it is. */
  lemma {:induction false} UntilStored(p: Platform, s: State) returns (steps: seq<Step>)
    requires !s.storing && !s.stopped && Unanswered(s) != []
    ensures IsRun(p, s, steps) && Prompt(steps)
    ensures var s' := After(p, s, steps);
            s'.storing && !s'.stopped && s'.pc == s.pc && s'.completed == s.completed
    decreases |s.wire| + 2 * |s.inbox|
  {
    var step := if s.wire == [] then Answer(0) else Take;
    var s' := Do(p, s, step);
    UnansweredAfter(p, s, step);
    if s'.storing {
      OneStep(p, s, step);
      steps := [step];
    } else {
      var more := UntilStored(p, s');
      StepMore(p, s, step, more);
      steps := [step] + more;
    }
  }

  lemma UnderWayCrosses(p: Platform, s: State) returns (steps: seq<Step>)
    requires Sane(s) && s.pc == Idle && !s.stopped && !s.storing && Unanswered(s) != []
    ensures Crosses(p, s, steps)
  {
    var first := UntilStored(p, s);
    SaneAlways(p, s, first);
    var s' := After(p, s, first);
    LateSignalCrosses(p, s');
    var second := [Start] + [Signal, Send, Wake, Read];
    RunsJoin(p, s, first, second);
    steps := first + second;
  }

  /**
   * Between commands, whatever went before: the next command is sure to read its own reply exactly
   * if nothing of an earlier one is left, where Windows need not care about an old signal.
   */
  lemma PairsExactly(p: Platform, s: State)
    requires Sane(s) && s.pc == Idle && !s.stopped
    ensures Quiet(p, s) <==> !exists steps :: Crosses(p, s, steps)
  {
    if Quiet(p, s) {
      forall steps | IsRun(p, s, steps) && Prompt(steps)
        ensures !Crosses(p, s, steps)
      {
        RepliesPair(p, s, steps, |s.completed|);
      }
    } else if s.storing {
      LateSignalCrosses(p, s);
    } else if Unanswered(s) != [] {
      var steps := UnderWayCrosses(p, s);
    } else {
      LeftSignalCrosses(s);
    }
  }

  /** After a timeout on Linux, the reply that comes late leaves a signal behind. */
  const LATE_REPLY: seq<Step> := [Start, Send, Timeout, Answer(0), Take, Signal]

  /** From the start on: a single wait that times out is enough for the next command to read the reply to the first. */
  lemma TimeoutCrosses(s: State)
    requires Initial(s) && !s.stopped
    ensures IsRun(Linux, s, LATE_REPLY)
    ensures var s' := After(Linux, s, LATE_REPLY);
            s'.pc == Idle && s'.event == 1 && Crosses(Linux, s', [Start, Send, Wake, Read])
  {
    var s1 := Do(Linux, s, Start);
    var s2 := Do(Linux, s1, Send);
    var s3 := Do(Linux, s2, Timeout);
    var s4 := Do(Linux, s3, Answer(0));
    assert s4.inbox == [] && s4.wire == [Reply(0, 0)];
    var s5 := Do(Linux, s4, Take);
    var s6 := Do(Linux, s5, Signal);
    OneStep(Linux, s5, Signal);
    StepMore(Linux, s4, Take, [Signal]);
    StepMore(Linux, s3, Answer(0), [Take] + [Signal]);
    OneStep(Linux, s2, Timeout);
    StepMore(Linux, s1, Send, [Timeout]);
    StepMore(Linux, s, Start, [Send] + [Timeout]);
    var first, second := [Start] + ([Send] + [Timeout]), [Answer(0)] + ([Take] + [Signal]);
    RunsJoin(Linux, s, first, second);
    assert first + second == LATE_REPLY;
    InitialHolds(Linux, s);
    SaneAlways(Linux, s, LATE_REPLY);
    LeftSignalCrosses(s6);
  }

  /** The invariants hold at the start. */
  lemma InitialHolds(p: Platform, s: State)
    requires Initial(s)
    ensures Sane(s) && Fresh(s) && InStep(p, s) && InOrder(s)
  {
  }

  /** In every run from the start, whatever timed out: what PairsExactly says holds whenever the caller is between commands. */
  lemma PairsExactlyReached(p: Platform, start: State, steps: seq<Step>)
    requires Initial(start) && IsRun(p, start, steps)
    requires var s := After(p, start, steps); s.pc == Idle && !s.stopped
    ensures var s := After(p, start, steps);
            Quiet(p, s) <==> !exists next :: Crosses(p, s, next)
  {
    InitialHolds(p, start);
    SaneAlways(p, start, steps);
    PairsExactly(p, After(p, start, steps));
  }

  /** A wake-up was preceded by a signal raised after the start of the same command. */
  predicate Fresh(s: State) {
    && (forall i :: 0 <= i < |s.completed| ==> s.completed[i].signalsBefore < s.completed[i].signalsAtWake)
    && s.signalsBefore <= s.signals
    && (s.pc == Armed || s.pc == Waiting ==> s.event > 0 ==> s.signalsBefore < s.signals)
    && (s.pc == Woken ==> s.signalsBefore < s.signalsAtWake)
  }

  lemma {:induction false} FreshAlways(s: State, steps: seq<Step>)
    requires Fresh(s) && IsRun(Windows, s, steps)
    ensures Fresh(After(Windows, s, steps))
    decreases |steps|
  {
    if steps != [] {
      FreshAlways(Do(Windows, s, steps[0]), steps[1..]);
    }
  }

  /**
   * In every run from the start on Windows, whatever timed out before, every command that returned
   * was woken by a signal raised after it cleared the event.
   */
  lemma WindowsWakesFresh(s: State, steps: seq<Step>, i: nat)
    requires Initial(s) && IsRun(Windows, s, steps) && i < |After(Windows, s, steps).completed|
    ensures var c := After(Windows, s, steps).completed[i];
            c.signalsBefore < c.signalsAtWake
  {
    InitialHolds(Windows, s);
    FreshAlways(s, steps);
  }
}
