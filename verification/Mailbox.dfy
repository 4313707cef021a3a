/**
 The doorbell mailbox (mailbox.cpp) as an interleaving of two processors. The RP2350 reads and
 writes the shared block one byte at a time; the 6502 may act between any two of those accesses.
 A post (request fields, STATUS=BUSY, doorbell) happens only after the 6502 has seen a status other
 than BUSY. It is one step, until the last part splits off the doorbell.
 */
module Mailbox {
  import opened Words

  // STATUS values
  const IDLE: u8 := 0
  const BUSY: u8 := 1
  const DONE: u8 := 2
  const ERROR: u8 := 3

  const DOORBELL_NONE: u8 := 0
  const DOORBELL_TRIGGER: u8 := 1
  const ERR_EINVAL: u8 := 6
  const POLL_LIMIT: nat := 250

  /**
   The bytes of the block that the RP2350 writes, in the order it publishes them:
   RES0L, RES0H, RES1L, RES1H, ERR, FLAGS, STATUS, and the doorbell.
   */
  const RESULTS: nat := 6
  const STATUS: nat := 6
  const DOORBELL: nat := 7

  datatype Fsm = MbInit | MbIdle | MbWrite | MbRead | MbDone

  datatype Request = Request(group: u8, cmd: u8, args: seq<u8>)

  /** What a command completes with: the six result bytes and DONE or ERROR. */
  datatype Outcome = Outcome(results: seq<u8>, status: u8)

  ghost predicate ValidOutcome(o: Outcome) {
    |o.results| == RESULTS && (o.status == DONE || o.status == ERROR)
  }

  const UNKNOWN_COMMAND: Outcome := Outcome([0, 0, 0, 0, ERR_EINVAL, 0], ERROR)

  /** Where the RP2350 is inside taskMailbox. */
  datatype Phase =
    | Between                                   // not inside taskMailbox
    | PollDoorbell
    | PollStatus
    | ReadGroup
    | ReadCmd(group: u8)
    | Clearing(done: nat)                       // rp_mailbox_clear_result_fields
    | Handling
    | Publishing(written: nat, outcome: Outcome) // rp_mailbox_set_done / set_error

  datatype State = State(
    bytes: seq<u8>,
    request: Request,
    trigger: bool,            // gMMUIOTrigger
    fsm: Fsm,
    count: nat,               // lCount
    phase: Phase,
    seenFree: bool,           // the 6502 has read a status other than BUSY since its last post
    // history
    posted: seq<Request>,
    executed: seq<Request>,
    outcomes: seq<Outcome>,
    finished: seq<Outcome>,   // the outcomes that handlers completed with
    waited: nat               // idle polls since the last post that did not look at the block
  )

  datatype Action =
    | CpuLook
    | CpuPost(request: Request, triggers: bool)
    | Trigger(on: bool)       // another I/O access raises the trigger, or the RP2350 swallows it
    | Poll                    // taskMailbox is called
    | Access                  // the RP2350's next access to the shared block
    | Suspend(to: Fsm)        // a console handler returns mbWRITE or mbREAD
    | Finish(outcome: Outcome) // a handler, or a console transfer, completes

  const START: State :=
    State(seq(8, _ => 0), Request(0, 0, []), false, MbInit, 0, Between, false, [], [], [], [], 0)

  datatype Handler = ConsoleWrite | ConsoleRead | FsExec

  /** The central command table: group, command and handler. */
  const COMMANDS: seq<(u8, u8, Handler)> := [(1, 1, ConsoleWrite), (1, 2, ConsoleRead), (2, 0x11, FsExec)]

  predicate Known(group: u8, cmd: u8) {
    exists i | 0 <= i < |COMMANDS| :: COMMANDS[i].0 == group && COMMANDS[i].1 == cmd
  }

  /** The handler that the table names for a request, if it names one; no pair is listed twice. */
  method FindCommand(group: u8, cmd: u8) returns (handler: Option<Handler>)
    ensures handler.Some? <==> Known(group, cmd)
    ensures handler == if (group, cmd) == (1, 1) then Some(ConsoleWrite)
                       else if (group, cmd) == (1, 2) then Some(ConsoleRead)
                       else if (group, cmd) == (2, 0x11) then Some(FsExec)
                       else None
    ensures handler.Some? ==> (group, cmd, handler.value) in COMMANDS
    ensures forall i, j | 0 <= i < j < |COMMANDS| :: (COMMANDS[i].0, COMMANDS[i].1) != (COMMANDS[j].0, COMMANDS[j].1)
  {
    var i := 0;
    while i < |COMMANDS|
      invariant 0 <= i <= |COMMANDS|
      invariant forall j | 0 <= j < i :: !(COMMANDS[j].0 == group && COMMANDS[j].1 == cmd)
    {
      if COMMANDS[i].0 == group && COMMANDS[i].1 == cmd {
        assert COMMANDS[i] == (group, cmd, COMMANDS[i].2);
        return Some(COMMANDS[i].2);
      }
      i := i + 1;
    }
    assert COMMANDS[0].0 == 1 && COMMANDS[1].0 == 1 && COMMANDS[2].0 == 2;
    return None;
  }

  /** The byte that publication writes at a position. */
  function PublishedByte(o: Outcome, k: nat): u8
    requires |o.results| == RESULTS && k <= DOORBELL
  {
    if k < RESULTS then o.results[k] else if k == STATUS then o.status else DOORBELL_NONE
  }

  ghost predicate Shape(s: State) {
    && |s.bytes| == 8
    && (s.phase.Clearing? ==> s.phase.done < RESULTS)
    && (s.phase.Publishing? ==> s.phase.written <= DOORBELL && ValidOutcome(s.phase.outcome))
  }

  /** The RP2350's next access, in the order of the code. */
  ghost function NextAccess(s: State): State
    requires Shape(s)
  {
    match s.phase
    case PollDoorbell =>
      if s.bytes[DOORBELL] != DOORBELL_NONE then s.(phase := ReadGroup) else s.(phase := PollStatus)
    case PollStatus =>
      if s.bytes[STATUS] == BUSY then s.(phase := ReadGroup) else s.(phase := Between)
    case ReadGroup =>
      s.(phase := ReadCmd(s.request.group))
    case ReadCmd(group) =>
      s.(executed := s.executed + [s.request.(group := group)],
         phase := if Known(group, s.request.cmd) then Clearing(0) else Publishing(0, UNKNOWN_COMMAND))
    case Clearing(k) =>
      s.(bytes := s.bytes[k := 0], trigger := false,
         phase := if k + 1 < RESULTS then Clearing(k + 1) else Handling)
    case Publishing(k, o) =>
      s.(bytes := s.bytes[k := PublishedByte(o, k)], trigger := false,
         outcomes := if k == STATUS then s.outcomes + [o] else s.outcomes,
         phase := if k < DOORBELL then Publishing(k + 1, o) else Between,
         fsm := if k < DOORBELL then s.fsm else MbDone)
    case _ => s
  }

  ghost function PollTask(s: State): State {
    match s.fsm
    case MbInit => s.(fsm := MbIdle)
    case MbDone => s.(fsm := MbIdle)
    case MbIdle =>
      if !s.trigger && s.count < POLL_LIMIT then s.(count := s.count + 1, waited := s.waited + 1)
      else s.(trigger := false, count := 0, phase := PollDoorbell)
    case _ => s     // a console transfer that still waits
  }

  /** The firmware's side of a poll: the machine's state and its static idle counter. */
  class Task {
    var fsm: Fsm
    var count: u16

    constructor ()
      ensures fsm == START.fsm && count == START.count
    {
      fsm, count := MbInit, 0;
    }

    /** One call of taskMailbox that waits for no console transfer; it says whether the block is looked at. */
    method Poll(trigger: bool) returns (looks: bool)
      requires count <= POLL_LIMIT && fsm != MbWrite && fsm != MbRead
      modifies this
      ensures count <= POLL_LIMIT
      ensures forall s: State | s.fsm == old(fsm) && s.count == old(count) && s.trigger == trigger
                                && s.phase == Between ::
                var s' := PollTask(s);
                s'.fsm == fsm && s'.count == count && (s'.phase == PollDoorbell <==> looks)
                && s'.trigger == (trigger && !looks)
    {
      if fsm == MbIdle {
        if !trigger {
          count := count + 1;
          if count - 1 < POLL_LIMIT {
            return false;
          }
        }
        count := 0;
        return true;
      }
      fsm := MbIdle;
      return false;
    }
  }

  /** One step; an action that is not enabled changes nothing. */
  ghost function Step(s: State, a: Action): State
    requires Shape(s)
  {
    match a
    case CpuLook =>
      if s.bytes[STATUS] != BUSY then s.(seenFree := true) else s
    case CpuPost(request, triggers) =>
      if !s.seenFree then s
      else s.(request := request, bytes := s.bytes[STATUS := BUSY][DOORBELL := DOORBELL_TRIGGER],
              trigger := s.trigger || triggers, seenFree := false,
              posted := s.posted + [request], waited := 0)
    case Trigger(on) => s.(trigger := on)
    case Poll =>
      if s.phase.Between? then PollTask(s) else s
    case Access => NextAccess(s)
    case Suspend(to) =>
      if s.phase.Handling? && (to == MbWrite || to == MbRead) then s.(phase := Between, fsm := to) else s
    case Finish(o) =>
      if ValidOutcome(o) && (s.phase.Handling? || (s.phase.Between? && (s.fsm == MbWrite || s.fsm == MbRead)))
      then s.(phase := Publishing(0, o), finished := s.finished + [o]) else s
  }

  /** A post waits to be dispatched. */
  predicate Pending(s: State) {
    |s.posted| == |s.executed| + 1
  }

  /** A dispatched command has not completed. */
  predicate Executing(s: State) {
    |s.executed| == |s.outcomes| + 1
  }

  ghost predicate PhaseInv(s: State)
    requires Shape(s)
  {
    match s.phase
    case Between => Executing(s) <==> (s.fsm == MbWrite || s.fsm == MbRead)
    case PollDoorbell => s.fsm == MbIdle && !Executing(s)
    case PollStatus => s.fsm == MbIdle && !Executing(s)
    case ReadGroup => Pending(s) && !Executing(s)
    case ReadCmd(group) => Pending(s) && !Executing(s) && group == s.request.group
    case Clearing(_) => Executing(s) && !Pending(s)
    case Handling => Executing(s) && !Pending(s)
    case Publishing(k, o) =>
      && s.bytes[..if k <= RESULTS then k else RESULTS] == o.results[..if k <= RESULTS then k else RESULTS]
      && if k <= STATUS then Executing(s) && !Pending(s)
         else !Executing(s) && s.outcomes != [] && s.outcomes[|s.outcomes| - 1] == o && (Pending(s) ==> s.waited == 0)
  }

  ghost predicate Inv(s: State) {
    && Shape(s)
    && |s.outcomes| <= |s.executed| <= |s.outcomes| + 1
    && |s.executed| <= |s.posted| <= |s.executed| + 1
    && !(Pending(s) && Executing(s))
    && s.executed == s.posted[..|s.executed|]
    && (s.posted != [] ==> s.request == s.posted[|s.posted| - 1])
    && (s.bytes[STATUS] == BUSY <==> Pending(s) || Executing(s))
    && (s.seenFree ==> s.bytes[STATUS] != BUSY)
    && (s.bytes[DOORBELL] != DOORBELL_NONE ==>
          s.bytes[STATUS] == BUSY || (s.phase.Publishing? && s.phase.written == DOORBELL))
    && (s.bytes[STATUS] != BUSY && s.posted != [] ==>
          && s.outcomes[|s.outcomes| - 1].status == s.bytes[STATUS]
          && s.outcomes[|s.outcomes| - 1].results == s.bytes[..RESULTS])
    && s.count <= POLL_LIMIT
    && (Pending(s) ==>
          && s.waited <= POLL_LIMIT
          && (s.phase.Between? && s.fsm == MbIdle ==> s.waited <= s.count)
          && (s.phase.Between? && s.fsm != MbIdle ==> s.waited == 0))
    && PhaseInv(s)
  }

  lemma PostKeepsInv(s: State, request: Request, triggers: bool)
    requires Inv(s)
    ensures Inv(Step(s, CpuPost(request, triggers)))
  {
    if s.seenFree {
      var s' := Step(s, CpuPost(request, triggers));
      assert s'.posted[..|s.executed|] == s.posted[..|s.executed|];
      assert s'.bytes[..RESULTS] == s.bytes[..RESULTS];
    }
  }

  lemma DispatchKeepsInv(s: State)
    requires Inv(s) && s.phase.ReadCmd?
    ensures Inv(Step(s, Access))
  {
    var s' := Step(s, Access);
    assert s.posted == s.posted[..|s.executed|] + [s.posted[|s.executed|]];
    assert s'.executed == s'.posted;
  }

  lemma PublishKeepsInv(s: State)
    requires Inv(s) && s.phase.Publishing?
    ensures Inv(Step(s, Access))
  {
    var s' := Step(s, Access);
    var k, o := s.phase.written, s.phase.outcome;
    if k < RESULTS {
      assert s'.bytes[..k + 1] == s.bytes[..k] + [o.results[k]];
      assert o.results[..k + 1] == o.results[..k] + [o.results[k]];
    } else {
      assert s'.bytes[..RESULTS] == s.bytes[..RESULTS];
      assert o.results[..RESULTS] == o.results;
    }
  }

  lemma OtherAccessKeepsInv(s: State)
    requires Inv(s) && !s.phase.ReadCmd? && !s.phase.Publishing?
    ensures Inv(Step(s, Access))
  {
  }

  lemma PollKeepsInv(s: State)
    requires Inv(s)
    ensures Inv(Step(s, Poll))
  {
    hide NextAccess;
    if s.phase.Between? {
      IdlePollKeepsInv(s);
    }
  }

  lemma IdlePollKeepsInv(s: State)
    requires Inv(s) && s.phase.Between?
    ensures Inv(PollTask(s))
  {
    hide NextAccess, Step;
    match s.fsm
    case MbIdle =>
    case _ =>
  }

  lemma CompletionKeepsInv(s: State, a: Action)
    requires Inv(s) && (a.Suspend? || a.Finish?)
    ensures Inv(Step(s, a))
  {
    hide NextAccess, PollTask;
  }

  lemma QuietKeepsInv(s: State, a: Action)
    requires Inv(s) && (a.CpuLook? || a.Trigger?)
    ensures Inv(Step(s, a))
  {
    hide NextAccess, PollTask;
  }

  lemma StepKeepsInv(s: State, a: Action)
    requires Inv(s)
    ensures Inv(Step(s, a))
  {
    hide NextAccess, PollTask, PhaseInv, Pending, Executing;
    match a
    case CpuPost(request, triggers) => PostKeepsInv(s, request, triggers);
    case Access =>
      if s.phase.ReadCmd? {
        DispatchKeepsInv(s);
      } else if s.phase.Publishing? {
        PublishKeepsInv(s);
      } else {
        OtherAccessKeepsInv(s);
      }
    case Poll => PollKeepsInv(s);
    case Suspend(_) => CompletionKeepsInv(s, a);
    case Finish(_) => CompletionKeepsInv(s, a);
    case _ => QuietKeepsInv(s, a);
  }

  ghost function Run(s: State, actions: seq<Action>): (s': State)
    requires Inv(s)
    ensures Inv(s')
    decreases |actions|
  {
    if actions == [] then s
    else
      StepKeepsInv(s, actions[0]);
      Run(Step(s, actions[0]), actions[1..])
  }

  lemma StartSatisfiesInv()
    ensures Inv(START)
  {
  }

  /**
   Safety over whole runs: the executed requests are the posted ones in order, each once, with at
   most the newest still waiting; and every executed request but the current one has one outcome.
   */
  lemma NothingLostNothingTwice(actions: seq<Action>)
    ensures Inv(START)
    ensures var s := Run(START, actions);
            && s.executed <= s.posted && |s.posted| - |s.executed| <= 1
            && |s.outcomes| <= |s.executed| <= |s.outcomes| + 1
            && (|s.posted| > |s.executed| ==> |s.outcomes| == |s.executed| && s.bytes[STATUS] == BUSY)
  {
    StartSatisfiesInv();
  }

  /**
   Whenever the 6502 reads DONE or ERROR after posting, all its posts have completed and the six
   result bytes and the status are exactly the last one's outcome.
   */
  lemma VisibleResultsAreFinal(actions: seq<Action>)
    ensures Inv(START)
    ensures var s := Run(START, actions);
            s.posted != [] && s.bytes[STATUS] != BUSY ==>
              && |s.outcomes| == |s.executed| == |s.posted|
              && s.outcomes[|s.outcomes| - 1] == Outcome(s.bytes[..RESULTS], s.bytes[STATUS])
  {
    StartSatisfiesInv();
    var s := Run(START, actions);
    if s.posted != [] && s.bytes[STATUS] != BUSY {
      var o := s.outcomes[|s.outcomes| - 1];
      assert o == Outcome(o.results, o.status);
    }
  }

  /** Clearing the doorbell can wipe out a new post's doorbell; BUSY still announces it. */
  lemma OverwrittenDoorbellIsNotLost(s: State)
    requires Inv(s) && s.phase.Publishing? && s.phase.written == DOORBELL && Pending(s)
    ensures var s' := Step(s, Access);
            s'.bytes[DOORBELL] == DOORBELL_NONE && Pending(s') && s'.bytes[STATUS] == BUSY && s'.posted == s.posted
  {
  }

  /** The RP2350 is between starting to look at the block and reading the command. */
  predicate Looking(s: State) {
    s.phase.PollDoorbell? || s.phase.PollStatus? || s.phase.ReadGroup? || s.phase.ReadCmd?
  }

  /** Calls of taskMailbox that find the machine idle. */
  ghost function IdlePolls(s: State, actions: seq<Action>): nat
    requires Inv(s)
    decreases |actions|
  {
    if actions == [] then 0
    else
      StepKeepsInv(s, actions[0]);
      (if actions[0].Poll? && s.phase.Between? && s.fsm == MbIdle then 1 else 0) +
      IdlePolls(Step(s, actions[0]), actions[1..])
  }

  /** Idle polls spent on the pending post, counting the one that is looking at it. */
  ghost function Spent(s: State): nat {
    s.waited + if Looking(s) then 1 else 0
  }

  lemma WaitingStep(s: State, a: Action)
    requires Inv(s) && Pending(s) && |Step(s, a).executed| == |s.executed|
    ensures var s' := Step(s, a);
            && Pending(s') && s'.posted == s.posted
            && Spent(s') == Spent(s) + if a.Poll? && s.phase.Between? && s.fsm == MbIdle then 1 else 0
  {
  }

  lemma StepExecutes(s: State, a: Action)
    requires Inv(s)
    ensures |s.executed| <= |Step(s, a).executed|
  {
    hide Inv, PhaseInv;
  }

  lemma {:induction false} ExecutedGrows(s: State, actions: seq<Action>)
    requires Inv(s)
    ensures |s.executed| <= |Run(s, actions).executed|
    decreases |actions|
  {
    if actions != [] {
      StepKeepsInv(s, actions[0]);
      StepExecutes(s, actions[0]);
      hide Inv, Step;
      ExecutedGrows(Step(s, actions[0]), actions[1..]);
    }
  }

  lemma {:induction false} SpentCountsIdlePolls(s: State, actions: seq<Action>)
    requires Inv(s) && Pending(s) && |Run(s, actions).executed| == |s.executed|
    ensures Pending(Run(s, actions))
    ensures Spent(Run(s, actions)) == Spent(s) + IdlePolls(s, actions)
    decreases |actions|
  {
    if actions != [] {
      StepKeepsInv(s, actions[0]);
      var s' := Step(s, actions[0]);
      ExecutedGrows(s', actions[1..]);
      StepExecutes(s, actions[0]);
      hide Inv, Step, Spent;
      WaitingStep(s, actions[0]);
      SpentCountsIdlePolls(s', actions[1..]);
    }
  }

  /**
   Bounded waiting: whatever happens in between, and even if every trigger is swallowed, a pending
   post has been dispatched once 252 idle polls have gone by: the 251st at the latest looks at it.
   */
  lemma ServedWithin251IdlePolls(s: State, actions: seq<Action>)
    requires Inv(s) && Pending(s)
    ensures IdlePolls(s, actions) > POLL_LIMIT + 1 ==> |Run(s, actions).executed| > |s.executed|
    ensures |Run(s, actions).executed| == |s.executed| && IdlePolls(s, actions) == POLL_LIMIT + 1 ==>
              Looking(Run(s, actions))
  {
    ExecutedGrows(s, actions);
    if |Run(s, actions).executed| == |s.executed| {
      SpentCountsIdlePolls(s, actions);
    }
  }

  /** Calls of taskMailbox, whatever state they find the machine in. */
  ghost function Calls(s: State, actions: seq<Action>): nat
    requires Inv(s)
    decreases |actions|
  {
    if actions == [] then 0
    else
      StepKeepsInv(s, actions[0]);
      (if actions[0].Poll? && s.phase.Between? then 1 else 0) + Calls(Step(s, actions[0]), actions[1..])
  }

  /** A call may still find the machine initialising or done. */
  ghost function NotIdleYet(s: State): nat {
    if s.phase.Publishing? || s.fsm != MbIdle then 1 else 0
  }

  lemma WaitingCall(s: State, a: Action)
    requires Inv(s) && Pending(s) && |Step(s, a).executed| == |s.executed|
    ensures (if a.Poll? && s.phase.Between? && s.fsm != MbIdle then 1 else 0) + NotIdleYet(Step(s, a)) <= NotIdleYet(s)
  {
  }

  /** While a post waits, at most one call of taskMailbox finds the machine other than idle. */
  lemma {:induction false} CallsAreIdlePolls(s: State, actions: seq<Action>)
    requires Inv(s) && Pending(s) && |Run(s, actions).executed| == |s.executed|
    ensures Calls(s, actions) + NotIdleYet(Run(s, actions)) <= IdlePolls(s, actions) + NotIdleYet(s)
    decreases |actions|
  {
    if actions != [] {
      StepKeepsInv(s, actions[0]);
      var s' := Step(s, actions[0]);
      ExecutedGrows(s', actions[1..]);
      StepExecutes(s, actions[0]);
      hide Inv, Step, Spent, NotIdleYet;
      WaitingCall(s, actions[0]);
      WaitingStep(s, actions[0]);
      CallsAreIdlePolls(s', actions[1..]);
    }
  }

  /** So a pending post has been dispatched once taskMailbox was called 253 times. */
  lemma ServedWithin253Calls(s: State, actions: seq<Action>)
    requires Inv(s) && Pending(s) && Calls(s, actions) >= 253
    ensures |Run(s, actions).executed| > |s.executed|
  {
    ExecutedGrows(s, actions);
    if |Run(s, actions).executed| == |s.executed| {
      CallsAreIdlePolls(s, actions);
      ServedWithin251IdlePolls(s, actions);
    }
  }

  function Polls(n: nat): (actions: seq<Action>)
    ensures |actions| == n
  {
    seq(n, _ => Poll)
  }

  lemma {:induction false} QuietPolls(s: State, n: nat)
    requires Inv(s) && s.phase.Between? && s.fsm == MbIdle && !s.trigger && s.count + n <= POLL_LIMIT
    ensures Run(s, Polls(n)) == s.(count := s.count + n, waited := s.waited + n)
    decreases n
  {
    if n > 0 {
      var s1 := Step(s, Poll);
      StepKeepsInv(s, Poll);
      assert Polls(n)[1..] == Polls(n - 1);
      QuietPolls(s1, n - 1);
    }
  }

  /** Unasked, the firmware leaves the block alone: after a look that finds nothing, 250 polls pass without one. */
  lemma NoLookFor250Polls(s: State, n: nat)
    requires Inv(s) && s.phase.Between? && !Step(s, Poll).phase.Between?
    requires s.bytes[DOORBELL] == DOORBELL_NONE && s.bytes[STATUS] != BUSY && n <= 250
    ensures Run(s, [Poll, Access, Access] + Polls(n)).phase.Between?
  {
    hide Inv, PhaseInv, Run, Polls;
    InvHasShape(s);
    var s1, s2 := Step(s, Poll), Step(Step(s, Poll), Access);
    RunOne(s, Poll, [Access] + ([Access] + Polls(n)));
    RunOne(s1, Access, [Access] + Polls(n));
    RunOne(s2, Access, Polls(n));
    EmptyLook(s);
    hide Step;
    QuietPolls(Step(s2, Access), n);
    assert [Poll] + ([Access] + ([Access] + Polls(n))) == [Poll, Access, Access] + Polls(n);
  }

  lemma EmptyLook(s: State)
    requires Shape(s) && s.phase.Between? && !Step(s, Poll).phase.Between?
    requires s.bytes[DOORBELL] == DOORBELL_NONE && s.bytes[STATUS] != BUSY
    ensures Step(Step(Step(s, Poll), Access), Access) == s.(trigger := false, count := 0)
    ensures s.fsm == MbIdle
  {
  }

  lemma RunOne(s: State, a: Action, rest: seq<Action>)
    requires Inv(s)
    ensures Inv(Step(s, a)) && Run(s, [a] + rest) == Run(Step(s, a), rest)
  {
    StepKeepsInv(s, a);
    assert ([a] + rest)[1..] == rest;
  }

  /** Once the RP2350 looks, four of its own accesses at most dispatch the post. */
  lemma LookingDispatches(s: State)
    requires Inv(s) && Pending(s) && Looking(s)
    ensures var s1 := Step(s, Access);
            if s.phase.ReadCmd? then s1.executed == s.posted
            else Inv(s1) && Looking(s1) && Pending(s1) && s1.posted == s.posted
    ensures forall request, triggers :: Step(s, CpuPost(request, triggers)) == s
  {
    StepKeepsInv(s, Access);
  }

  // ---------------------------------------------------------------------------
  // Who answers a request
  // ---------------------------------------------------------------------------

  /** A request for one of the three listed commands. */
  predicate Listed(r: Request) {
    (r.group == 1 && r.cmd == 1) || (r.group == 1 && r.cmd == 2) || (r.group == 2 && r.cmd == 0x11)
  }

  lemma ListedIsKnown(r: Request)
    ensures Listed(r) <==> Known(r.group, r.cmd)
  {
    assert COMMANDS[0] == (1, 1, ConsoleWrite) && COMMANDS[1] == (1, 2, ConsoleRead)
        && COMMANDS[2] == (2, 0x11, FsExec);
  }

  /** The outcomes of the listed requests, in order. */
  ghost function ListedOutcomes(executed: seq<Request>, outcomes: seq<Outcome>): seq<Outcome>
    requires |outcomes| <= |executed|
    decreases |outcomes|
  {
    if outcomes == [] then []
    else
      var n := |outcomes| - 1;
      ListedOutcomes(executed, outcomes[..n]) + if Listed(executed[n]) then [outcomes[n]] else []
  }

  lemma {:induction false} MoreExecuted(executed: seq<Request>, r: Request, outcomes: seq<Outcome>)
    requires |outcomes| <= |executed|
    ensures ListedOutcomes(executed + [r], outcomes) == ListedOutcomes(executed, outcomes)
    decreases |outcomes|
  {
    if outcomes != [] {
      MoreExecuted(executed, r, outcomes[..|outcomes| - 1]);
    }
  }

  /** The outcome being published, if a handler gave it. */
  ghost function Current(s: State): seq<Outcome> {
    if s.phase.Publishing? && s.phase.written <= STATUS && s.executed != [] && Listed(s.executed[|s.executed| - 1])
    then [s.phase.outcome] else []
  }

  /** A handler is at work, inside taskMailbox or suspended. */
  predicate AtWork(s: State) {
    s.phase.Clearing? || s.phase.Handling? || (s.phase.Between? && (s.fsm == MbWrite || s.fsm == MbRead))
  }

  /** Handlers work on listed requests only, and all others complete with EINVAL and zero results. */
  ghost predicate Attributed(s: State)
    requires Inv(s)
  {
    && (forall i | 0 <= i < |s.outcomes| && !Listed(s.executed[i]) ::
          s.outcomes[i] == Outcome([0, 0, 0, 0, 6, 0], 3))
    && s.finished == ListedOutcomes(s.executed, s.outcomes) + Current(s)
    && (AtWork(s) ==> Executing(s) && Listed(s.executed[|s.executed| - 1]))
    && (s.phase.Publishing? && s.phase.written <= STATUS && !Listed(s.executed[|s.executed| - 1]) ==>
          s.phase.outcome == Outcome([0, 0, 0, 0, 6, 0], 3))
  }

  lemma DispatchKeepsAttribution(s: State)
    requires Inv(s) && Attributed(s) && s.phase.ReadCmd?
    ensures Inv(Step(s, Access)) && Attributed(Step(s, Access))
  {
    StepKeepsInv(s, Access);
    var r := s.request;
    ListedIsKnown(r);
    MoreExecuted(s.executed, r, s.outcomes);
  }

  lemma PublishKeepsAttribution(s: State)
    requires Inv(s) && Attributed(s) && s.phase.Publishing?
    ensures Inv(Step(s, Access)) && Attributed(Step(s, Access))
  {
    hide Listed, ListedOutcomes;
    StepKeepsInv(s, Access);
    if s.phase.written == STATUS {
      OneMoreOutcome(s.executed, s.outcomes, s.phase.outcome);
    }
  }

  lemma OneMoreOutcome(executed: seq<Request>, outcomes: seq<Outcome>, o: Outcome)
    requires |outcomes| < |executed|
    ensures ListedOutcomes(executed, outcomes + [o]) ==
            ListedOutcomes(executed, outcomes) + if Listed(executed[|outcomes|]) then [o] else []
  {
    assert (outcomes + [o])[..|outcomes|] == outcomes;
  }

  lemma SameAttribution(s: State, s': State)
    requires Inv(s) && Attributed(s) && Inv(s')
    requires s'.executed == s.executed && s'.outcomes == s.outcomes && s'.finished == s.finished
    requires !s.phase.Publishing? && !s'.phase.Publishing? && (AtWork(s') ==> AtWork(s))
    ensures Attributed(s')
  {
    hide Inv, PhaseInv, ListedOutcomes;
  }

  lemma LookingIsIdle(s: State)
    requires Inv(s)
    ensures s.phase.PollStatus? ==> s.fsm == MbIdle
  {
  }

  lemma OtherAccessKeepsAttribution(s: State)
    requires Inv(s) && Attributed(s) && !s.phase.ReadCmd? && !s.phase.Publishing?
    ensures Inv(Step(s, Access)) && Attributed(Step(s, Access))
  {
    hide Inv, PhaseInv, Attributed, PollTask;
    StepKeepsInv(s, Access);
    InvHasShape(s);
    LookingIsIdle(s);
    SameAttribution(s, Step(s, Access));
  }

  lemma PollKeepsAttribution(s: State)
    requires Inv(s) && Attributed(s)
    ensures Inv(Step(s, Poll)) && Attributed(Step(s, Poll))
  {
    hide Inv, PhaseInv, Attributed, NextAccess;
    StepKeepsInv(s, Poll);
    InvHasShape(s);
    if s.phase.Between? {
      SameAttribution(s, Step(s, Poll));
    }
  }

  lemma CompletionKeepsAttribution(s: State, a: Action)
    requires Inv(s) && Attributed(s) && (a.Suspend? || a.Finish?)
    ensures Inv(Step(s, a)) && Attributed(Step(s, a))
  {
    hide Inv, PhaseInv, ListedOutcomes, NextAccess, PollTask;
    StepKeepsInv(s, a);
    InvHasShape(s);
  }

  lemma QuietKeepsAttribution(s: State, a: Action)
    requires Inv(s) && Attributed(s) && (a.CpuLook? || a.Trigger? || a.CpuPost?)
    ensures Inv(Step(s, a)) && Attributed(Step(s, a))
  {
    hide Inv, PhaseInv, ListedOutcomes, NextAccess, PollTask;
    StepKeepsInv(s, a);
    InvHasShape(s);
  }

  lemma StepKeepsAttribution(s: State, a: Action)
    requires Inv(s) && Attributed(s)
    ensures Inv(Step(s, a)) && Attributed(Step(s, a))
  {
    hide Inv, Step, Attributed;
    match a
    case Access =>
      if s.phase.ReadCmd? {
        DispatchKeepsAttribution(s);
      } else if s.phase.Publishing? {
        PublishKeepsAttribution(s);
      } else {
        OtherAccessKeepsAttribution(s);
      }
    case Poll => PollKeepsAttribution(s);
    case Suspend(_) => CompletionKeepsAttribution(s, a);
    case Finish(_) => CompletionKeepsAttribution(s, a);
    case _ => QuietKeepsAttribution(s, a);
  }

  lemma {:induction false} RunKeepsAttribution(s: State, actions: seq<Action>)
    requires Inv(s) && Attributed(s)
    ensures Attributed(Run(s, actions))
    decreases |actions|
  {
    if actions != [] {
      StepKeepsAttribution(s, actions[0]);
      hide Inv, Step, Attributed;
      RunKeepsAttribution(Step(s, actions[0]), actions[1..]);
    }
  }

  /**
   Over every run: a request for none of the three commands completes with ERROR, EINVAL and zero
   results, and no handler's outcome belongs to it; the outcomes of the others are the outcomes that
   handlers completed with, in order, each once, but for one that is still being published.
   */
  lemma AnswersBelong(actions: seq<Action>)
    ensures Inv(START)
    ensures var s := Run(START, actions);
            && (forall i | 0 <= i < |s.outcomes| && !Listed(s.executed[i]) ::
                  s.outcomes[i] == Outcome([0, 0, 0, 0, 6, 0], 3))
            && ListedOutcomes(s.executed, s.outcomes) <= s.finished
            && |s.finished| <= |ListedOutcomes(s.executed, s.outcomes)| + 1
            && (|s.finished| == |ListedOutcomes(s.executed, s.outcomes)| + 1 ==>
                  s.phase.Publishing? && s.finished[|s.finished| - 1] == s.phase.outcome
                  && Listed(s.executed[|s.executed| - 1]))
  {
    StartSatisfiesInv();
    assert Attributed(START);
    RunKeepsAttribution(START, actions);
  }

  // ---------------------------------------------------------------------------
  // A post in two steps
  // ---------------------------------------------------------------------------

  /** The 6502's side of a post, write by write: `owed` between STATUS=BUSY and the doorbell. */
  datatype Split = Split(s: State, owed: bool)

  datatype SplitAction =
    | Busy(request: Request)      // the request fields and STATUS=BUSY
    | Ring(triggers: bool)        // the doorbell
    | Other(action: Action)       // anything but a whole post; the 6502 does not look before it has rung

  function MarkBusy(s: State, request: Request): State
    requires |s.bytes| == 8
  {
    s.(request := request, bytes := s.bytes[STATUS := BUSY], seenFree := false,
       posted := s.posted + [request], waited := 0)
  }

  function Rung(s: State, triggers: bool): State
    requires |s.bytes| == 8
  {
    s.(bytes := s.bytes[DOORBELL := DOORBELL_TRIGGER], trigger := s.trigger || triggers)
  }

  ghost function SplitStep(t: Split, a: SplitAction): Split
    requires Shape(t.s)
  {
    match a
    case Busy(request) => if t.owed || !t.s.seenFree then t else Split(MarkBusy(t.s, request), true)
    case Ring(triggers) => if t.owed then Split(Rung(t.s, triggers), false) else t
    case Other(action) => if action.CpuPost? || (t.owed && action.CpuLook?) then t else t.(s := Step(t.s, action))
  }

  /** The doorbell comes before the completion of its request has cleared the doorbell. */
  ghost predicate InTime(s: State) {
    Pending(s) || Executing(s) || s.phase.Publishing?
  }

  /** With nothing in between, the two steps are the one that the rest of this module takes. */
  lemma SplitPostIsPost(s: State, request: Request, triggers: bool)
    requires Inv(s) && s.seenFree
    ensures SplitStep(SplitStep(Split(s, false), Busy(request)), Ring(triggers)) ==
            Split(Step(s, CpuPost(request, triggers)), false)
  {
  }

  lemma BusyKeepsInv(s: State, request: Request)
    requires Inv(s) && s.seenFree
    ensures Inv(MarkBusy(s, request))
  {
    var s' := MarkBusy(s, request);
    assert s'.posted[..|s.executed|] == s.posted[..|s.executed|];
    assert s'.bytes[..RESULTS] == s.bytes[..RESULTS];
  }

  /** A doorbell in time keeps the protocol's invariant, and a late one breaks it. */
  lemma RingKeepsInvIff(s: State, triggers: bool)
    requires Inv(s)
    ensures Inv(Rung(s, triggers)) <==> InTime(s)
  {
    var s' := Rung(s, triggers);
    assert s'.bytes[..RESULTS] == s.bytes[..RESULTS];
    if s.phase.Publishing? {
      var k := if s.phase.written <= RESULTS then s.phase.written else RESULTS;
      assert s'.bytes[..k] == s.bytes[..k];
    }
  }

  /** Every doorbell of the run is in time. */
  ghost predicate RingsInTime(t: Split, actions: seq<SplitAction>)
    requires Inv(t.s)
    decreases |actions|
  {
    if actions == [] then true
    else if actions[0].Ring? && t.owed && !InTime(t.s) then false
    else
      SplitStepKeepsInv(t, actions[0]);
      RingsInTime(SplitStep(t, actions[0]), actions[1..])
  }

  lemma SplitStepKeepsInv(t: Split, a: SplitAction)
    requires Inv(t.s) && (a.Ring? && t.owed ==> InTime(t.s))
    ensures Inv(SplitStep(t, a).s)
  {
    hide Inv, Step, InTime, Rung, MarkBusy;
    InvHasShape(t.s);
    match a
    case Busy(request) =>
      if !t.owed && t.s.seenFree {
        BusyKeepsInv(t.s, request);
      }
    case Ring(triggers) => RingKeepsInvIff(t.s, triggers);
    case Other(action) => StepKeepsInv(t.s, action);
  }

  lemma InvHasShape(s: State)
    requires Inv(s)
    ensures Shape(s)
  {
  }

  ghost function SplitRun(t: Split, actions: seq<SplitAction>): Split
    requires Inv(t.s) && RingsInTime(t, actions)
    ensures Inv(SplitRun(t, actions).s)
    decreases |actions|
  {
    if actions == [] then t
    else
      SplitStepKeepsInv(t, actions[0]);
      SplitRun(SplitStep(t, actions[0]), actions[1..])
  }

  /** In every run whose doorbells are in time, the executed requests are the posted ones in order, each once. */
  lemma SplitPostsRunOnce(actions: seq<SplitAction>)
    requires Inv(START) && RingsInTime(Split(START, false), actions)
    ensures var s := SplitRun(Split(START, false), actions).s;
            s.executed <= s.posted && |s.posted| - |s.executed| <= 1
  {
  }

  /** As long as a post is not dispatched its doorbell is in time. */
  lemma InTimeUntilDispatch(s: State, request: Request, s': State)
    requires Inv(s) && s.seenFree && s'.posted == MarkBusy(s, request).posted && s'.executed == s.executed
    ensures InTime(s')
  {
  }

  lemma StepKeepsShape(s: State, a: Action)
    requires Shape(s)
    ensures Shape(Step(s, a))
  {
  }

  /** Steps from any state, whether the invariant holds or not. */
  ghost function StepAll(s: State, actions: seq<Action>): (s': State)
    requires Shape(s)
    ensures Shape(s')
    decreases |actions|
  {
    if actions == [] then s
    else
      StepKeepsShape(s, actions[0]);
      StepAll(Step(s, actions[0]), actions[1..])
  }

  lemma {:induction false} StepAllIsRun(s: State, actions: seq<Action>)
    requires Inv(s)
    ensures StepAll(s, actions) == Run(s, actions)
    decreases |actions|
  {
    if actions != [] {
      StepKeepsInv(s, actions[0]);
      StepKeepsShape(s, actions[0]);
      hide Inv, Step, Shape;
      StepAllIsRun(Step(s, actions[0]), actions[1..]);
    }
  }

  lemma StepAllOne(s: State, a: Action, rest: seq<Action>)
    requires Shape(s)
    ensures Shape(Step(s, a)) && StepAll(s, [a] + rest) == StepAll(Step(s, a), rest)
  {
    StepKeepsShape(s, a);
    assert ([a] + rest)[1..] == rest;
  }

  /** From a look at a rung doorbell, three accesses execute the request that lies in the block. */
  lemma LookExecutes(s: State)
    requires Shape(s) && s.phase.PollDoorbell? && s.bytes[DOORBELL] != DOORBELL_NONE
    ensures StepAll(s, [Access] + ([Access] + ([Access] + []))).executed == s.executed + [s.request]
    ensures StepAll(s, [Access] + ([Access] + ([Access] + []))).posted == s.posted
  {
    StepAllOne(s, Access, [Access] + ([Access] + []));
    var s1 := Step(s, Access);
    StepAllOne(s1, Access, [Access] + []);
    var s2 := Step(s1, Access);
    StepAllOne(s2, Access, []);
  }

  lemma IdleExecutes(s: State) returns (actions: seq<Action>)
    requires Shape(s) && s.phase.Between? && s.fsm == MbIdle && s.bytes[DOORBELL] != DOORBELL_NONE
    ensures StepAll(s, actions).executed == s.executed + [s.request] && StepAll(s, actions).posted == s.posted
  {
    var look := [Access] + ([Access] + ([Access] + []));
    actions := [Trigger(true)] + ([Poll] + look);
    StepAllOne(s, Trigger(true), [Poll] + look);
    var s1 := Step(s, Trigger(true));
    StepAllOne(s1, Poll, look);
    LookExecutes(Step(s1, Poll));
  }

  /** After a late doorbell some continuation executes the last request a second time. */
  lemma LateDoorbellExecutesAgain(s: State, triggers: bool) returns (actions: seq<Action>)
    requires Inv(s) && !InTime(s)
    ensures var r := StepAll(Rung(s, triggers), actions);
            s.executed == s.posted == r.posted && r.executed == s.posted + [s.request]
  {
    var rung := Rung(s, triggers);
    if s.phase.PollDoorbell? {
      actions := [Access] + ([Access] + ([Access] + []));
      LookExecutes(rung);
    } else if s.phase.PollStatus? {
      var rest := IdleExecutes(Step(rung, Access));
      actions := [Access] + rest;
      StepAllOne(rung, Access, rest);
    } else if s.fsm == MbIdle {
      actions := IdleExecutes(rung);
    } else {
      var rest := IdleExecutes(Step(rung, Poll));
      actions := [Poll] + rest;
      StepAllOne(rung, Poll, rest);
    }
  }

  /**
   When a doorbell may ring: exactly before its request's completion has cleared the doorbell. Then
   nothing the system does afterwards executes more than was posted; later, something does.
   */
  lemma DoorbellIsHarmlessIff(s: State, triggers: bool)
    requires Inv(s)
    ensures InTime(s) <==>
            forall actions :: var r := StepAll(Rung(s, triggers), actions); |r.executed| <= |r.posted|
  {
    var rung := Rung(s, triggers);
    if InTime(s) {
      RingKeepsInvIff(s, triggers);
      forall actions
        ensures |StepAll(rung, actions).executed| <= |StepAll(rung, actions).posted|
      {
        StepAllIsRun(rung, actions);
      }
    } else {
      var actions := LateDoorbellExecutesAgain(s, triggers);
    }
  }
}
