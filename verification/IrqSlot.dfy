/**
 The single interrupt slot that the RP2350 offers the 6502 (scheduler.cpp): one IRQ line, a SOURCE
 byte the 6502 clears to acknowledge, a STATE byte, and three kinds of request competing for them.
 */
module IrqSlot {
  import opened Words

  const SRC_NONE: u8 := 0
  const SRC_TIMER: u8 := 1
  const SRC_FS_DONE: u8 := 3
  const SRC_CONSOLE_BREAK: u8 := 4

  const IRQ_NONE: u8 := 0
  const IRQ_PENDING: u8 := 1

  const MAX_PERIOD: nat := 65535

  datatype Slot = Slot(
    pending: bool,          // gIntrPending
    lineLow: bool,
    source: u8,
    state: u8,
    fs: bool,               // gFsCompletionPending
    brk: bool,              // gConsoleBreakPending
    timerOn: bool,
    interval: u32,
    last: u32)

  /** Arduino's millisecond clock is 32 bits wide, and so is the sum it is compared with. */
  predicate TimerDue(s: Slot, now: u32) {
    now >= (s.last + s.interval) % 0x1_0000_0000
  }

  /** genIRQ6502. */
  function Generate(s: Slot, source: u8): (Slot, bool) {
    if s.pending || s.state != IRQ_NONE then (s, false)
    else (s.(state := IRQ_PENDING, source := source, lineLow := true, pending := true), true)
  }

  /** taskIRQTimer: acknowledge first, then break, completion and timer in this order. */
  function Task(s: Slot, now: u32): Slot {
    if s.pending then
      if s.source == SRC_NONE then s.(lineLow := false, state := IRQ_NONE, pending := false) else s
    else if s.brk then
      var (s', ok) := Generate(s, SRC_CONSOLE_BREAK);
      if ok then s'.(brk := false) else s'
    else if s.fs then
      var (s', ok) := Generate(s, SRC_FS_DONE);
      if ok then s'.(fs := false) else s'
    else if s.timerOn && TimerDue(s, now) then
      Generate(s.(last := now), SRC_TIMER).0
    else s
  }

  function StopTimer(s: Slot): Slot {
    s.(timerOn := false, lineLow := false, source := SRC_NONE, state := IRQ_NONE, pending := false)
  }

  function StartTimer(s: Slot, period: u32, now: u32): Slot {
    if period < MAX_PERIOD then
      s.(interval := period, timerOn := true, last := now, source := SRC_NONE, state := IRQ_NONE, lineLow := false)
    else StopTimer(s)
  }

  // ---------------------------------------------------------------------------
  // The firmware's objects
  // ---------------------------------------------------------------------------

  class Scheduler {
    var intrPending: bool
    var fsCompletionPending: bool
    var consoleBreakPending: bool
    var timerEnabled: bool
    var timerInterval: u32
    var timerLast: u32
    // pin and shared bytes
    var lineLow: bool
    var source: u8
    var state: u8

    function View(): Slot
      reads this
    {
      Slot(intrPending, lineLow, source, state, fsCompletionPending, consoleBreakPending,
           timerEnabled, timerInterval, timerLast)
    }

    method GenIrq(src: u8) returns (ok: bool)
      modifies this`state, this`source, this`lineLow, this`intrPending
      ensures (View(), ok) == Generate(old(View()), src)
      ensures ok <==> !old(intrPending) && old(state) == IRQ_NONE
      ensures SlotFree(old(View())) ==> SlotFree(View()) && (ok <==> !old(intrPending))
      ensures if ok then View().pending && View().lineLow && View().source == src && View().state == IRQ_PENDING
              else View() == old(View())
    {
      if intrPending {
        return false;
      }
      if state == IRQ_NONE {
        state := IRQ_PENDING;
        source := src;
        lineLow := true;
        intrPending := true;
        return true;
      } else {
        return false;
      }
    }

    method RequestFsCompletion()
      modifies this`fsCompletionPending
      ensures View() == old(View()).(fs := true)
    {
      fsCompletionPending := true;
    }

    method RequestConsoleBreak()
      modifies this`consoleBreakPending
      ensures View() == old(View()).(brk := true)
    {
      consoleBreakPending := true;
    }

    method StopIrqTimer()
      modifies this
      ensures View() == StopTimer(old(View()))
      ensures !View().pending && SlotFree(View())
    {
      timerEnabled := false;
      lineLow := false;
      source := SRC_NONE;
      state := IRQ_NONE;
      intrPending := false;
    }

    method StartIrqTimer(period: u32, now: u32)
      modifies this
      ensures View() == StartTimer(old(View()), period, now)
      ensures SlotFree(old(View())) ==> SlotFree(View())
      ensures (timerEnabled <==> period < MAX_PERIOD) && !lineLow && source == SRC_NONE
    {
      if period < MAX_PERIOD {
        timerInterval := period;
        timerEnabled := true;
        timerLast := now;
        source := SRC_NONE;
        state := IRQ_NONE;
        lineLow := false;
      } else {
        StopIrqTimer();
      }
    }

    /** The result says whether an attempt to issue an interrupt failed. */
    method TaskIrqTimer(now: u32) returns (failed: bool)
      modifies this
      ensures View() == Task(old(View()), now)
      ensures SlotFree(old(View())) ==> !failed && SlotFree(View())
    {
      if intrPending {
        if source == SRC_NONE {
          lineLow := false;
          state := IRQ_NONE;
          intrPending := false;
        }
        return false;
      }
      if consoleBreakPending {
        var ok := GenIrq(SRC_CONSOLE_BREAK);
        if ok {
          consoleBreakPending := false;
        }
        return !ok;
      }
      if fsCompletionPending {
        var ok := GenIrq(SRC_FS_DONE);
        if ok {
          fsCompletionPending := false;
        }
        return !ok;
      }
      if timerEnabled {
        if now >= (timerLast + timerInterval) % 0x1_0000_0000 {
          timerLast := now;
          var ok := GenIrq(SRC_TIMER);
          return !ok;
        }
      }
      return false;
    }
  }

  // ---------------------------------------------------------------------------
  // Runs
  // ---------------------------------------------------------------------------

  /** One call, or one thing the rest of the system does between two calls. */
  datatype Action =
    | Acknowledge                  // the 6502 clears SOURCE
    | Poll(now: u32)               // taskIRQTimer
    | RequestFs
    | RequestBreak
    | Monitor(source: u8)          // genIRQ6502 from the monitor
    | Start(period: u32, now: u32)
    | Stop
    | InitScheduler
    | InitMailbox
    | BusReset                     // entering Boot or Reset raises the line

  function Step(s: Slot, a: Action): Slot {
    match a
    case Acknowledge => s.(source := SRC_NONE)
    case Poll(now) => Task(s, now)
    case RequestFs => s.(fs := true)
    case RequestBreak => s.(brk := true)
    case Monitor(source) => Generate(s, source).0
    case Start(period, now) => StartTimer(s, period, now)
    case Stop => StopTimer(s)
    case InitScheduler => s.(fs := false, brk := false, source := SRC_NONE, state := IRQ_NONE)
    case InitMailbox => s.(source := SRC_NONE, state := IRQ_NONE)
    case BusReset => s.(lineLow := false)
  }

  function Run(s: Slot, actions: seq<Action>): Slot
    decreases |actions|
  {
    if actions == [] then s else Run(Step(s, actions[0]), actions[1..])
  }

  /** An unoccupied slot is clean: line high, no source, no state. */
  predicate SlotFree(s: Slot) {
    !s.pending ==> !s.lineLow && s.source == SRC_NONE && s.state == IRQ_NONE
  }

  lemma {:induction false} SlotFreeAlways(s: Slot, actions: seq<Action>)
    requires SlotFree(s)
    ensures SlotFree(Run(s, actions))
    decreases |actions|
  {
    if actions != [] {
      SlotFreeAlways(Step(s, actions[0]), actions[1..]);
    }
  }

  /** In every reachable state, a poll that finds the slot unoccupied issues what it wants to issue. */
  lemma PollNeverFails(s: Slot, actions: seq<Action>, now: u32)
    requires SlotFree(s)
    ensures var r := Run(s, actions);
            !r.pending && (r.brk || r.fs || (r.timerOn && TimerDue(r, now))) ==>
              var r' := Task(r, now);
              && r'.pending && r'.lineLow && r'.state == IRQ_PENDING
              && r'.source == (if r.brk then SRC_CONSOLE_BREAK else if r.fs then SRC_FS_DONE else SRC_TIMER)
              && r'.brk == false && r'.fs == (r.brk && r.fs)
  {
    SlotFreeAlways(s, actions);
  }

  /** The interrupt that an action, being a poll, issues. */
  function Issue(s: Slot, a: Action): seq<u8> {
    if a.Poll? && !s.pending && Step(s, a).pending then [Step(s, a).source] else []
  }

  /** The interrupts that polls issue during a run, in order. */
  function Issued(s: Slot, actions: seq<Action>): seq<u8>
    decreases |actions|
  {
    if actions == [] then [] else Issue(s, actions[0]) + Issued(Step(s, actions[0]), actions[1..])
  }

  function BreakRequests(actions: seq<Action>): nat {
    if actions == [] then 0 else (if actions[0].RequestBreak? then 1 else 0) + BreakRequests(actions[1..])
  }

  function MonitorCalls(actions: seq<Action>): nat {
    if actions == [] then 0 else (if actions[0].Monitor? then 1 else 0) + MonitorCalls(actions[1..])
  }

  /** A poll that does not merely wait for the 6502 to acknowledge. */
  predicate Useful(s: Slot, a: Action) {
    a.Poll? && !(s.pending && s.source != SRC_NONE)
  }

  function UsefulPolls(s: Slot, actions: seq<Action>): nat
    decreases |actions|
  {
    if actions == [] then 0
    else (if Useful(s, actions[0]) then 1 else 0) + UsefulPolls(Step(s, actions[0]), actions[1..])
  }

  ghost predicate NoInit(actions: seq<Action>) {
    forall i | 0 <= i < |actions| :: !actions[i].InitScheduler?
  }

  /** How many useful polls can still come before the completion: one for the interrupt in flight, two for a break. */
  function Ahead(s: Slot): nat {
    (if s.pending then 1 else 0) + if s.brk then 2 else 0
  }

  /** One step while a completion waits. */
  lemma WaitingStep(s: Slot, a: Action)
    requires SlotFree(s) && s.fs && !a.InitScheduler?
    ensures var s' := Step(s, a);
            && SlotFree(s')
            && (s'.fs <==> Issue(s, a) != [SRC_FS_DONE])
            && (Issue(s, a) == [] || Issue(s, a) == [SRC_FS_DONE] || Issue(s, a) == [SRC_CONSOLE_BREAK])
            && (Issue(s, a) == [SRC_CONSOLE_BREAK] ==> s.brk && !s'.brk)
            && (s'.brk ==> s.brk || a.RequestBreak?)
            && (s'.fs ==> (if Useful(s, a) then 1 else 0) + Ahead(s') <=
                          Ahead(s) + (if a.RequestBreak? then 2 else 0) + if a.Monitor? then 1 else 0)
  {
  }

  lemma {:induction false} CompletionGoesByPolling(s: Slot, actions: seq<Action>)
    requires SlotFree(s) && s.fs && NoInit(actions)
    ensures Run(s, actions).fs || SRC_FS_DONE in Issued(s, actions)
    decreases |actions|
  {
    if actions != [] {
      WaitingStep(s, actions[0]);
      hide Step, SlotFree, Issue;
      if Step(s, actions[0]).fs {
        CompletionGoesByPolling(Step(s, actions[0]), actions[1..]);
      }
    }
  }

  /**
   A filesystem completion is never dropped, and is overtaken by console breaks only: at most the
   one already requested and one for each later request, never by the timer.
   */
  lemma {:induction false} OnlyBreaksOvertake(s: Slot, actions: seq<Action>)
    requires SlotFree(s) && s.fs && NoInit(actions)
    requires SRC_FS_DONE !in Issued(s, actions)
    ensures forall i | 0 <= i < |Issued(s, actions)| :: Issued(s, actions)[i] == SRC_CONSOLE_BREAK
    ensures |Issued(s, actions)| <= (if s.brk then 1 else 0) + BreakRequests(actions)
    decreases |actions|
  {
    if actions != [] {
      WaitingStep(s, actions[0]);
      hide Step, SlotFree, Issue;
      OnlyBreaksOvertake(Step(s, actions[0]), actions[1..]);
    }
  }

  /**
   Bounded waiting: polls that wait for no acknowledgement can serve at most the interrupt in
   flight, two per console break and one per monitor interrupt before the completion is issued.
   */
  lemma {:induction false} CompletionIsIssuedSoon(s: Slot, actions: seq<Action>)
    requires SlotFree(s) && s.fs && NoInit(actions)
    requires SRC_FS_DONE !in Issued(s, actions)
    ensures UsefulPolls(s, actions) <= Ahead(s) + 2 * BreakRequests(actions) + MonitorCalls(actions)
    decreases |actions|
  {
    if actions != [] {
      WaitingStep(s, actions[0]);
      hide Step, SlotFree, Issue, Useful, Ahead;
      CompletionIsIssuedSoon(Step(s, actions[0]), actions[1..]);
    }
  }

  /** The actions that empty an occupied slot. */
  predicate Empties(a: Action) {
    a.Acknowledge? || a.Start? || a.Stop? || a.InitScheduler? || a.InitMailbox?
  }

  lemma OccupiedStep(s: Slot, a: Action)
    requires SlotFree(s) && s.pending && s.source != SRC_NONE
    ensures var s' := Step(s, a);
            && SlotFree(s') && (s'.pending && s'.source == s.source <==> !Empties(a))
            && (!Empties(a) ==> Issue(s, a) == [] && (s'.lineLow <==> s.lineLow && !a.BusReset?))
  {
  }

  /**
   An issued interrupt stays in the slot exactly until one of these actions. Until then no poll
   issues another one, and its line is low exactly while the bus was not reset.
   */
  lemma {:induction false} IssuedStaysInSlot(s: Slot, actions: seq<Action>)
    requires SlotFree(s) && s.pending && s.source != SRC_NONE
    ensures (forall k | 0 <= k <= |actions| ::
               Run(s, actions[..k]).pending && Run(s, actions[..k]).source == s.source)
            <==> forall i | 0 <= i < |actions| :: !Empties(actions[i])
    ensures (forall i | 0 <= i < |actions| :: !Empties(actions[i])) ==>
              && Issued(s, actions) == []
              && (Run(s, actions).lineLow <==> s.lineLow && forall i | 0 <= i < |actions| :: !actions[i].BusReset?)
    decreases |actions|
  {
    if actions != [] {
      var s', rest := Step(s, actions[0]), actions[1..];
      OccupiedStep(s, actions[0]);
      hide Step, SlotFree, Issue, Empties;
      forall k | 1 <= k <= |actions|
        ensures Run(s, actions[..k]) == Run(s', rest[..k - 1])
      {
        assert actions[..k][1..] == rest[..k - 1];
      }
      if !Empties(actions[0]) {
        IssuedStaysInSlot(s', rest);
        assert actions[..0] == [] && Run(s, actions[..0]) == s;
        assert forall k | 0 <= k <= |rest| :: Run(s', rest[..k]) == Run(s, actions[..k + 1]);
        assert forall i | 0 <= i < |rest| :: rest[i] == actions[i + 1];
      } else {
        assert Run(s, actions[..1]) == Run(s', []);
      }
    }
  }

  /** Whether the bus was reset since the interrupt in the slot was issued. */
  function ResetSinceIssue(s: Slot, actions: seq<Action>, reset: bool): bool
    decreases |actions|
  {
    if actions == [] then reset
    else
      var s' := Step(s, actions[0]);
      ResetSinceIssue(s', actions[1..], actions[0].BusReset? || (reset && (s.pending || !s'.pending)))
  }

  /** In every run, the line of an interrupt in the slot is low exactly if the bus was not reset since its issue. */
  lemma {:induction false} LineLowIff(s: Slot, actions: seq<Action>, reset: bool)
    requires SlotFree(s) && (s.pending && s.source != SRC_NONE ==> (s.lineLow <==> !reset))
    ensures var r := Run(s, actions);
            r.pending && r.source != SRC_NONE ==> (r.lineLow <==> !ResetSinceIssue(s, actions, reset))
    decreases |actions|
  {
    if actions != [] {
      var s' := Step(s, actions[0]);
      LineLowIff(s', actions[1..], actions[0].BusReset? || (reset && (s.pending || !s'.pending)));
    }
  }

  const IDLE: Slot := Slot(false, false, SRC_NONE, IRQ_NONE, false, false, false, 0, 0)

  /**
   A bus reset after the issue wedges the slot: the 6502 sees no interrupt, so it acknowledges none,
   and every poll waits for the acknowledgement.
   */
  lemma ResetWedges(now: u32)
    ensures var r := Run(IDLE, [RequestBreak, Poll(now), BusReset]);
            && r.pending && r.source == SRC_CONSOLE_BREAK && !r.lineLow
            && forall later: u32 :: Task(r, later) == r
  {
    var s := Step(Step(IDLE, RequestBreak), Poll(now));
    assert Run(IDLE, [RequestBreak, Poll(now), BusReset]) == Step(s, BusReset) by {
      assert Run(Step(s, BusReset), []) == Step(s, BusReset);
      assert [BusReset][1..] == [] && Run(s, [BusReset]) == Run(Step(s, BusReset), []);
      assert [Poll(now), BusReset][1..] == [BusReset];
      assert [RequestBreak, Poll(now), BusReset][1..] == [Poll(now), BusReset];
    }
  }

  /**
   An interrupt that owns the slot merely delays a completion. Once the completion itself owns the
   slot, starting or stopping the timer withdraws it before it is acknowledged: nothing of it remains.
   */
  lemma TimerCommandsWithdrawCompletion(s: Slot, period: u32, now: u32)
    requires s.pending && s.source == SRC_FS_DONE && !s.fs
    ensures !StopTimer(s).lineLow && StopTimer(s).source == SRC_NONE && !StopTimer(s).fs
    ensures var s' := StartTimer(s, period, now); !s'.lineLow && s'.source == SRC_NONE && !s'.fs
  {
  }

  // ---------------------------------------------------------------------------
  // Calls are atomic for the 6502
  // ---------------------------------------------------------------------------

  /** The accesses of a successful genIRQ6502, in order. */
  function GenAccess(s: Slot, source: u8, k: nat): Slot {
    match k
    case 0 => s                                  // STATE is read
    case 1 => s.(state := IRQ_PENDING)
    case 2 => s.(source := source)
    case 3 => s.(lineLow := true)
    case _ => s.(pending := true)
  }

  function GenFrom(s: Slot, source: u8, k: nat): Slot
    requires k <= 5
    decreases 5 - k
  {
    if k == 5 then s else GenFrom(GenAccess(s, source, k), source, k + 1)
  }

  function GenUpTo(s: Slot, source: u8, k: nat): Slot {
    if k == 0 then s else GenAccess(GenUpTo(s, source, k - 1), source, k - 1)
  }

  /** The accesses of taskIRQTimer once it has read SOURCE as cleared. */
  function ClearUpTo(s: Slot, k: nat): Slot
    requires k <= 3
  {
    if k == 0 then s
    else if k == 1 then s.(lineLow := false)
    else if k == 2 then s.(lineLow := false, state := IRQ_NONE)
    else s.(lineLow := false, state := IRQ_NONE, pending := false)
  }

  /**
   An acknowledgement that lands between two accesses of genIRQ6502 or of the clearing branch has
   the effect of one before or after the whole call, so a call may be taken as one step.
   */
  lemma AcknowledgeMidCall(s: Slot, source: u8, k: nat)
    requires k <= 5 && SlotFree(s)
    ensures !s.pending ==>
              GenFrom(Step(GenUpTo(s, source, k), Acknowledge), source, k) ==
              if k <= 2 then Generate(Step(s, Acknowledge), source).0 else Step(Generate(s, source).0, Acknowledge)
    ensures s.pending && s.source == SRC_NONE && k <= 3 ==>
              Step(ClearUpTo(s, k), Acknowledge) == ClearUpTo(s, k)
  {
    GenUpToIs(s, source);
    hide GenUpTo, GenFrom, GenAccess;
    GenFromMiddle(Step(GenUpTo(s, source, k), Acknowledge), source);
    GenFromEnd(Step(GenUpTo(s, source, k), Acknowledge), source);
  }

  lemma GenUpToIs(s: Slot, source: u8)
    ensures GenUpTo(s, source, 0) == GenUpTo(s, source, 1) == s
    ensures GenUpTo(s, source, 2) == s.(state := IRQ_PENDING)
    ensures GenUpTo(s, source, 3) == s.(state := IRQ_PENDING, source := source)
    ensures GenUpTo(s, source, 4) == s.(state := IRQ_PENDING, source := source, lineLow := true)
    ensures GenUpTo(s, source, 5) == s.(state := IRQ_PENDING, source := source, lineLow := true, pending := true)
  {
    assert GenUpTo(s, source, 1) == s;
    assert GenUpTo(s, source, 2) == s.(state := IRQ_PENDING);
    assert GenUpTo(s, source, 3) == s.(state := IRQ_PENDING, source := source);
    assert GenUpTo(s, source, 4) == s.(state := IRQ_PENDING, source := source, lineLow := true);
  }

  lemma GenFromEnd(t: Slot, source: u8)
    ensures GenFrom(t, source, 5) == t
  {
  }

  lemma GenFromMiddle(t: Slot, source: u8)
    ensures GenFrom(t, source, 4) == t.(pending := true)
    ensures GenFrom(t, source, 3) == t.(lineLow := true, pending := true)
    ensures GenFrom(t, source, 2) == t.(source := source, lineLow := true, pending := true)
    ensures GenFrom(t, source, 1) == t.(state := IRQ_PENDING, source := source, lineLow := true, pending := true)
    ensures GenFrom(t, source, 0) == GenFrom(t, source, 1)
  {
    var t3 := t.(source := source);
    assert GenFrom(t, source, 4) == t.(pending := true);
    assert GenFrom(t3.(lineLow := true), source, 4) == t3.(lineLow := true, pending := true);
    assert GenFrom(t3, source, 3) == t3.(lineLow := true, pending := true);
    var t2 := t.(state := IRQ_PENDING, source := source);
    assert GenFrom(t2.(lineLow := true), source, 4) == t2.(lineLow := true, pending := true);
    assert GenFrom(t2, source, 3) == t2.(lineLow := true, pending := true);
    assert GenFrom(t.(state := IRQ_PENDING), source, 2) == GenFrom(t2, source, 3);
  }

  // ---------------------------------------------------------------------------
  // The timer's clock wraps
  // ---------------------------------------------------------------------------

  /** Milliseconds since the last tick, if fewer than 2^32 have passed. */
  function Elapsed(s: Slot, now: u32): u32 {
    (now - s.last) % 0x1_0000_0000
  }

  /**
   The timer compares points in time instead of a difference. That agrees with elapsed time
   exactly while the clock and the due time have both wrapped or both not wrapped.
   */
  lemma TimerExactIff(s: Slot, now: u32)
    ensures (TimerDue(s, now) <==> Elapsed(s, now) >= s.interval) <==>
            ((now < s.last) == (s.last + s.interval >= 0x1_0000_0000))
  {
    if now >= s.last {
      assert Elapsed(s, now) == now - s.last;
    } else {
      assert Elapsed(s, now) == now - s.last + 0x1_0000_0000;
    }
  }

  /** Just before the clock wraps, a tick that is due only after the wrap comes half a second early. */
  lemma TimerTicksEarly(s: Slot)
    requires s.last == 0xFFFF_FF00 && s.interval == 512
    ensures TimerDue(s, 0xFFFF_FF01) && Elapsed(s, 0xFFFF_FF01) == 1
  {
  }

  // ---------------------------------------------------------------------------
  // The periodic timer
  // ---------------------------------------------------------------------------

  /** The clock readings at which polls issue the timer's interrupt, in order. */
  function Ticks(s: Slot, actions: seq<Action>): seq<u32>
    decreases |actions|
  {
    if actions == [] then []
    else
      (if actions[0].Poll? && Issue(s, actions[0]) == [SRC_TIMER] then [actions[0].now] else []) +
      Ticks(Step(s, actions[0]), actions[1..])
  }

  ghost predicate NoStart(actions: seq<Action>) {
    forall i | 0 <= i < |actions| :: !actions[i].Start?
  }

  ghost predicate NoStop(actions: seq<Action>) {
    forall i | 0 <= i < |actions| :: !actions[i].Stop?
  }

  /** Every poll of the run reads the clock early enough for a period after it to stay below the wrap. */
  ghost predicate BelowWrap(actions: seq<Action>, period: u32) {
    forall i | 0 <= i < |actions| && actions[i].Poll? :: actions[i].now + period < 0x1_0000_0000
  }

  lemma TimerStep(s: Slot, a: Action)
    requires SlotFree(s) && s.last + s.interval < 0x1_0000_0000 && !a.Start?
    ensures var s' := Step(s, a);
            && SlotFree(s') && s'.interval == s.interval && s'.timerOn == (s.timerOn && !a.Stop?)
            && if a.Poll? && Issue(s, a) == [SRC_TIMER]
               then s.timerOn && a.now >= s.last + s.interval && s'.last == a.now else s'.last == s.last
  {
  }

  lemma {:induction false} TicksFrom(s: Slot, actions: seq<Action>)
    requires SlotFree(s) && s.last + s.interval < 0x1_0000_0000
    requires NoStart(actions) && BelowWrap(actions, s.interval)
    ensures var ts := Ticks(s, actions);
            && (!s.timerOn ==> ts == [])
            && (ts != [] ==> ts[0] >= s.last + s.interval)
            && forall i | 0 <= i < |ts| - 1 :: ts[i + 1] >= ts[i] + s.interval
    decreases |actions|
  {
    if actions != [] {
      TimerStep(s, actions[0]);
      RestOfRun(actions, s.interval);
      hide Step, Issue, SlotFree, NoStart, BelowWrap;
      TicksFrom(Step(s, actions[0]), actions[1..]);
    }
  }

  lemma {:induction false} TimerRun(s: Slot, actions: seq<Action>)
    requires SlotFree(s) && s.last + s.interval < 0x1_0000_0000
    requires NoStart(actions) && BelowWrap(actions, s.interval)
    ensures var r := Run(s, actions);
            && SlotFree(r) && r.interval == s.interval && (NoStop(actions) ==> r.timerOn == s.timerOn)
            && r.last == if Ticks(s, actions) == [] then s.last else Ticks(s, actions)[|Ticks(s, actions)| - 1]
    decreases |actions|
  {
    if actions != [] {
      TimerStep(s, actions[0]);
      RestOfRun(actions, s.interval);
      hide Step, Issue, SlotFree, NoStart, NoStop, BelowWrap;
      TimerRun(Step(s, actions[0]), actions[1..]);
    }
  }

  lemma RestOfRun(actions: seq<Action>, period: u32)
    requires actions != [] && NoStart(actions) && BelowWrap(actions, period)
    ensures !actions[0].Start? && (actions[0].Poll? ==> actions[0].now + period < 0x1_0000_0000)
    ensures NoStart(actions[1..]) && BelowWrap(actions[1..], period)
    ensures NoStop(actions) ==> NoStop(actions[1..]) && !actions[0].Stop?
  {
  }

  /** After a start, ticks are at least a period apart, and the first is at least a period after it. */
  lemma TicksAreApart(s: Slot, period: u32, start: u32, actions: seq<Action>)
    requires SlotFree(s) && period < 65535 && start + period < 0x1_0000_0000
    requires NoStart(actions) && BelowWrap(actions, period)
    ensures var ts := Ticks(Step(s, Start(period, start)), actions);
            && (ts != [] ==> ts[0] >= start + period)
            && forall i | 0 <= i < |ts| - 1 :: ts[i + 1] >= ts[i] + period
  {
    TicksFrom(Step(s, Start(period, start)), actions);
  }

  /** And a poll of a free slot with nothing more urgent ticks exactly if the last tick or start is a period ago. */
  lemma TicksWhenDue(s: Slot, period: u32, start: u32, actions: seq<Action>, now: u32)
    requires SlotFree(s) && period < 65535 && start + period < 0x1_0000_0000
    requires NoStart(actions) && NoStop(actions) && BelowWrap(actions, period)
    ensures var started := Step(s, Start(period, start));
            var r, ts := Run(started, actions), Ticks(started, actions);
            var since := if ts == [] then start else ts[|ts| - 1];
            !r.pending && !r.brk && !r.fs ==>
              (Issue(r, Poll(now)) == [SRC_TIMER] <==> now >= since + period)
  {
    var started := Step(s, Start(period, start));
    TimerRun(started, actions);
    LastTickIsPolled(started, actions);
    var r, ts := Run(started, actions), Ticks(started, actions);
    hide Run, Ticks;
    if ts != [] {
      var t := ts[|ts| - 1];
      assert t in ts;
      var i :| 0 <= i < |actions| && actions[i] == Poll(t);
    }
    assert r.last + r.interval < 0x1_0000_0000 && r.timerOn && r.interval == period;
    assert TimerDue(r, now) <==> now >= r.last + period;
  }

  lemma {:induction false} LastTickIsPolled(s: Slot, actions: seq<Action>)
    ensures forall t | t in Ticks(s, actions) :: exists i :: 0 <= i < |actions| && actions[i] == Poll(t)
    decreases |actions|
  {
    if actions != [] {
      hide Step, Issue;
      var s' := Step(s, actions[0]);
      LastTickIsPolled(s', actions[1..]);
      forall t | t in Ticks(s, actions)
        ensures exists i :: 0 <= i < |actions| && actions[i] == Poll(t)
      {
        if t in Ticks(s', actions[1..]) {
          var i :| 0 <= i < |actions[1..]| && actions[1..][i] == Poll(t);
          assert actions[i + 1] == Poll(t);
        } else {
          assert actions[0] == Poll(t);
        }
      }
    }
  }

  /** A stopped timer does not tick until it is started again; a period of 65535 or more stops it. */
  lemma StoppedTimerIsSilent(s: Slot, actions: seq<Action>, period: u32, start: u32)
    requires SlotFree(s) && NoStart(actions) && period >= 65535
    ensures Ticks(Step(s, Stop), actions) == [] && Ticks(Step(s, Start(period, start)), actions) == []
  {
    SilentWhileOff(Step(s, Stop), actions);
    SilentWhileOff(Step(s, Start(period, start)), actions);
  }

  lemma {:induction false} SilentWhileOff(s: Slot, actions: seq<Action>)
    requires SlotFree(s) && !s.timerOn && NoStart(actions)
    ensures Ticks(s, actions) == []
    decreases |actions|
  {
    if actions != [] {
      SilentWhileOff(Step(s, actions[0]), actions[1..]);
    }
  }
}
