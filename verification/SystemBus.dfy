/**
 System states and bus ownership (p6502.cpp, neobus.cpp). The RP2350 takes the bus in brackets:
 save the system state, steal the bus, touch memory, restore. This module models the transition
 function of set6502State and proves that such brackets are transparent to the 6502.
 */
module SystemBus {
  import opened Words
  import opened MmuTable

  datatype SysState = Startup | Boot | Reset | Halted | Running | Read | Rpi
  datatype Level = Low | High
  datatype Direction = Output | Input
  datatype Mode = RpiMode | CpuMode

  datatype Pins = Pins(irq: Level, reset: Level, rdy: Level, be: Level, clockOn: bool, dir: Direction, mode: Mode)
  datatype Bus = Bus(state: SysState, pins: Pins, context: u8)

  /** set6502State, which does nothing when the state is already the requested one. */
  function Enter(b: Bus, s: SysState): Bus {
    if s == b.state then b
    else match s
      case Startup => b
      case Boot =>
        b.(state := s, pins := Pins(High, Low, Low, Low, false, Output, RpiMode))
      case Reset =>
        b.(state := s, pins := Pins(High, Low, Low, High, true, Input, CpuMode), context := DEFAULT_CONTEXT)
      case Halted =>
        b.(state := s, pins := b.pins.(rdy := Low, be := High, clockOn := false, dir := Input, mode := CpuMode))
      case Running =>
        b.(state := s, pins := Pins(b.pins.irq, High, High, High, true, Input, CpuMode))
      case Read =>
        b.(state := s, pins := Pins(b.pins.irq, High, High, High, false, Input, RpiMode))
      case Rpi =>
        b.(state := s, pins := b.pins.(rdy := Low, be := Low, clockOn := false, dir := Output, mode := RpiMode))
  }

  /**
   The pins agree with the state. Halted and Rpi leave the RESET line as they found it, and the
   IRQ line is driven by the interrupt task. While in Reset the context must be the default one.
   */
  ghost predicate Settled(b: Bus) {
    var p := b.pins;
    match b.state
    case Startup => false
    case Boot => p == Pins(p.irq, Low, Low, Low, false, Output, RpiMode)
    case Reset => p == Pins(p.irq, Low, Low, High, true, Input, CpuMode) && b.context == DEFAULT_CONTEXT
    case Halted => p == Pins(p.irq, p.reset, Low, High, false, Input, CpuMode)
    case Running => p == Pins(p.irq, High, High, High, true, Input, CpuMode)
    case Read => p == Pins(p.irq, High, High, High, false, Input, RpiMode)
    case Rpi => p == Pins(p.irq, p.reset, Low, Low, false, Output, RpiMode)
  }

  /** The 6502 executes instructions. */
  predicate CpuRuns(b: Bus) {
    b.pins.reset == High && b.pins.rdy == High && b.pins.be == High && b.pins.clockOn
  }

  lemma EnterSettles(b: Bus, s: SysState)
    requires s != Startup && (Settled(b) || s != b.state)
    ensures Settled(Enter(b, s)) && (CpuRuns(Enter(b, s)) <==> s == Running)
  {
  }

  // ---------------------------------------------------------------------------
  // Nested brackets
  // ---------------------------------------------------------------------------

  /**
   Work done on a stolen bus: single accesses, snoops (no context) and context brackets, nested
   to any depth. A bracket for a context number of 16 or more is refused.
   */
  datatype Op = Access(address: u16) | Bracket(context: Option<u8>, body: seq<Op>)

  /** What becomes observable: a memory access in some context, or the 6502 resuming in one. */
  datatype Event = Touch(context: u8, address: u16) | Resume(context: u8)

  const MAX_BRACKET_CONTEXTS: nat := 16

  function Steal(b: Bus, context: Option<u8>): Bus {
    var b' := Enter(b, Rpi);
    if context.Some? then b'.(context := context.value) else b'
  }

  /** Context first, then state: the 6502 must not run in the borrowed context. */
  function Restore(b: Bus, saved: Bus, context: Option<u8>): (Bus, seq<Event>) {
    var b' := if context.Some? then b.(context := saved.context) else b;
    var b'' := Enter(b', saved.state);
    (b'', if saved.state == Running && b'.state != Running then [Resume(b'.context)] else [])
  }

  function Exec(b: Bus, op: Op): (Bus, seq<Event>)
    decreases op, 1
  {
    match op
    case Access(a) => (b, if b.pins.mode == RpiMode then [Touch(b.context, a)] else [])
    case Bracket(context, body) =>
      if context.Some? && context.value >= MAX_BRACKET_CONTEXTS then (b, [])
      else
        var (b1, es1) := ExecAll(Steal(b, context), body);
        var (b2, es2) := Restore(b1, b, context);
        (b2, es1 + es2)
  }

  function ExecAll(b: Bus, ops: seq<Op>): (Bus, seq<Event>)
    decreases ops, 0
  {
    if ops == [] then (b, [])
    else
      var (b1, es1) := Exec(b, ops[0]);
      var (b2, es2) := ExecAll(b1, ops[1..]);
      (b2, es1 + es2)
  }

  /** The accesses a program asks for, by lexical scoping of contexts alone. */
  function Wanted(context: u8, op: Op): seq<Event>
    decreases op, 1
  {
    match op
    case Access(a) => [Touch(context, a)]
    case Bracket(c, body) =>
      if c.Some? && c.value >= MAX_BRACKET_CONTEXTS then []
      else WantedAll(if c.Some? then c.value else context, body)
  }

  function WantedAll(context: u8, ops: seq<Op>): seq<Event>
    decreases ops, 0
  {
    if ops == [] then [] else Wanted(context, ops[0]) + WantedAll(context, ops[1..])
  }

  /** On a bus that is already stolen, work changes nothing and touches exactly what it asks for. */
  lemma {:induction false} StolenBusIsStable(b: Bus, op: Op)
    requires Settled(b) && b.state == Rpi
    ensures Exec(b, op) == (b, Wanted(b.context, op))
    decreases op, 1
  {
    match op
    case Access(a) =>
    case Bracket(context, body) =>
      if !(context.Some? && context.value >= MAX_BRACKET_CONTEXTS) {
        StolenBusIsStableAll(Steal(b, context), body);
        var (b1, es1) := ExecAll(Steal(b, context), body);
        assert es1 + [] == es1;
      }
  }

  lemma {:induction false} StolenBusIsStableAll(b: Bus, ops: seq<Op>)
    requires Settled(b) && b.state == Rpi
    ensures ExecAll(b, ops) == (b, WantedAll(b.context, ops))
    decreases ops, 0
  {
    if ops != [] {
      StolenBusIsStable(b, ops[0]);
      StolenBusIsStableAll(b, ops[1..]);
    }
  }

  /** The bus after a bracket: as before, except that Boot and Reset release the IRQ line. */
  function Transparent(b: Bus): Bus {
    if b.state == Boot || b.state == Reset then b.(pins := b.pins.(irq := High)) else b
  }

  /**
   Transparency: from any settled state, a bracket of any depth gives back state, pins, clock,
   direction, mode and context; its accesses go to the lexically enclosing contexts; and the
   6502 resumes at most once, at the end, in its own context.
   */
  lemma BracketIsTransparent(b: Bus, context: Option<u8>, body: seq<Op>)
    requires Settled(b)
    requires context.Some? ==> context.value < MAX_BRACKET_CONTEXTS
    ensures var (b', es) := Exec(b, Bracket(context, body));
            && b' == (if b.state == Rpi then b else Transparent(b))
            && Settled(b')
            && es == Wanted(b.context, Bracket(context, body)) +
                     if b.state == Running then [Resume(b.context)] else []
  {
    var stolen := Steal(b, context);
    StolenBusIsStableAll(stolen, body);
    assert ExecAll(stolen, body).0 == stolen;
  }

  /** A bracket is fully transparent exactly when the IRQ line is not low in Boot or Reset. */
  lemma FullyTransparentIff(b: Bus, context: Option<u8>, body: seq<Op>)
    requires Settled(b)
    requires context.Some? ==> context.value < MAX_BRACKET_CONTEXTS
    ensures Exec(b, Bracket(context, body)).0 == b <==>
            !((b.state == Boot || b.state == Reset) && b.pins.irq == Low)
  {
    BracketIsTransparent(b, context, body);
  }

  /** Without "Reset implies the default context" a snoop is not transparent: it drops the context. */
  lemma SnoopInResetLosesContext()
    ensures var b := Bus(Reset, Pins(High, Low, Low, High, true, Input, CpuMode), 3);
            Exec(b, Bracket(None, [])).0 == b.(context := DEFAULT_CONTEXT)
  {
    var b := Bus(Reset, Pins(High, Low, Low, High, true, Input, CpuMode), 3);
    assert ExecAll(Steal(b, None), []).0 == Steal(b, None);
  }

  /** schedSwitchcontext: halt, switch, continue. */
  function SwitchContext(b: Bus, context: u8): Bus {
    Enter(Enter(b, Halted).(context := context), b.state)
  }

  /** The new context sticks unless the 6502 is in reset; Boot and Reset release the IRQ line; nothing else changes. */
  lemma SwitchContextEffect(b: Bus, context: u8)
    requires Settled(b)
    ensures SwitchContext(b, context) ==
            Transparent(b).(context := if b.state == Reset then DEFAULT_CONTEXT else context)
    ensures Settled(SwitchContext(b, context))
  {
  }
}
