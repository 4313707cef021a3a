/**
 The machine as the RP2350 drives it (neobus.cpp, p6502.cpp, mmu.cpp): RAM behind the page
 map, the system state with its pins, and the selected MMU context.
 */
module Neobus {
  import opened Words
  import opened MmuTable
  import opened SystemBus
  import opened PhysicalMemory

  class Machine {
    const pages: PageMap
    const ram: array<u8>
    var state: SysState
    var irq: Level
    var reset: Level
    var rdy: Level
    var be: Level
    var clockOn: bool
    var dir: Direction
    var mode: Mode
    var context: u8

    ghost predicate Valid()
      reads this
    {
      ValidPages(pages) && ram.Length == RAM_SIZE && context < CONTEXTS
    }

    function BusState(): Bus
      reads this
    {
      Bus(state, Pins(irq, reset, rdy, be, clockOn, dir, mode), context)
    }

    ghost function Ram(): Ram
      requires ram.Length == RAM_SIZE
      reads this, ram
    {
      ram[..]
    }

    /** What a context sees at an address. */
    ghost function Seen(c: nat, address: u16): u8
      requires Valid() && c < CONTEXTS
      reads this, ram
    {
      View(Ram(), pages, c, address)
    }

    /** What a context sees at n consecutive addresses, modulo 64K. */
    ghost function Memory(c: nat, address: u16, n: nat): (s: seq<u8>)
      requires Valid() && c < CONTEXTS
      reads this, ram
      ensures |s| == n && forall i | 0 <= i < n :: s[i] == Seen(c, Wrap(address, i))
    {
      MemoryAt(Ram(), pages, c, address, n)
    }

    constructor (pages: PageMap)
      requires ValidPages(pages)
      ensures Valid() && this.pages == pages && fresh(ram)
      ensures BusState() == Bus(Startup, Pins(High, Low, Low, Low, false, Output, RpiMode), DEFAULT_CONTEXT)
    {
      this.pages := pages;
      ram := new u8[RAM_SIZE];
      state, irq, reset, rdy, be, clockOn := Startup, High, Low, Low, Low, false;
      dir, mode, context := Output, RpiMode, DEFAULT_CONTEXT;
    }

    method SetContext(c: u8)
      requires Valid() && c < CONTEXTS
      modifies this`context
      ensures Valid() && context == c
    {
      if c != context {
        context := c;
      }
    }

    method SetState(s: SysState) returns (ok: bool)
      requires Valid()
      modifies this
      ensures Valid() && BusState() == Enter(old(BusState()), s)
      ensures ok <==> state == s
    {
      if s == state {
        return true;
      }
      match s {
        case Startup =>
          return false;
        case Boot =>
          irq := High;
          reset := Low;
          clockOn := false;
          rdy := Low;
          be := Low;
          dir := Output;
          mode := RpiMode;
        case Reset =>
          irq := High;
          reset := Low;
          clockOn := true;
          rdy := Low;
          be := High;
          dir := Input;
          mode := CpuMode;
          SetContext(DEFAULT_CONTEXT);
        case Halted =>
          clockOn := false;
          rdy := Low;
          be := High;
          dir := Input;
          mode := CpuMode;
        case Running =>
          dir := Input;
          be := High;
          clockOn := true;
          rdy := High;
          reset := High;
          mode := CpuMode;
        case Read =>
          reset := High;
          clockOn := false;
          rdy := High;
          be := High;
          dir := Input;
          mode := RpiMode;
        case Rpi =>
          clockOn := false;
          rdy := Low;
          be := Low;
          dir := Output;
          mode := RpiMode;
      }
      state := s;
      return true;
    }

    /** read6502Memory: in the wrong control mode nothing is read and 0 is returned. */
    method ReadMemory(address: u16) returns (data: u8)
      requires Valid()
      ensures data == if mode == RpiMode then Seen(context, address) else 0
    {
      if mode == RpiMode {
        data := ram[Cell(pages, context, address)];
      } else {
        data := 0;
      }
    }

    /** write6502Memory: in the wrong control mode nothing is written. */
    method WriteMemory(address: u16, data: u8)
      requires Valid()
      modifies ram
      ensures Ram() == if mode == RpiMode then Apply(old(Ram()), [Write(Cell(pages, context, address), data)])
                       else old(Ram())
    {
      if mode == RpiMode {
        var cell := Cell(pages, context, address);
        ram[cell] := data;
        ApplyOne(old(Ram()), Write(cell, data));
      }
    }

    method SnoopReadLoc(address: u16) returns (data: u8)
      requires Valid() && Settled(BusState())
      modifies this
      ensures Valid() && BusState() == Exec(old(BusState()), Bracket(None, [Access(address)])).0
      ensures Settled(BusState()) && BusState() == Released(old(BusState()))
      ensures data == Seen(context, address)
    {
      var saved := state;
      BracketIsTransparent(BusState(), None, [Access(address)]);
      OneAccess(Steal(BusState(), None), address);
      var stolen := SetState(Rpi);
      data := ReadMemory(address);
      var restored := SetState(saved);
    }

    method SnoopWriteLoc(address: u16, data: u8)
      requires Valid() && Settled(BusState())
      modifies this, ram
      ensures Valid() && BusState() == Exec(old(BusState()), Bracket(None, [Access(address)])).0
      ensures Settled(BusState()) && BusState() == Released(old(BusState()))
      ensures Ram() == Apply(old(Ram()), [Write(Cell(pages, context, address), data)])
    {
      var saved := state;
      BracketIsTransparent(BusState(), None, [Access(address)]);
      OneAccess(Steal(BusState(), None), address);
      var stolen := SetState(Rpi);
      WriteMemory(address, data);
      var restored := SetState(saved);
    }

    /** snoop_read6502Memory; its 16-bit loop counter ends only for fewer than 65536 bytes. */
    method SnoopReadBlock(address: u16, length: u16) returns (bytes: seq<u8>)
      requires Valid() && Settled(BusState())
      modifies this
      ensures Valid() && Settled(BusState()) && BusState() == Released(old(BusState()))
      ensures |bytes| == length
      ensures forall i | 0 <= i < length :: bytes[i] == Seen(context, Wrap(address, i))
    {
      var saved := state;
      BracketIsTransparent(BusState(), None, []);
      var stolen := SetState(Rpi);
      bytes := ReadContextBytes(address, length);
      var restored := SetState(saved);
    }

    /** snoop_write6502Memory. */
    method SnoopWriteBlock(address: u16, bytes: seq<u8>)
      requires Valid() && Settled(BusState()) && |bytes| < ADDRESSES
      modifies this, ram
      ensures Valid() && Settled(BusState()) && BusState() == Released(old(BusState()))
      ensures Ram() == Apply(old(Ram()), CopyWrites(pages, context, address, bytes))
    {
      var saved := state;
      BracketIsTransparent(BusState(), None, []);
      var stolen := SetState(Rpi);
      WriteContextBytes(address, bytes);
      var restored := SetState(saved);
    }

    /** rp_fs_mb_begin_context_access; the caller keeps the saved state and context. */
    method BeginContextAccess(c: u8) returns (ok: bool, savedState: SysState, savedContext: u8)
      requires Valid() && Settled(BusState())
      modifies this
      ensures Valid() && (ok <==> c < MAX_BRACKET_CONTEXTS)
      ensures savedState == old(state) && savedContext == old(context)
      ensures BusState() == if ok then Steal(old(BusState()), Some(c)) else old(BusState())
    {
      savedState, savedContext := state, context;
      if c >= MAX_BRACKET_CONTEXTS {
        return false, savedState, savedContext;
      }
      var stolen := SetState(Rpi);
      if savedContext != c {
        SetContext(c);
      }
      ok := true;
    }

    /** rp_fs_mb_end_context_access: the context is back before the state is. */
    method EndContextAccess(savedState: SysState, savedContext: u8)
      requires Valid() && savedContext < CONTEXTS
      modifies this
      ensures Valid()
      ensures BusState() == Enter(old(BusState()).(context := savedContext), savedState)
    {
      if context != savedContext {
        SetContext(savedContext);
      }
      var restored := SetState(savedState);
    }

    /** Copies bytes out of the selected context (the bus must be stolen). */
    method ReadContextBytes(source: u16, length: nat) returns (bytes: seq<u8>)
      requires Valid() && mode == RpiMode
      ensures |bytes| == length
      ensures forall i | 0 <= i < length :: bytes[i] == Seen(context, Wrap(source, i))
    {
      bytes := [];
      var i := 0;
      while i < length
        invariant 0 <= i <= length && |bytes| == i
        invariant forall j | 0 <= j < i :: bytes[j] == Seen(context, Wrap(source, j))
      {
        var data := ReadMemory(Wrap(source, i));
        bytes := bytes + [data];
        i := i + 1;
      }
    }

    /** Copies bytes into the selected context (the bus must be stolen). */
    method WriteContextBytes(target: u16, bytes: seq<u8>)
      requires Valid() && mode == RpiMode
      modifies ram
      ensures Ram() == Apply(old(Ram()), CopyWrites(pages, context, target, bytes))
    {
      var i := 0;
      while i < |bytes|
        invariant 0 <= i <= |bytes|
        invariant Ram() == Apply(old(Ram()), CopyWrites(pages, context, target, bytes[..i]))
      {
        WriteMemory(Wrap(target, i), bytes[i]);
        CopyOneMore(old(Ram()), pages, context, target, bytes, i);
        i := i + 1;
      }
      assert bytes[..|bytes|] == bytes;
    }
  }

  /** The bus after a top-level bracket. */
  function Released(b: Bus): (r: Bus)
    ensures r.context == b.context && r.state == b.state
  {
    if b.state == Rpi then b else Transparent(b)
  }

  lemma OneAccess(b: Bus, address: u16)
    ensures ExecAll(b, [Access(address)]).0 == b
  {
  }

  lemma ApplyOne(m: Ram, w: Write)
    requires w.cell < RAM_SIZE
    ensures Apply(m, [w]) == m[w.cell := w.value]
  {
    assert [w][..0] == [];
  }

  lemma CopyOneMore(m: Ram, pages: PageMap, c: nat, target: u16, bytes: seq<u8>, i: nat)
    requires ValidPages(pages) && c < CONTEXTS && i < |bytes|
    ensures Apply(m, CopyWrites(pages, c, target, bytes[..i + 1])) ==
            Apply(Apply(m, CopyWrites(pages, c, target, bytes[..i])),
                  [Write(Cell(pages, c, Wrap(target, i)), bytes[i])])
  {
    assert bytes[..i + 1] == bytes[..i] + [bytes[i]];
    CopyWritesAppend(pages, c, target, bytes[..i], [bytes[i]]);
    assert CopyWrites(pages, c, Wrap(target, i), [bytes[i]]) == [Write(Cell(pages, c, Wrap(target, i)), bytes[i])];
    ApplyAppend(m, CopyWrites(pages, c, target, bytes[..i]), [Write(Cell(pages, c, Wrap(target, i)), bytes[i])]);
  }
}
