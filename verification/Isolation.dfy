/**
 The parts put together: from an accepted configuration file through the page allocator and the
 MMU table to the machine, and what filesystem requests and booting then do to what the contexts see.
 */
module Isolation {
  import opened Words
  import opened MmuTable
  import opened MemoryConfig
  import opened MemoryIni
  import opened PageAllocator
  import opened SystemBus
  import opened PhysicalMemory
  import opened Neobus
  import opened Cartridge
  import opened PathModel
  import opened Storage
  import opened CallerMemory
  import opened FsExecutor
  import opened BulkTransfer
  import opened FsRequests
  import opened FsDispatch
  import opened FsMailbox

  /** No context reaches a cell through two addresses. */
  ghost predicate EveryContextInjective(pages: PageMap)
    requires ValidPages(pages)
  {
    forall c: u8 | c < CONTEXTS :: InjectiveContext(pages, c)
  }

  lemma AllocationIsInjective(cfg: Config, pages: PageMap, granted: map<Page, nat>, c: u8)
    requires Sound(cfg) && Allocation(cfg, pages, granted) && WellFormed(cfg) && c < ActiveContexts(cfg)
    ensures InjectiveContext(pages, c)
  {
    hide Sound, Allocation, WellFormed;
    AllocatedPagesAreValid(cfg, pages, granted);
    forall s, t | 0 <= s < SLOTS && 0 <= t < SLOTS && pages[c][s] == pages[c][t]
      ensures s == t
    {
      ContextMapIsInjective(cfg, pages, granted, c, s, t);
    }
  }

  lemma DefaultRowIsInjective(pages: PageMap, c: u8)
    requires ValidPages(pages) && c < CONTEXTS
    requires forall s | 0 <= s < SLOTS :: pages[c][s] == DefaultPage(s) % IO_BIT
    ensures InjectiveContext(pages, c)
  {
  }

  /**
   Power-up with a configuration file: the CPU is held in boot, the file is parsed, and the machine's
   memory is behind the configured MMU, whatever became of the file. If it was accepted, its page map
   is an allocation whenever the pages suffice, and no context reaches a cell through two addresses.
   */
  method PowerUp(entries: seq<MemoryIni.Entry>)
    returns (machine: Machine, mmu: Mmu, ghost cfg: Config, ghost granted: map<Page, nat>, err: IniError, ok: bool)
    ensures fresh(machine) && machine.Valid() && mmu.Valid() && machine.pages == mmu.Pages()
    ensures machine.state == Boot && Settled(machine.BusState()) && WellFormed(cfg)
    ensures err == IniOk ==>
              && Accepted(cfg) && Sound(cfg) && (ok <==> |Demand(cfg)| <= TOTAL_PAGES)
              && (ok ==> Allocation(cfg, machine.pages, granted))
              && EveryContextInjective(machine.pages)
  {
    hide Accepted, Sound, WellFormed, Demand, Programmed, Allocation, Covering, Verdict, Effect, Accepts;
    mmu := new Mmu();
    var parser := new Parser();
    ghost var trace;
    err, trace := parser.Parse(entries);
    cfg := parser.config;
    var allocator := new Allocator();
    ok := allocator.InitAndConfigure(parser.config, mmu);
    granted := allocator.granted;
    machine := new Machine(mmu.Pages());
    var booted := machine.SetState(Boot);
    if err == IniOk {
      EveryContextIsInjective(cfg, mmu, granted, ok);
    }
  }

  lemma EveryContextIsInjective(cfg: Config, mmu: Mmu, granted: map<Page, nat>, ok: bool)
    requires Accepted(cfg) && WellFormed(cfg) && mmu.Valid()
    requires ok ==> 0 < ActiveContexts(cfg) <= MAX_CONTEXTS
    requires Sound(cfg) && ok ==> Programmed(cfg, mmu, granted)
    requires forall c, s | (if ok then ActiveContexts(cfg) else 0) <= c < CONTEXTS && 0 <= s < SLOTS ::
               mmu.table[c, s] == DefaultPage(s)
    ensures EveryContextInjective(mmu.Pages())
    ensures Sound(cfg) && (ok ==> Allocation(cfg, mmu.Pages(), granted))
  {
    hide Accepted, Sound, WellFormed, Demand, Programmed, Allocation, DefaultPage;
    AcceptedIsSound(cfg);
    if ok {
      ProgrammedIsAllocation(cfg, mmu, granted);
    }
    forall c: u8 | c < CONTEXTS
      ensures InjectiveContext(mmu.Pages(), c)
    {
      if ok && c < ActiveContexts(cfg) {
        AllocationIsInjective(cfg, mmu.Pages(), granted, c);
      } else {
        DefaultRowIsInjective(mmu.Pages(), c);
      }
    }
  }

  /**
   Booting a configured machine: it succeeds exactly if the configuration exists, all its files are good
   and no read comes up short; then every cell holds what the last cartridge that covers it put there.
   */
  method BootConfigured(m: Machine, flash: Flash, configs: seq<Option<seq<CartEntry>>>, index: int)
    returns (ok: bool)
    requires m.Valid() && Settled(m.BusState()) && EveryContextInjective(m.pages)
    requires forall i | 0 <= i < |configs| && configs[i].Some? :: ValidEntries(configs[i].value)
    modifies m, m.ram, flash
    ensures m.Valid()
    ensures ok <==> 0 <= index < |configs| && configs[index].Some? && AllLoadable(configs[index].value)
                    && flash.shortReads == old(flash.shortReads)
    ensures ok ==> Overlaid(m.pages, configs[index].value, old(m.Ram()), m.Ram())
  {
    hide AllWrites, Apply, PrefixApplied, Overlaid, AllLoadable, StoppedAtBadFile;
    ok := Activate(m, flash, configs, index);
  }

  /**
   Isolation, end to end: on a configured machine, a request changes nothing that any active context
   sees out of the request's reach, except the published mailbox bytes; and if its reach is private,
   nothing else that another context sees.
   */
  method ServeConfigured(e: Executor, ghost cfg: Config, ghost granted: map<Page, nat>) returns (notify: bool)
    requires e.Valid() && Sound(cfg) && Allocation(cfg, e.machine.pages, granted)
    requires Posted(e.machine.Ram(), e.machine.pages, e.machine.context).context < ActiveContexts(cfg)
    modifies e.machine, e.machine.ram, e.store.mounted, e.store.files, e.store.dirs, e.store.disks, e.store.fat,
             e.cwd.slots
    ensures e.Valid()
    ensures var pages, before, k := e.machine.pages, old(e.machine.Ram()), old(e.machine.context);
            var r := Posted(before, pages, k);
            && (notify <==> r.pid != 0)
            && Isolated(cfg, r, pages, before, e.machine.Ram(), k)
  {
    hide Sound, Allocation, Apply, Posted, ReplyBytes, Served, Isolated;
    hide Settled, Store.HandlesOk, Store.DevicesOk;
    ghost var s, k, pages := Snap(e), e.machine.context, e.machine.pages;
    ghost var r := Posted(s.ram, pages, k);
    AllocatedPagesAreValid(cfg, pages, granted);
    ghost var reply, mid, foot;
    notify, reply, mid, foot := HandleExec(e);
    ghost var after := e.machine.Ram();
    assert after == Apply(mid.ram, ByteWrites(pages, k, ReplyBytes(reply))) by {
      assert Snap(e).ram == after;
    }
    ServedIsIsolated(cfg, pages, granted, r, k, s, mid, foot, reply);
  }

  /** What a request and its reply, published in context k, leave to be seen by the active contexts. */
  ghost predicate Isolated(cfg: Config, r: Request, pages: PageMap, before: Ram, after: Ram, k: u8)
    requires Sound(cfg) && ActiveContexts(cfg) <= MAX_CONTEXTS && ValidPages(pages)
    requires r.context < ActiveContexts(cfg) && k < CONTEXTS
  {
    && (forall d: u8, a: u16 | d < ActiveContexts(cfg) && OutOfReach(cfg, r, pages, before, d, a)
                               && !MailboxCell(pages, k, Cell(pages, d, a)) ::
          View(after, pages, d, a) == View(before, pages, d, a))
    && (PrivateReach(cfg, r, pages, before) ==>
          forall d: u8, a: u16 | d < ActiveContexts(cfg) && d != r.context
                                 && !MailboxCell(pages, k, Cell(pages, d, a)) ::
            View(after, pages, d, a) == View(before, pages, d, a))
  }

  lemma ServedIsIsolated(cfg: Config, pages: PageMap, granted: map<Page, nat>, r: Request, k: u8,
                         s: Snapshot, mid: Snapshot, foot: Footprint, reply: Reply)
    requires Sound(cfg) && Allocation(cfg, pages, granted) && |s.slots| == MAX_PROCS
    requires r.context < ActiveContexts(cfg) && k < CONTEXTS && Served(r, pages, s, mid, foot, reply)
    ensures Isolated(cfg, r, pages, s.ram, Apply(mid.ram, ByteWrites(pages, k, ReplyBytes(reply))), k)
  {
    hide Sound, Allocation, Apply, ReplyBytes, Served, OutOfReach, PrivateReach, MailboxCell, Cell, View;
    AllocatedPagesAreValid(cfg, pages, granted);
    var after := Apply(mid.ram, ByteWrites(pages, k, ReplyBytes(reply)));
    forall d: u8, a: u16 | d < ActiveContexts(cfg) && OutOfReach(cfg, r, pages, s.ram, d, a)
                           && !MailboxCell(pages, k, Cell(pages, d, a))
      ensures View(after, pages, d, a) == View(s.ram, pages, d, a)
    {
      RequestsAreIsolated(cfg, pages, granted, r, k, d, a, s, mid, foot, reply);
    }
    if PrivateReach(cfg, r, pages, s.ram) {
      forall d: u8, a: u16 | d < ActiveContexts(cfg) && d != r.context && !MailboxCell(pages, k, Cell(pages, d, a))
        ensures View(after, pages, d, a) == View(s.ram, pages, d, a)
      {
        PrivateReachIsIsolated(cfg, r, pages, s.ram, d, a);
      }
    }
  }

  /**
   The request block is the handler's business only if its reach says so: where the mailbox page is at
   the same place for the caller and the context that serves it, a handler writes a block or interrupt
   byte only if its address is in the range that a LOAD asks for.
   */
  lemma BlockIsSafe(cfg: Config, pages: PageMap, granted: map<Page, nat>, r: Request, k: u8, a: u16,
                    s: Snapshot, mid: Snapshot, foot: Footprint, reply: Reply)
    requires Sound(cfg) && WellFormed(cfg) && Allocation(cfg, pages, granted) && |s.slots| == MAX_PROCS
    requires k < ActiveContexts(cfg) && r.context < ActiveContexts(cfg)
    requires Served(r, pages, s, mid, foot, reply)
    requires BlockByte(a) && SamePage(cfg, r.context, a / PAGE_SIZE, k, a / PAGE_SIZE)
    requires r.op == OP_LOAD ==> !InReach(r, pages, s.ram, a)
    ensures View(mid.ram, pages, k, a) == View(s.ram, pages, k, a)
  {
    hide Sound, Allocation, Served, WellFormed, SamePage, Cell;
    AllocatedPagesAreValid(cfg, pages, granted);
    AllocationIsInjective(cfg, pages, granted, r.context);
    AliasesIffSameCell(cfg, pages, granted, r.context, a, k, a);
    forall b: u16 | InReach(r, pages, s.ram, b)
      ensures !Aliases(cfg, r.context, b, k, a)
    {
      AliasesIffSameCell(cfg, pages, granted, r.context, b, k, a);
      CellInjective(pages, r.context, b, a);
    }
    HandlersAreIsolated(cfg, pages, granted, r, k, a, s, mid, foot, reply);
  }

  /**
   Only active contexts are isolated: a slot of another one, with its default row, shares the page of
   some active slot exactly if it lies below the number of pages in use.
   */
  lemma InactiveContextAliases(cfg: Config, pages: PageMap, granted: map<Page, nat>, c: u8, s: nat)
    requires Sound(cfg) && Allocation(cfg, pages, granted) && c < CONTEXTS && s < SLOTS
    requires pages[c][s] == DefaultPage(s) % IO_BIT
    ensures pages[c][s] in UsedPages(cfg, pages) <==> s < |Demand(cfg)|
  {
    assert DefaultPage(s) % IO_BIT == s;
    hide Sound, Allocation, Demand, UsedPages, DefaultPage, ValidPages;
    UsedPagesAreDense(cfg, pages, granted);
  }

  /** On a configured machine what was delivered is what the caller sees, and nothing else in its context changed. */
  lemma DeliveredIsSeen(cfg: Config, pages: PageMap, granted: map<Page, nat>, c: u8, before: Ram, after: Ram,
                        address: u16, bytes: seq<u8>)
    requires Sound(cfg) && Allocation(cfg, pages, granted) && WellFormed(cfg) && c < ActiveContexts(cfg)
    requires Wrote(pages, c, before, after, address, bytes)
    ensures OnlyPut(pages, c, before, after, address, bytes)
  {
    hide Sound, Allocation, WellFormed;
    AllocationIsInjective(cfg, pages, granted, c);
  }

  /** What a copy to context c shows to context d: its bytes at aliases of their addresses, and no change elsewhere. */
  ghost predicate SeenThroughAliases(cfg: Config, pages: PageMap, c: u8, d: u8, before: Ram, after: Ram,
                                     address: u16, bytes: seq<u8>)
    requires Sound(cfg) && ActiveContexts(cfg) <= MAX_CONTEXTS && ValidPages(pages)
    requires c < ActiveContexts(cfg) && d < ActiveContexts(cfg)
  {
    && (forall b: u16, a: u16 | address <= b < address + |bytes| && Aliases(cfg, c, b, d, a) ::
          View(after, pages, d, a) == bytes[b - address])
    && (forall a: u16 | (forall b: u16 | address <= b < address + |bytes| :: !Aliases(cfg, c, b, d, a)) ::
          View(after, pages, d, a) == View(before, pages, d, a))
  }

  lemma DeliveredIsSeenThroughAliases(cfg: Config, pages: PageMap, granted: map<Page, nat>, c: u8, d: u8,
                                      before: Ram, after: Ram, address: u16, bytes: seq<u8>)
    requires Sound(cfg) && Allocation(cfg, pages, granted) && WellFormed(cfg)
    requires c < ActiveContexts(cfg) && d < ActiveContexts(cfg)
    requires bytes == [] || address + |bytes| <= ADDRESSES
    requires Wrote(pages, c, before, after, address, bytes)
    ensures ActiveContexts(cfg) <= MAX_CONTEXTS && ValidPages(pages)
    ensures SeenThroughAliases(cfg, pages, c, d, before, after, address, bytes)
  {
    hide Sound, Allocation, WellFormed, Apply, Aliases, Cell;
    AllocatedPagesAreValid(cfg, pages, granted);
    DeliveredIsSeen(cfg, pages, granted, c, before, after, address, bytes);
    forall b: u16, a: u16 | address <= b < address + |bytes| && Aliases(cfg, c, b, d, a)
      ensures View(after, pages, d, a) == bytes[b - address]
    {
      AliasesIffSameCell(cfg, pages, granted, c, b, d, a);
      assert View(after, pages, c, b) == bytes[b - address];
    }
    var ws := CopyWrites(pages, c, address, bytes);
    forall a: u16 | forall b: u16 | address <= b < address + |bytes| :: !Aliases(cfg, c, b, d, a)
      ensures View(after, pages, d, a) == View(before, pages, d, a)
    {
      forall i | 0 <= i < |ws|
        ensures ws[i].cell != Cell(pages, d, a)
      {
        assert Wrap(address, i) == address + i;
        AliasesIffSameCell(cfg, pages, granted, c, address + i, d, a);
      }
      ApplyMisses(before, ws, Cell(pages, d, a));
    }
  }

  /**
   LOAD on a configured machine, exactly: the caller sees the counted prefix of the file at the address
   it gave and every other address as before, and every context sees that through its shared slots.
   */
  method LoadConfigured(e: Executor, pid: u8, c: u8, args: u16, ghost cfg: Config, ghost granted: map<Page, nat>)
    returns (reply: Reply, ghost t: Transfer)
    requires e.Valid() && c < MAX_BRACKET_CONTEXTS
    requires Sound(cfg) && WellFormed(cfg) && Allocation(cfg, e.machine.pages, granted) && c < ActiveContexts(cfg)
    modifies e.machine, e.machine.ram, e.store.mounted, e.store.files, e.store.disks, e.store.fat
    ensures e.Valid() && LoadReply(reply, t)
    ensures OnlyPut(e.machine.pages, c, old(e.machine.Ram()), e.machine.Ram(), t.ptr, t.file[..t.moved])
    ensures forall d: u8 | d < ActiveContexts(cfg) <= MAX_CONTEXTS ::
              SeenThroughAliases(cfg, e.machine.pages, c, d, old(e.machine.Ram()), e.machine.Ram(),
                                 t.ptr, t.file[..t.moved])
  {
    hide Sound, Allocation, WellFormed, Wrote, Settled, Store.HandlesOk, Store.DevicesOk, HandlesRestored, Asks;
    hide SeenThroughAliases, OnlyPut;
    ghost var before, pages := e.machine.Ram(), e.machine.pages;
    AllocatedPagesAreValid(cfg, pages, granted);
    reply, t := ExecLoad(e, pid, c, args);
    ghost var after := e.machine.Ram();
    DeliveredIsSeen(cfg, pages, granted, c, before, after, t.ptr, t.file[..t.moved]);
    forall d: u8 | d < ActiveContexts(cfg) <= MAX_CONTEXTS
      ensures SeenThroughAliases(cfg, pages, c, d, before, after, t.ptr, t.file[..t.moved])
    {
      DeliveredIsSeenThroughAliases(cfg, pages, granted, c, d, before, after, t.ptr, t.file[..t.moved]);
    }
  }

  /** Two contexts with a private lower and a shared upper half, as in memory.ini. */
  const HALVES: Config :=
    Config(1, "M", 0, [Model("M", 2)],
           [Layout("M", "L", [Region("LOW", 0, 8, false, false, false), Region("HIGH", 8, 8, true, false, false)])],
           [Binding("M", 0, "L"), Binding("M", 1, "L")])

  lemma HalvesIsAccepted()
    ensures WellFormed(HALVES) && Accepted(HALVES) && Sound(HALVES) && ActiveContexts(HALVES) == 2
    ensures Regions(HALVES, 0) == Regions(HALVES, 1) == HALVES.layouts[0].regions
  {
    HalvesLayout();
    var rs := HALVES.layouts[0].regions;
    assert Disjoint(rs) && InRange(rs);
    assert Complete(rs) by {
      forall slot | 0 <= slot < SLOTS
        ensures Covered(rs, slot)
      {
        assert Covers(rs[slot / 8], slot);
      }
    }
    DisjointCompleteIsPartition(rs);
    assert LayoutVerdict(HALVES.models, HALVES.layouts[0]) == IniOk;
    assert LayoutsVerdict(HALVES, 1) == IniOk && LayoutsVerdict(HALVES, 0) == IniOk;
    assert BindingsVerdict(HALVES, 2, 2) == IniOk;
    assert BindingsVerdict(HALVES, 2, 1) == IniOk;
    assert BindingsVerdict(HALVES, 2, 0) == IniOk;
  }

  lemma HalvesLayout()
    ensures ModelIndex(HALVES.models, "M") == 0 && LayoutIndex(HALVES.layouts, "M", "L") == 0
    ensures BindingIndex(HALVES.bindings, "M", 0) == 0 && BindingIndex(HALVES.bindings, "M", 1) == 1
    ensures LayoutOf(HALVES, "M", 0) == LayoutOf(HALVES, "M", 1) == Some(HALVES.layouts[0])
  {
    assert HALVES.bindings[0].context == 0 && HALVES.bindings[1].context == 1;
  }

  /** A LOAD of context 0 to $8000 is seen by context 1: the upper half is the same memory. */
  lemma LoadIntoSharedSlotIsSeen(pages: PageMap, granted: map<Page, nat>, before: Ram, after: Ram, bytes: seq<u8>)
    requires Sound(HALVES) && Allocation(HALVES, pages, granted) && 0 < |bytes| <= 0x8000
    requires Wrote(pages, 0, before, after, 0x8000, bytes)
    ensures ValidPages(pages) && View(after, pages, 1, 0x8000) == bytes[0]
  {
    hide Allocation, Accepted, Wrote, Apply;
    HalvesIsAccepted();
    RegionOverIs(HALVES, 0, 8, 1);
    RegionOverIs(HALVES, 1, 8, 1);
    assert Aliases(HALVES, 0, 0x8000, 1, 0x8000);
    DeliveredIsSeenThroughAliases(HALVES, pages, granted, 0, 1, before, after, 0x8000, bytes);
  }

  /** The context sees n bytes of the file from the position on at the address, and the rest as before. */
  ghost predicate SeesFile(pages: PageMap, c: nat, before: Ram, after: Ram, address: u16, file: File, pos: nat, n: nat)
    requires ValidPages(pages) && c < CONTEXTS
  {
    && (n > 0 ==> pos + n <= |file|)
    && forall a: u16 :: View(after, pages, c, a) ==
         if address <= a < address + n then file[pos + (a - address)] else View(before, pages, c, a)
  }

  /** READ on a configured machine: likewise, for the bytes from the handle's position on. */
  method ReadConfigured(e: Executor, c: u8, args: u16, h: u8, ghost cfg: Config, ghost granted: map<Page, nat>)
    returns (reply: Reply)
    requires e.Valid() && c < MAX_BRACKET_CONTEXTS
    requires Sound(cfg) && WellFormed(cfg) && Allocation(cfg, e.machine.pages, granted) && c < ActiveContexts(cfg)
    modifies e.machine, e.machine.ram, e.store.files, e.store.fat
    ensures e.Valid()
    ensures reply.Failed? ==> e.machine.Ram() == old(e.machine.Ram())
    ensures reply.Success? ==>
              && old(e.ReadAccepted(c, args, h)) && e.store.IsFile(h)
              && SeesFile(e.machine.pages, c, old(e.machine.Ram()), e.machine.Ram(), old(e.Field(c, args, 2)),
                          e.store.FileOf(h), old(e.store.files[h].pos), reply.value)
  {
    hide Sound, Allocation, WellFormed, Wrote, Settled, Store.HandlesOk, Store.DevicesOk, OnlyPrivate, SameButPosition;
    ghost var before, pages := e.machine.Ram(), e.machine.pages;
    reply := e.ExecRead(c, args, h);
    if reply.Success? {
      ghost var dst, pos, file := old(e.Field(c, args, 2)), old(e.store.files[h].pos), e.store.FileOf(h);
      DeliveredIsSeen(cfg, pages, granted, c, before, e.machine.Ram(), dst,
                      if reply.value > 0 then file[pos..pos + reply.value] else []);
    }
  }
}
