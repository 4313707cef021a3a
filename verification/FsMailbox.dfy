/**
 A filesystem request from the mailbox to its published reply (rp_fs_mailbox_handle_exec and the
 result helpers of mailbox.cpp), and what of the machine's memory it can change.
 */
module FsMailbox {
  import opened Words
  import opened MmuTable
  import opened MemoryConfig
  import opened PageAllocator
  import opened SystemBus
  import opened PhysicalMemory
  import opened Neobus
  import opened PathModel
  import opened CallerMemory
  import opened Storage
  import opened FsExecutor
  import opened FsRequests
  import opened FsDispatch
  import Mailbox

  const RP_STATUS: u16 := 0xB002
  const RP_ERR: u16 := 0xB003
  const RP_FLAGS: u16 := 0xB004
  const RP_STATE: u16 := 0xB005
  const RP_ARG0L: u16 := 0xB006
  const RP_ARG1L: u16 := 0xB008
  const RP_ARG1H: u16 := 0xB009
  const RP_ARG2L: u16 := 0xB00A
  const RP_ARG2H: u16 := 0xB00B
  const RP_RES0L: u16 := 0xB00C
  const RP_RES1L: u16 := 0xB00E
  const RP_IRQ_SOURCE: u16 := 0xB010
  const RP_IRQ_STATE: u16 := 0xB013
  const RP_DOORBELL: u16 := 0xE010

  const STATUS_DONE: u8 := 2
  const STATUS_ERROR: u8 := 3

  /** The bytes of a published reply, in the order they are written. */
  function ReplyBytes(r: Reply): (bs: seq<(u16, u8)>)
    ensures |bs| == 8
  {
    var low := match r case Success(v, _) => v % 65536 case Failed(_, partial) => partial;
    var high := match r case Success(v, _) => v / 65536 case Failed(_, _) => 0;
    var err := match r case Success(_, _) => 0 case Failed(err, _) => err;
    var flags := match r case Success(_, flags) => flags case Failed(_, _) => 0;
    [(RP_RES0L, low % 256), (RP_RES0L + 1, low / 256), (RP_RES1L, high % 256), (RP_RES1L + 1, high / 256),
     (RP_ERR, err), (RP_FLAGS, flags), (RP_STATUS, if r.Success? then STATUS_DONE else STATUS_ERROR),
     (RP_DOORBELL, 0)]
  }

  /** What a reader of the block makes of a published reply. */
  lemma ReplyMeans(r: Reply)
    ensures var b := ReplyBytes(r);
            && b[0].0 == 0xB00C && b[1].0 == 0xB00D && b[2].0 == 0xB00E && b[3].0 == 0xB00F
            && b[4].0 == 0xB003 && b[5].0 == 0xB004 && b[6].0 == 0xB002 && b[7] == (0xE010, 0)
    ensures var v: seq<int> := [ReplyBytes(r)[0].1, ReplyBytes(r)[1].1, ReplyBytes(r)[2].1, ReplyBytes(r)[3].1,
                                ReplyBytes(r)[4].1, ReplyBytes(r)[5].1, ReplyBytes(r)[6].1];
            match r
            case Success(value, flags) =>
              v[0] + 256 * v[1] + 65536 * v[2] + 16777216 * v[3] == value && v[4] == 0 && v[5] == flags && v[6] == 2
            case Failed(err, partial) =>
              v[0] + 256 * v[1] == partial && v[2] == v[3] == 0 && v[4] == err && v[5] == 0 && v[6] == 3
  {
    match r
    case Success(value, _) =>
      var low, high := value % 65536, value / 65536;
      assert low == low % 256 + 256 * (low / 256) && high == high % 256 + 256 * (high / 256);
    case Failed(_, partial) =>
  }

  function ByteWrites(pages: PageMap, k: nat, bytes: seq<(u16, u8)>): (ws: seq<Write>)
    requires ValidPages(pages) && k < CONTEXTS
    ensures |ws| == |bytes| && InRam(ws)
    ensures forall i | 0 <= i < |ws| :: ws[i] == Write(Cell(pages, k, bytes[i].0), bytes[i].1)
  {
    seq(|bytes|, i requires 0 <= i < |bytes| => Write(Cell(pages, k, bytes[i].0), bytes[i].1))
  }

  /** Writes the next byte of a reply. */
  method Put(m: Machine, address: u16, value: u8, ghost start: Ram, ghost bytes: seq<(u16, u8)>, ghost i: nat)
    requires m.Valid() && Settled(m.BusState()) && i < |bytes| && bytes[i] == (address, value)
    requires m.Ram() == Apply(start, ByteWrites(m.pages, m.context, bytes[..i]))
    modifies m, m.ram
    ensures m.Valid() && Settled(m.BusState()) && m.BusState() == Released(old(m.BusState()))
    ensures m.context == old(m.context)
    ensures m.Ram() == Apply(start, ByteWrites(m.pages, m.context, bytes[..i + 1]))
  {
    hide Settled, Apply, Exec, ExecAll, Released;
    m.SnoopWriteLoc(address, value);
    ghost var ws, w := ByteWrites(m.pages, m.context, bytes[..i]), Write(Cell(m.pages, m.context, address), value);
    assert ByteWrites(m.pages, m.context, bytes[..i + 1]) == ws + [w];
    ApplyAppend(start, ws, [w]);
  }

  /** rp_write16. */
  method PutWord(m: Machine, address: u16, value: u16, ghost start: Ram, ghost bytes: seq<(u16, u8)>, ghost i: nat)
    requires m.Valid() && Settled(m.BusState()) && i + 1 < |bytes| && address < 0xFFFF
    requires bytes[i] == (address, value % 256) && bytes[i + 1] == (address + 1, value / 256)
    requires m.Ram() == Apply(start, ByteWrites(m.pages, m.context, bytes[..i]))
    modifies m, m.ram
    ensures m.Valid() && Settled(m.BusState()) && m.BusState() == Released(old(m.BusState()))
    ensures m.context == old(m.context)
    ensures m.Ram() == Apply(start, ByteWrites(m.pages, m.context, bytes[..i + 2]))
  {
    hide Settled, Apply, Released;
    ReleasedTwice(m.BusState());
    Put(m, address, value % 256, start, bytes, i);
    Put(m, address + 1, value / 256, start, bytes, i + 1);
  }

  /** rp_mailbox_set_done, set_done32 and set_error: results first, then STATUS, then the doorbell. */
  method Publish(m: Machine, r: Reply)
    requires m.Valid() && Settled(m.BusState())
    modifies m, m.ram
    ensures m.Valid() && Settled(m.BusState()) && m.BusState() == Released(old(m.BusState()))
    ensures m.context == old(m.context)
    ensures m.Ram() == Apply(old(m.Ram()), ByteWrites(m.pages, m.context, ReplyBytes(r)))
  {
    hide Settled, Apply, Released;
    ghost var start, bytes := m.Ram(), ReplyBytes(r);
    NothingCopied(start, m.pages, m.context, 0);
    ReleasedTwice(m.BusState());
    assert bytes[..0] == [] && bytes[..8] == bytes && ByteWrites(m.pages, m.context, []) == [];
    var res0, res1: u16, err, flags, status := 0, 0, 0, 0, STATUS_ERROR;
    match r {
      case Success(value, f) =>
        res0, res1, flags, status := value % 65536, value / 65536, f, STATUS_DONE;
      case Failed(code, partial) =>
        res0, err := partial, code;
    }
    PutWord(m, RP_RES0L, res0, start, bytes, 0);
    PutWord(m, RP_RES1L, res1, start, bytes, 2);
    Put(m, RP_ERR, err, start, bytes, 4);
    Put(m, RP_FLAGS, flags, start, bytes, 5);
    Put(m, RP_STATUS, status, start, bytes, 6);
    Put(m, RP_DOORBELL, 0, start, bytes, 7);
  }

  lemma ReleasedTwice(b: Bus)
    ensures Released(Released(b)) == Released(b)
  {
  }

  lemma SameBusContext(a: Bus, b: Bus)
    requires SameBus(a, b)
    ensures b.context == a.context
  {
  }

  lemma ReleasedIsSame(b: Bus)
    ensures SameBus(b, Released(b))
  {
  }

  /** Each published byte is visible at its address to every reader in the publishing context. */
  lemma PublishedBytes(m: Ram, pages: PageMap, k: nat, r: Reply, i: nat)
    requires ValidPages(pages) && k < CONTEXTS && InjectiveContext(pages, k) && i < 8
    ensures View(Apply(m, ByteWrites(pages, k, ReplyBytes(r))), pages, k, ReplyBytes(r)[i].0) == ReplyBytes(r)[i].1
  {
    hide Apply;
    var bytes := ReplyBytes(r);
    var ws := ByteWrites(pages, k, bytes);
    forall j | 0 <= j < 8 && j != i
      ensures ws[j].cell != ws[i].cell
    {
      assert bytes[i].0 != bytes[j].0;
      CellInjective(pages, k, bytes[i].0, bytes[j].0);
    }
    OnlyWrite(ws, ws[i].cell, i);
    ApplyAt(m, ws, ws[i].cell);
  }

  /** The mailbox protocol's view of a reply: what is published, in order, up to the doorbell. */
  function OutcomeOf(r: Reply): Mailbox.Outcome {
    var bytes := ReplyBytes(r);
    Mailbox.Outcome(seq(6, i requires 0 <= i < 6 => bytes[i].1), bytes[6].1)
  }

  /** Replies are written in the order that the mailbox protocol's proofs rely on. */
  lemma RepliesFollowTheProtocol(r: Reply, k: nat)
    requires k < 8
    ensures Mailbox.ValidOutcome(OutcomeOf(r)) && Mailbox.PublishedByte(OutcomeOf(r), k) == ReplyBytes(r)[k].1
  {
  }

  /** A cell behind one of the eight published addresses of a context. */
  ghost predicate MailboxCell(pages: PageMap, k: nat, cell: nat)
    requires ValidPages(pages) && k < CONTEXTS
  {
    exists a: u16 :: Published(a) && Cell(pages, k, a) == cell
  }

  predicate Published(a: u16) {
    RP_STATUS <= a <= RP_FLAGS || RP_RES0L <= a <= RP_RES1L + 1 || a == RP_DOORBELL
  }

  /** The bytes of the block that the protocol and the interrupt task rely on. */
  predicate BlockByte(a: u16) {
    Published(a) || a == RP_IRQ_SOURCE || a == RP_IRQ_STATE
  }

  lemma PublishTouchesMailboxOnly(m: Ram, pages: PageMap, k: nat, r: Reply, cell: nat)
    requires ValidPages(pages) && k < CONTEXTS && cell < RAM_SIZE && !MailboxCell(pages, k, cell)
    ensures Apply(m, ByteWrites(pages, k, ReplyBytes(r)))[cell] == m[cell]
  {
    hide Apply;
    var ws := ByteWrites(pages, k, ReplyBytes(r));
    forall i | 0 <= i < |ws|
      ensures ws[i].cell != cell
    {
      assert Published(ReplyBytes(r)[i].0);
    }
    ApplyMisses(m, ws, cell);
  }

  method Snoop(m: Machine, address: u16) returns (data: u8)
    requires m.Valid() && Settled(m.BusState())
    modifies m
    ensures m.Valid() && Settled(m.BusState()) && SameBus(old(m.BusState()), m.BusState())
    ensures m.context == old(m.context) && data == View(m.Ram(), m.pages, m.context, address)
  {
    hide Settled, Exec, ExecAll, Released, SameBus;
    ReleasedIsSame(m.BusState());
    data := m.SnoopReadLoc(address);
  }

  /** The request that lies in the mailbox, as context k sees it. */
  ghost function Posted(m: Ram, pages: PageMap, k: nat): Request
    requires ValidPages(pages) && k < CONTEXTS
  {
    Request(View(m, pages, k, RP_STATE), View(m, pages, k, RP_ARG1L), View(m, pages, k, RP_ARG1H),
            Arg(m, pages, k, RP_ARG0L, 0), View(m, pages, k, RP_ARG2L), View(m, pages, k, RP_ARG2H))
  }

  /** The request fields, read one byte at a time. */
  method ReadRequest(m: Machine) returns (r: Request)
    requires m.Valid() && Settled(m.BusState())
    modifies m
    ensures m.Valid() && Settled(m.BusState()) && SameBus(old(m.BusState()), m.BusState())
    ensures m.context == old(m.context)
    ensures r == Posted(m.Ram(), m.pages, m.context)
    ensures r.op == m.Seen(m.context, 0xB005) && r.pid == m.Seen(m.context, 0xB008)
            && r.context == m.Seen(m.context, 0xB009)
    ensures r.args % 256 == m.Seen(m.context, 0xB006) && r.args / 256 == m.Seen(m.context, 0xB007)
    ensures r.low == m.Seen(m.context, 0xB00A) && r.high == m.Seen(m.context, 0xB00B)
  {
    hide Settled;
    var op := Snoop(m, RP_STATE);
    var pid := Snoop(m, RP_ARG1L);
    var context := Snoop(m, RP_ARG1H);
    var low := Snoop(m, RP_ARG0L);
    var high: int := Snoop(m, RP_ARG0L + 1);
    var arg2l := Snoop(m, RP_ARG2L);
    var arg2h := Snoop(m, RP_ARG2H);
    return Request(op, pid, context, low + 256 * high, arg2l, arg2h);
  }

  // ---------------------------------------------------------------------------
  // Requests
  // ---------------------------------------------------------------------------

  /**
   What a request did before its reply was published: it stayed within its frame and got the answer its
   operation owes; or nothing, if its owner is no process or its context no context.
   */
  ghost predicate Served(r: Request, pages: PageMap, s: Snapshot, mid: Snapshot, foot: Footprint, reply: Reply)
    requires ValidPages(pages) && |s.slots| == MAX_PROCS
  {
    if r.pid < 8 && r.context < 16 then
      && Framed(r, pages, s, mid, foot, reply)
      && Legal(r, pages, s, mid) && Answered(r, pages, s, mid, reply)
    else reply == REJECTED && mid == s
  }

  /**
   One request, any operation, up to and including its reply. The result says whether a completion
   interrupt is requested; `mid` is the state before publishing, which then writes eight bytes.
   */
  method HandleExec(e: Executor)
    returns (notify: bool, ghost reply: Reply, ghost mid: Snapshot, ghost foot: Footprint)
    requires e.Valid()
    modifies e.machine, e.machine.ram, e.store.mounted, e.store.files, e.store.dirs, e.store.disks, e.store.fat,
             e.cwd.slots
    ensures e.Valid() && SameBus(old(e.machine.BusState()), e.machine.BusState())
    ensures var r := Posted(old(e.machine.Ram()), e.machine.pages, old(e.machine.context));
            (notify <==> r.pid != 0) && Served(r, e.machine.pages, old(Snap(e)), mid, foot, reply)
    ensures var ws := ByteWrites(e.machine.pages, old(e.machine.context), ReplyBytes(reply));
            Snap(e) == mid.(ram := Apply(mid.ram, ws))
  {
    hide Settled, Apply, ReplyBytes, SameBus, Store.HandlesOk, Store.DevicesOk, Framed, Posted, Answered, Legal;
    var request := ReadRequest(e.machine);
    ghost var bus := e.machine.BusState();
    SameBusContext(old(e.machine.BusState()), bus);
    var r := REJECTED;
    foot := NO_FILES;
    if request.pid < MAX_PROCS && request.context < MAX_BRACKET_CONTEXTS {
      r, foot := Dispatch(e, request);
      SameBusTrans(old(e.machine.BusState()), bus, e.machine.BusState());
    }
    reply, mid := r, Snap(e);
    bus := e.machine.BusState();
    SameBusContext(old(e.machine.BusState()), bus);
    Publish(e.machine, r);
    ReleasedIsSame(bus);
    SameBusTrans(old(e.machine.BusState()), bus, e.machine.BusState());
    notify := request.pid != 0;
  }

  // ---------------------------------------------------------------------------
  // Isolation
  // ---------------------------------------------------------------------------

  /** No address in the request's reach leads to what context d has at the address. */
  ghost predicate OutOfReach(cfg: Config, r: Request, pages: PageMap, m: Ram, d: u8, a: u16)
    requires Sound(cfg) && d < ActiveContexts(cfg) && r.context < ActiveContexts(cfg)
    requires ValidPages(pages) && r.context < CONTEXTS
  {
    forall b: u16 | InReach(r, pages, m, b) :: !Aliases(cfg, r.context, b, d, a)
  }

  /** What a handler changes is out of sight wherever its reach does not lead. */
  lemma HandlersAreIsolated(cfg: Config, pages: PageMap, granted: map<Page, nat>, r: Request, d: u8, a: u16,
                            s: Snapshot, mid: Snapshot, foot: Footprint, reply: Reply)
    requires Sound(cfg) && Allocation(cfg, pages, granted) && |s.slots| == MAX_PROCS
    requires d < ActiveContexts(cfg) && r.context < ActiveContexts(cfg)
    requires Served(r, pages, s, mid, foot, reply) && OutOfReach(cfg, r, pages, s.ram, d, a)
    ensures View(mid.ram, pages, d, a) == View(s.ram, pages, d, a)
  {
    hide Sound, Allocation, Aliases, Cell, DiskFrame, TableFrame, Allowed, InReach;
    AllocatedPagesAreValid(cfg, pages, granted);
    if r.pid < MAX_PROCS && r.context < MAX_BRACKET_CONTEXTS {
      var cell := Cell(pages, d, a);
      if BehindReach(r, pages, s.ram, cell) {
        var b: u16 :| InReach(r, pages, s.ram, b) && Cell(pages, r.context, b) == cell;
        AliasesIffSameCell(cfg, pages, granted, r.context, b, d, a);
        assert false;
      }
    }
  }

  /** Isolation, end to end: a request and its reply change nothing out of its reach but mailbox bytes. */
  lemma RequestsAreIsolated(cfg: Config, pages: PageMap, granted: map<Page, nat>, r: Request, k: u8, d: u8, a: u16,
                            s: Snapshot, mid: Snapshot, foot: Footprint, reply: Reply)
    requires Sound(cfg) && Allocation(cfg, pages, granted) && |s.slots| == MAX_PROCS
    requires d < ActiveContexts(cfg) && r.context < ActiveContexts(cfg) && k < CONTEXTS
    requires Served(r, pages, s, mid, foot, reply) && OutOfReach(cfg, r, pages, s.ram, d, a)
    requires !MailboxCell(pages, k, Cell(pages, d, a))
    ensures View(Apply(mid.ram, ByteWrites(pages, k, ReplyBytes(reply))), pages, d, a) == View(s.ram, pages, d, a)
  {
    hide Apply, ReplyBytes, Sound, Served, OutOfReach;
    HandlersAreIsolated(cfg, pages, granted, r, d, a, s, mid, foot, reply);
    PublishTouchesMailboxOnly(mid.ram, pages, k, reply, Cell(pages, d, a));
  }

  /** The request can write private slots of its context only. */
  ghost predicate PrivateReach(cfg: Config, r: Request, pages: PageMap, m: Ram)
    requires Sound(cfg) && r.context < ActiveContexts(cfg) && ValidPages(pages) && r.context < CONTEXTS
  {
    forall b: u16 | InReach(r, pages, m, b) :: !RegionOver(cfg, r.context, b / PAGE_SIZE).shared
  }

  /** Such a request, a LOAD as any other, is noticed in its own context only, and there only in its reach. */
  lemma PrivateReachIsIsolated(cfg: Config, r: Request, pages: PageMap, m: Ram, d: u8, a: u16)
    requires Sound(cfg) && r.context < ActiveContexts(cfg) && ValidPages(pages) && r.context < CONTEXTS
    requires PrivateReach(cfg, r, pages, m) && d < ActiveContexts(cfg)
    requires d != r.context || !InReach(r, pages, m, a)
    ensures OutOfReach(cfg, r, pages, m, d, a)
  {
    hide Sound, InReach;
  }

  /** Every request but LOAD is such, if the lower half of its context is private. */
  lemma PrivateLowIsPrivateReach(cfg: Config, r: Request, pages: PageMap, m: Ram)
    requires Sound(cfg) && r.context < ActiveContexts(cfg) && ValidPages(pages) && r.context < CONTEXTS
    requires r.op != OP_LOAD && PrivateLow(cfg, r.context)
    ensures PrivateReach(cfg, r, pages, m)
  {
    hide Sound, RegionOver;
  }

  /** No request at all reaches a private slot of another context. */
  lemma PrivateSlotsAreOutOfReach(cfg: Config, r: Request, pages: PageMap, m: Ram, d: u8, a: u16)
    requires Sound(cfg) && r.context < ActiveContexts(cfg) && ValidPages(pages) && r.context < CONTEXTS
    requires d < ActiveContexts(cfg) && d != r.context && !RegionOver(cfg, d, a / PAGE_SIZE).shared
    ensures OutOfReach(cfg, r, pages, m, d, a)
  {
    hide Sound, InReach;
  }
}
