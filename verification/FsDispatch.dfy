/**
 The request handlers one by one (rp_fs_mailbox_handle_exec): what each leaves alone, and that it
 gives the answer its operation owes.
 */
module FsDispatch {
  import opened Words
  import opened MmuTable
  import opened SystemBus
  import opened PhysicalMemory
  import opened PathModel
  import opened FatPaths
  import opened CallerMemory
  import opened Storage
  import opened FsExecutor
  import opened PathRequests
  import opened BulkTransfer
  import opened FsRequests

  const POSITIONED: set<u8> := {OP_WRITE, OP_SEEK}
  const MOUNTING: set<u8> :=
    {OP_OPEN, OP_LOAD, OP_SAVE, OP_DELETE, OP_RENAME, OP_OPENDIR, OP_MKDIR, OP_RMDIR, OP_CHDIR}

  /** The files that a request may change: some names on one drive, and for a renaming all that lies below them. */
  datatype Footprint = Footprint(device: u8, names: set<string>, below: bool)

  const NO_FILES: Footprint := Footprint(0, {}, false)

  ghost predicate Includes(foot: Footprint, path: string) {
    exists n | n in foot.names :: path == n || (foot.below && Under(path, n))
  }

  ghost predicate OnlyCovered(before: Disk, after: Disk, foot: Footprint) {
    forall p: string | !Includes(foot, p) :: (p in after <==> p in before) && (p in before ==> after[p] == before[p])
  }

  /** No file on a mounted drive changes but those of the footprint. */
  ghost predicate DiskFrame(s: Snapshot, s': Snapshot, foot: Footprint) {
    && |s.mounted| == |s.disks| == |s'.disks| == DEVICES
    && forall d | 0 <= d < DEVICES && s.mounted[d] ::
         if d == foot.device then OnlyCovered(s.disks[d], s'.disks[d], foot) else s'.disks[d] == s.disks[d]
  }

  /** What the argument block of a request that can change files asks for. */
  ghost predicate Requested(r: Request, pages: PageMap, s: Snapshot, t: Target)
    requires ValidPages(pages) && r.context < CONTEXTS && r.pid < |s.slots|
  {
    var c, cwd := r.context, s.slots[r.pid];
    if r.op == OP_OPEN then AsksFor(s.ram, pages, c, r.pid, cwd, r.args, 5, t)
    else if r.op == OP_DELETE || r.op == OP_RMDIR then AsksFor(s.ram, pages, c, r.pid, cwd, r.args, 4, t)
    else if r.op == OP_SAVE then exists ptr, size :: Asks(s.ram, pages, c, r.pid, cwd, r.args, t, ptr, size)
    else r.op == OP_RENAME && exists u :: RenameNames(s.ram, pages, c, r.pid, cwd, r.args, t, u)
  }

  /** Either name of a renaming. */
  ghost predicate RenameNames(m: Ram, pages: PageMap, c: nat, pid: u8, cwd: Cwd, args: u16, t: Target, u: Target)
    requires ValidPages(pages) && c < CONTEXTS
  {
    AsksToRename(m, pages, c, pid, cwd, args, t, u) || AsksToRename(m, pages, c, pid, cwd, args, u, t)
  }

  /** A name in a footprint is the path of a file that the request asks for. */
  ghost predicate AskedName(r: Request, pages: PageMap, s: Snapshot, device: u8, name: string)
    requires ValidPages(pages) && r.context < CONTEXTS && r.pid < |s.slots|
  {
    && device <= 9
    && exists t: Target :: t.device == device && Requested(r, pages, s, t) && name == FatText(device, t.path)
  }

  /** The footprint that an operation is allowed: the handle's file, or what the request names. */
  ghost predicate Allowed(r: Request, pages: PageMap, s: Snapshot, foot: Footprint)
    requires ValidPages(pages) && r.context < CONTEXTS && r.pid < |s.slots|
  {
    && (foot.below ==> r.op == OP_RENAME)
    && if r.op in POSITIONED then
         forall n | n in foot.names ::
           r.low < |s.files| && s.files[r.low].inUse && foot.device == s.files[r.low].device && n == s.files[r.low].path
       else forall n | n in foot.names :: AskedName(r, pages, s, foot.device, n)
  }

  /** The caller's addresses that an operation may write: for LOAD the range asked for, else the private half. */
  ghost predicate InReach(r: Request, pages: PageMap, m: Ram, b: u16)
    requires ValidPages(pages) && r.context < CONTEXTS
  {
    if r.op == OP_LOAD then
      && PrivateRange(r.args, 8)
      && var ptr: int := Arg(m, pages, r.context, r.args, 2);
         ptr <= b < ptr + EffectiveSize(Arg(m, pages, r.context, r.args, 4))
    else 1 <= b < PRIVATE_LIMIT
  }

  ghost predicate BehindReach(r: Request, pages: PageMap, m: Ram, cell: nat)
    requires ValidPages(pages) && r.context < CONTEXTS
  {
    exists b: u16 :: InReach(r, pages, m, b) && Cell(pages, r.context, b) == cell
  }

  /** Memory changes nowhere but behind these addresses. */
  ghost predicate MemoryFrame(r: Request, pages: PageMap, before: Ram, after: Ram)
    requires ValidPages(pages) && r.context < CONTEXTS
  {
    forall cell | 0 <= cell < RAM_SIZE && !BehindReach(r, pages, before, cell) :: after[cell] == before[cell]
  }

  /**
   No open handle but the request's own changes, none is opened but the one that the reply of OPEN or
   OPENDIR names, and no working directory but the request's own changes.
   */
  ghost predicate TableFrame(r: Request, s: Snapshot, s': Snapshot, reply: Reply) {
    && |s.files| == |s'.files| && |s.dirs| == |s'.dirs| && |s.slots| == |s'.slots|
    && (forall h | 0 <= h < |s.files| && s.files[h].inUse
                   && !(h == r.low && r.op in {OP_READ, OP_WRITE, OP_SEEK, OP_CLOSE}) ::
          s'.files[h] == s.files[h])
    && (forall h | 0 <= h < |s.files| && !s.files[h].inUse && !(r.op == OP_OPEN && Reports(reply, h)) ::
          !s'.files[h].inUse)
    && (forall h | 0 <= h < |s.dirs| && s.dirs[h].inUse && !(h == r.low && r.op in {OP_READDIR, OP_CLOSEDIR}) ::
          s'.dirs[h] == s.dirs[h])
    && (forall h | 0 <= h < |s.dirs| && !s.dirs[h].inUse && !(r.op == OP_OPENDIR && Reports(reply, h)) ::
          !s'.dirs[h].inUse)
    && (forall p | 0 <= p < |s.slots| && !(p == r.pid && r.op == OP_CHDIR)
                   && !(p == r.low && r.op in {OP_CWD_INIT_ROOT, OP_CWD_CLONE}) ::
          s'.slots[p] == s.slots[p])
  }

  predicate Reports(reply: Reply, handle: nat) {
    reply.Success? && reply.value == handle
  }

  /** A mounted drive stays mounted, only operations on paths mount one, and no stick comes or goes. */
  ghost predicate MountFrame(r: Request, s: Snapshot, s': Snapshot) {
    && s'.usb == s.usb && Later(s.calls, s'.calls)
    && |s'.mounted| == |s.mounted| && (r.op !in MOUNTING ==> s'.mounted == s.mounted)
    && forall d | 0 <= d < |s.mounted| && s.mounted[d] :: s'.mounted[d]
  }

  /**
   The frame of a request: what it changes of memory, files, handles, mounts and working directories.
   A rejected one changes nothing at all, but for LOAD and SAVE, which reject a range after opening.
   */
  ghost predicate Framed(r: Request, pages: PageMap, s: Snapshot, s': Snapshot, foot: Footprint, reply: Reply)
    requires ValidPages(pages) && r.context < CONTEXTS && r.pid < |s.slots|
  {
    && MemoryFrame(r, pages, s.ram, s'.ram) && TableFrame(r, s, s', reply) && MountFrame(r, s, s')
    && DiskFrame(s, s', foot) && Allowed(r, pages, s, foot)
    && (reply == REJECTED ==> s'.ram == s.ram && (r.op != OP_LOAD && r.op != OP_SAVE ==> s' == s))
  }

  lemma SameTables(r: Request, s: Snapshot, s': Snapshot, reply: Reply)
    requires s'.files == s.files && s'.dirs == s.dirs && s'.slots == s.slots
    ensures TableFrame(r, s, s', reply)
  {
  }

  lemma PositionTables(r: Request, s: Snapshot, s': Snapshot, reply: Reply)
    requires r.op in {OP_READ, OP_WRITE, OP_SEEK} && SameButPosition(s.files, s'.files, r.low)
    requires s'.dirs == s.dirs && s'.slots == s.slots
    ensures TableFrame(r, s, s', reply)
    ensures r.low < |s.files| ==> s'.files[r.low] == s.files[r.low].(pos := s'.files[r.low].pos)
  {
  }

  lemma OpenedTables(r: Request, s: Snapshot, s': Snapshot, reply: Reply)
    requires r.op == OP_OPEN && s'.dirs == s.dirs && s'.slots == s.slots
    requires reply.Failed? ==> s'.files == s.files
    requires reply.Success? ==>
               && reply.value < |s.files| == |s'.files| && !s.files[reply.value].inUse
               && s'.files == s.files[reply.value := s'.files[reply.value]]
    ensures TableFrame(r, s, s', reply)
  {
  }

  lemma ClosedTables(r: Request, s: Snapshot, s': Snapshot, reply: Reply)
    requires r.op in {OP_CLOSE, OP_CLOSEDIR} && s'.slots == s.slots
    requires |s'.files| == |s.files| && |s'.dirs| == |s.dirs|
    requires s'.files == s.files
             || (r.op == OP_CLOSE && r.low < |s.files| && s.files[r.low].inUse
                 && s'.files == s.files[r.low := s'.files[r.low]])
    requires s'.dirs == s.dirs
             || (r.op == OP_CLOSEDIR && r.low < |s.dirs| && s.dirs[r.low].inUse
                 && s'.dirs == s.dirs[r.low := s'.dirs[r.low]])
    ensures TableFrame(r, s, s', reply)
  {
  }

  lemma DirectoryTables(r: Request, s: Snapshot, s': Snapshot, reply: Reply)
    requires s'.files == s.files && s'.dirs == s.dirs && |s'.slots| == |s.slots|
    requires forall p | 0 <= p < |s.slots| && !(p == r.low && r.op in {OP_CWD_INIT_ROOT, OP_CWD_CLONE}) ::
               s'.slots[p] == s.slots[p]
    ensures TableFrame(r, s, s', reply)
  {
  }

  lemma RestoredTables(r: Request, s: Snapshot, s': Snapshot, reply: Reply)
    requires HandlesRestored(s.files, s'.files) && s'.dirs == s.dirs && s'.slots == s.slots
    ensures TableFrame(r, s, s', reply)
  {
  }

  lemma KeptMounts(r: Request, s: Snapshot, s': Snapshot)
    requires s'.usb == s.usb && Later(s.calls, s'.calls)
    requires |s'.mounted| == |s.mounted| && (r.op in MOUNTING || s'.mounted == s.mounted)
    requires forall d | 0 <= d < |s.mounted| && s.mounted[d] :: s'.mounted[d]
    ensures MountFrame(r, s, s')
  {
  }

  /** A request other than RENAME changes one file at most. */
  lemma OneFileAtMost(r: Request, pages: PageMap, s: Snapshot, foot: Footprint)
    requires ValidPages(pages) && r.context < CONTEXTS && r.pid < |s.slots|
    requires Allowed(r, pages, s, foot) && r.op != OP_RENAME
    ensures forall n, n' | n in foot.names && n' in foot.names :: n == n'
  {
    hide FatText, Asks, AsksFor;
    if r.op !in POSITIONED {
      forall n, n' | n in foot.names && n' in foot.names
        ensures n == n'
      {
        var t: Target :| t.device == foot.device && Requested(r, pages, s, t) && n == FatText(foot.device, t.path);
        var u: Target :| u.device == foot.device && Requested(r, pages, s, u) && n' == FatText(foot.device, u.path);
        var c, cwd := r.context, s.slots[r.pid];
        if r.op == OP_SAVE {
          var p, k :| Asks(s.ram, pages, c, r.pid, cwd, r.args, t, p, k);
          var q, l :| Asks(s.ram, pages, c, r.pid, cwd, r.args, u, q, l);
          BulkAskedOnce(s.ram, pages, c, r.pid, cwd, r.args, t, p, k, u, q, l);
        } else {
          AskedOnce(s.ram, pages, c, r.pid, cwd, r.args, if r.op == OP_OPEN then 5 else 4, t, u);
        }
      }
    }
  }

  lemma SameDiskFrame(s: Snapshot, s': Snapshot, foot: Footprint)
    requires |s.mounted| == |s.disks| == |s'.disks| == DEVICES
    requires forall d | 0 <= d < DEVICES && s.mounted[d] :: s'.disks[d] == s.disks[d]
    ensures DiskFrame(s, s', foot)
  {
  }

  lemma FileFrame(s: Snapshot, s': Snapshot, device: u8, path: string)
    requires |s.mounted| == DEVICES && OnlyFileChanges(s.disks, s'.disks, device, path)
    ensures DiskFrame(s, s', Footprint(device, {path}, false))
  {
    var before, after, foot := s.disks[device], s'.disks[device], Footprint(device, {path}, false);
    forall p: string | !Includes(foot, p)
      ensures (p in after <==> p in before) && (p in before ==> after[p] == before[p])
    {
      assert path in foot.names;
      assert p in after - {path} <==> p in before - {path};
      assert p in before ==> (after - {path})[p] == (before - {path})[p];
    }
  }

  // ---------------------------------------------------------------------------
  // The handlers
  // ---------------------------------------------------------------------------

  lemma PrivateFrame(r: Request, pages: PageMap, before: Ram, after: Ram)
    requires ValidPages(pages) && r.context < CONTEXTS
    requires r.op != OP_LOAD && OnlyPrivate(pages, r.context, before, after)
    ensures MemoryFrame(r, pages, before, after)
  {
    hide Cell;
    forall cell | 0 <= cell < RAM_SIZE && !BehindReach(r, pages, before, cell)
      ensures after[cell] == before[cell]
    {
      assert !BehindPrivate(pages, r.context, cell);
    }
  }

  lemma LoadFrame(r: Request, pages: PageMap, before: Ram, after: Ram, ptr: u16, size: nat, bytes: seq<u8>)
    requires ValidPages(pages) && r.context < CONTEXTS && r.op == OP_LOAD
    requires Wrote(pages, r.context, before, after, ptr, bytes)
    requires bytes != [] ==>
               && ptr + |bytes| <= ADDRESSES && |bytes| <= size && PrivateRange(r.args, 8)
               && ptr == Arg(before, pages, r.context, r.args, 2)
               && size == EffectiveSize(Arg(before, pages, r.context, r.args, 4))
    ensures MemoryFrame(r, pages, before, after)
  {
    hide Apply, Cell, Arg;
    var ws := CopyWrites(pages, r.context, ptr, bytes);
    forall cell | 0 <= cell < RAM_SIZE && !BehindReach(r, pages, before, cell)
      ensures after[cell] == before[cell]
    {
      forall i | 0 <= i < |ws|
        ensures ws[i].cell != cell
      {
        assert Wrap(ptr, i) == ptr + i;
        assert InReach(r, pages, before, ptr + i);
      }
      ApplyMisses(before, ws, cell);
    }
  }

  lemma SameMemory(r: Request, pages: PageMap, m: Ram)
    requires ValidPages(pages) && r.context < CONTEXTS
    ensures MemoryFrame(r, pages, m, m)
  {
  }

  lemma NothingAllowed(r: Request, pages: PageMap, s: Snapshot)
    requires ValidPages(pages) && r.context < CONTEXTS && r.pid < |s.slots|
    ensures Allowed(r, pages, s, NO_FILES)
  {
  }

  lemma OwnFileAllowed(r: Request, pages: PageMap, s: Snapshot)
    requires ValidPages(pages) && r.context < CONTEXTS && r.pid < |s.slots|
    requires r.op in POSITIONED && r.low < |s.files| && s.files[r.low].inUse
    ensures Allowed(r, pages, s, Footprint(s.files[r.low].device, {s.files[r.low].path}, false))
  {
  }

  /** The footprint of one named file. */
  ghost function NamedFile(t: Target): Footprint {
    if t.device < DEVICES then Footprint(t.device, {FatText(t.device, t.path)}, false) else NO_FILES
  }

  lemma NamedFileAllowed(r: Request, pages: PageMap, s: Snapshot, t: Target)
    requires ValidPages(pages) && r.context < CONTEXTS && r.pid < |s.slots|
    requires r.op !in POSITIONED && Requested(r, pages, s, t)
    ensures Allowed(r, pages, s, NamedFile(t))
  {
    hide FatText, Requested;
    if t.device < DEVICES {
      assert AskedName(r, pages, s, t.device, FatText(t.device, t.path));
    }
  }

  lemma NamedFileFrame(s: Snapshot, s': Snapshot, t: Target)
    requires |s.mounted| == DEVICES && OneDrive(s.disks, s'.disks, t.device)
    requires t.device < DEVICES && s.mounted[t.device] ==>
               s'.disks[t.device] - {FatText(t.device, t.path)} == s.disks[t.device] - {FatText(t.device, t.path)}
    ensures DiskFrame(s, s', NamedFile(t))
  {
    hide FatText;
    if t.device < DEVICES && s.mounted[t.device] {
      var path := FatText(t.device, t.path);
      assert OnlyFileChanges(s.disks, s'.disks, t.device, path);
      FileFrame(s, s', t.device, path);
    }
  }

  lemma OpenedOnly(s: Snapshot, s': Snapshot, t: Target, mode: OpenMode, ok: bool)
    requires |s.mounted| == |s.disks| == |s'.disks| == DEVICES
    requires OpenEffect(s.mounted, s.disks, s'.disks, t, mode, ok)
    ensures t.device < DEVICES && s.mounted[t.device] ==>
              s'.disks[t.device] - {FatText(t.device, t.path)} == s.disks[t.device] - {FatText(t.device, t.path)}
  {
  }

  lemma MountedSame(s: Snapshot, s': Snapshot, device: u8)
    requires |s.mounted| == DEVICES && OneDrive(s.disks, s'.disks, device)
    requires device < DEVICES && s.mounted[device] ==> s'.disks[device] == s.disks[device]
    ensures DiskFrame(s, s', NO_FILES)
  {
  }

  /** The footprint of a renaming. */
  ghost function NamedFiles(t: Target, u: Target): Footprint
    requires t.device < DEVICES
  {
    Footprint(t.device, {FatText(t.device, t.path), FatText(t.device, u.path)}, true)
  }

  lemma RenameFrame(s: Snapshot, s': Snapshot, t: Target, u: Target)
    requires |s.mounted| == DEVICES && t.device < DEVICES && OneDrive(s.disks, s'.disks, t.device)
    requires s.mounted[t.device] ==>
               Moved(s.disks[t.device], s'.disks[t.device], FatText(t.device, t.path), FatText(t.device, u.path))
    ensures DiskFrame(s, s', NamedFiles(t, u))
  {
    hide FatText;
    var from, to, foot := FatText(t.device, t.path), FatText(t.device, u.path), NamedFiles(t, u);
    assert from in foot.names && to in foot.names;
    assert forall p: string | !Includes(foot, p) :: !Under(p, from) && !Under(p, to);
  }

  lemma RenameAllowed(r: Request, pages: PageMap, s: Snapshot, t: Target, u: Target)
    requires ValidPages(pages) && r.context < CONTEXTS && r.pid < |s.slots|
    requires r.op == OP_RENAME && t.device < DEVICES && t.device == u.device
    requires AsksToRename(s.ram, pages, r.context, r.pid, s.slots[r.pid], r.args, t, u)
    ensures Allowed(r, pages, s, NamedFiles(t, u))
  {
    hide FatText, AsksToRename;
    assert RenameNames(s.ram, pages, r.context, r.pid, s.slots[r.pid], r.args, t, u);
    assert RenameNames(s.ram, pages, r.context, r.pid, s.slots[r.pid], r.args, u, t);
    assert Requested(r, pages, s, t) && Requested(r, pages, s, u);
    assert AskedName(r, pages, s, t.device, FatText(t.device, t.path));
    assert AskedName(r, pages, s, t.device, FatText(t.device, u.path));
  }

  lemma NothingMoved(pages: PageMap, c: nat, before: Ram, after: Ram, address: u16, file: File)
    requires ValidPages(pages) && c < CONTEXTS && Wrote(pages, c, before, after, address, file[..0])
    ensures after == before
  {
    assert file[..0] == [];
    ApplyNothing(before);
  }

  lemma SavedFrame(s: Snapshot, s': Snapshot, t: Target)
    requires |s.mounted| == DEVICES && OneDrive(s.disks, s'.disks, t.device)
    requires t.device < DEVICES && s.mounted[t.device] ==>
               OnlyFileChanges(s.disks, s'.disks, t.device, FatText(t.device, t.path))
    ensures DiskFrame(s, s', NamedFile(t))
  {
    hide FatText;
    if t.device < DEVICES && s.mounted[t.device] {
      FileFrame(s, s', t.device, FatText(t.device, t.path));
    }
  }

  lemma SameBusRefl(b: Bus)
    ensures SameBus(b, b)
  {
  }

  /** READ delivers into the caller's private memory and touches no drive. */
  method ServeRead(e: Executor, r: Request) returns (reply: Reply)
    requires e.Valid() && r.pid < MAX_PROCS && r.context < MAX_BRACKET_CONTEXTS
    requires r.op == OP_READ
    modifies e.machine, e.machine.ram, e.store.files, e.store.fat
    ensures e.Valid() && SameBus(old(e.machine.BusState()), e.machine.BusState())
    ensures Framed(r, e.machine.pages, old(Snap(e)), Snap(e), NO_FILES, reply)
    ensures Legal(r, e.machine.pages, old(Snap(e)), Snap(e))
            && ReadAnswer(r, e.machine.pages, old(Snap(e)), Snap(e), reply)
  {
    hide Settled, SameBus, OnlyPrivate, Store.HandlesOk, Store.DevicesOk, DiskFrame, Allowed;
    hide MemoryFrame, TableFrame, MountFrame, Refused, Later, Wrote, SameButPosition, ReadAsAsked, Store.FileOf;
    ghost var s, pages := Snap(e), e.machine.pages;
    SnapIsShaped(e);
    NoCall(s.calls);
    reply := e.ExecRead(r.context, r.args, r.low);
    PositionTables(r, s, Snap(e), reply);
    SnapIsShaped(e);
    KeptMounts(r, s, Snap(e));
    PrivateFrame(r, pages, s.ram, e.machine.Ram());
    NothingAllowed(r, pages, s);
    SameDiskFrame(s, Snap(e), NO_FILES);
  }

  /** WRITE changes at most the file of its handle. */
  method ServeWrite(e: Executor, r: Request) returns (reply: Reply, ghost foot: Footprint)
    requires e.Valid() && r.pid < MAX_PROCS && r.context < MAX_BRACKET_CONTEXTS
    requires r.op == OP_WRITE
    modifies e.machine, e.store.files, e.store.disks, e.store.fat
    ensures e.Valid() && SameBus(old(e.machine.BusState()), e.machine.BusState())
    ensures Framed(r, e.machine.pages, old(Snap(e)), Snap(e), foot, reply)
    ensures Legal(r, e.machine.pages, old(Snap(e)), Snap(e))
            && WriteAnswer(r, e.machine.pages, old(Snap(e)), Snap(e), reply)
  {
    hide Settled, SameBus, OnlyPrivate, Store.HandlesOk, Store.DevicesOk, DiskFrame, Allowed;
    hide MemoryFrame, TableFrame, MountFrame, Refused, Later, SameButPosition, WriteAsAsked, OnlyFileChanges;
    hide Overwritten, WrittenAt, Store.FileOf, FileAt;
    ghost var s, pages := Snap(e), e.machine.pages;
    SnapIsShaped(e);
    NoCall(s.calls);
    SameMemory(r, pages, s.ram);
    ghost var w;
    reply, w := e.ExecWrite(r.context, r.args, r.low);
    SnapIsShaped(e);
    PositionTables(r, s, Snap(e), reply);
    KeptMounts(r, s, Snap(e));
    foot := FootOf(r, pages, s, Snap(e), reply);
  }

  /** SEEK changes at most the file of its handle. */
  method ServeSeek(e: Executor, r: Request) returns (reply: Reply, ghost foot: Footprint)
    requires e.Valid() && r.pid < MAX_PROCS && r.context < MAX_BRACKET_CONTEXTS
    requires r.op == OP_SEEK
    modifies e.machine, e.machine.ram, e.store.files, e.store.disks, e.store.fat
    ensures e.Valid() && SameBus(old(e.machine.BusState()), e.machine.BusState())
    ensures Framed(r, e.machine.pages, old(Snap(e)), Snap(e), foot, reply)
    ensures Legal(r, e.machine.pages, old(Snap(e)), Snap(e))
            && SeekAnswer(r, e.machine.pages, old(Snap(e)), Snap(e), reply)
  {
    hide Settled, SameBus, OnlyPrivate, Store.HandlesOk, Store.DevicesOk, DiskFrame, Allowed;
    hide MemoryFrame, TableFrame, MountFrame, Refused, Later, Wrote, SameButPosition, SeekAsAsked, OnlyFileChanges;
    hide Store.FileOf, FileAt;
    ghost var s, pages := Snap(e), e.machine.pages;
    SnapIsShaped(e);
    NoCall(s.calls);
    reply := e.ExecSeek(r.context, r.args, r.low);
    SnapIsShaped(e);
    PositionTables(r, s, Snap(e), reply);
    KeptMounts(r, s, Snap(e));
    PrivateFrame(r, pages, s.ram, e.machine.Ram());
    foot := FootOf(r, pages, s, Snap(e), reply);
  }

  /** What WRITE and SEEK may change: nothing when rejected, else the file of their handle. */
  lemma FootOf(r: Request, pages: PageMap, s: Snapshot, s': Snapshot, reply: Reply) returns (foot: Footprint)
    requires ValidPages(pages) && r.context < CONTEXTS && r.pid < |s.slots| && r.op in POSITIONED
    requires Shaped(s) && Shaped(s')
    requires reply == REJECTED ==> s'.disks == s.disks
    requires reply != REJECTED ==>
               FileOpen(s, r.low) && OnlyFileChanges(s.disks, s'.disks, s.files[r.low].device, s.files[r.low].path)
    ensures DiskFrame(s, s', foot) && Allowed(r, pages, s, foot)
  {
    if reply == REJECTED {
      foot := NO_FILES;
      NothingAllowed(r, pages, s);
      SameDiskFrame(s, s', foot);
    } else {
      foot := Footprint(s.files[r.low].device, {s.files[r.low].path}, false);
      FileFrame(s, s', s.files[r.low].device, s.files[r.low].path);
      OwnFileAllowed(r, pages, s);
    }
  }

  /** TELL writes the position into its block. */
  method ServeTell(e: Executor, r: Request) returns (reply: Reply)
    requires e.Valid() && r.pid < MAX_PROCS && r.context < MAX_BRACKET_CONTEXTS
    requires r.op == OP_TELL
    modifies e.machine, e.machine.ram
    ensures e.Valid() && SameBus(old(e.machine.BusState()), e.machine.BusState())
    ensures Framed(r, e.machine.pages, old(Snap(e)), Snap(e), NO_FILES, reply)
    ensures Legal(r, e.machine.pages, old(Snap(e)), Snap(e))
            && TellAnswer(r, e.machine.pages, old(Snap(e)), Snap(e), reply)
  {
    hide Settled, SameBus, OnlyPrivate, Store.HandlesOk, Store.DevicesOk, DiskFrame, Allowed;
    hide MemoryFrame, TableFrame, MountFrame, Refused, Later, Wrote, Bytes32;
    ghost var s, pages := Snap(e), e.machine.pages;
    SnapIsShaped(e);
    NoCall(s.calls);
    reply := e.ExecTell(r.context, r.args, r.low);
    SameTables(r, s, Snap(e), reply);
    SnapIsShaped(e);
    KeptMounts(r, s, Snap(e));
    PrivateFrame(r, pages, s.ram, e.machine.Ram());
    NothingAllowed(r, pages, s);
    SameDiskFrame(s, Snap(e), NO_FILES);
  }

  /** GETCWD delivers the text of the working directory. */
  method ServeGetCwd(e: Executor, r: Request) returns (reply: Reply)
    requires e.Valid() && r.pid < MAX_PROCS && r.context < MAX_BRACKET_CONTEXTS
    requires r.op == OP_GETCWD
    modifies e.machine, e.machine.ram
    ensures e.Valid() && SameBus(old(e.machine.BusState()), e.machine.BusState())
    ensures Framed(r, e.machine.pages, old(Snap(e)), Snap(e), NO_FILES, reply)
    ensures Legal(r, e.machine.pages, old(Snap(e)), Snap(e))
            && GetCwdAnswer(r, e.machine.pages, old(Snap(e)), Snap(e), reply)
  {
    hide Settled, SameBus, OnlyPrivate, Store.HandlesOk, Store.DevicesOk, DiskFrame, Allowed;
    hide MemoryFrame, TableFrame, MountFrame, Refused, Later, WroteTwice, AsBytes, Qualified;
    ghost var s, pages := Snap(e), e.machine.pages;
    SnapIsShaped(e);
    NoCall(s.calls);
    reply := e.ExecGetCwd(r.pid, r.context, r.args);
    SameTables(r, s, Snap(e), reply);
    SnapIsShaped(e);
    KeptMounts(r, s, Snap(e));
    PrivateFrame(r, pages, s.ram, e.machine.Ram());
    NothingAllowed(r, pages, s);
    SameDiskFrame(s, Snap(e), NO_FILES);
  }

  /** READDIR moves on in its directory. */
  method ServeReadDir(e: Executor, r: Request) returns (reply: Reply)
    requires e.Valid() && r.pid < MAX_PROCS && r.context < MAX_BRACKET_CONTEXTS
    requires r.op == OP_READDIR
    modifies e.machine, e.machine.ram, e.store.dirs, e.store.fat
    ensures e.Valid() && SameBus(old(e.machine.BusState()), e.machine.BusState())
    ensures Framed(r, e.machine.pages, old(Snap(e)), Snap(e), NO_FILES, reply)
    ensures Legal(r, e.machine.pages, old(Snap(e)), Snap(e))
            && ReadDirAnswer(r, e.machine.pages, old(Snap(e)), Snap(e), reply)
  {
    hide Settled, SameBus, OnlyPrivate, Store.HandlesOk, Store.DevicesOk, DiskFrame, Allowed;
    hide MemoryFrame, TableFrame, MountFrame, Refused, Later, Wrote, NextShown, Shown, DirentBytes;
    ghost var s, pages := Snap(e), e.machine.pages;
    SnapIsShaped(e);
    NoCall(s.calls);
    reply := e.ExecReadDir(r.context, r.args, r.low);
    DirTables(r, s, Snap(e), reply);
    SnapIsShaped(e);
    KeptMounts(r, s, Snap(e));
    PrivateFrame(r, pages, s.ram, e.machine.Ram());
    NothingAllowed(r, pages, s);
    SameDiskFrame(s, Snap(e), NO_FILES);
  }

  lemma DirTables(r: Request, s: Snapshot, s': Snapshot, reply: Reply)
    requires r.op == OP_READDIR && s'.files == s.files && s'.slots == s.slots && |s'.dirs| == |s.dirs|
    requires forall i | 0 <= i < |s.dirs| ::
               if i == r.low then SameDir(s.dirs[i], s'.dirs[i]) else s'.dirs[i] == s.dirs[i]
    ensures TableFrame(r, s, s', reply)
  {
  }

  /** STATUS changes nothing. */
  method ServeStatus(e: Executor, r: Request) returns (reply: Reply)
    requires e.Valid() && r.pid < MAX_PROCS && r.context < MAX_BRACKET_CONTEXTS
    requires r.op == OP_STATUS
    ensures e.Valid() && SameBus(old(e.machine.BusState()), e.machine.BusState())
    ensures Framed(r, e.machine.pages, old(Snap(e)), Snap(e), NO_FILES, reply)
    ensures Legal(r, e.machine.pages, old(Snap(e)), Snap(e)) && StatusAnswer(old(Snap(e)), reply)
  {
    hide Settled, SameBus, OnlyPrivate, Store.HandlesOk, Store.DevicesOk, DiskFrame, Allowed;
    hide MemoryFrame, TableFrame, MountFrame, Refused, Later;
    ghost var s, pages := Snap(e), e.machine.pages;
    SnapIsShaped(e);
    NoCall(s.calls);
    reply := ExecStatus(e);
    MountedSums(e.store);
    SameTables(r, s, s, reply);
    SameBusRefl(e.machine.BusState());
    SnapIsShaped(e);
    KeptMounts(r, s, Snap(e));
    SameMemory(r, pages, s.ram);
    NothingAllowed(r, pages, s);
    SameDiskFrame(s, s, NO_FILES);
  }

  lemma MountedSums(s: Store)
    requires s.Valid()
    ensures s.MountedSum(DEVICES, BIT_WEIGHTS) ==
            Bit(s.mounted[0]) + 2 * Bit(s.mounted[1]) + 4 * Bit(s.mounted[2]) + 8 * Bit(s.mounted[3])
    ensures s.MountedSum(DEVICES, UNIT_WEIGHTS) ==
            Bit(s.mounted[0]) + Bit(s.mounted[1]) + Bit(s.mounted[2]) + Bit(s.mounted[3])
  {
    assert forall w: seq<nat> | |w| == DEVICES :: s.MountedSum(0, w) == 0;
    forall w: seq<nat> | w == BIT_WEIGHTS || w == UNIT_WEIGHTS
      ensures s.MountedSum(4, w) == (if s.mounted[0] then w[0] else 0) + (if s.mounted[1] then w[1] else 0) +
                                    (if s.mounted[2] then w[2] else 0) + (if s.mounted[3] then w[3] else 0)
    {
      assert s.MountedSum(1, w) == if s.mounted[0] then w[0] else 0;
      assert s.MountedSum(2, w) == s.MountedSum(1, w) + if s.mounted[1] then w[1] else 0;
      assert s.MountedSum(3, w) == s.MountedSum(2, w) + if s.mounted[2] then w[2] else 0;
    }
  }

  /** CLOSE frees its handle. */
  method ServeClose(e: Executor, r: Request) returns (reply: Reply)
    requires e.Valid() && r.pid < MAX_PROCS && r.context < MAX_BRACKET_CONTEXTS
    requires r.op == OP_CLOSE
    modifies e.store.files, e.store.fat
    ensures e.Valid() && SameBus(old(e.machine.BusState()), e.machine.BusState())
    ensures Framed(r, e.machine.pages, old(Snap(e)), Snap(e), NO_FILES, reply)
    ensures Legal(r, e.machine.pages, old(Snap(e)), Snap(e)) && CloseAnswer(r, old(Snap(e)), Snap(e), reply)
  {
    hide Settled, SameBus, OnlyPrivate, Store.HandlesOk, Store.DevicesOk, DiskFrame, Allowed;
    hide MemoryFrame, TableFrame, MountFrame, Refused, Later;
    ghost var s, pages := Snap(e), e.machine.pages;
    SnapIsShaped(e);
    NoCall(s.calls);
    SameBusRefl(e.machine.BusState());
    reply := ExecClose(e, r.low);
    ClosedTables(r, s, Snap(e), reply);
    SnapIsShaped(e);
    KeptMounts(r, s, Snap(e));
    SameMemory(r, pages, s.ram);
    NothingAllowed(r, pages, s);
    SameDiskFrame(s, Snap(e), NO_FILES);
  }

  /** CLOSEDIR frees its handle. */
  method ServeCloseDir(e: Executor, r: Request) returns (reply: Reply)
    requires e.Valid() && r.pid < MAX_PROCS && r.context < MAX_BRACKET_CONTEXTS
    requires r.op == OP_CLOSEDIR
    modifies e.store.dirs, e.store.fat
    ensures e.Valid() && SameBus(old(e.machine.BusState()), e.machine.BusState())
    ensures Framed(r, e.machine.pages, old(Snap(e)), Snap(e), NO_FILES, reply)
    ensures Legal(r, e.machine.pages, old(Snap(e)), Snap(e)) && CloseDirAnswer(r, old(Snap(e)), Snap(e), reply)
  {
    hide Settled, SameBus, OnlyPrivate, Store.HandlesOk, Store.DevicesOk, DiskFrame, Allowed;
    hide MemoryFrame, TableFrame, MountFrame, Refused, Later;
    ghost var s, pages := Snap(e), e.machine.pages;
    SnapIsShaped(e);
    NoCall(s.calls);
    SameBusRefl(e.machine.BusState());
    reply := ExecCloseDir(e, r.low);
    ClosedTables(r, s, Snap(e), reply);
    SnapIsShaped(e);
    KeptMounts(r, s, Snap(e));
    SameMemory(r, pages, s.ram);
    NothingAllowed(r, pages, s);
    SameDiskFrame(s, Snap(e), NO_FILES);
  }

  /** CWD_INIT_ROOT and CWD_CLONE set a working directory. */
  method ServeSetCwd(e: Executor, r: Request) returns (reply: Reply)
    requires e.Valid() && r.pid < MAX_PROCS && r.context < MAX_BRACKET_CONTEXTS
    requires r.op == OP_CWD_INIT_ROOT || r.op == OP_CWD_CLONE
    modifies e.cwd.slots
    ensures e.Valid() && SameBus(old(e.machine.BusState()), e.machine.BusState())
    ensures Framed(r, e.machine.pages, old(Snap(e)), Snap(e), NO_FILES, reply)
    ensures Legal(r, e.machine.pages, old(Snap(e)), Snap(e))
    ensures if r.op == OP_CWD_INIT_ROOT then InitRootAnswer(r, old(Snap(e)), Snap(e), reply)
            else CloneAnswer(r, old(Snap(e)), Snap(e), reply)
  {
    hide Settled, SameBus, OnlyPrivate, Store.HandlesOk, Store.DevicesOk, DiskFrame, Allowed;
    hide MemoryFrame, TableFrame, MountFrame, Refused, Later;
    ghost var s, pages := Snap(e), e.machine.pages;
    SnapIsShaped(e);
    NoCall(s.calls);
    SameBusRefl(e.machine.BusState());
    var ok: bool;
    if r.op == OP_CWD_INIT_ROOT {
      ok := e.cwd.InitRoot(r.low, r.high);
    } else {
      ok := e.cwd.Clone(r.low, r.high);
    }
    reply := if ok then Success(0, 0) else REJECTED;
    DirectoryTables(r, s, Snap(e), reply);
    SnapIsShaped(e);
    KeptMounts(r, s, Snap(e));
    SameMemory(r, pages, s.ram);
    NothingAllowed(r, pages, s);
    SameDiskFrame(s, Snap(e), NO_FILES);
  }

  /** OPEN creates or empties at most the file it names. */
  method ServeOpen(e: Executor, r: Request) returns (reply: Reply, ghost foot: Footprint)
    requires e.Valid() && r.pid < MAX_PROCS && r.context < MAX_BRACKET_CONTEXTS
    requires r.op == OP_OPEN
    modifies e.machine, e.store.mounted, e.store.files, e.store.disks, e.store.fat
    ensures e.Valid() && SameBus(old(e.machine.BusState()), e.machine.BusState())
    ensures Framed(r, e.machine.pages, old(Snap(e)), Snap(e), foot, reply)
    ensures Legal(r, e.machine.pages, old(Snap(e)), Snap(e))
            && OpenAnswer(r, e.machine.pages, old(Snap(e)), Snap(e), reply)
  {
    hide Settled, SameBus, OnlyPrivate, Store.HandlesOk, Store.DevicesOk, DiskFrame, Allowed;
    hide MemoryFrame, TableFrame, MountFrame, Refused, Later,
         FatText, AsksFor, OneDrive, OpenEffect, OpenAsAsked, OpenedAs, ModeOf, Handle, View;
    ghost var s, pages := Snap(e), e.machine.pages;
    SnapIsShaped(e);
    NoCall(s.calls);
    ghost var t;
    reply, t := ExecOpen(e, r.pid, r.context, r.args);
    assert e.Slot(r.pid) == s.slots[r.pid] && e.machine.Ram() == s.ram;
    ghost var s' := Snap(e);
    OpenedTables(r, s, s', reply);
    SnapIsShaped(e);
    KeptMounts(r, s, Snap(e));
    SameMemory(r, pages, s.ram);
    if reply == REJECTED {
      foot := NO_FILES;
      SameDiskFrame(s, s', NO_FILES);
      NothingAllowed(r, pages, s);
    } else {
      foot := NamedFile(t);
      ghost var code := View(s.ram, pages, r.context, r.args + 4);
      OpenedOnly(s, s', t, ModeOf(code), reply.Success?);
      NamedFileFrame(s, s', t);
      NamedFileAllowed(r, pages, s, t);
      if reply.Success? {
        OpenedAsAsked(s, s', reply.value, t, code);
      }
      assert PathAsked(r, pages, s, 5, t);
      OpenAnswerFrom(r, pages, s, s', reply, t);
    }
  }

  lemma OpenAnswerFrom(r: Request, pages: PageMap, s: Snapshot, s': Snapshot, reply: Reply, t: Target)
    requires Legal(r, pages, s, s') && reply != REJECTED && PathAsked(r, pages, s, 5, t)
    requires OpenAsAsked(s'.usb, s'.mounted, reply, t, s.files, s.calls, s'.calls)
    requires reply.Success? ==>
               PrivateRange(r.args, 6) && reply.value < FILES && OpenedAs(s, s', reply.value, t, Byte(r, pages, s, 4))
    ensures OpenAnswer(r, pages, s, s', reply)
  {
    hide PathAsked, OpenAsAsked, OpenedAs;
  }

  lemma OpenedAsAsked(s: Snapshot, s': Snapshot, h: u8, t: Target, code: u8)
    requires Shaped(s) && Shaped(s') && h < FILES && t.device < DEVICES && code <= 4
    requires s'.files[h] == Handle(code, t) && OpenEffect(s.mounted, s.disks, s'.disks, t, ModeOf(code), true)
    requires FatText(t.device, t.path) in s'.disks[t.device]
    requires code == 1 ==> s'.disks[t.device][FatText(t.device, t.path)] == []
    ensures OpenedAs(s, s', h, t, code)
  {
    hide FatText;
  }

  /** DELETE, MKDIR and RMDIR remove at most the file they name. */
  method ServeSinglePath(e: Executor, r: Request) returns (reply: Reply, ghost foot: Footprint)
    requires e.Valid() && r.pid < MAX_PROCS && r.context < MAX_BRACKET_CONTEXTS
    requires r.op in {OP_DELETE, OP_MKDIR, OP_RMDIR}
    modifies e.machine, e.store.mounted, e.store.disks, e.store.fat
    ensures e.Valid() && SameBus(old(e.machine.BusState()), e.machine.BusState())
    ensures Framed(r, e.machine.pages, old(Snap(e)), Snap(e), foot, reply)
    ensures Legal(r, e.machine.pages, old(Snap(e)), Snap(e)) && SinglePathAnswer(
              if r.op == OP_DELETE then PathOp.Delete else if r.op == OP_MKDIR then PathOp.MakeDir
              else PathOp.RemoveDir,
              r, e.machine.pages, old(Snap(e)), Snap(e), reply)
  {
    hide Settled, SameBus, OnlyPrivate, Store.HandlesOk, Store.DevicesOk, DiskFrame, Allowed;
    hide MemoryFrame, TableFrame, MountFrame, Refused, Later,
         FatText, AsksFor, OneDrive, SinglePathAsAsked;
    ghost var s, pages := Snap(e), e.machine.pages;
    SnapIsShaped(e);
    NoCall(s.calls);
    ghost var t;
    var op := if r.op == OP_DELETE then PathOp.Delete else if r.op == OP_MKDIR then PathOp.MakeDir
              else PathOp.RemoveDir;
    reply, t := ExecSinglePath(e, op, r.pid, r.context, r.args);
    assert e.Slot(r.pid) == s.slots[r.pid] && e.machine.Ram() == s.ram;
    ghost var s' := Snap(e);
    SameTables(r, s, s', reply);
    SnapIsShaped(e);
    KeptMounts(r, s, Snap(e));
    SameMemory(r, pages, s.ram);
    foot := if reply.Success? && r.op != OP_MKDIR then NamedFile(t) else NO_FILES;
    if foot == NO_FILES {
      MountedSame(s, s', t.device);
      NothingAllowed(r, pages, s);
    } else {
      NamedFileFrame(s, s', t);
      NamedFileAllowed(r, pages, s, t);
    }
    assert reply != REJECTED ==> PathAsked(r, pages, s, 4, t);
  }

  /** RENAME changes at most what lies at or below the two names. */
  method ServeRename(e: Executor, r: Request) returns (reply: Reply, ghost foot: Footprint)
    requires e.Valid() && r.pid < MAX_PROCS && r.context < MAX_BRACKET_CONTEXTS
    requires r.op == OP_RENAME
    modifies e.machine, e.store.mounted, e.store.disks, e.store.fat
    ensures e.Valid() && SameBus(old(e.machine.BusState()), e.machine.BusState())
    ensures Framed(r, e.machine.pages, old(Snap(e)), Snap(e), foot, reply)
    ensures Legal(r, e.machine.pages, old(Snap(e)), Snap(e))
            && RenameAnswer(r, e.machine.pages, old(Snap(e)), Snap(e), reply)
  {
    hide Settled, SameBus, OnlyPrivate, Store.HandlesOk, Store.DevicesOk, DiskFrame, Allowed;
    hide MemoryFrame, TableFrame, MountFrame, Refused, Later,
         FatText, AsksToRename, OneDrive, Moved, RenameAsAsked;
    ghost var s, pages := Snap(e), e.machine.pages;
    SnapIsShaped(e);
    NoCall(s.calls);
    ghost var t, u;
    reply, t, u := ExecRename(e, r.pid, r.context, r.args);
    assert e.Slot(r.pid) == s.slots[r.pid] && e.machine.Ram() == s.ram;
    ghost var s' := Snap(e);
    SameTables(r, s, s', reply);
    SnapIsShaped(e);
    KeptMounts(r, s, Snap(e));
    SameMemory(r, pages, s.ram);
    foot := if reply.Success? then NamedFiles(t, u) else NO_FILES;
    if reply.Failed? {
      MountedSame(s, s', t.device);
      NothingAllowed(r, pages, s);
    } else {
      SameDevice(s.ram, pages, r.context, r.pid, s.slots[r.pid], r.args, t, u);
      RenameFrame(s, s', t, u);
      RenameAllowed(r, pages, s, t, u);
    }
  }

  /** OPENDIR changes no file. */
  method ServeOpenDir(e: Executor, r: Request) returns (reply: Reply)
    requires e.Valid() && r.pid < MAX_PROCS && r.context < MAX_BRACKET_CONTEXTS
    requires r.op == OP_OPENDIR
    modifies e.machine, e.store.mounted, e.store.dirs, e.store.disks, e.store.fat
    ensures e.Valid() && SameBus(old(e.machine.BusState()), e.machine.BusState())
    ensures Framed(r, e.machine.pages, old(Snap(e)), Snap(e), NO_FILES, reply)
    ensures Legal(r, e.machine.pages, old(Snap(e)), Snap(e))
            && OpenDirAnswer(r, e.machine.pages, old(Snap(e)), Snap(e), reply)
  {
    hide Settled, SameBus, OnlyPrivate, Store.HandlesOk, Store.DevicesOk, DiskFrame, Allowed;
    hide MemoryFrame, TableFrame, MountFrame, Refused, Later,
         AsksFor, OpenDirAsAsked;
    ghost var s, pages := Snap(e), e.machine.pages;
    SnapIsShaped(e);
    NoCall(s.calls);
    ghost var t;
    reply, t := ExecOpenDir(e, r.pid, r.context, r.args);
    assert e.Slot(r.pid) == s.slots[r.pid] && e.machine.Ram() == s.ram;
    ghost var s' := Snap(e);
    OpenedDirTables(r, s, s', reply);
    SnapIsShaped(e);
    KeptMounts(r, s, Snap(e));
    SameMemory(r, pages, s.ram);
    NothingAllowed(r, pages, s);
    SameDiskFrame(s, s', NO_FILES);
    assert reply != REJECTED ==> PathAsked(r, pages, s, 4, t);
  }

  lemma OpenedDirTables(r: Request, s: Snapshot, s': Snapshot, reply: Reply)
    requires r.op == OP_OPENDIR && s'.files == s.files && s'.slots == s.slots && |s'.dirs| == |s.dirs|
    requires reply.Failed? ==> s'.dirs == s.dirs
    requires reply.Success? ==>
               && reply.value < |s.dirs| && !s.dirs[reply.value].inUse
               && forall i | 0 <= i < |s.dirs| && i != reply.value :: s'.dirs[i] == s.dirs[i]
    ensures TableFrame(r, s, s', reply)
  {
  }

  /** CHDIR changes no file. */
  method ServeChdir(e: Executor, r: Request) returns (reply: Reply)
    requires e.Valid() && r.pid < MAX_PROCS && r.context < MAX_BRACKET_CONTEXTS
    requires r.op == OP_CHDIR
    modifies e.machine, e.store.mounted, e.store.dirs, e.store.disks, e.store.fat, e.cwd.slots
    ensures e.Valid() && SameBus(old(e.machine.BusState()), e.machine.BusState())
    ensures Framed(r, e.machine.pages, old(Snap(e)), Snap(e), NO_FILES, reply)
    ensures Legal(r, e.machine.pages, old(Snap(e)), Snap(e))
            && ChdirAnswer(r, e.machine.pages, old(Snap(e)), Snap(e), reply)
  {
    hide Settled, SameBus, OnlyPrivate, Store.HandlesOk, Store.DevicesOk, DiskFrame, Allowed;
    hide MemoryFrame, TableFrame, MountFrame, Refused, Later,
         AsksFor, EnterAsAsked, DirsRestored;
    ghost var s, pages := Snap(e), e.machine.pages;
    SnapIsShaped(e);
    NoCall(s.calls);
    ghost var t;
    assert e.Slot(r.pid) == s.slots[r.pid];
    reply, t := ExecChdir(e, r.pid, r.context, r.args);
    assert e.machine.Ram() == s.ram;
    ghost var s' := Snap(e);
    EnteredTables(r, s, s', reply);
    SnapIsShaped(e);
    KeptMounts(r, s, Snap(e));
    SameMemory(r, pages, s.ram);
    NothingAllowed(r, pages, s);
    SameDiskFrame(s, s', NO_FILES);
    assert reply != REJECTED ==> PathAsked(r, pages, s, 4, t);
  }

  lemma EnteredTables(r: Request, s: Snapshot, s': Snapshot, reply: Reply)
    requires r.op == OP_CHDIR && s'.files == s.files && DirsRestored(s.dirs, s'.dirs) && |s'.slots| == |s.slots|
    requires forall p | 0 <= p < |s.slots| && p != r.pid :: s'.slots[p] == s.slots[p]
    ensures TableFrame(r, s, s', reply)
  {
  }

  /** LOAD changes no file. */
  method ServeLoad(e: Executor, r: Request) returns (reply: Reply)
    requires e.Valid() && r.pid < MAX_PROCS && r.context < MAX_BRACKET_CONTEXTS
    requires r.op == OP_LOAD
    modifies e.machine, e.machine.ram, e.store.mounted, e.store.files, e.store.disks, e.store.fat
    ensures e.Valid() && SameBus(old(e.machine.BusState()), e.machine.BusState())
    ensures Framed(r, e.machine.pages, old(Snap(e)), Snap(e), NO_FILES, reply)
    ensures Legal(r, e.machine.pages, old(Snap(e)), Snap(e))
            && LoadAnswer(r, e.machine.pages, old(Snap(e)), Snap(e), reply)
  {
    hide Settled, SameBus, OnlyPrivate, Store.HandlesOk, Store.DevicesOk, DiskFrame, Allowed;
    hide MemoryFrame, TableFrame, MountFrame, Refused, Later,
         HandlesRestored, Wrote, Asks, FatText, Arg, View, BulkFailsForAReason;
    ghost var s, pages := Snap(e), e.machine.pages;
    SnapIsShaped(e);
    NoCall(s.calls);
    ghost var t;
    reply, t := ExecLoad(e, r.pid, r.context, r.args);
    assert e.Slot(r.pid) == s.slots[r.pid];
    ghost var s' := Snap(e);
    RestoredTables(r, s, s', reply);
    SnapIsShaped(e);
    KeptMounts(r, s, s');
    if t.moved > 0 {
      BulkAskedFor(s.ram, pages, r.context, r.pid, s.slots[r.pid], r.args, t.target, t.ptr, t.size);
    }
    LoadFrame(r, pages, s.ram, s'.ram, t.ptr, t.size, t.file[..t.moved]);
    SameDiskFrame(s, s', NO_FILES);
    NothingAllowed(r, pages, s);
    if reply == REJECTED {
      NothingMoved(pages, r.context, s.ram, s'.ram, t.ptr, t.file);
    }
    if t.found || reply != REJECTED {
      assert BulkAsked(r, pages, s, t.target, t.ptr, t.size);
    }
  }

  /** SAVE changes at most the file it names. */
  method ServeSave(e: Executor, r: Request) returns (reply: Reply, ghost foot: Footprint)
    requires e.Valid() && r.pid < MAX_PROCS && r.context < MAX_BRACKET_CONTEXTS
    requires r.op == OP_SAVE
    modifies e.machine, e.store.mounted, e.store.files, e.store.disks, e.store.fat
    ensures e.Valid() && SameBus(old(e.machine.BusState()), e.machine.BusState())
    ensures Framed(r, e.machine.pages, old(Snap(e)), Snap(e), foot, reply)
    ensures Legal(r, e.machine.pages, old(Snap(e)), Snap(e))
            && SaveAnswer(r, e.machine.pages, old(Snap(e)), Snap(e), reply)
  {
    hide Settled, SameBus, OnlyPrivate, Store.HandlesOk, Store.DevicesOk, DiskFrame, Allowed;
    hide MemoryFrame, TableFrame, MountFrame, Refused, Later,
         HandlesRestored, Asks, OneDrive, FatText, SaveReply, OnlyFileChanges, BulkFailsForAReason;
    ghost var s, pages := Snap(e), e.machine.pages;
    SnapIsShaped(e);
    NoCall(s.calls);
    ghost var t;
    reply, t := ExecSave(e, r.pid, r.context, r.args);
    assert e.Slot(r.pid) == s.slots[r.pid] && e.machine.Ram() == s.ram;
    ghost var s' := Snap(e);
    RestoredTables(r, s, s', reply);
    SnapIsShaped(e);
    KeptMounts(r, s, Snap(e));
    SameMemory(r, pages, s.ram);
    foot := if !t.found && reply == REJECTED then NO_FILES else NamedFile(t.target);
    if foot == NO_FILES {
      MountedSame(s, s', t.target.device);
      NothingAllowed(r, pages, s);
    } else {
      SavedFrame(s, s', t.target);
      NamedFileAllowed(r, pages, s, t.target);
    }
    if t.found || reply != REJECTED {
      assert BulkAsked(r, pages, s, t.target, t.ptr, t.size);
    }
  }

  /** The switch over the operations. */
  method Dispatch(e: Executor, r: Request) returns (reply: Reply, ghost foot: Footprint)
    requires e.Valid() && r.pid < MAX_PROCS && r.context < MAX_BRACKET_CONTEXTS
    modifies e.machine, e.machine.ram, e.store.mounted, e.store.files, e.store.dirs, e.store.disks, e.store.fat,
             e.cwd.slots
    ensures e.Valid() && SameBus(old(e.machine.BusState()), e.machine.BusState())
    ensures Framed(r, e.machine.pages, old(Snap(e)), Snap(e), foot, reply)
    ensures Legal(r, e.machine.pages, old(Snap(e)), Snap(e))
            && Answered(r, e.machine.pages, old(Snap(e)), Snap(e), reply)
  {
    hide Settled, SameBus, Store.HandlesOk, Store.DevicesOk, Framed, Legal;
    hide StatusAnswer, OpenAnswer, ReadAnswer, CloseAnswer, WriteAnswer, LoadAnswer, SaveAnswer, SeekAnswer, TellAnswer;
    hide SinglePathAnswer, RenameAnswer, OpenDirAnswer, ReadDirAnswer, CloseDirAnswer, InitRootAnswer, CloneAnswer,
         ChdirAnswer, GetCwdAnswer;
    foot := NO_FILES;
    match r.op {
      case 0x01 => reply := ServeStatus(e, r);
      case 0x02 => reply, foot := ServeOpen(e, r);
      case 0x03 => reply := ServeRead(e, r);
      case 0x04 => reply := ServeClose(e, r);
      case 0x05 => reply, foot := ServeWrite(e, r);
      case 0x06 => reply := ServeLoad(e, r);
      case 0x07 => reply, foot := ServeSave(e, r);
      case 0x08 => reply, foot := ServeSeek(e, r);
      case 0x09 => reply := ServeTell(e, r);
      case 0x0A => reply, foot := ServeSinglePath(e, r);
      case 0x0B => reply, foot := ServeRename(e, r);
      case 0x0C => reply := ServeOpenDir(e, r);
      case 0x0D => reply := ServeReadDir(e, r);
      case 0x0E => reply := ServeCloseDir(e, r);
      case 0x0F => reply, foot := ServeSinglePath(e, r);
      case 0x10 => reply, foot := ServeSinglePath(e, r);
      case 0x12 => reply := ServeSetCwd(e, r);
      case 0x13 => reply := ServeSetCwd(e, r);
      case 0x14 => reply := ServeChdir(e, r);
      case 0x15 => reply := ServeGetCwd(e, r);
      case _ =>
        reply := REJECTED;
        SameBusRefl(e.machine.BusState());
        NothingServed(e, r);
    }
  }

  lemma NothingServed(e: Executor, r: Request)
    requires e.Valid() && r.pid < MAX_PROCS && r.context < MAX_BRACKET_CONTEXTS
    ensures Framed(r, e.machine.pages, Snap(e), Snap(e), NO_FILES, REJECTED)
    ensures Legal(r, e.machine.pages, Snap(e), Snap(e))
  {
    hide DiskFrame, Allowed, MemoryFrame, TableFrame, MountFrame, Later;
    ghost var s := Snap(e);
    SnapIsShaped(e);
    NoCall(s.calls);
    SameMemory(r, e.machine.pages, s.ram);
    SameTables(r, s, s, REJECTED);
    KeptMounts(r, s, s);
    NothingAllowed(r, e.machine.pages, s);
    SameDiskFrame(s, s, NO_FILES);
  }
}
