/**
 Requests that name a path (rp_fs_mailbox.cpp): the caller's text is copied in, resolved against the
 process's working directory, and handed to the handle tables.
 */
module PathRequests {
  import opened Words
  import opened MmuTable
  import opened SystemBus
  import opened PhysicalMemory
  import opened PathModel
  import opened PathEngine
  import opened FatPaths
  import opened Storage
  import opened CallerMemory
  import opened FsExecutor

  datatype Target = Target(device: u8, path: string)

  /** The caller's argument at `ptr` is a path that resolves to the target. */
  ghost predicate Names(m: Ram, pages: PageMap, c: nat, pid: u8, cwd: Cwd, ptr: u16, limit: nat, fallback: u8,
                        t: Target)
    requires ValidPages(pages) && c < CONTEXTS
  {
    exists text ::
      PathAt(m, pages, c, ptr, limit, text) && Resolve(pid, cwd, fallback, text) == Resolved(t.device, t.path)
  }

  lemma NamesOnce(m: Ram, pages: PageMap, c: nat, pid: u8, cwd: Cwd, ptr: u16, limit: nat, fallback: u8, text: string)
    requires ValidPages(pages) && c < CONTEXTS && PathAt(m, pages, c, ptr, limit, text)
    ensures forall t :: Names(m, pages, c, pid, cwd, ptr, limit, fallback, t) <==>
                        Resolve(pid, cwd, fallback, text) == Resolved(t.device, t.path)
  {
    forall t | Names(m, pages, c, pid, cwd, ptr, limit, fallback, t)
      ensures Resolve(pid, cwd, fallback, text) == Resolved(t.device, t.path)
    {
      var other :| PathAt(m, pages, c, ptr, limit, other)
                   && Resolve(pid, cwd, fallback, other) == Resolved(t.device, t.path);
      PathAtIsUnique(m, pages, c, ptr, limit, text, other);
    }
  }

  /** A text names one target only. */
  lemma OneNameOnly(m: Ram, pages: PageMap, c: nat, pid: u8, cwd: Cwd, ptr: u16, limit: nat, fallback: u8, t: Target)
    requires ValidPages(pages) && c < CONTEXTS && Names(m, pages, c, pid, cwd, ptr, limit, fallback, t)
    ensures forall u :: Names(m, pages, c, pid, cwd, ptr, limit, fallback, u) ==> u == t
  {
    hide Resolve, PathAt;
    var text :| PathAt(m, pages, c, ptr, limit, text)
                && Resolve(pid, cwd, fallback, text) == Resolved(t.device, t.path);
    NamesOnce(m, pages, c, pid, cwd, ptr, limit, fallback, text);
  }

  /** What the storage layer makes of a resolved target: it refuses the root only, where it must be a file. */
  ghost predicate Usable(t: Target) {
    && DeviceValid(t.device) && Acceptable(t.device, t.path, FAT_PATH) && !HasDrive(t.path) && PathValid(t.path)
    && (IsRoot(Logical(t.path)) <==> t.path == "/")
    && (IsRootDirPath(FatText(t.device, t.path)) <==> t.path == "/")
    && Stored(t.device, t.path).path == (if t.path == "/" then "" else t.path)
  }

  lemma NamedIsUsable(m: Ram, pages: PageMap, c: nat, pid: u8, cwd: Cwd, ptr: u16, limit: nat, fallback: u8, t: Target)
    requires ValidPages(pages) && c < CONTEXTS && GoodCwd(cwd)
    requires Names(m, pages, c, pid, cwd, ptr, limit, fallback, t)
    ensures Usable(t)
  {
    hide Resolve, PathAt, Acceptable, FatText, PathValid;
    var text :| PathAt(m, pages, c, ptr, limit, text)
                && Resolve(pid, cwd, fallback, text) == Resolved(t.device, t.path);
    ResolvedFlowsThrough(pid, cwd, fallback, text);
    ResolvedIsStorable(pid, cwd, fallback, text);
    var st := ResolvedIsCanonical(pid, cwd, fallback, text);
    ShownText(st);
  }

  lemma ShownText(st: Stack)
    requires Canonical(st)
    ensures Stored(0, Show(st)).path == (if Show(st) == "/" then "" else Show(st))
  {
    if st != [] {
      CanonicalHasNoSlash(st);
      JoinNotEmpty(st);
      assert st[0][0] in st[0];
    }
  }

  lemma SlotIsGood(e: Executor, pid: u8)
    requires e.Valid()
    ensures GoodCwd(e.Slot(pid))
  {
  }

  /** A call on a path fails with ENOENT on a mounted drive, else with EIO. */
  ghost predicate PathFailure(reply: Reply, mounted: seq<bool>, device: u8)
    requires |mounted| == DEVICES
  {
    reply == Failed(if device < DEVICES && mounted[device] then ERR_ENOENT else ERR_EIO, 0)
  }

  /** rp_fs_mb_resolve_arg_path. */
  method ResolveArgument(e: Executor, pid: u8, c: u8, ptr: u16, limit: u16, fallback: u8) returns (r: Option<Target>)
    requires e.Valid() && c < MAX_BRACKET_CONTEXTS
    modifies e.machine
    ensures e.Valid() && SameBus(old(e.machine.BusState()), e.machine.BusState())
    ensures r.Some? ==>
              && limit <= PATH_MAX
              && Names(e.machine.Ram(), e.machine.pages, c, pid, e.Slot(pid), ptr, limit, fallback, r.value)
              && Usable(r.value)
    ensures r.None? && limit <= PATH_MAX ==>
              forall t :: !Names(e.machine.Ram(), e.machine.pages, c, pid, e.Slot(pid), ptr, limit, fallback, t)
  {
    hide Settled, SameBus, Resolve, Store.HandlesOk, Store.DevicesOk, Usable;
    SlotIsGood(e, pid);
    var text := ReadPath(e.machine, c, ptr, limit, PATH_MAX);
    if text.None? {
      return None;
    }
    var resolved := e.cwd.ResolvePath(pid, fallback, text.value);
    NamesOnce(e.machine.Ram(), e.machine.pages, c, pid, e.Slot(pid), ptr, limit, fallback, text.value);
    if resolved.Resolved? {
      r := Some(Target(resolved.device, resolved.path));
      assert Names(e.machine.Ram(), e.machine.pages, c, pid, e.Slot(pid), ptr, limit, fallback, r.value);
      NamedIsUsable(e.machine.Ram(), e.machine.pages, c, pid, e.Slot(pid), ptr, limit, fallback, r.value);
      return;
    }
    return None;
  }

  /** rp_fs_ready. */
  method Ready(s: Store, device: u8) returns (ready: bool)
    requires s.Valid()
    ensures ready <==> device < DEVICES && s.mounted[device]
  {
    return device < DEVICES && s.mounted[device];
  }

  /** No drive was mounted or written. */
  ghost predicate Untouched(s: Store, mounted: seq<bool>, disks: seq<Disk>)
    requires s.Shape()
    reads s, s.mounted, s.disks
  {
    s.mounted[..] == mounted && s.disks[..] == disks
  }

  /** No drive but one changes. */
  ghost predicate OneDrive(before: seq<Disk>, after: seq<Disk>, device: u8) {
    |before| == |after| == DEVICES && forall d | 0 <= d < DEVICES && d != device :: after[d] == before[d]
  }

  function ModeOf(code: u8): OpenMode
    requires code <= 4
  {
    if code == 0 then ReadOnly
    else if code == 1 then Truncate
    else if code == 2 then WriteExisting
    else if code == 3 then RwExisting
    else RwCreate
  }

  /**
   An argument block with a path at 0, its room at 2, and two bytes at 4 and 5: mode and fallback
   device for OPEN (the fallback is at 5), fallback device and zero for CHDIR (it is at 4).
   */
  ghost predicate AsksFor(m: Ram, pages: PageMap, c: nat, pid: u8, cwd: Cwd, args: u16, fallbackAt: nat, t: Target)
    requires ValidPages(pages) && c < CONTEXTS && fallbackAt < 6
  {
    && PrivateRange(args, 6) && Arg(m, pages, c, args, 2) <= PATH_MAX
    && BytesInOrder(View(m, pages, c, args + 4), View(m, pages, c, args + 5), fallbackAt)
    && Names(m, pages, c, pid, cwd, Arg(m, pages, c, args, 0), Arg(m, pages, c, args, 2),
             View(m, pages, c, args + fallbackAt), t)
  }

  predicate BytesInOrder(b4: u8, b5: u8, fallbackAt: nat) {
    if fallbackAt == 5 then b4 <= 4 && b5 <= 9 else b5 == 0
  }

  lemma AskedOnce(m: Ram, pages: PageMap, c: nat, pid: u8, cwd: Cwd, args: u16, fallbackAt: nat, t: Target, u: Target)
    requires ValidPages(pages) && c < CONTEXTS && fallbackAt < 6
    requires AsksFor(m, pages, c, pid, cwd, args, fallbackAt, t) && AsksFor(m, pages, c, pid, cwd, args, fallbackAt, u)
    ensures t == u
  {
    hide Names;
    OneNameOnly(m, pages, c, pid, cwd, Arg(m, pages, c, args, 0), Arg(m, pages, c, args, 2),
                View(m, pages, c, args + fallbackAt), t);
  }

  /** Reads and checks such a block, and resolves its path. */
  method PathArgs(e: Executor, pid: u8, c: u8, args: u16, fallbackAt: nat) returns (target: Option<Target>, mode: u8)
    requires e.Valid() && c < MAX_BRACKET_CONTEXTS && (fallbackAt == 4 || fallbackAt == 5)
    modifies e.machine
    ensures e.Valid() && SameBus(old(e.machine.BusState()), e.machine.BusState())
    ensures target.Some? ==>
              && PrivateRange(args, 6) && Usable(target.value)
              && AsksFor(e.machine.Ram(), e.machine.pages, c, pid, e.Slot(pid), args, fallbackAt, target.value)
              && mode == View(e.machine.Ram(), e.machine.pages, c, args + 4) && (fallbackAt == 5 ==> mode <= 4)
    ensures target.None? ==>
              forall g :: !AsksFor(e.machine.Ram(), e.machine.pages, c, pid, e.Slot(pid), args, fallbackAt, g)
  {
    hide Settled, SameBus, Resolve, Store.HandlesOk, Store.DevicesOk, Names, Usable;
    mode := 0;
    var raw := e.ReadArgs(c, args, 6);
    if raw.None? || !BytesInOrder(raw.value[4], raw.value[5], fallbackAt) {
      return None, mode;
    }
    mode := raw.value[4];
    ghost var bus := e.machine.BusState();
    target := ResolveArgument(e, pid, c, Word(raw.value, 0), Word(raw.value, 2), raw.value[fallbackAt]);
    SameBusTrans(old(e.machine.BusState()), bus, e.machine.BusState());
  }

  /** On a mounted drive an opening does what f_open does to the one named file; a failed one perhaps nothing. */
  ghost predicate OpenEffect(mounted: seq<bool>, before: seq<Disk>, after: seq<Disk>, t: Target, mode: OpenMode,
                             ok: bool)
    requires |mounted| == |before| == |after| == DEVICES
  {
    t.device < DEVICES && mounted[t.device] ==>
      || after[t.device] == Opened(before[t.device], FatText(t.device, t.path), mode)
      || (!ok && after[t.device] == before[t.device])
  }

  /**
   How OPEN ends: without a free handle with ENOMEM; with the first free handle, FatFs having opened
   the named file; or with a failure, for which there is a reason.
   */
  ghost predicate OpenAsAsked(usb: seq<UsbSlot>, mounted: seq<bool>, reply: Reply, t: Target, files: seq<FileHandle>,
                              before: seq<FatCall>, after: seq<FatCall>)
    requires |usb| == |mounted| == DEVICES && |files| == FILES
  {
    if forall h | 0 <= h < FILES :: files[h].inUse then reply == Failed(ERR_ENOMEM, 0)
    else match reply
      case Success(h, flags) =>
        && h < FILES && (forall i | 0 <= i < h :: files[i].inUse) && !files[h].inUse && flags == t.device
        && t.device <= 9 && !Refused(before, after)
        && Did(before, after, OpenFn, t.device, FatText(t.device, t.path), "")
      case Failed(_, _) =>
        && PathFailure(reply, mounted, t.device)
        && (Missing(usb, t.device) || Refused(before, after) || t.path == "/")
  }

  /** OPEN: a handle that was free now refers to the named file; or no handle changed at all. */
  method ExecOpen(e: Executor, pid: u8, c: u8, args: u16) returns (reply: Reply, ghost t: Target)
    requires e.Valid() && c < MAX_BRACKET_CONTEXTS
    modifies e.machine, e.store.mounted, e.store.files, e.store.disks, e.store.fat
    ensures e.Valid() && SameBus(old(e.machine.BusState()), e.machine.BusState())
    ensures forall d | 0 <= d < DEVICES && old(e.store.mounted[d]) :: e.store.mounted[d]
    ensures reply.Failed? ==> e.store.files[..] == old(e.store.files[..])
    ensures reply != REJECTED ==>
              && AsksFor(e.machine.Ram(), e.machine.pages, c, pid, e.Slot(pid), args, 5, t) && PrivateRange(args, 6)
              && var code := View(e.machine.Ram(), e.machine.pages, c, args + 4);
              && code <= 4 && OneDrive(old(e.store.disks[..]), e.store.disks[..], t.device)
              && OpenEffect(old(e.store.mounted[..]), old(e.store.disks[..]), e.store.disks[..], t, ModeOf(code),
                            reply.Success?)
    ensures reply.Success? ==>
              var h := reply.value;
              && h < FILES && !old(e.store.files[h].inUse) && DeviceValid(t.device) && reply.flags == t.device
              && e.store.files[..] ==
                 old(e.store.files[..])[h := Handle(View(e.machine.Ram(), e.machine.pages, c, args + 4), t)]
              && FatText(t.device, t.path) in e.store.disks[t.device]
              && (View(e.machine.Ram(), e.machine.pages, c, args + 4) == 1 ==>
                    e.store.disks[t.device][FatText(t.device, t.path)] == [])
    ensures reply == REJECTED <==>
              !exists g :: AsksFor(e.machine.Ram(), e.machine.pages, c, pid, e.Slot(pid), args, 5, g)
    ensures Later(old(e.store.fat.calls), e.store.fat.calls)
    ensures reply != REJECTED ==>
              OpenAsAsked(e.store.usb[..], e.store.mounted[..], reply, t, old(e.store.files[..]),
                          old(e.store.fat.calls), e.store.fat.calls)
    ensures reply == REJECTED ==> e.store.fat.calls == old(e.store.fat.calls)
    ensures reply == REJECTED ==> Untouched(e.store, old(e.store.mounted[..]), old(e.store.disks[..]))
  {
    hide Settled, SameBus, AsksFor, Store.HandlesOk, Store.DevicesOk, FatText, OneDrive, OpenEffect, OpenAsAsked;
    hide Usable, Refused, Did, Later;
    NoCall(e.store.fat.calls);
    t := Target(0, "");
    var target, mode := PathArgs(e, pid, c, args, 5);
    if target.None? {
      return REJECTED, t;
    }
    t := target.value;
    reply := OpenTarget(e, target.value, mode);
    assert AsksFor(e.machine.Ram(), e.machine.pages, c, pid, e.Slot(pid), args, 5, t);
  }

  method OpenTarget(e: Executor, t: Target, code: u8) returns (reply: Reply)
    requires e.Valid() && code <= 4 && Usable(t)
    modifies e.store.mounted, e.store.files, e.store.disks, e.store.fat
    ensures e.Valid() && reply != REJECTED
    ensures forall d | 0 <= d < DEVICES && old(e.store.mounted[d]) :: e.store.mounted[d]
    ensures reply.Failed? ==> e.store.files[..] == old(e.store.files[..])
    ensures reply.Success? ==>
              var h := reply.value;
              && h < FILES && !old(e.store.files[h].inUse) && DeviceValid(t.device) && reply.flags == t.device
              && e.store.files[..] == old(e.store.files[..])[h := Handle(code, t)]
              && FatText(t.device, t.path) in e.store.disks[t.device]
              && (code == 1 ==> e.store.disks[t.device][FatText(t.device, t.path)] == [])
    ensures Later(old(e.store.fat.calls), e.store.fat.calls)
    ensures OpenAsAsked(e.store.usb[..], e.store.mounted[..], reply, t, old(e.store.files[..]), old(e.store.fat.calls),
                        e.store.fat.calls)
    ensures OneDrive(old(e.store.disks[..]), e.store.disks[..], t.device)
    ensures OpenEffect(old(e.store.mounted[..]), old(e.store.disks[..]), e.store.disks[..], t, ModeOf(code),
                            reply.Success?)
  {
    hide Settled, Store.HandlesOk, Store.DevicesOk, FatPathValid, FatText, Logical, IsRoot, Acceptable, PathValid;
    hide Refused, Did, Later;
    NoCall(e.store.fat.calls);
    var available := e.store.FreeHandleCount();
    if available == 0 {
      return Failed(ERR_ENOMEM, 0);
    }
    var handle := e.store.Open(t.device, t.path, ModeOf(code));
    if handle.None? {
      var ready := Ready(e.store, t.device);
      return Failed(if ready then ERR_ENOENT else ERR_EIO, 0);
    }
    return Success(handle.value, t.device);
  }

  /** The table entry that opening a target in a mode creates. */
  function Handle(code: u8, t: Target): FileHandle
    requires code <= 4 && t.device <= 9
  {
    FileHandle(true, t.device, ModeReads(ModeOf(code)), ModeWrites(ModeOf(code)), FatText(t.device, t.path), 0)
  }

  /** What the five mode codes mean: 0 reads; 1 empties and writes; 2 writes; 3 and 4 do both; 4 creates, too. */
  lemma OpenModesMean(code: u8, t: Target, disk: Disk)
    requires code <= 4 && t.device <= 9
    ensures var h, path := Handle(code, t), FatText(t.device, t.path);
            var after := Opened(disk, path, ModeOf(code));
            && h.inUse && h.device == t.device && h.path == path && h.pos == 0
            && (h.canRead <==> code == 0 || code == 3 || code == 4) && (h.canWrite <==> code != 0)
            && (code == 1 ==> path in after && after[path] == [])
            && (code == 4 && path !in disk ==> path in after && after[path] == [])
            && ((code == 4 && path in disk) || code == 0 || code == 2 || code == 3 ==> after == disk)
            && forall p: string | p != path :: (p in after <==> p in disk) && (p in disk ==> after[p] == disk[p])
  {
    hide FatText;
  }

  /** No directory handle is opened or closed. */
  ghost predicate DirsRestored(before: seq<DirHandle>, after: seq<DirHandle>) {
    && |before| == |after|
    && forall i | 0 <= i < |before| :: after[i].inUse == before[i].inUse && (before[i].inUse ==> after[i] == before[i])
  }

  /** How CHDIR ends: FatFs having opened and closed the directory, or with a failure that has a reason. */
  ghost predicate EnterAsAsked(usb: seq<UsbSlot>, mounted: seq<bool>, reply: Reply, pid: u8, t: Target,
                               dirs: seq<DirHandle>, before: seq<FatCall>, after: seq<FatCall>)
    requires |usb| == |mounted| == DEVICES && |dirs| == DIRS
  {
    match reply
    case Success(value, flags) =>
      && value == 0 && flags == t.device && t.device <= 9 && !Refused(before, after)
      && Did(before, after, OpendirFn, t.device, FatText(t.device, t.path), "")
    case Failed(_, _) =>
      && (reply == Failed(ERR_EIO, 0) || PathFailure(reply, mounted, t.device))
      && (Missing(usb, t.device) || Refused(before, after) || (forall h | 0 <= h < DIRS :: dirs[h].inUse)
          || |t.path| >= 32 || pid >= 8)
  }

  /** CHDIR: only the caller's own working directory can change, and only to the directory it named. */
  method ExecChdir(e: Executor, pid: u8, c: u8, args: u16) returns (reply: Reply, ghost t: Target)
    requires e.Valid() && c < MAX_BRACKET_CONTEXTS
    modifies e.machine, e.store.mounted, e.store.dirs, e.store.disks, e.store.fat, e.cwd.slots
    ensures e.Valid() && SameBus(old(e.machine.BusState()), e.machine.BusState())
    ensures DirsRestored(old(e.store.dirs[..]), e.store.dirs[..])
    ensures forall d | 0 <= d < DEVICES && old(e.store.mounted[d]) ::
              e.store.mounted[d] && e.store.disks[d] == old(e.store.disks[d])
    ensures reply == REJECTED ==> Untouched(e.store, old(e.store.mounted[..]), old(e.store.disks[..]))
                                  && e.store.dirs[..] == old(e.store.dirs[..])
    ensures reply.Failed? ==> e.cwd.slots[..] == old(e.cwd.slots[..])
    ensures reply.Success? ==>
              && pid < MAX_PROCS && |Stored(t.device, t.path).path| < CWD_MAX
              && e.cwd.slots[..] == old(e.cwd.slots[..])[pid := Stored(t.device, t.path)]
              && reply == Success(0, t.device)
              && Stored(t.device, t.path) == Cwd(true, t.device, if t.path == "/" then "" else t.path)
    ensures Later(old(e.store.fat.calls), e.store.fat.calls)
    ensures reply == REJECTED ==> e.store.fat.calls == old(e.store.fat.calls)
    ensures reply != REJECTED ==>
              && AsksFor(e.machine.Ram(), e.machine.pages, c, pid, old(e.Slot(pid)), args, 4, t)
              && EnterAsAsked(e.store.usb[..], e.store.mounted[..], reply, pid, t, old(e.store.dirs[..]),
                              old(e.store.fat.calls), e.store.fat.calls)
    ensures reply == REJECTED <==>
              !exists g :: AsksFor(e.machine.Ram(), e.machine.pages, c, pid, old(e.Slot(pid)), args, 4, g)
  {
    hide Settled, SameBus, AsksFor, Store.HandlesOk, Store.DevicesOk, EnterAsAsked, Usable, Refused, Did, Later;
    NoCall(e.store.fat.calls);
    t := Target(0, "");
    var target, _ := PathArgs(e, pid, c, args, 4);
    assert e.Slot(pid) == old(e.Slot(pid));
    if target.None? {
      return REJECTED, t;
    }
    t := target.value;
    reply := EnterDirectory(e, pid, target.value);
    assert AsksFor(e.machine.Ram(), e.machine.pages, c, pid, old(e.Slot(pid)), args, 4, t);
  }

  /** The directory must open; then it becomes the working directory if it fits the table. */
  method EnterDirectory(e: Executor, pid: u8, t: Target) returns (reply: Reply)
    requires e.Valid() && Usable(t)
    modifies e.store.mounted, e.store.dirs, e.store.disks, e.store.fat, e.cwd.slots
    ensures e.Valid() && DirsRestored(old(e.store.dirs[..]), e.store.dirs[..]) && reply != REJECTED
    ensures forall d | 0 <= d < DEVICES && old(e.store.mounted[d]) ::
              e.store.mounted[d] && e.store.disks[d] == old(e.store.disks[d])
    ensures Later(old(e.store.fat.calls), e.store.fat.calls)
    ensures EnterAsAsked(e.store.usb[..], e.store.mounted[..], reply, pid, t, old(e.store.dirs[..]),
                         old(e.store.fat.calls), e.store.fat.calls)
    ensures reply.Failed? ==> e.cwd.slots[..] == old(e.cwd.slots[..])
    ensures reply.Success? ==>
              && pid < MAX_PROCS && |Stored(t.device, t.path).path| < CWD_MAX
              && e.cwd.slots[..] == old(e.cwd.slots[..])[pid := Stored(t.device, t.path)]
              && reply == Success(0, t.device)
              && Stored(t.device, t.path) == Cwd(true, t.device, if t.path == "/" then "" else t.path)
  {
    hide Settled, Store.HandlesOk, Store.DevicesOk, Acceptable, PathValid, FatText, IsRoot, IsRootDirPath;
    hide Refused, Did, Later;
    var handle := e.store.OpenDir(t.device, t.path);
    if handle.None? {
      var ready := Ready(e.store, t.device);
      return Failed(if ready then ERR_ENOENT else ERR_EIO, 0);
    }
    ghost var calls, call := e.store.fat.calls, FatCall(ClosedirFn, e.store.dirs[handle.value].device, "", "", true);
    var closed := e.store.CloseDir(handle.value);
    OneCall(calls, call.(ok := closed));
    LaterTrans(old(e.store.fat.calls), calls, e.store.fat.calls);
    if !closed {
      return Failed(ERR_EIO, 0);
    }
    var stored := e.cwd.Set(pid, t.device, t.path);
    if !stored {
      return Failed(ERR_EIO, 0);
    }
    return Success(0, t.device);
  }

  /** How OPENDIR ends: FatFs having opened the named directory, or with a failure, for which there is a reason. */
  ghost predicate OpenDirAsAsked(usb: seq<UsbSlot>, mounted: seq<bool>, reply: Reply, t: Target, dirs: seq<DirHandle>,
                                 before: seq<FatCall>, after: seq<FatCall>)
    requires |usb| == |mounted| == DEVICES && |dirs| == DIRS
  {
    match reply
    case Success(_, flags) =>
      && flags == t.device && t.device <= 9 && !Refused(before, after)
      && Did(before, after, OpendirFn, t.device, FatText(t.device, t.path), "")
    case Failed(_, _) =>
      && PathFailure(reply, mounted, t.device)
      && (Missing(usb, t.device) || Refused(before, after) || forall h | 0 <= h < DIRS :: dirs[h].inUse)
  }

  /** OPENDIR: a directory handle that was free now refers to the named directory; or none changed. */
  method ExecOpenDir(e: Executor, pid: u8, c: u8, args: u16) returns (reply: Reply, ghost t: Target)
    requires e.Valid() && c < MAX_BRACKET_CONTEXTS
    modifies e.machine, e.store.mounted, e.store.dirs, e.store.disks, e.store.fat
    ensures e.Valid() && SameBus(old(e.machine.BusState()), e.machine.BusState())
    ensures forall d | 0 <= d < DEVICES && old(e.store.mounted[d]) ::
              e.store.mounted[d] && e.store.disks[d] == old(e.store.disks[d])
    ensures reply == REJECTED ==> Untouched(e.store, old(e.store.mounted[..]), old(e.store.disks[..]))
    ensures Later(old(e.store.fat.calls), e.store.fat.calls)
    ensures reply == REJECTED ==> e.store.fat.calls == old(e.store.fat.calls)
    ensures reply != REJECTED ==>
              OpenDirAsAsked(e.store.usb[..], e.store.mounted[..], reply, t, old(e.store.dirs[..]),
                             old(e.store.fat.calls), e.store.fat.calls)
    ensures reply == REJECTED <==>
              !exists g :: AsksFor(e.machine.Ram(), e.machine.pages, c, pid, e.Slot(pid), args, 4, g)
    ensures reply != REJECTED ==> AsksFor(e.machine.Ram(), e.machine.pages, c, pid, e.Slot(pid), args, 4, t)
    ensures reply.Failed? ==> e.store.dirs[..] == old(e.store.dirs[..])
    ensures reply.Success? ==>
              var h := reply.value;
              && h < DIRS && (forall i | 0 <= i < h :: old(e.store.dirs[i].inUse))
              && !old(e.store.dirs[h].inUse) && e.store.dirs[h].inUse
              && e.store.dirs[h].device == t.device == reply.flags
              && forall i | 0 <= i < DIRS && i != h :: e.store.dirs[i] == old(e.store.dirs[i])
  {
    hide Settled, SameBus, AsksFor, Store.HandlesOk, Store.DevicesOk, Acceptable, PathValid, FatText, IsRoot;
    hide IsRootDirPath;
    hide Refused, Did, Later;
    NoCall(e.store.fat.calls);
    t := Target(0, "");
    var target, _ := PathArgs(e, pid, c, args, 4);
    if target.None? {
      return REJECTED, t;
    }
    t := target.value;
    var handle := e.store.OpenDir(target.value.device, target.value.path);
    if handle.None? {
      var ready := Ready(e.store, target.value.device);
      reply := Failed(if ready then ERR_ENOENT else ERR_EIO, 0);
    } else {
      reply := Success(handle.value, target.value.device);
    }
    assert AsksFor(e.machine.Ram(), e.machine.pages, c, pid, e.Slot(pid), args, 4, t);
  }

  datatype PathOp = Delete | MakeDir | RemoveDir

  /** The FatFs function behind an operation. */
  function FatFnOf(op: PathOp): FatFn {
    if op == MakeDir then MkdirFn else UnlinkFn
  }

  /** What a successful operation leaves of a mounted drive. */
  function After(op: PathOp, disk: Disk, t: Target): Disk
    requires t.device <= 9
  {
    if op == MakeDir then disk else disk - {FatText(t.device, t.path)}
  }

  method ChangePath(s: Store, op: PathOp, t: Target) returns (ok: bool)
    requires s.Valid() && Usable(t)
    modifies s.mounted, s.disks, s.fat
    ensures s.Valid() && (ok ==> DeviceValid(t.device))
    ensures forall d | 0 <= d < DEVICES && old(s.mounted[d]) :: s.mounted[d]
    ensures Later(old(s.fat.calls), s.fat.calls)
    ensures if ok then
              && !Refused(old(s.fat.calls), s.fat.calls)
              && Did(old(s.fat.calls), s.fat.calls, FatFnOf(op), t.device, FatText(t.device, t.path), "")
              && (op != MakeDir ==> FatText(t.device, t.path) !in s.disks[t.device])
            else s.Absent(t.device) || Refused(old(s.fat.calls), s.fat.calls) || t.path == "/"
    ensures OneDrive(old(s.disks[..]), s.disks[..], t.device)
    ensures t.device < DEVICES && old(s.mounted[t.device]) ==>
              s.disks[t.device] == if ok then After(op, old(s.disks[t.device]), t) else old(s.disks[t.device])
  {
    hide Store.HandlesOk, Store.DevicesOk, Acceptable, FatText, IsRootDirPath, IsRoot, Logical;
    hide Refused, Did, Later, PathValid;
    match op {
      case Delete => ok := s.Delete(t.device, t.path);
      case MakeDir => ok := s.MakeDir(t.device, t.path);
      case RemoveDir => ok := s.RemoveDir(t.device, t.path);
    }
  }

  /** How they end: FatFs having unlinked or made the named path, or with a failure, for which there is a reason. */
  ghost predicate SinglePathAsAsked(usb: seq<UsbSlot>, mounted: seq<bool>, disks: seq<Disk>, op: PathOp, reply: Reply,
                                    t: Target, before: seq<FatCall>, after: seq<FatCall>)
    requires |usb| == |mounted| == |disks| == DEVICES
  {
    match reply
    case Success(value, flags) =>
      && value == 0 && flags == t.device && t.device < DEVICES && !Refused(before, after)
      && Did(before, after, FatFnOf(op), t.device, FatText(t.device, t.path), "")
      && (op != MakeDir ==> FatText(t.device, t.path) !in disks[t.device])
    case Failed(_, _) =>
      && PathFailure(reply, mounted, t.device)
      && (Missing(usb, t.device) || Refused(before, after) || t.path == "/")
  }

  /** DELETE, MKDIR and RMDIR: at most the named file goes from its drive; a failure changes no mounted drive. */
  method ExecSinglePath(e: Executor, op: PathOp, pid: u8, c: u8, args: u16) returns (reply: Reply, ghost t: Target)
    requires e.Valid() && c < MAX_BRACKET_CONTEXTS
    modifies e.machine, e.store.mounted, e.store.disks, e.store.fat
    ensures e.Valid() && SameBus(old(e.machine.BusState()), e.machine.BusState())
    ensures forall d | 0 <= d < DEVICES && old(e.store.mounted[d]) :: e.store.mounted[d]
    ensures reply == REJECTED ==> Untouched(e.store, old(e.store.mounted[..]), old(e.store.disks[..]))
    ensures reply == REJECTED <==>
              !exists g :: AsksFor(e.machine.Ram(), e.machine.pages, c, pid, e.Slot(pid), args, 4, g)
    ensures Later(old(e.store.fat.calls), e.store.fat.calls)
    ensures reply == REJECTED ==> e.store.fat.calls == old(e.store.fat.calls)
    ensures reply != REJECTED ==>
              && AsksFor(e.machine.Ram(), e.machine.pages, c, pid, e.Slot(pid), args, 4, t)
              && SinglePathAsAsked(e.store.usb[..], e.store.mounted[..], e.store.disks[..], op, reply, t,
                                   old(e.store.fat.calls), e.store.fat.calls)
    ensures OneDrive(old(e.store.disks[..]), e.store.disks[..], t.device)
    ensures reply.Success? ==>
              && DeviceValid(t.device) && reply == Success(0, t.device)
    ensures t.device < DEVICES && old(e.store.mounted[t.device]) ==>
              e.store.disks[t.device] ==
              if reply.Success? then After(op, old(e.store.disks[t.device]), t) else old(e.store.disks[t.device])
  {
    hide Settled, SameBus, AsksFor, Store.HandlesOk, Store.DevicesOk, Acceptable, FatText;
    hide IsRootDirPath, IsRoot, Logical, PathValid, Refused, Did, Later;
    NoCall(e.store.fat.calls);
    t := Target(0, "");
    var target, _ := PathArgs(e, pid, c, args, 4);
    if target.None? {
      return REJECTED, t;
    }
    t := target.value;
    var ok := ChangePath(e.store, op, target.value);
    if ok {
      reply := Success(0, target.value.device);
    } else {
      var ready := Ready(e.store, target.value.device);
      reply := Failed(if ready then ERR_ENOENT else ERR_EIO, 0);
    }
    assert AsksFor(e.machine.Ram(), e.machine.pages, c, pid, e.Slot(pid), args, 4, t);
  }

  /** An argument block with two paths that resolve to the same drive. */
  ghost predicate AsksToRename(m: Ram, pages: PageMap, c: nat, pid: u8, cwd: Cwd, args: u16, t: Target, u: Target)
    requires ValidPages(pages) && c < CONTEXTS
  {
    && PrivateRange(args, 8) && View(m, pages, c, args + 7) == 0 && t.device == u.device
    && Arg(m, pages, c, args, 4) <= PATH_MAX
    && Names(m, pages, c, pid, cwd, Arg(m, pages, c, args, 0), Arg(m, pages, c, args, 4),
             View(m, pages, c, args + 6), t)
    && Names(m, pages, c, pid, cwd, Arg(m, pages, c, args, 2), Arg(m, pages, c, args, 4),
             View(m, pages, c, args + 6), u)
  }

  method RenameArgs(e: Executor, pid: u8, c: u8, args: u16) returns (from: Option<Target>, to: Option<Target>)
    requires e.Valid() && c < MAX_BRACKET_CONTEXTS
    modifies e.machine
    ensures e.Valid() && SameBus(old(e.machine.BusState()), e.machine.BusState())
    ensures from.Some? <==> to.Some?
    ensures from.Some? ==>
              && AsksToRename(e.machine.Ram(), e.machine.pages, c, pid, e.Slot(pid), args, from.value, to.value)
              && Usable(from.value) && Usable(to.value)
    ensures from.None? ==>
              forall g, u :: !AsksToRename(e.machine.Ram(), e.machine.pages, c, pid, e.Slot(pid), args, g, u)
  {
    hide Settled, SameBus, Resolve, Store.HandlesOk, Store.DevicesOk, PathAt, Usable;
    var raw := e.ReadArgs(c, args, 8);
    if raw.None? || raw.value[7] != 0 {
      return None, None;
    }
    ghost var bus := e.machine.BusState();
    from := ResolveArgument(e, pid, c, Word(raw.value, 0), Word(raw.value, 4), raw.value[6]);
    SameBusTrans(old(e.machine.BusState()), bus, e.machine.BusState());
    if from.None? {
      return None, None;
    }
    bus := e.machine.BusState();
    to := ResolveArgument(e, pid, c, Word(raw.value, 2), Word(raw.value, 4), raw.value[6]);
    SameBusTrans(old(e.machine.BusState()), bus, e.machine.BusState());
    if to.None? || from.value.device != to.value.device {
      OneNameOnly(e.machine.Ram(), e.machine.pages, c, pid, e.Slot(pid), Word(raw.value, 0), Word(raw.value, 4),
                  raw.value[6], from.value);
      if to.Some? {
        OneNameOnly(e.machine.Ram(), e.machine.pages, c, pid, e.Slot(pid), Word(raw.value, 2), Word(raw.value, 4),
                    raw.value[6], to.value);
      }
      return None, None;
    }
  }

  /** How RENAME ends: FatFs having renamed the one path to the other, or with a failure that has a reason. */
  ghost predicate RenameAsAsked(usb: seq<UsbSlot>, mounted: seq<bool>, reply: Reply, t: Target, u: Target,
                                before: seq<FatCall>, after: seq<FatCall>)
    requires |usb| == |mounted| == DEVICES
  {
    match reply
    case Success(value, flags) =>
      && value == 0 && flags == t.device && t.device <= 9 && !Refused(before, after)
      && Did(before, after, RenameFn, t.device, FatText(t.device, t.path), FatText(t.device, u.path))
    case Failed(_, _) =>
      && PathFailure(reply, mounted, t.device)
      && (Missing(usb, t.device) || Refused(before, after) || t.path == "/" || u.path == "/")
  }

  /** RENAME: a file moves with its bytes, and nothing but the two names and what lies below them changes. */
  method ExecRename(e: Executor, pid: u8, c: u8, args: u16) returns (reply: Reply, ghost t: Target, ghost u: Target)
    requires e.Valid() && c < MAX_BRACKET_CONTEXTS
    modifies e.machine, e.store.mounted, e.store.disks, e.store.fat
    ensures e.Valid() && SameBus(old(e.machine.BusState()), e.machine.BusState())
    ensures forall d | 0 <= d < DEVICES && old(e.store.mounted[d]) :: e.store.mounted[d]
    ensures reply == REJECTED ==> Untouched(e.store, old(e.store.mounted[..]), old(e.store.disks[..]))
    ensures reply == REJECTED <==>
              !exists g, k :: AsksToRename(e.machine.Ram(), e.machine.pages, c, pid, e.Slot(pid), args, g, k)
    ensures Later(old(e.store.fat.calls), e.store.fat.calls)
    ensures reply == REJECTED ==> e.store.fat.calls == old(e.store.fat.calls)
    ensures reply != REJECTED ==>
              && AsksToRename(e.machine.Ram(), e.machine.pages, c, pid, e.Slot(pid), args, t, u)
              && RenameAsAsked(e.store.usb[..], e.store.mounted[..], reply, t, u, old(e.store.fat.calls),
                               e.store.fat.calls)
    ensures OneDrive(old(e.store.disks[..]), e.store.disks[..], t.device)
    ensures reply.Success? ==>
              && DeviceValid(t.device) && reply == Success(0, t.device)
    ensures t.device < DEVICES && old(e.store.mounted[t.device]) ==>
              if reply.Success? then
                Moved(old(e.store.disks[t.device]), e.store.disks[t.device],
                      FatText(t.device, t.path), FatText(t.device, u.path))
              else e.store.disks[t.device] == old(e.store.disks[t.device])
  {
    hide Settled, SameBus, AsksToRename, Store.HandlesOk, Store.DevicesOk, Acceptable, FatText, IsRoot, Logical, Moved;
    hide PathValid, IsRootDirPath, Refused, Did, Later;
    NoCall(e.store.fat.calls);
    t, u := Target(0, ""), Target(0, "");
    var from, to := RenameArgs(e, pid, c, args);
    if from.None? {
      return REJECTED, t, u;
    }
    t, u := from.value, to.value;
    SameDevice(e.machine.Ram(), e.machine.pages, c, pid, e.Slot(pid), args, t, u);
    var ok := e.store.Rename(from.value.device, from.value.path, to.value.path);
    if ok {
      reply := Success(0, from.value.device);
    } else {
      var ready := Ready(e.store, from.value.device);
      reply := Failed(if ready then ERR_ENOENT else ERR_EIO, 0);
    }
    assert AsksToRename(e.machine.Ram(), e.machine.pages, c, pid, e.Slot(pid), args, t, u);
  }

  lemma SameDevice(m: Ram, pages: PageMap, c: nat, pid: u8, cwd: Cwd, args: u16, t: Target, u: Target)
    requires ValidPages(pages) && c < CONTEXTS && AsksToRename(m, pages, c, pid, cwd, args, t, u)
    ensures t.device == u.device
  {
  }
}
