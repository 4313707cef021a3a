/**
 What the filesystem operations answer (rp_fs_mailbox.cpp), over the request's own argument block and
 the state before and after: when an operation is rejected, what a success did, and for what reason
 anything else fails. A server that refuses what it should serve does not meet it.
 */
module FsRequests {
  import opened Words
  import opened MmuTable
  import opened PhysicalMemory
  import opened PathModel
  import opened FatPaths
  import opened CallerMemory
  import opened Storage
  import opened FsExecutor
  import opened PathRequests
  import opened BulkTransfer

  const OP_STATUS: u8 := 0x01
  const OP_OPEN: u8 := 0x02
  const OP_READ: u8 := 0x03
  const OP_CLOSE: u8 := 0x04
  const OP_WRITE: u8 := 0x05
  const OP_LOAD: u8 := 0x06
  const OP_SAVE: u8 := 0x07
  const OP_SEEK: u8 := 0x08
  const OP_TELL: u8 := 0x09
  const OP_DELETE: u8 := 0x0A
  const OP_RENAME: u8 := 0x0B
  const OP_OPENDIR: u8 := 0x0C
  const OP_READDIR: u8 := 0x0D
  const OP_CLOSEDIR: u8 := 0x0E
  const OP_MKDIR: u8 := 0x0F
  const OP_RMDIR: u8 := 0x10
  const OP_CWD_INIT_ROOT: u8 := 0x12
  const OP_CWD_CLONE: u8 := 0x13
  const OP_CHDIR: u8 := 0x14
  const OP_GETCWD: u8 := 0x15

  /** What a request says. */
  datatype Request = Request(op: u8, pid: u8, context: u8, args: u16, low: u8, high: u8)

  /** Everything a request handler can look at or change, apart from the bus. */
  datatype Snapshot = Snapshot(ram: Ram, usb: seq<UsbSlot>, mounted: seq<bool>, files: seq<FileHandle>,
                               dirs: seq<DirHandle>, disks: seq<Disk>, calls: seq<FatCall>, slots: seq<Cwd>)

  ghost function Snap(e: Executor): Snapshot
    requires e.machine.Valid()
    reads e.machine, e.machine.ram, e.store.usb, e.store.mounted, e.store.files, e.store.dirs, e.store.disks,
          e.store.fat, e.cwd.slots
  {
    Snapshot(e.machine.Ram(), e.store.usb[..], e.store.mounted[..], e.store.files[..], e.store.dirs[..],
             e.store.disks[..], e.store.fat.calls, e.cwd.slots[..])
  }

  /** The tables have their sizes, and open handles are on drives that exist. */
  ghost predicate Shaped(s: Snapshot) {
    && |s.usb| == |s.mounted| == |s.disks| == DEVICES && |s.files| == FILES && |s.dirs| == DIRS
    && |s.slots| == MAX_PROCS
    && (forall h | 0 <= h < FILES && s.files[h].inUse :: s.files[h].device < DEVICES)
    && (forall h | 0 <= h < DIRS && s.dirs[h].inUse :: s.dirs[h].device < DEVICES)
    && (forall p | 0 <= p < MAX_PROCS :: s.slots[p].device <= 9)
  }

  lemma SnapIsShaped(e: Executor)
    requires e.Valid()
    ensures Shaped(Snap(e))
    ensures forall h: u8 | e.store.IsFile(h) :: e.store.FileOf(h) == FileAt(Snap(e), h)
  {
  }

  ghost predicate FileOpen(s: Snapshot, h: u8) {
    h < |s.files| && s.files[h].inUse
  }

  ghost predicate DirOpen(s: Snapshot, h: u8) {
    h < |s.dirs| && s.dirs[h].inUse
  }

  /** The bytes of the file behind an open handle. */
  ghost function FileAt(s: Snapshot, h: u8): File
    requires Shaped(s) && FileOpen(s, h)
  {
    Bytes(s.disks[s.files[h].device], s.files[h].path)
  }

  /** A legal request, and the states around it. */
  ghost predicate Legal(r: Request, pages: PageMap, s: Snapshot, s': Snapshot) {
    ValidPages(pages) && r.context < CONTEXTS && r.pid < MAX_PROCS && Shaped(s) && Shaped(s')
  }

  /** A 16-bit field of the request's argument block. */
  ghost function Field(r: Request, pages: PageMap, s: Snapshot, k: nat): u16
    requires ValidPages(pages) && r.context < CONTEXTS && r.args + k + 1 < ADDRESSES
  {
    Arg(s.ram, pages, r.context, r.args, k)
  }

  ghost function Byte(r: Request, pages: PageMap, s: Snapshot, k: nat): u8
    requires ValidPages(pages) && r.context < CONTEXTS && r.args + k < ADDRESSES
  {
    View(s.ram, pages, r.context, r.args + k)
  }

  // ---------------------------------------------------------------------------
  // Operations on handles
  // ---------------------------------------------------------------------------

  /** READ and WRITE: a block of six, an open file, and a buffer in the private half. */
  ghost predicate TransferAsked(r: Request, pages: PageMap, s: Snapshot)
    requires ValidPages(pages) && r.context < CONTEXTS
  {
    && PrivateRange(r.args, 6) && FileOpen(s, r.low)
    && var ptr, len := Field(r, pages, s, 2), Field(r, pages, s, 4);
       ptr != 0 && (len != 0 ==> PrivateRange(ptr, AtMostChunk(len)))
  }

  ghost predicate ReadAnswer(r: Request, pages: PageMap, s: Snapshot, s': Snapshot, reply: Reply)
    requires Legal(r, pages, s, s')
  {
    && (reply == REJECTED <==> !TransferAsked(r, pages, s))
    && (reply != REJECTED ==>
          var h, file, len := s.files[r.low], FileAt(s, r.low), AtMostChunk(Field(r, pages, s, 4));
          && ReadAsAsked(reply, len, h.canRead, h.pos, |file|, s.calls, s'.calls)
          && (reply.Failed? ==> s'.ram == s.ram)
          && (reply.Success? ==>
                var n := reply.value;
                && n <= len && s'.files[r.low] == h.(pos := s'.files[r.low].pos) && s'.files[r.low].pos == h.pos + n
                && reply.flags == (if h.pos + n >= |file| then FLAG_EOF else 0)
                && (n > 0 ==> h.pos + n <= |file|)
                && Wrote(pages, r.context, s.ram, s'.ram, Field(r, pages, s, 2),
                         if n > 0 then file[h.pos..h.pos + n] else [])))
  }

  ghost predicate WriteAnswer(r: Request, pages: PageMap, s: Snapshot, s': Snapshot, reply: Reply)
    requires Legal(r, pages, s, s')
  {
    && s'.ram == s.ram
    && (reply == REJECTED <==> !TransferAsked(r, pages, s))
    && (reply != REJECTED ==>
          && FileOpen(s', r.low)
          && var h, file, len := s.files[r.low], FileAt(s, r.low), AtMostChunk(Field(r, pages, s, 4));
             var data := MemoryAt(s.ram, pages, r.context, Field(r, pages, s, 2), len);
          && WriteAsAsked(reply, len, h.canWrite, s.calls, s'.calls)
          && exists n: nat | n <= len ::
               && s'.files[r.low].pos == h.pos + n && WrittenAt(file, h.pos, data[..n], FileAt(s', r.low))
               && reply == if reply.Success? then Success(n, 0) else Failed(ERR_EIO, 0))
  }

  /** Where a SEEK wants to go: its mode at 1 and 32 bits of offset at 2. */
  ghost function SeekWanted(r: Request, pages: PageMap, s: Snapshot): Option<int>
    requires ValidPages(pages) && r.context < CONTEXTS && Shaped(s) && PrivateRange(r.args, 10) && FileOpen(s, r.low)
  {
    SeekTarget(Byte(r, pages, s, 1), Field(r, pages, s, 2) + 0x1_0000 * Field(r, pages, s, 4),
               s.files[r.low].pos, |FileAt(s, r.low)|)
  }

  ghost predicate SeekAnswer(r: Request, pages: PageMap, s: Snapshot, s': Snapshot, reply: Reply)
    requires Legal(r, pages, s, s')
  {
    && (reply == REJECTED <==>
          !(PrivateRange(r.args, 10) && FileOpen(s, r.low) && Reachable(SeekWanted(r, pages, s))))
    && (reply != REJECTED ==>
          && FileOpen(s', r.low)
          && SeekAsAsked(reply, SeekWanted(r, pages, s).value, s.files[r.low].canWrite, FileAt(s, r.low),
                         FileAt(s', r.low), s.calls, s'.calls)
          && (reply.Failed? ==> s'.ram == s.ram)
          && (reply.Success? ==>
                && reply == Success(s'.files[r.low].pos, 0)
                && Wrote(pages, r.context, s.ram, s'.ram, r.args + 6, Bytes32(reply.value))))
  }

  ghost predicate TellAnswer(r: Request, pages: PageMap, s: Snapshot, s': Snapshot, reply: Reply)
    requires Legal(r, pages, s, s')
  {
    if PrivateRange(r.args, 6) && FileOpen(s, r.low) then
      && reply == Success(s.files[r.low].pos, 0)
      && Wrote(pages, r.context, s.ram, s'.ram, r.args + 2, Bytes32(s.files[r.low].pos))
    else reply == REJECTED
  }

  ghost predicate CloseAnswer(r: Request, s: Snapshot, s': Snapshot, reply: Reply)
    requires Shaped(s) && Shaped(s')
  {
    if FileOpen(s, r.low) then
      && !FileOpen(s', r.low)
      && reply == if Refused(s.calls, s'.calls) then Failed(ERR_EIO, 0) else Success(0, 0)
    else reply == REJECTED
  }

  ghost predicate CloseDirAnswer(r: Request, s: Snapshot, s': Snapshot, reply: Reply)
    requires Shaped(s) && Shaped(s')
  {
    if DirOpen(s, r.low) then
      && !DirOpen(s', r.low)
      && reply == if Refused(s.calls, s'.calls) then Failed(ERR_EIO, 0) else Success(0, 0)
    else reply == REJECTED
  }

  ghost predicate ReadDirAnswer(r: Request, pages: PageMap, s: Snapshot, s': Snapshot, reply: Reply)
    requires Legal(r, pages, s, s')
  {
    && (reply == REJECTED <==>
          !(PrivateRange(r.args, 6) && DirOpen(s, r.low)
            && Field(r, pages, s, 4) >= DIRENT_SIZE && PrivateRange(Field(r, pages, s, 2), DIRENT_SIZE)))
    && (reply != REJECTED ==>
          var rest := s.dirs[r.low].rest;
          var k := NextShown(rest);
          match reply
          case Success(_, _) =>
            if k < |rest| then
              && reply == Success(1, 0) && s'.dirs[r.low] == s.dirs[r.low].(rest := rest[k + 1..])
              && Wrote(pages, r.context, s.ram, s'.ram, Field(r, pages, s, 2),
                       DirentBytes(Shown(rest[k]).value, rest[k].attr, rest[k].size))
            else reply == Success(0, FLAG_EOF) && s'.ram == s.ram
          case Failed(_, _) =>
            && reply == Failed(ERR_EIO, 0) && s'.ram == s.ram
            && (Refused(s.calls, s'.calls) || (k < |rest| && |Shown(rest[k]).value| >= NAME_ROOM)))
  }

  // ---------------------------------------------------------------------------
  // Operations on paths
  // ---------------------------------------------------------------------------

  /** The block asks for the target: a path at 0, its room at 2, fallback drive at 4 or, for OPEN, 5. */
  ghost predicate PathAsked(r: Request, pages: PageMap, s: Snapshot, fallbackAt: nat, t: Target)
    requires ValidPages(pages) && r.context < CONTEXTS && r.pid < |s.slots| && fallbackAt < 6
  {
    AsksFor(s.ram, pages, r.context, r.pid, s.slots[r.pid], r.args, fallbackAt, t)
  }

  ghost predicate OpenAnswer(r: Request, pages: PageMap, s: Snapshot, s': Snapshot, reply: Reply)
    requires Legal(r, pages, s, s')
  {
    if forall t :: !PathAsked(r, pages, s, 5, t) then reply == REJECTED
    else exists t ::
      && PathAsked(r, pages, s, 5, t) && reply != REJECTED
      && OpenAsAsked(s'.usb, s'.mounted, reply, t, s.files, s.calls, s'.calls)
      && (reply.Success? ==>
            && PrivateRange(r.args, 6) && reply.value < FILES
            && OpenedAs(s, s', reply.value, t, Byte(r, pages, s, 4)))
  }

  /** The handle that OPEN in a mode creates, and what it makes of the file. */
  ghost predicate OpenedAs(s: Snapshot, s': Snapshot, h: u8, t: Target, mode: u8)
    requires Shaped(s) && Shaped(s') && h < FILES
  {
    && t.device < DEVICES && mode <= 4
    && var name := FatText(t.device, t.path);
    && s'.files[h] == FileHandle(true, t.device, mode == 0 || mode >= 3, mode >= 1, name, 0)
    && name in s'.disks[t.device] && (mode == 1 ==> s'.disks[t.device][name] == [])
    && (s.mounted[t.device] ==>
          match mode
          case 1 => s'.disks[t.device] == s.disks[t.device][name := []]
          case 4 => s'.disks[t.device] == if name in s.disks[t.device] then s.disks[t.device]
                                          else s.disks[t.device][name := []]
          case _ => s'.disks[t.device] == s.disks[t.device])
  }

  ghost predicate SinglePathAnswer(op: PathOp, r: Request, pages: PageMap, s: Snapshot, s': Snapshot, reply: Reply)
    requires Legal(r, pages, s, s')
  {
    if forall t :: !PathAsked(r, pages, s, 4, t) then reply == REJECTED
    else exists t ::
      && PathAsked(r, pages, s, 4, t) && reply != REJECTED
      && SinglePathAsAsked(s'.usb, s'.mounted, s'.disks, op, reply, t, s.calls, s'.calls)
      && (t.device < DEVICES && s.mounted[t.device] ==>
            s'.disks[t.device] == if reply.Success? && op != MakeDir
                                  then s.disks[t.device] - {FatText(t.device, t.path)} else s.disks[t.device])
  }

  ghost predicate RenameAnswer(r: Request, pages: PageMap, s: Snapshot, s': Snapshot, reply: Reply)
    requires Legal(r, pages, s, s')
  {
    if forall t, u :: !AsksToRename(s.ram, pages, r.context, r.pid, s.slots[r.pid], r.args, t, u) then reply == REJECTED
    else exists t, u ::
      && AsksToRename(s.ram, pages, r.context, r.pid, s.slots[r.pid], r.args, t, u) && reply != REJECTED
      && RenameAsAsked(s'.usb, s'.mounted, reply, t, u, s.calls, s'.calls)
      && (t.device < DEVICES && s.mounted[t.device] ==>
            if reply.Success? then
              Moved(s.disks[t.device], s'.disks[t.device], FatText(t.device, t.path), FatText(t.device, u.path))
            else s'.disks[t.device] == s.disks[t.device])
  }

  ghost predicate OpenDirAnswer(r: Request, pages: PageMap, s: Snapshot, s': Snapshot, reply: Reply)
    requires Legal(r, pages, s, s')
  {
    if forall t :: !PathAsked(r, pages, s, 4, t) then reply == REJECTED
    else exists t ::
      && PathAsked(r, pages, s, 4, t) && reply != REJECTED
      && OpenDirAsAsked(s'.usb, s'.mounted, reply, t, s.dirs, s.calls, s'.calls)
      && (reply.Success? ==>
            && reply.value < DIRS && (forall i | 0 <= i < reply.value :: s.dirs[i].inUse)
            && !s.dirs[reply.value].inUse && s'.dirs[reply.value].inUse && s'.dirs[reply.value].device == t.device)
  }

  ghost predicate ChdirAnswer(r: Request, pages: PageMap, s: Snapshot, s': Snapshot, reply: Reply)
    requires Legal(r, pages, s, s')
  {
    if forall t :: !PathAsked(r, pages, s, 4, t) then reply == REJECTED
    else exists t ::
      && PathAsked(r, pages, s, 4, t) && reply != REJECTED
      && EnterAsAsked(s'.usb, s'.mounted, reply, r.pid, t, s.dirs, s.calls, s'.calls)
      && s'.slots == if reply.Success? then s.slots[r.pid := Cwd(true, t.device, if t.path == "/" then "" else t.path)]
                     else s.slots
  }

  // ---------------------------------------------------------------------------
  // LOAD and SAVE
  // ---------------------------------------------------------------------------

  ghost predicate BulkAsked(r: Request, pages: PageMap, s: Snapshot, t: Target, ptr: u16, size: nat)
    requires ValidPages(pages) && r.context < CONTEXTS && r.pid < |s.slots|
  {
    Asks(s.ram, pages, r.context, r.pid, s.slots[r.pid], r.args, t, ptr, size)
  }

  ghost predicate LoadAnswer(r: Request, pages: PageMap, s: Snapshot, s': Snapshot, reply: Reply)
    requires Legal(r, pages, s, s')
  {
    if forall t, ptr, size :: !BulkAsked(r, pages, s, t, ptr, size) then reply == REJECTED && s' == s
    else exists t: Transfer ::
      && BulkAsked(r, pages, s, t.target, t.ptr, t.size)
      && LoadReply(reply, t) && BulkFailsForAReason(s'.usb, s'.mounted, reply, t, s.files, s.calls, s'.calls)
      && Wrote(pages, r.context, s.ram, s'.ram, t.ptr, t.file[..t.moved])
      && (t.found ==> LiesOn(s', t))
  }

  /** The transfer's file is the one on the drive. */
  ghost predicate LiesOn(s: Snapshot, t: Transfer)
    requires Shaped(s)
  {
    t.target.device < DEVICES && t.file == Bytes(s.disks[t.target.device], FatText(t.target.device, t.target.path))
  }

  ghost predicate SaveAnswer(r: Request, pages: PageMap, s: Snapshot, s': Snapshot, reply: Reply)
    requires Legal(r, pages, s, s')
  {
    && s'.ram == s.ram
    && if forall t, ptr, size :: !BulkAsked(r, pages, s, t, ptr, size) then reply == REJECTED && s' == s
       else exists t: Transfer ::
         && BulkAsked(r, pages, s, t.target, t.ptr, t.size)
         && SaveReply(reply, t, MemoryAt(s.ram, pages, r.context, t.ptr, t.size))
         && BulkFailsForAReason(s'.usb, s'.mounted, reply, t, s.files, s.calls, s'.calls)
         && (t.found ==> LiesOn(s', t))
  }

  // ---------------------------------------------------------------------------
  // Status and working directories
  // ---------------------------------------------------------------------------

  function Bit(b: bool): u8 {
    if b then 1 else 0
  }

  ghost predicate StatusAnswer(s: Snapshot, reply: Reply)
    requires Shaped(s)
  {
    var m := s.mounted;
    var count, mask: int := Bit(m[0]) + Bit(m[1]) + Bit(m[2]) + Bit(m[3]),
                            Bit(m[0]) + 2 * Bit(m[1]) + 4 * Bit(m[2]) + 8 * Bit(m[3]);
    reply == Success(Bit(count > 0) + 256 * count, mask)
  }

  ghost predicate GetCwdAnswer(r: Request, pages: PageMap, s: Snapshot, s': Snapshot, reply: Reply)
    requires Legal(r, pages, s, s')
  {
    var cwd := s.slots[r.pid];
    var text := Qualified(cwd.device, cwd.path);
    if && PrivateRange(r.args, 8) && Field(r, pages, s, 6) == 0 && cwd.valid
       && |text| + 1 <= Field(r, pages, s, 2) && PrivateRange(Field(r, pages, s, 0), |text| + 1) then
      && |text| < 256 && reply == Success(|text|, 0)
      && WroteTwice(pages, r.context, s.ram, s'.ram, Field(r, pages, s, 0), AsBytes(text + ['\0']), r.args + 4,
                    [|text|, 0])
    else reply == REJECTED
  }

  ghost predicate InitRootAnswer(r: Request, s: Snapshot, s': Snapshot, reply: Reply) {
    if r.low < 8 && r.high < 4 then
      |s.slots| == MAX_PROCS && reply == Success(0, 0) && s'.slots == s.slots[r.low := Cwd(true, r.high, "")]
    else reply == REJECTED
  }

  ghost predicate CloneAnswer(r: Request, s: Snapshot, s': Snapshot, reply: Reply)
    requires Shaped(s)
  {
    if r.low < 8 && r.high < 8 && s.slots[r.high].valid then
      reply == Success(0, 0) && s'.slots == s.slots[r.low := s.slots[r.high]]
    else reply == REJECTED
  }

  // ---------------------------------------------------------------------------
  // All of them
  // ---------------------------------------------------------------------------

  /** The answer that a legal request gets, operation by operation; unknown operations are rejected. */
  ghost predicate Answered(r: Request, pages: PageMap, s: Snapshot, s': Snapshot, reply: Reply)
    requires Legal(r, pages, s, s')
  {
    match r.op
    case 0x01 => StatusAnswer(s, reply)
    case 0x02 => OpenAnswer(r, pages, s, s', reply)
    case 0x03 => ReadAnswer(r, pages, s, s', reply)
    case 0x04 => CloseAnswer(r, s, s', reply)
    case 0x05 => WriteAnswer(r, pages, s, s', reply)
    case 0x06 => LoadAnswer(r, pages, s, s', reply)
    case 0x07 => SaveAnswer(r, pages, s, s', reply)
    case 0x08 => SeekAnswer(r, pages, s, s', reply)
    case 0x09 => TellAnswer(r, pages, s, s', reply)
    case 0x0A => SinglePathAnswer(PathOp.Delete, r, pages, s, s', reply)
    case 0x0B => RenameAnswer(r, pages, s, s', reply)
    case 0x0C => OpenDirAnswer(r, pages, s, s', reply)
    case 0x0D => ReadDirAnswer(r, pages, s, s', reply)
    case 0x0E => CloseDirAnswer(r, s, s', reply)
    case 0x0F => SinglePathAnswer(PathOp.MakeDir, r, pages, s, s', reply)
    case 0x10 => SinglePathAnswer(PathOp.RemoveDir, r, pages, s, s', reply)
    case 0x12 => InitRootAnswer(r, s, s', reply)
    case 0x13 => CloneAnswer(r, s, s', reply)
    case 0x14 => ChdirAnswer(r, pages, s, s', reply)
    case 0x15 => GetCwdAnswer(r, pages, s, s', reply)
    case _ => reply == REJECTED
  }
}
