/**
 LOAD and SAVE (rp_fs_mailbox.cpp): whole files streamed between a stick and a caller's memory in
 256-byte chunks, each of which may come up short or fail.
 */
module BulkTransfer {
  import opened Words
  import opened MmuTable
  import opened SystemBus
  import opened PhysicalMemory
  import opened Neobus
  import opened PathModel
  import opened FatPaths
  import opened Storage
  import opened CallerMemory
  import opened FsExecutor
  import opened PathRequests

  /**
   The history of one request: what was opened, its bytes, how many of them are counted as moved,
   how many more a SAVE stored without counting them, and how its writes ended.
   */
  datatype Transfer = Transfer(found: bool, target: Target, ptr: u16, size: nat, file: File, moved: nat,
                               torn: nat, writes: seq<WriteOutcome>)

  const NOTHING: Transfer := Transfer(false, Target(0, ""), 0, 0, [], 0, 0, [])

  /** The same handles are open as before, unchanged. */
  ghost predicate HandlesRestored(before: seq<FileHandle>, after: seq<FileHandle>) {
    && |before| == |after|
    && forall i | 0 <= i < |before| :: after[i].inUse == before[i].inUse && (before[i].inUse ==> after[i] == before[i])
  }

  // ---------------------------------------------------------------------------
  // The transfer loops; the bus is stolen and the caller's context selected
  // ---------------------------------------------------------------------------

  /** Whatever the sizes of the reads, memory holds exactly the counted prefix of the file. */
  method LoadLoop(m: Machine, s: Store, h: u8, ptr: u16, size: nat) returns (total: nat, failed: bool)
    requires m.Valid() && m.mode == RpiMode && s.Valid() && s.IsFile(h) && s.files[h].canRead && s.files[h].pos == 0
    requires size <= |s.FileOf(h)| && ValidRange(ptr, size)
    modifies m.ram, s.files, s.fat
    ensures s.Valid() && s.IsFile(h) && s.FileOf(h) == old(s.FileOf(h)) && total <= size && (failed <==> total < size)
    ensures m.Ram() == Apply(old(m.Ram()), CopyWrites(m.pages, m.context, ptr, s.FileOf(h)[..total]))
    ensures Later(old(s.fat.calls), s.fat.calls) && (failed <==> Refused(old(s.fat.calls), s.fat.calls) && total < size)
    ensures SameButPosition(old(s.files[..]), s.files[..], h)
  {
    hide Apply, CopyWrites, Store.HandlesOk, Store.DevicesOk, Store.FileOf, Wrap, Refused, Later;
    NoCall(s.fat.calls);
    total := 0;
    ghost var file := s.FileOf(h);
    NothingCopied(m.Ram(), m.pages, m.context, ptr);
    assert file[..0] == [];
    while total < size
      invariant total <= size && s.Valid() && s.IsFile(h) && s.FileOf(h) == file && s.files[h].pos == total
      invariant m.Ram() == Apply(old(m.Ram()), CopyWrites(m.pages, m.context, ptr, file[..total]))
      invariant SameButPosition(old(s.files[..]), s.files[..], h)
      invariant Later(old(s.fat.calls), s.fat.calls)
      decreases size - total
    {
      ghost var calls := s.fat.calls;
      var remaining := size - total;
      var chunk := if remaining > CHUNK then CHUNK else remaining;
      var data := s.Read(h, chunk);
      LaterTrans(old(s.fat.calls), calls, s.fat.calls);
      if data.None? || |data.value| == 0 {
        return total, true;
      }
      m.WriteContextBytes(Wrap(ptr, total), data.value);
      LoadStep(old(m.Ram()), m.pages, m.context, ptr, file, total, data.value);
      total := total + |data.value|;
    }
    return total, false;
  }

  lemma LoadStep(m: Ram, pages: PageMap, c: nat, ptr: u16, file: seq<u8>, total: nat, data: seq<u8>)
    requires ValidPages(pages) && c < CONTEXTS && total + |data| <= |file| && data == file[total..total + |data|]
    ensures Apply(Apply(m, CopyWrites(pages, c, ptr, file[..total])), CopyWrites(pages, c, Wrap(ptr, total), data)) ==
            Apply(m, CopyWrites(pages, c, ptr, file[..total + |data|]))
  {
    assert file[..total + |data|] == file[..total] + data;
    CopyWritesAppend(pages, c, ptr, file[..total], data);
    ApplyAppend(m, CopyWrites(pages, c, ptr, file[..total]), CopyWrites(pages, c, Wrap(ptr, total), data));
  }

  function ChunkOf(remaining: nat): nat {
    if remaining > CHUNK then CHUNK else remaining
  }

  /** After a number of whole chunks, this many bytes are counted. */
  function Counted(size: nat, chunks: nat): nat {
    if CHUNK * chunks < size then CHUNK * chunks else size
  }

  /** Every write stored its whole chunk. */
  ghost predicate WholeChunks(size: nat, writes: seq<WriteOutcome>) {
    forall i | 0 <= i < |writes| ::
      CHUNK * i < size && writes[i] == WriteOutcome(ChunkOf(size - CHUNK * i), false)
  }

  /**
   What the outcomes of the writes, in order, make of a SAVE: all but the last store whole chunks.
   The last may come up short, and then its bytes are counted, or report an error, and then they
   are not: those bytes are torn.
   */
  ghost predicate SavedBy(size: nat, writes: seq<WriteOutcome>, moved: nat, torn: nat, failed: bool) {
    if !failed then WholeChunks(size, writes) && moved == size && torn == 0 && Counted(size, |writes|) == size
    else
      && writes != []
      && var n := |writes| - 1;
         var last := writes[n];
         && WholeChunks(size, writes[..n]) && CHUNK * n < size && last.stored <= ChunkOf(size - CHUNK * n)
         && (!last.error ==> last.stored < ChunkOf(size - CHUNK * n))
         && moved == CHUNK * n + (if last.error then 0 else last.stored)
         && torn == if last.error then last.stored else 0
  }

  /** For every sequence of write outcomes the file is exactly the counted and the torn bytes. */
  method SaveLoop(m: Machine, s: Store, h: u8, ptr: u16, size: nat)
    returns (total: nat, failed: bool, ghost torn: nat, ghost writes: seq<WriteOutcome>)
    requires m.Valid() && m.mode == RpiMode && s.Valid() && s.IsFile(h) && s.files[h].canWrite && s.files[h].pos == 0
    requires s.FileOf(h) == [] && ValidRange(ptr, size)
    modifies s.files, s.disks, s.fat
    ensures s.Valid() && s.IsFile(h) && SavedBy(size, writes, total, torn, failed)
    ensures total + torn <= size && s.FileOf(h) == m.Memory(m.context, ptr, size)[..total + torn]
    ensures Later(old(s.fat.calls), s.fat.calls) && (failed ==> Refused(old(s.fat.calls), s.fat.calls))
    ensures SameButPosition(old(s.files[..]), s.files[..], h)
    ensures OnlyFileChanges(old(s.disks[..]), s.disks[..], s.files[h].device, s.files[h].path)
  {
    hide Store.HandlesOk, Store.DevicesOk, Store.FileOf, OnlyFileChanges, Machine.Memory;
    hide WholeChunks, Counted, SavedBy, Refused, Later;
    NoCall(s.fat.calls);
    ghost var source := m.Memory(m.context, ptr, size);
    ghost var device, path := s.files[h].device, s.files[h].path;
    NoFileChanges(s.disks[..], device, path);
    NothingSaved(size);
    total, torn, writes := 0, 0, [];
    while total < size
      invariant s.Valid() && s.IsFile(h) && s.files[h].canWrite && s.files[h].pos == total <= size && torn == 0
      invariant WholeChunks(size, writes) && total == Counted(size, |writes|)
      invariant s.FileOf(h) == source[..total]
      invariant SameButPosition(old(s.files[..]), s.files[..], h)
      invariant OnlyFileChanges(old(s.disks[..]), s.disks[..], device, path)
      invariant Later(old(s.fat.calls), s.fat.calls)
      decreases size - total
    {
      ghost var calls := s.fat.calls;
      ghost var disks, w := s.disks[..], WriteOutcome(0, true);
      var count, chunk;
      count, chunk, w := SaveChunk(m, s, h, ptr, size, total);
      LaterTrans(old(s.fat.calls), calls, s.fat.calls);
      OnlyFileTrans(old(s.disks[..]), disks, s.disks[..], device, path);
      ChunkSaved(size, writes, w);
      writes := writes + [w];
      if count != Some(chunk) {
        if count.Some? && count.value > 0 {
          total := total + count.value;
        }
        torn := if w.error then w.stored else 0;
        return total, true, torn, writes;
      }
      total := total + chunk;
    }
    AllSaved(size, writes);
    return total, false, torn, writes;
  }

  lemma NothingSaved(size: nat)
    ensures WholeChunks(size, []) && Counted(size, 0) == 0
  {
  }

  lemma AllSaved(size: nat, writes: seq<WriteOutcome>)
    requires WholeChunks(size, writes) && Counted(size, |writes|) >= size
    ensures SavedBy(size, writes, size, 0, false)
  {
  }

  /** One more write after whole chunks: it was a whole chunk as well, or it ends the SAVE. */
  lemma ChunkSaved(size: nat, writes: seq<WriteOutcome>, w: WriteOutcome)
    requires WholeChunks(size, writes) && Counted(size, |writes|) < size
    requires w.stored <= ChunkOf(size - Counted(size, |writes|))
    ensures var total, chunk := Counted(size, |writes|), ChunkOf(size - Counted(size, |writes|));
            if w == WriteOutcome(chunk, false) then
              WholeChunks(size, writes + [w]) && Counted(size, |writes + [w]|) == total + chunk
            else
              SavedBy(size, writes + [w], total + (if w.error then 0 else w.stored),
                      if w.error then w.stored else 0, true)
  {
    assert (writes + [w])[..|writes|] == writes;
  }

  method SaveChunk(m: Machine, s: Store, h: u8, ptr: u16, size: nat, total: nat)
    returns (count: Option<nat>, chunk: nat, ghost w: WriteOutcome)
    requires m.Valid() && m.mode == RpiMode
    requires s.Valid() && s.IsFile(h) && s.files[h].canWrite && s.files[h].pos == total
    requires total < size && s.FileOf(h) == m.Memory(m.context, ptr, size)[..total] && ValidRange(ptr, size)
    modifies s.files, s.disks, s.fat
    ensures s.Valid() && s.IsFile(h) && SameButPosition(old(s.files[..]), s.files[..], h)
    ensures chunk == ChunkOf(size - total) && w.stored <= chunk && count == if w.error then None else Some(w.stored)
    ensures Later(old(s.fat.calls), s.fat.calls)
    ensures count != Some(chunk) ==> Refused(old(s.fat.calls), s.fat.calls)
    ensures s.files[h].pos == total + w.stored
    ensures s.FileOf(h) == m.Memory(m.context, ptr, size)[..total + w.stored]
    ensures OnlyFileChanges(old(s.disks[..]), s.disks[..], s.files[h].device, s.files[h].path)
  {
    hide Store.HandlesOk, Store.DevicesOk, Store.FileOf, Overwritten, WrittenAt, Machine.Memory, Refused, Later;
    var remaining := size - total;
    chunk := if remaining > CHUNK then CHUNK else remaining;
    var data := ReadChunk(m, ptr, size, total, chunk);
    count, w := s.Write(h, data);
    PrefixGrows(m.Memory(m.context, ptr, size), total, chunk, w.stored);
  }

  /** A SAVE fails exactly when it counts less than was asked. */
  lemma SavedFails(size: nat, writes: seq<WriteOutcome>, moved: nat, torn: nat, failed: bool)
    requires SavedBy(size, writes, moved, torn, failed)
    ensures failed == (moved < size) && moved + torn <= size
  {
  }

  lemma PrefixGrows(source: seq<u8>, total: nat, chunk: nat, n: nat)
    requires total + chunk <= |source| && n <= chunk
    ensures source[..total] + source[total..total + chunk][..n] == source[..total + n]
  {
  }

  method ReadChunk(m: Machine, ptr: u16, size: nat, total: nat, chunk: nat) returns (data: seq<u8>)
    requires m.Valid() && m.mode == RpiMode && total + chunk <= size
    ensures data == m.Memory(m.context, ptr, size)[total..total + chunk]
  {
    data := m.ReadContextBytes(Wrap(ptr, total), chunk);
    forall i | 0 <= i < chunk
      ensures data[i] == m.Memory(m.context, ptr, size)[total + i]
    {
      WrapWrap(ptr, total, i);
    }
  }

  // ---------------------------------------------------------------------------
  // Whole requests
  // ---------------------------------------------------------------------------

  /** What a LOAD or SAVE argument block asks for. */
  ghost predicate Asks(m: Ram, pages: PageMap, c: nat, pid: u8, cwd: Cwd, args: u16, t: Target, ptr: u16, size: nat)
    requires ValidPages(pages) && c < CONTEXTS
  {
    && PrivateRange(args, 8) && View(m, pages, c, args + 7) == 0
    && Names(m, pages, c, pid, cwd, Arg(m, pages, c, args, 0), PATH_MAX - 1, View(m, pages, c, args + 6), t)
    && ptr == Arg(m, pages, c, args, 2) && size == EffectiveSize(Arg(m, pages, c, args, 4))
  }

  lemma BulkAskedFor(m: Ram, pages: PageMap, c: nat, pid: u8, cwd: Cwd, args: u16, t: Target, ptr: u16, size: nat)
    requires ValidPages(pages) && c < CONTEXTS && Asks(m, pages, c, pid, cwd, args, t, ptr, size)
    ensures PrivateRange(args, 8)
    ensures ptr == Arg(m, pages, c, args, 2) && size == EffectiveSize(Arg(m, pages, c, args, 4))
  {
  }

  lemma BulkAskedOnce(m: Ram, pages: PageMap, c: nat, pid: u8, cwd: Cwd, args: u16,
                      t: Target, p: u16, k: nat, u: Target, q: u16, l: nat)
    requires ValidPages(pages) && c < CONTEXTS
    requires Asks(m, pages, c, pid, cwd, args, t, p, k) && Asks(m, pages, c, pid, cwd, args, u, q, l)
    ensures t == u
  {
    hide Names;
    OneNameOnly(m, pages, c, pid, cwd, Arg(m, pages, c, args, 0), PATH_MAX - 1, View(m, pages, c, args + 6), t);
  }

  method BulkArgs(e: Executor, pid: u8, c: u8, args: u16) returns (target: Option<Target>, ptr: u16, size: nat)
    requires e.Valid() && c < MAX_BRACKET_CONTEXTS
    modifies e.machine
    ensures e.Valid() && SameBus(old(e.machine.BusState()), e.machine.BusState())
    ensures target.Some? ==>
              Asks(e.machine.Ram(), e.machine.pages, c, pid, e.Slot(pid), args, target.value, ptr, size)
              && Usable(target.value)
    ensures size <= ADDRESSES
    ensures target.None? ==>
              forall t, p, n :: !Asks(e.machine.Ram(), e.machine.pages, c, pid, e.Slot(pid), args, t, p, n)
  {
    hide Settled, SameBus, Resolve, Store.HandlesOk, Store.DevicesOk, Names, Usable;
    ptr, size := 0, 0;
    var raw := e.ReadArgs(c, args, 8);
    if raw.None? || raw.value[7] != 0 {
      return None, ptr, size;
    }
    ghost var bus := e.machine.BusState();
    target := ResolveArgument(e, pid, c, Word(raw.value, 0), PATH_MAX - 1, raw.value[6]);
    SameBusTrans(old(e.machine.BusState()), bus, e.machine.BusState());
    ptr, size := Word(raw.value, 2), EffectiveSize(Word(raw.value, 4));
  }

  /** Streams a freshly opened file into the caller's context and closes it. */
  method LoadAndClose(e: Executor, c: u8, h: u8, ptr: u16, size: nat) returns (total: nat, ok: bool)
    requires e.Valid() && c < MAX_BRACKET_CONTEXTS
    requires e.store.IsFile(h) && e.store.files[h].canRead && e.store.files[h].pos == 0
    requires size <= |e.store.FileOf(h)| && ValidRange(ptr, size)
    modifies e.machine, e.machine.ram, e.store.files, e.store.fat
    ensures e.Valid() && SameBus(old(e.machine.BusState()), e.machine.BusState())
    ensures total <= size && (ok ==> total == size)
    ensures Later(old(e.store.fat.calls), e.store.fat.calls)
    ensures ok || Refused(old(e.store.fat.calls), e.store.fat.calls)
    ensures Refused(old(e.store.fat.calls), e.store.fat.calls) || total == size
    ensures Wrote(e.machine.pages, c, old(e.machine.Ram()), e.machine.Ram(), ptr, old(e.store.FileOf(h))[..total])
    ensures ClosedOnly(old(e.store.files[..]), e.store.files[..], h)
  {
    hide Settled, Exec, ExecAll, Apply, CopyWrites, Wrote, Store.FileOf, SameBus, Enter, Steal, Transparent;
    hide Refused, Later;
    BracketRestores(e.machine.BusState(), c);
    var begun, state, context := e.machine.BeginContextAccess(c);
    assert begun;
    var failed;
    total, failed := LoadLoop(e.machine, e.store, h, ptr, size);
    e.machine.EndContextAccess(state, context);
    ghost var calls := e.store.fat.calls;
    ghost var call := FatCall(CloseFn, e.store.files[h].device, e.store.files[h].path, "", true);
    var closed := e.store.Close(h);
    OneCall(calls, call.(ok := closed));
    LaterTrans(old(e.store.fat.calls), calls, e.store.fat.calls);
    ok := !failed && closed;
    CopyWrote(old(e.machine.Ram()), e.machine.pages, c, ptr, old(e.store.FileOf(h))[..total]);
  }

  /** One handle is closed; the others are as they were. */
  ghost predicate ClosedOnly(before: seq<FileHandle>, after: seq<FileHandle>, h: u8) {
    && |before| == |after| == FILES && h < FILES && !after[h].inUse
    && forall i | 0 <= i < FILES && i != h :: after[i] == before[i]
  }

  /** How much of a file a LOAD moves. */
  function LoadSize(size: nat, file: seq<u8>): (n: nat)
    ensures n <= size && n <= |file| && (n == size || n == |file|)
  {
    if size < |file| then size else |file|
  }

  /** The reply that a LOAD owes its caller. */
  ghost predicate LoadReply(reply: Reply, t: Transfer) {
    && t.moved <= LoadSize(t.size, t.file) && (t.moved > 0 ==> t.found && t.ptr + t.moved <= ADDRESSES)
    && match reply
       case Success(value, flags) =>
         t.found && t.moved == LoadSize(t.size, t.file) && value == t.moved % ADDRESSES && flags == t.target.device
       case Failed(err, partial) =>
         && partial == t.moved % ADDRESSES
         && (t.found ==> (err == ERR_EINVAL <==> !ValidRange(t.ptr, LoadSize(t.size, t.file))))
         && (err == ERR_EINVAL ==> t.moved == 0)
  }

  /**
   Why a LOAD or SAVE fails: its file could not be opened, for a reason; its range wraps; or some call
   of FatFs was refused. If none was, it moved everything.
   */
  ghost predicate BulkFailsForAReason(usb: seq<UsbSlot>, mounted: seq<bool>, reply: Reply, t: Transfer,
                                      files: seq<FileHandle>, before: seq<FatCall>, after: seq<FatCall>)
    requires |usb| == |mounted| == DEVICES && |files| == FILES
  {
    reply.Failed? ==>
      if !t.found then
        && PathFailure(reply, mounted, t.target.device)
        && (Missing(usb, t.target.device) || Refused(before, after) || t.target.path == "/"
            || forall h | 0 <= h < FILES :: files[h].inUse)
      else reply == REJECTED || (reply.err == ERR_EIO && Refused(before, after))
  }

  /**
   LOAD: on success the caller's memory holds the first n bytes of the file, n being the lesser of
   the requested and the file's size; on failure exactly the counted prefix. Nothing else in
   memory, no file on a mounted drive and no open handle changes, and no address wraps.
   */
  method ExecLoad(e: Executor, pid: u8, c: u8, args: u16) returns (reply: Reply, ghost t: Transfer)
    requires e.Valid() && c < MAX_BRACKET_CONTEXTS
    modifies e.machine, e.machine.ram, e.store.mounted, e.store.files, e.store.disks, e.store.fat
    ensures e.Valid() && SameBus(old(e.machine.BusState()), e.machine.BusState())
    ensures HandlesRestored(old(e.store.files[..]), e.store.files[..])
    ensures forall d | 0 <= d < DEVICES && old(e.store.mounted[d]) ::
              e.store.mounted[d] && e.store.disks[d] == old(e.store.disks[d])
    ensures LoadReply(reply, t)
    ensures Later(old(e.store.fat.calls), e.store.fat.calls)
    ensures !t.found && reply == REJECTED ==>
              && e.store.fat.calls == old(e.store.fat.calls) && e.store.files[..] == old(e.store.files[..])
              && Untouched(e.store, old(e.store.mounted[..]), old(e.store.disks[..]))
    ensures t.found || reply != REJECTED ==>
              && Asks(old(e.machine.Ram()), e.machine.pages, c, pid, e.Slot(pid), args, t.target, t.ptr, t.size)
              && BulkFailsForAReason(e.store.usb[..], e.store.mounted[..], reply, t, old(e.store.files[..]),
                                     old(e.store.fat.calls), e.store.fat.calls)
    ensures !t.found ==> (reply == REJECTED <==> forall g, p, n ::
              !Asks(old(e.machine.Ram()), e.machine.pages, c, pid, e.Slot(pid), args, g, p, n))
    ensures Wrote(e.machine.pages, c, old(e.machine.Ram()), e.machine.Ram(), t.ptr, t.file[..t.moved])
    ensures t.found ==>
              && Asks(old(e.machine.Ram()), e.machine.pages, c, pid, e.Slot(pid), args, t.target, t.ptr, t.size)
              && DeviceValid(t.target.device)
              && t.file == Bytes(e.store.disks[t.target.device], FatText(t.target.device, t.target.path))
  {
    hide Settled, Apply, CopyWrites, Wrote, SameBus, Store.HandlesOk, Store.DevicesOk, Asks, FatText, Usable, Refused;
    hide Later, BulkFailsForAReason;
    NoCall(e.store.fat.calls);
    t := NOTHING;
    var target, ptr, size := BulkArgs(e, pid, c, args);
    NothingCopied(e.machine.Ram(), e.machine.pages, c, 0);
    if target.None? {
      return REJECTED, t;
    }
    ghost var bus := e.machine.BusState();
    reply, t := LoadTarget(e, c, target.value, ptr, size);
    SameBusTrans(old(e.machine.BusState()), bus, e.machine.BusState());
    assert Asks(old(e.machine.Ram()), e.machine.pages, c, pid, e.Slot(pid), args, target.value, ptr, size);
  }

  method LoadTarget(e: Executor, c: u8, target: Target, ptr: u16, requested: nat)
    returns (reply: Reply, ghost t: Transfer)
    requires e.Valid() && Usable(target) && c < MAX_BRACKET_CONTEXTS
    modifies e.machine, e.machine.ram, e.store.mounted, e.store.files, e.store.disks, e.store.fat
    ensures e.Valid() && SameBus(old(e.machine.BusState()), e.machine.BusState())
    ensures HandlesRestored(old(e.store.files[..]), e.store.files[..])
    ensures forall d | 0 <= d < DEVICES && old(e.store.mounted[d]) ::
              e.store.mounted[d] && e.store.disks[d] == old(e.store.disks[d])
    ensures Later(old(e.store.fat.calls), e.store.fat.calls)
    ensures BulkFailsForAReason(e.store.usb[..], e.store.mounted[..], reply, t, old(e.store.files[..]),
                                old(e.store.fat.calls), e.store.fat.calls)
    ensures t.target == target && t.ptr == ptr && t.size == requested
    ensures LoadReply(reply, t) && (!t.found ==> reply != REJECTED)
    ensures Wrote(e.machine.pages, c, old(e.machine.Ram()), e.machine.Ram(), t.ptr, t.file[..t.moved])
    ensures t.found ==>
              && DeviceValid(target.device)
              && t.file == Bytes(e.store.disks[target.device], FatText(target.device, target.path))
  {
    hide Settled, Apply, CopyWrites, Wrote, Store.HandlesOk, Store.DevicesOk, FatPathValid, FatText, Logical, IsRoot;
    hide Acceptable, Refused, Did, Later;
    t := NOTHING.(target := target, ptr := ptr, size := requested);
    NothingCopied(e.machine.Ram(), e.machine.pages, c, ptr);
    assert t.file[..0] == [];
    var handle := e.store.Open(target.device, target.path, ReadOnly);
    if handle.None? {
      var ready := Ready(e.store, target.device);
      return Failed(if ready then ERR_ENOENT else ERR_EIO, 0), t;
    }
    ghost var calls := e.store.fat.calls;
    reply, t := LoadOpened(e, c, handle.value, target, ptr, requested);
    LaterTrans(old(e.store.fat.calls), calls, e.store.fat.calls);
  }

  /** The rest of a LOAD once its file is open. */
  method LoadOpened(e: Executor, c: u8, h: u8, target: Target, ptr: u16, requested: nat)
    returns (reply: Reply, ghost t: Transfer)
    requires e.Valid() && c < MAX_BRACKET_CONTEXTS
    requires e.store.IsFile(h) && e.store.files[h].canRead && e.store.files[h].pos == 0
    modifies e.machine, e.machine.ram, e.store.files, e.store.fat
    ensures e.Valid() && SameBus(old(e.machine.BusState()), e.machine.BusState())
    ensures ClosedOnly(old(e.store.files[..]), e.store.files[..], h)
    ensures Later(old(e.store.fat.calls), e.store.fat.calls)
    ensures reply.Success? || reply == REJECTED
            || (reply.err == ERR_EIO && Refused(old(e.store.fat.calls), e.store.fat.calls))
    ensures LoadReply(reply, t)
    ensures Wrote(e.machine.pages, c, old(e.machine.Ram()), e.machine.Ram(), t.ptr, t.file[..t.moved])
    ensures t == Transfer(true, target, ptr, requested, old(e.store.FileOf(h)), t.moved, 0, [])
  {
    hide Settled, Apply, CopyWrites, Wrote, Store.HandlesOk, Store.DevicesOk, Store.FileOf, Refused, Later;
    NoCall(e.store.fat.calls);
    var length := e.store.Size(h);
    var size := if requested > length then length else requested;
    t := Transfer(true, target, ptr, requested, e.store.FileOf(h), 0, 0, []);
    NothingCopied(e.machine.Ram(), e.machine.pages, c, ptr);
    assert t.file[..0] == [];
    if !ValidRange(ptr, size) {
      ghost var call := FatCall(CloseFn, e.store.files[h].device, e.store.files[h].path, "", true);
      var closed := e.store.Close(h);
      OneCall(old(e.store.fat.calls), call.(ok := closed));
      return REJECTED, t;
    }
    var total, ok := LoadAndClose(e, c, h, ptr, size);
    t := t.(moved := total);
    return if ok then Success(total % ADDRESSES, target.device) else Failed(ERR_EIO, total % ADDRESSES), t;
  }

  /**
   The reply that a SAVE owes its caller. The file is exactly the counted bytes, and the torn ones
   of a write that reported an error. A range that wraps is noticed only after the file was emptied.
   */
  ghost predicate SaveReply(reply: Reply, t: Transfer, source: seq<u8>)
    requires |source| == t.size
  {
    && t.moved + t.torn <= t.size && t.file == source[..t.moved + t.torn]
    && match reply
       case Success(value, flags) =>
         && t.found && t.moved == t.size && value == t.moved % ADDRESSES && flags == t.target.device
         && SavedBy(t.size, t.writes, t.moved, t.torn, false)
       case Failed(err, partial) =>
         && partial == t.moved % ADDRESSES
         && if !t.found || err == ERR_EINVAL then
              t.moved == 0 && t.writes == [] && t.torn == 0 && (t.found ==> !ValidRange(t.ptr, t.size))
            else
              && ValidRange(t.ptr, t.size)
              && SavedBy(t.size, t.writes, t.moved, t.torn, t.moved < t.size)
  }

  /** The last write of a transfer reported an error after storing bytes. */
  predicate TornWrite(t: Transfer) {
    t.writes != [] && t.writes[|t.writes| - 1].error && t.writes[|t.writes| - 1].stored > 0
  }

  /** Exactness of SAVE: the file is what the reply counts iff no failing write stored bytes. */
  lemma SaveExactIff(reply: Reply, t: Transfer, source: seq<u8>)
    requires |source| == t.size && SaveReply(reply, t, source)
    ensures t.file == source[..t.moved] <==> !TornWrite(t)
    ensures reply.Success? ==> t.file == source && !TornWrite(t)
  {
    assert |source[..t.moved + t.torn]| == t.moved + t.torn;
    if t.writes != [] && !(t.moved < t.size) {
      assert t.writes[|t.writes| - 1].error == false;
    }
  }

  /** A write of ten bytes that stores three and then reports an error: the reply counts none. */
  lemma TornSave(source: seq<u8>)
    requires |source| == 10
    ensures var t := Transfer(true, Target(0, "A"), 0x2000, 10, source[..3], 0, 3, [WriteOutcome(3, true)]);
            SaveReply(Failed(ERR_EIO, 0), t, source) && TornWrite(t) && t.file != source[..t.moved]
  {
    assert [WriteOutcome(3, true)][..0] == [];
    assert |source[..3]| != |source[..0]|;
  }

  /** SAVE: on success the file is exactly the caller's bytes; memory never changes. */
  method ExecSave(e: Executor, pid: u8, c: u8, args: u16) returns (reply: Reply, ghost t: Transfer)
    requires e.Valid() && c < MAX_BRACKET_CONTEXTS
    modifies e.machine, e.store.mounted, e.store.files, e.store.disks, e.store.fat
    ensures e.Valid() && SameBus(old(e.machine.BusState()), e.machine.BusState())
    ensures forall d | 0 <= d < DEVICES && old(e.store.mounted[d]) :: e.store.mounted[d]
    ensures HandlesRestored(old(e.store.files[..]), e.store.files[..])
    ensures t.size <= ADDRESSES && SaveReply(reply, t, e.machine.Memory(c, t.ptr, t.size))
    ensures !t.found ==> (reply == REJECTED <==> forall g, p, n ::
              !Asks(e.machine.Ram(), e.machine.pages, c, pid, e.Slot(pid), args, g, p, n))
    ensures t.found ==>
              DeviceValid(t.target.device)
              && t.file == Bytes(e.store.disks[t.target.device], FatText(t.target.device, t.target.path))
    ensures Later(old(e.store.fat.calls), e.store.fat.calls)
    ensures !t.found && reply == REJECTED ==>
              e.store.fat.calls == old(e.store.fat.calls) && e.store.files[..] == old(e.store.files[..])
    ensures t.found || reply != REJECTED ==>
              BulkFailsForAReason(e.store.usb[..], e.store.mounted[..], reply, t, old(e.store.files[..]),
                                  old(e.store.fat.calls), e.store.fat.calls)
    ensures OneDrive(old(e.store.disks[..]), e.store.disks[..], t.target.device)
    ensures !t.found && reply == REJECTED ==> Untouched(e.store, old(e.store.mounted[..]), old(e.store.disks[..]))
    ensures t.target.device < DEVICES && old(e.store.mounted[t.target.device]) ==>
              OnlyFileChanges(old(e.store.disks[..]), e.store.disks[..], t.target.device,
                              FatText(t.target.device, t.target.path))
    ensures t.found || reply != REJECTED ==>
              Asks(e.machine.Ram(), e.machine.pages, c, pid, e.Slot(pid), args, t.target, t.ptr, t.size)
  {
    hide Settled, SameBus, Store.HandlesOk, Store.DevicesOk, Asks, FatText, OnlyFileChanges, SavedBy, Usable, Refused;
    hide Later, BulkFailsForAReason;
    NoCall(e.store.fat.calls);
    t := NOTHING;
    var target, ptr, size := BulkArgs(e, pid, c, args);
    if target.None? {
      NoFileChanges(e.store.disks[..], 0, FatText(0, ""));
      return REJECTED, t;
    }
    ghost var bus := e.machine.BusState();
    reply, t := SaveTarget(e, c, target.value, ptr, size);
    SameBusTrans(old(e.machine.BusState()), bus, e.machine.BusState());
    assert Asks(e.machine.Ram(), e.machine.pages, c, pid, e.Slot(pid), args, target.value, ptr, size);
  }

  lemma NoFileChanges(disks: seq<Disk>, device: u8, path: string)
    requires |disks| == DEVICES && device < DEVICES
    ensures OnlyFileChanges(disks, disks, device, path)
  {
  }

  method SaveTarget(e: Executor, c: u8, target: Target, ptr: u16, size: nat) returns (reply: Reply, ghost t: Transfer)
    requires e.Valid() && Usable(target) && c < MAX_BRACKET_CONTEXTS && size <= ADDRESSES
    modifies e.machine, e.store.mounted, e.store.files, e.store.disks, e.store.fat
    ensures e.Valid() && SameBus(old(e.machine.BusState()), e.machine.BusState())
    ensures forall d | 0 <= d < DEVICES && old(e.store.mounted[d]) :: e.store.mounted[d]
    ensures HandlesRestored(old(e.store.files[..]), e.store.files[..])
    ensures t.size <= ADDRESSES && SaveReply(reply, t, e.machine.Memory(c, t.ptr, t.size))
    ensures !t.found ==> reply != REJECTED
    ensures t.found ==>
              DeviceValid(target.device)
              && t.file == Bytes(e.store.disks[target.device], FatText(target.device, target.path))
    ensures t.target == target && t.ptr == ptr && t.size == size
    ensures Later(old(e.store.fat.calls), e.store.fat.calls)
    ensures BulkFailsForAReason(e.store.usb[..], e.store.mounted[..], reply, t, old(e.store.files[..]),
                                old(e.store.fat.calls), e.store.fat.calls)
    ensures OneDrive(old(e.store.disks[..]), e.store.disks[..], target.device)
    ensures target.device < DEVICES && old(e.store.mounted[target.device]) ==>
              OnlyFileChanges(old(e.store.disks[..]), e.store.disks[..], target.device,
                              FatText(target.device, target.path))
  {
    hide Settled, Store.HandlesOk, Store.DevicesOk, FatText, OnlyFileChanges, OneDrive, SavedBy, Refused, Later;
    hide SaveReply;
    t := NOTHING.(target := target, ptr := ptr, size := size);
    var handle := OpenEmpty(e, target);
    if handle.None? {
      var ready := Ready(e.store, target.device);
      NothingSavedReply(if ready then ERR_ENOENT else ERR_EIO, t, e.machine.Memory(c, ptr, size));
      return Failed(if ready then ERR_ENOENT else ERR_EIO, 0), t;
    }
    ghost var disks, calls, path := e.store.disks[..], e.store.fat.calls, FatText(target.device, target.path);
    reply, t := SaveOpened(e, c, handle.value, target, ptr, size);
    LaterTrans(old(e.store.fat.calls), calls, e.store.fat.calls);
    OneFileOneDrive(disks, e.store.disks[..], target.device, path);
    OneDriveTrans(old(e.store.disks[..]), disks, e.store.disks[..], target.device);
    if old(e.store.mounted[target.device]) {
      OnlyFileTrans(old(e.store.disks[..]), disks, e.store.disks[..], target.device, path);
    }
  }

  lemma OneDriveTrans(a: seq<Disk>, b: seq<Disk>, d: seq<Disk>, device: u8)
    requires OneDrive(a, b, device) && OneDrive(b, d, device)
    ensures OneDrive(a, d, device)
  {
  }

  /** Opens the named file for writing, empty. */
  method OpenEmpty(e: Executor, target: Target) returns (handle: Option<u8>)
    requires e.Valid() && Usable(target)
    modifies e.store.mounted, e.store.files, e.store.disks, e.store.fat
    ensures e.Valid()
    ensures forall d | 0 <= d < DEVICES && old(e.store.mounted[d]) :: e.store.mounted[d]
    ensures OneDrive(old(e.store.disks[..]), e.store.disks[..], target.device)
    ensures target.device < DEVICES && old(e.store.mounted[target.device]) ==>
              OnlyFileChanges(old(e.store.disks[..]), e.store.disks[..], target.device,
                              FatText(target.device, target.path))
    ensures Later(old(e.store.fat.calls), e.store.fat.calls)
    ensures handle.None? ==>
              && e.store.files[..] == old(e.store.files[..])
              && (Missing(e.store.usb[..], target.device) || Refused(old(e.store.fat.calls), e.store.fat.calls)
                  || target.path == "/" || forall h | 0 <= h < FILES :: old(e.store.files[h].inUse))
    ensures handle.Some? ==>
              var h := handle.value;
              && h < FILES && !old(e.store.files[h].inUse) && target.device < DEVICES && e.store.mounted[target.device]
              && e.store.files[..] == old(e.store.files[..])[h := e.store.files[h]]
              && e.store.IsFile(h) && e.store.files[h].canWrite && e.store.files[h].pos == 0 && e.store.FileOf(h) == []
              && e.store.files[h].device == target.device
              && e.store.files[h].path == FatText(target.device, target.path)
  {
    hide Settled, Store.HandlesOk, Store.DevicesOk, FatPathValid, FatText, Logical, IsRoot, OnlyFileChanges, Acceptable;
    hide Refused, Did, Later;
    handle := e.store.Open(target.device, target.path, Truncate);
    if target.device < DEVICES && old(e.store.mounted[target.device]) {
      TruncateChangesOneFile(old(e.store.disks[..]), e.store.disks[..], target.device,
                             FatText(target.device, target.path));
    }
  }

  lemma NothingSavedReply(err: u8, t: Transfer, source: seq<u8>)
    requires |source| == t.size && !t.found && t.file == [] && t.moved == 0 && t.torn == 0 && t.writes == []
    ensures SaveReply(Failed(err, 0), t, source)
  {
    assert source[..0] == [];
  }

  /** The rest of a SAVE once its file is open and empty. */
  method SaveOpened(e: Executor, c: u8, h: u8, target: Target, ptr: u16, size: nat)
    returns (reply: Reply, ghost t: Transfer)
    requires e.Valid() && c < MAX_BRACKET_CONTEXTS && size <= ADDRESSES
    requires e.store.IsFile(h) && e.store.files[h].canWrite && e.store.files[h].pos == 0 && e.store.FileOf(h) == []
    modifies e.machine, e.store.files, e.store.disks, e.store.fat
    ensures e.Valid() && SameBus(old(e.machine.BusState()), e.machine.BusState())
    ensures ClosedOnly(old(e.store.files[..]), e.store.files[..], h)
    ensures t.size == size && SaveReply(reply, t, e.machine.Memory(c, t.ptr, t.size))
    ensures t == Transfer(true, target, ptr, size, t.file, t.moved, t.torn, t.writes)
    ensures t.file == Bytes(e.store.disks[old(e.store.files[h].device)], old(e.store.files[h].path))
    ensures Later(old(e.store.fat.calls), e.store.fat.calls)
    ensures reply.Success? || reply == REJECTED
            || (reply.err == ERR_EIO && Refused(old(e.store.fat.calls), e.store.fat.calls))
    ensures OnlyFileChanges(old(e.store.disks[..]), e.store.disks[..],
                            old(e.store.files[h].device), old(e.store.files[h].path))
  {
    hide Settled, Store.HandlesOk, Store.DevicesOk, OnlyFileChanges, SavedBy, Refused, Later;
    NoCall(e.store.fat.calls);
    ghost var device, path := e.store.files[h].device, e.store.files[h].path;
    NoFileChanges(e.store.disks[..], device, path);
    t := Transfer(true, target, ptr, size, [], 0, 0, []);
    if !ValidRange(ptr, size) {
      ghost var call := FatCall(CloseFn, device, path, "", true);
      var closed := e.store.Close(h);
      OneCall(old(e.store.fat.calls), call.(ok := closed));
      return REJECTED, t;
    }
    var total, ok;
    ghost var torn, writes;
    total, ok, torn, writes := SaveAndClose(e, c, h, ptr, size);
    t := t.(moved := total, torn := torn, writes := writes, file := Bytes(e.store.disks[device], path));
    return if ok then Success(total % ADDRESSES, target.device) else Failed(ERR_EIO, total % ADDRESSES), t;
  }

  lemma TruncateChangesOneFile(before: seq<Disk>, after: seq<Disk>, device: u8, path: string)
    requires |before| == |after| == DEVICES && device < DEVICES
    requires forall d | 0 <= d < DEVICES && d != device :: after[d] == before[d]
    requires after[device] == before[device] || after[device] == before[device][path := []]
    ensures OnlyFileChanges(before, after, device, path)
  {
  }

  lemma OneFileOneDrive(before: seq<Disk>, after: seq<Disk>, device: u8, path: string)
    requires OnlyFileChanges(before, after, device, path)
    ensures OneDrive(before, after, device)
  {
  }

  lemma OnlyFileTrans(a: seq<Disk>, b: seq<Disk>, d: seq<Disk>, device: u8, path: string)
    requires OnlyFileChanges(a, b, device, path) && OnlyFileChanges(b, d, device, path)
    ensures OnlyFileChanges(a, d, device, path)
  {
  }

  method SaveAndClose(e: Executor, c: u8, h: u8, ptr: u16, size: nat)
    returns (total: nat, ok: bool, ghost torn: nat, ghost writes: seq<WriteOutcome>)
    requires e.Valid() && c < MAX_BRACKET_CONTEXTS
    requires e.store.IsFile(h) && e.store.files[h].canWrite && e.store.files[h].pos == 0
    requires e.store.FileOf(h) == [] && ValidRange(ptr, size)
    modifies e.machine, e.store.files, e.store.disks, e.store.fat
    ensures e.Valid() && SameBus(old(e.machine.BusState()), e.machine.BusState())
    ensures ClosedOnly(old(e.store.files[..]), e.store.files[..], h)
    ensures total + torn <= size && SavedBy(size, writes, total, torn, total < size) && (ok ==> total == size)
    ensures Later(old(e.store.fat.calls), e.store.fat.calls)
    ensures ok || Refused(old(e.store.fat.calls), e.store.fat.calls)
    ensures Bytes(e.store.disks[old(e.store.files[h].device)], old(e.store.files[h].path)) ==
            e.machine.Memory(c, ptr, size)[..total + torn]
    ensures OnlyFileChanges(old(e.store.disks[..]), e.store.disks[..],
                            old(e.store.files[h].device), old(e.store.files[h].path))
  {
    hide Settled, Exec, ExecAll, SameBus, OnlyFileChanges, SavedBy, Enter, Steal, Transparent;
    hide Store.HandlesOk, Store.DevicesOk, Refused, Later;
    BracketRestores(e.machine.BusState(), c);
    var begun, state, context := e.machine.BeginContextAccess(c);
    assert begun;
    var failed;
    total, failed, torn, writes := SaveLoop(e.machine, e.store, h, ptr, size);
    SavedFails(size, writes, total, torn, failed);
    assert e.machine.context == c;
    ghost var source := e.machine.Memory(c, ptr, size);
    e.machine.EndContextAccess(state, context);
    assert e.machine.Memory(c, ptr, size) == source;
    ghost var calls := e.store.fat.calls;
    ghost var call := FatCall(CloseFn, e.store.files[h].device, e.store.files[h].path, "", true);
    var closed := e.store.Close(h);
    OneCall(calls, call.(ok := closed));
    LaterTrans(old(e.store.fat.calls), calls, e.store.fat.calls);
    ok := !failed && closed;
  }
}
