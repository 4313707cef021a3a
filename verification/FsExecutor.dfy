/**
 The filesystem request handlers (rp_fs_mailbox.cpp). A request names its caller's context and an
 argument block inside it; the reply is what the mailbox publishes.
 */
module FsExecutor {
  import opened Words
  import opened MmuTable
  import opened SystemBus
  import opened PhysicalMemory
  import opened Neobus
  import opened PathModel
  import opened PathEngine
  import opened Storage
  import opened CallerMemory

  const ERR_ENOENT: u8 := 2
  const ERR_EIO: u8 := 3
  const ERR_ENOMEM: u8 := 4
  const ERR_EINVAL: u8 := 6
  const FLAG_EOF: u8 := 1
  const CHUNK: nat := 256
  const DIRENT_SIZE: nat := 18
  const NAME_ROOM: nat := 13

  /**
   What rp_mailbox_set_done, set_done32 and set_error publish. The two successes differ only in
   the width of the value.
   */
  datatype Reply = Success(value: u32, flags: u8) | Failed(err: u8, partial: u16)

  const REJECTED: Reply := Failed(ERR_EINVAL, 0)

  /** A 16-bit field of the argument block. */
  ghost function Arg(m: Ram, pages: PageMap, c: nat, args: u16, k: nat): u16
    requires ValidPages(pages) && c < CONTEXTS && args + k + 1 < ADDRESSES
  {
    Word([View(m, pages, c, args + k), View(m, pages, c, args + k + 1)], 0)
  }

  function AtMostChunk(len: u16): (n: u16)
    ensures n <= 256 && n <= len && (n == 256 || n == len)
  {
    if len > CHUNK then CHUNK else len
  }

  function Bytes32(v: u32): seq<u8> {
    [v % 256, v / 256 % 256, v / 65536 % 256, v / 16777216 % 256]
  }

  lemma Bytes32Exact(v: u32)
    ensures var b: seq<int> := Bytes32(v); b[0] + 256 * b[1] + 65536 * b[2] + 16777216 * b[3] == v
  {
    var a := v / 256;
    var b := a / 256;
    assert a / 256 == v / 65536 && b / 256 == v / 16777216;
    assert v == v % 256 + 256 * a && a == a % 256 + 256 * b && b == b % 256 + 256 * (b / 256);
  }

  /** The two's complement reading of 32 bits. */
  function Signed32(bits: u32): (v: int)
    ensures -0x8000_0000 <= v < 0x8000_0000 && (v - bits) % 0x1_0000_0000 == 0
  {
    if bits < 0x8000_0000 then bits else bits - 0x1_0000_0000
  }

  /** Where a seek wants to go, from the start, the current position or the end. */
  function SeekTarget(mode: u8, offset: u32, pos: u32, size: u32): Option<int> {
    if mode == 0 then Some(Signed32(offset))
    else if mode == 1 then Some(pos + Signed32(offset))
    else if mode == 2 then Some(size + Signed32(offset))
    else None
  }

  /** From the start a seek of bits reaches bits; from elsewhere, the sum; any other mode, nothing. */
  lemma SeekModes(mode: u8, offset: u32, pos: u32, size: u32)
    ensures var target := SeekTarget(mode, offset, pos, size);
            && (target.Some? <==> mode < 3)
            && (mode == 0 ==>
                  -0x8000_0000 <= target.value < 0x8000_0000 && (target.value - offset) % 0x1_0000_0000 == 0)
            && (mode == 1 ==> SeekTarget(1, offset, pos, size) == Some(pos + SeekTarget(0, offset, pos, size).value))
            && (mode == 2 ==> SeekTarget(2, offset, pos, size) == Some(size + SeekTarget(0, offset, pos, size).value))
  {
  }

  predicate Reachable(target: Option<int>) {
    target.Some? && 0 <= target.value <= 0xFFFF_FFFF
  }

  function AsBytes(s: string): (b: seq<u8>)
    ensures |b| == |s| && forall i | 0 <= i < |s| && s[i] < 256 as char :: b[i] == s[i] as int
  {
    seq(|s|, i requires 0 <= i < |s| => s[i] as int % 256)
  }

  /** struct dirent: up to 12 name characters padded with NUL to 13, attribute, 32-bit size. */
  function DirentBytes(name: string, attr: u8, size: u32): (b: seq<u8>)
    ensures |b| == DIRENT_SIZE
  {
    var shown := if |name| > 12 then name[..12] else name;
    AsBytes(shown) + seq(13 - |shown|, _ => 0) + [attr] + Bytes32(size)
  }

  /** What a reader of struct dirent finds: the name and a NUL, the attribute at 13 and the size at 14. */
  lemma DirentFields(name: string, attr: u8, size: u32)
    requires |name| <= 12 && forall i | 0 <= i < |name| :: name[i] < 256 as char
    ensures var b: seq<int> := DirentBytes(name, attr, size);
            && (forall i | 0 <= i < |name| :: b[i] == name[i] as int)
            && (forall i | |name| <= i < 13 :: b[i] == 0)
            && b[13] == attr && b[14] + 256 * b[15] + 65536 * b[16] + 16777216 * b[17] == size
  {
    Bytes32Exact(size);
    assert DirentBytes(name, attr, size)[14..18] == Bytes32(size);
  }

  lemma NothingWritten(file: File, pos: u32)
    ensures Overwritten(file, pos, []) == file && WrittenAt(file, pos, [], file)
  {
  }

  /** A READ fails only for a handle without the permission or a refused call, and else comes up short only for one. */
  ghost predicate ReadAsAsked(reply: Reply, len: u16, canRead: bool, pos: nat, size: nat,
                              before: seq<FatCall>, after: seq<FatCall>) {
    && Later(before, after)
    && (reply.Failed? ==> reply == Failed(ERR_EIO, 0) && len > 0 && (!canRead || Refused(before, after)))
    && (reply.Success? ==>
          (len > 0 ==> canRead) && (!Refused(before, after) ==> reply.value == Available(pos, size, len)))
  }

  /** Likewise a WRITE. */
  ghost predicate WriteAsAsked(reply: Reply, len: u16, canWrite: bool, before: seq<FatCall>, after: seq<FatCall>) {
    && Later(before, after)
    && (reply.Failed? ==> len > 0 && (!canWrite || Refused(before, after)))
    && (reply.Success? ==> (len > 0 ==> canWrite) && (!Refused(before, after) ==> reply.value == len))
  }

  /**
   A SEEK fails only for a refused call. Beyond the end it grows a writable file, unless refused, and
   keeps its bytes.
   */
  ghost predicate SeekAsAsked(reply: Reply, target: u32, canWrite: bool, file: File, grown: File,
                              before: seq<FatCall>, after: seq<FatCall>) {
    && Later(before, after)
    && (reply.Failed? ==> reply == Failed(ERR_EIO, 0) && Refused(before, after) && grown == file)
    && (reply.Success? ==>
          && file <= grown && reply.value <= |grown|
          && (target <= |file| ==> reply.value == target && grown == file)
          && (target > |file| ==> |file| <= reply.value <= target && (!canWrite ==> grown == file))
          && (!Refused(before, after) && canWrite ==> reply.value == target))
  }

  class Executor {
    const machine: Machine
    const store: Store
    const cwd: CwdTable

    ghost predicate Valid()
      reads machine, store, store.usb, store.mounted, store.files, store.dirs, cwd, cwd.slots
    {
      machine.Valid() && Settled(machine.BusState()) && store.Valid() && cwd.Valid()
    }

    constructor (machine: Machine, store: Store, cwd: CwdTable)
      requires machine.Valid() && Settled(machine.BusState()) && store.Valid() && cwd.Valid()
      ensures Valid() && this.machine == machine && this.store == store && this.cwd == cwd
    {
      this.machine, this.store, this.cwd := machine, store, cwd;
    }

    /** The caller's memory, as a field of the argument block. */
    ghost function Field(c: nat, args: u16, k: nat): u16
      requires machine.Valid() && c < CONTEXTS && args + k + 1 < ADDRESSES
      reads machine, machine.ram
    {
      Arg(machine.Ram(), machine.pages, c, args, k)
    }

    /** The working directory that a path argument of the process is resolved against. */
    function Slot(pid: u8): Cwd
      requires cwd.slots.Length == MAX_PROCS
      reads cwd.slots
    {
      if pid < MAX_PROCS then cwd.slots[pid] else Cwd(false, 0, "")
    }

    /** Copies an argument block, whose words are then the fields of the block. */
    method ReadArgs(c: u8, args: u16, length: u16) returns (raw: Option<seq<u8>>)
      requires Valid()
      modifies machine
      ensures Valid() && SameBus(old(machine.BusState()), machine.BusState())
      ensures raw.Some? <==> PrivateRange(args, length) && c < MAX_BRACKET_CONTEXTS
      ensures raw.Some? ==> |raw.value| == length
      ensures raw.Some? ==>
                forall k: nat | k < length :: raw.value[k] == View(machine.Ram(), machine.pages, c, args + k)
      ensures raw.Some? ==> forall k: nat | k + 1 < length :: Word(raw.value, k) == Field(c, args, k)
    {
      hide Settled;
      raw := ReadBlock(machine, c, args, length);
    }

    /** A write-back whose range was checked before is never refused. */
    method WriteBack(c: u8, address: u16, bytes: seq<u8>)
      requires Valid() && c < MAX_BRACKET_CONTEXTS && |bytes| < ADDRESSES && PrivateRange(address, |bytes|)
      modifies machine, machine.ram
      ensures Valid() && SameBus(old(machine.BusState()), machine.BusState())
      ensures Wrote(machine.pages, c, old(machine.Ram()), machine.Ram(), address, bytes)
      ensures OnlyPrivate(machine.pages, c, old(machine.Ram()), machine.Ram())
    {
      hide Settled, SameBus, Wrote, Apply, CopyWrites, OnlyPrivate;
      var ok := WriteBlock(machine, c, address, bytes);
      assert ok;
    }

    ghost predicate ReadAccepted(c: nat, args: u16, h: u8)
      requires machine.Valid() && store.Valid() && c < CONTEXTS
      reads machine, machine.ram, store, store.usb, store.mounted, store.files, store.dirs
    {
      && PrivateRange(args, 6) && store.IsFile(h) && Field(c, args, 2) != 0
      && (Field(c, args, 4) != 0 ==> PrivateRange(Field(c, args, 2), AtMostChunk(Field(c, args, 4))))
    }

    /** Decodes a read or write request: the caller's buffer and at most 256 bytes of it. */
    method TransferArgs(c: u8, args: u16, h: u8) returns (accepted: bool, ptr: u16, len: u16)
      requires Valid() && c < MAX_BRACKET_CONTEXTS
      modifies machine
      ensures Valid() && SameBus(old(machine.BusState()), machine.BusState())
      ensures accepted <==> old(ReadAccepted(c, args, h))
      ensures accepted ==> ptr == old(Field(c, args, 2)) && len == AtMostChunk(old(Field(c, args, 4)))
    {
      hide Settled, SameBus, Store.HandlesOk, Store.DevicesOk;
      ptr, len := 0, 0;
      var raw := ReadArgs(c, args, 6);
      if raw.None? || h >= FILES || !store.files[h].inUse {
        return false, ptr, len;
      }
      ptr, len := Word(raw.value, 2), AtMostChunk(Word(raw.value, 4));
      return ptr != 0 && (len == 0 || PrivateRange(ptr, len)), ptr, len;
    }

    /**
     The next n bytes of the file, from the position on, have moved to the caller's buffer and
     nowhere else; the flag tells whether the file is exhausted.
     */
    ghost predicate Delivered(reply: Reply, c: nat, dst: u16, len: u16, h: u8, pos: u32, before: Ram)
      requires machine.Valid() && store.Valid() && c < CONTEXTS && store.IsFile(h)
      reads machine, machine.ram, store, store.usb, store.mounted, store.files, store.dirs, store.disks
    {
      var file := store.FileOf(h);
      && reply.Success? && reply.value <= len && store.files[h].pos == pos + reply.value
      && reply.flags == (if store.files[h].pos >= |file| then FLAG_EOF else 0)
      && (reply.value > 0 ==> pos + reply.value <= |file|)
      && Wrote(machine.pages, c, before, machine.Ram(), dst,
               if reply.value > 0 then file[pos..pos + reply.value] else [])
    }

    /**
     READ: a rejected request changes nothing; a failed one changes no memory; a completed one has
     moved exactly the next bytes of the file to the caller's buffer.
     */
    method ExecRead(c: u8, args: u16, h: u8) returns (reply: Reply)
      requires Valid() && c < MAX_BRACKET_CONTEXTS
      modifies machine, machine.ram, store.files, store.fat
      ensures Valid() && SameBus(old(machine.BusState()), machine.BusState())
      ensures reply == REJECTED <==> !old(ReadAccepted(c, args, h))
      ensures reply == REJECTED ==> store.files[..] == old(store.files[..])
      ensures Later(old(store.fat.calls), store.fat.calls)
      ensures reply == REJECTED ==> store.fat.calls == old(store.fat.calls)
      ensures reply != REJECTED ==>
                ReadAsAsked(reply, AtMostChunk(old(Field(c, args, 4))), old(store.files[h].canRead),
                            old(store.files[h].pos), |old(store.FileOf(h))|, old(store.fat.calls), store.fat.calls)
      ensures SameButPosition(old(store.files[..]), store.files[..], h)
      ensures reply.Failed? ==> machine.Ram() == old(machine.Ram())
      ensures OnlyPrivate(machine.pages, c, old(machine.Ram()), machine.Ram())
      ensures reply.Success? ==>
                store.IsFile(h) && Delivered(reply, c, old(Field(c, args, 2)), AtMostChunk(old(Field(c, args, 4))), h,
                                             old(store.files[h].pos), old(machine.Ram()))
    {
      hide Settled, Apply, SameBus, OnlyPrivate, Wrote, Delivered, Store.HandlesOk, Store.DevicesOk, ReadAsAsked, Later;
      NoCall(store.fat.calls);
      var accepted, dst, len := TransferArgs(c, args, h);
      NothingCopied(machine.Ram(), machine.pages, c, dst);
      if !accepted {
        return REJECTED;
      }
      ghost var bus := machine.BusState();
      reply := ReadInto(c, dst, len, h);
      SameBusTrans(old(machine.BusState()), bus, machine.BusState());
    }

    method ReadInto(c: u8, dst: u16, len: u16, h: u8) returns (reply: Reply)
      requires Valid() && c < MAX_BRACKET_CONTEXTS && store.IsFile(h) && (len == 0 || PrivateRange(dst, len))
      modifies machine, machine.ram, store.files, store.fat
      ensures Later(old(store.fat.calls), store.fat.calls)
      ensures Valid() && SameBus(old(machine.BusState()), machine.BusState())
      ensures reply != REJECTED && SameButPosition(old(store.files[..]), store.files[..], h)
      ensures ReadAsAsked(reply, len, old(store.files[h].canRead), old(store.files[h].pos), |old(store.FileOf(h))|,
                          old(store.fat.calls), store.fat.calls)
      ensures reply.Failed? ==> machine.Ram() == old(machine.Ram())
      ensures OnlyPrivate(machine.pages, c, old(machine.Ram()), machine.Ram())
      ensures reply.Success? ==>
                store.IsFile(h) && Delivered(reply, c, dst, len, h, old(store.files[h].pos), old(machine.Ram()))
    {
      hide Settled, Apply, OnlyPrivate, Wrote, Store.HandlesOk, Store.DevicesOk, Store.FileOf, CopyWrites;
      hide Refused, Later;
      NoCall(store.fat.calls);
      NothingCopied(machine.Ram(), machine.pages, c, dst);
      if len == 0 {
        reply := Completed(h, 0);
        return;
      }
      var data := store.Read(h, len);
      if data.None? {
        return Failed(ERR_EIO, 0);
      }
      if data.value != [] {
        WriteBack(c, dst, data.value);
      }
      reply := Completed(h, |data.value|);
    }

    method Completed(h: u8, n: u16) returns (reply: Reply)
      requires Valid() && store.IsFile(h)
      ensures reply == Success(n, if store.files[h].pos >= |store.FileOf(h)| then FLAG_EOF else 0)
    {
      var pos := store.Position(h);
      var size := store.Size(h);
      return Success(n, if pos >= size then FLAG_EOF else 0);
    }

    /**
     What a WRITE attempt leaves behind: the file has the stored bytes of the caller's buffer at the
     position, no other file changes on any drive, and the reply counts the bytes unless the write
     reported an error.
     */
    ghost predicate Stored(reply: Reply, w: WriteOutcome, h: u8, data: seq<u8>, file: File, before: FileHandle,
                           disks: seq<Disk>)
      requires store.Valid() && store.IsFile(h)
      reads store, store.usb, store.mounted, store.files, store.dirs, store.disks
    {
      && w.stored <= |data| <= CHUNK && reply == (if w.error then Failed(ERR_EIO, 0) else Success(w.stored, 0))
      && store.files[h].pos == before.pos + w.stored
      && store.FileOf(h) == Overwritten(file, before.pos, data[..w.stored])
      && WrittenAt(file, before.pos, data[..w.stored], store.FileOf(h))
      && OnlyFileChanges(disks, store.disks[..], before.device, before.path)
    }

    /** WRITE: memory never changes; a rejected request changes nothing at all. */
    method ExecWrite(c: u8, args: u16, h: u8) returns (reply: Reply, ghost w: WriteOutcome)
      requires Valid() && c < MAX_BRACKET_CONTEXTS
      modifies machine, store.files, store.disks, store.fat
      ensures Valid() && SameBus(old(machine.BusState()), machine.BusState())
      ensures reply == REJECTED <==> !old(ReadAccepted(c, args, h))
      ensures reply == REJECTED ==> store.files[..] == old(store.files[..]) && store.disks[..] == old(store.disks[..])
      ensures Later(old(store.fat.calls), store.fat.calls)
      ensures reply == REJECTED ==> store.fat.calls == old(store.fat.calls)
      ensures reply != REJECTED ==>
                WriteAsAsked(reply, AtMostChunk(old(Field(c, args, 4))), old(store.files[h].canWrite),
                             old(store.fat.calls), store.fat.calls)
      ensures SameButPosition(old(store.files[..]), store.files[..], h)
      ensures reply != REJECTED ==>
                && store.IsFile(h)
                && Stored(reply, w, h, machine.Memory(c, old(Field(c, args, 2)), AtMostChunk(old(Field(c, args, 4)))),
                          old(store.FileOf(h)), old(store.files[h]), old(store.disks[..]))
    {
      hide Settled, SameBus, Store.HandlesOk, Store.DevicesOk, Store.FileOf, Executor.Stored, WriteAsAsked, Later;
      NoCall(store.fat.calls);
      w := WriteOutcome(0, true);
      var accepted, src, len := TransferArgs(c, args, h);
      if !accepted {
        return REJECTED, w;
      }
      ghost var bus := machine.BusState();
      reply, w := WriteFrom(c, src, len, h);
      SameBusTrans(old(machine.BusState()), bus, machine.BusState());
    }

    method WriteFrom(c: u8, src: u16, len: u16, h: u8) returns (reply: Reply, ghost w: WriteOutcome)
      requires Valid() && c < MAX_BRACKET_CONTEXTS && store.IsFile(h) && len <= CHUNK
      requires len == 0 || PrivateRange(src, len)
      modifies machine, store.files, store.disks, store.fat
      ensures Later(old(store.fat.calls), store.fat.calls)
      ensures Valid() && SameBus(old(machine.BusState()), machine.BusState())
      ensures reply != REJECTED && SameButPosition(old(store.files[..]), store.files[..], h)
      ensures WriteAsAsked(reply, len, old(store.files[h].canWrite), old(store.fat.calls), store.fat.calls)
      ensures store.IsFile(h) && Stored(reply, w, h, machine.Memory(c, src, len), old(store.FileOf(h)),
                                        old(store.files[h]), old(store.disks[..]))
    {
      hide Settled, Store.HandlesOk, Store.DevicesOk, Store.FileOf, Overwritten, WrittenAt, Refused, Later;
      NoCall(store.fat.calls);
      if len == 0 {
        NothingWritten(store.FileOf(h), store.files[h].pos);
      }
      if len == 0 {
        assert store.FileOf(h) == store.FileOf(h);
        return Success(0, 0), WriteOutcome(0, false);
      }
      var data := ReadBlock(machine, c, src, len);
      assert data.value == machine.Memory(c, src, len);
      var count;
      count, w := store.Write(h, data.value);
      return if count.None? then Failed(ERR_EIO, 0) else Success(count.value, 0), w;
    }

    ghost predicate SeekAccepted(c: nat, args: u16, h: u8)
      requires machine.Valid() && store.Valid() && c < CONTEXTS
      reads machine, machine.ram, store, store.usb, store.mounted, store.files, store.dirs, store.disks
    {
      PrivateRange(args, 10) && store.IsFile(h) && Reachable(Wanted(c, args, h))
    }

    ghost function Wanted(c: nat, args: u16, h: u8): Option<int>
      requires machine.Valid() && store.Valid() && c < CONTEXTS && args + 9 < ADDRESSES && store.IsFile(h)
      reads machine, machine.ram, store, store.usb, store.mounted, store.files, store.dirs, store.disks
    {
      SeekTarget(machine.Seen(c, args + 1), Field(c, args, 2) + 0x1_0000 * Field(c, args, 4),
                 store.files[h].pos, |store.FileOf(h)|)
    }

    /** SEEK: rejected exactly for a bad block, handle, mode or target; else the position is reported twice. */
    method ExecSeek(c: u8, args: u16, h: u8) returns (reply: Reply)
      requires Valid() && c < MAX_BRACKET_CONTEXTS
      modifies machine, machine.ram, store.files, store.disks, store.fat
      ensures Valid() && SameBus(old(machine.BusState()), machine.BusState())
      ensures reply == REJECTED <==> !old(SeekAccepted(c, args, h))
      ensures reply == REJECTED ==> store.files[..] == old(store.files[..]) && store.disks[..] == old(store.disks[..])
      ensures Later(old(store.fat.calls), store.fat.calls)
      ensures reply == REJECTED ==> store.fat.calls == old(store.fat.calls)
      ensures reply != REJECTED ==>
                && store.IsFile(h)
                && SeekAsAsked(reply, old(Wanted(c, args, h)).value, old(store.files[h].canWrite), old(store.FileOf(h)),
                               store.FileOf(h), old(store.fat.calls), store.fat.calls)
      ensures SameButPosition(old(store.files[..]), store.files[..], h)
      ensures reply.Failed? ==> machine.Ram() == old(machine.Ram())
      ensures OnlyPrivate(machine.pages, c, old(machine.Ram()), machine.Ram())
      ensures reply.Success? ==>
                && reply == Success(store.files[h].pos, 0)
                && Wrote(machine.pages, c, old(machine.Ram()), machine.Ram(), args + 6, Bytes32(reply.value))
                && (old(Wanted(c, args, h)).value <= |old(store.FileOf(h))| ==>
                      old(Wanted(c, args, h)) == Some(reply.value))
      ensures reply != REJECTED ==>
                OnlyFileChanges(old(store.disks[..]), store.disks[..], store.files[h].device, store.files[h].path)
    {
      hide Settled, Apply, SameBus, OnlyPrivate, Wrote, Store.HandlesOk, Store.DevicesOk, Store.FileOf;
      hide Executor.Wanted, CopyWrites, SeekAsAsked, Later;
      NoCall(store.fat.calls);
      var target := SeekArgs(c, args, h);
      NothingCopied(machine.Ram(), machine.pages, c, 0);
      if !Reachable(target) {
        return REJECTED;
      }
      ghost var bus := machine.BusState();
      reply := SeekAndReport(c, args, h, target.value);
      SameBusTrans(old(machine.BusState()), bus, machine.BusState());
    }

    method SeekArgs(c: u8, args: u16, h: u8) returns (target: Option<int>)
      requires Valid() && c < MAX_BRACKET_CONTEXTS
      modifies machine
      ensures Valid() && SameBus(old(machine.BusState()), machine.BusState())
      ensures target == if PrivateRange(args, 10) && store.IsFile(h) then old(Wanted(c, args, h)) else None
    {
      hide Settled, SameBus, Store.HandlesOk, Store.DevicesOk;
      var raw := ReadArgs(c, args, 10);
      if raw.None? || h >= FILES || !store.files[h].inUse {
        return None;
      }
      var low: int, high: int := Word(raw.value, 2), Word(raw.value, 4);
      var pos := store.Position(h);
      var size := store.Size(h);
      return SeekTarget(raw.value[1], low + 0x1_0000 * high, pos, size);
    }

    method SeekAndReport(c: u8, args: u16, h: u8, target: u32) returns (reply: Reply)
      requires Valid() && c < MAX_BRACKET_CONTEXTS && store.IsFile(h) && PrivateRange(args, 10)
      modifies machine, machine.ram, store.files, store.disks, store.fat
      ensures Later(old(store.fat.calls), store.fat.calls)
      ensures Valid() && SameBus(old(machine.BusState()), machine.BusState())
      ensures reply != REJECTED && SameButPosition(old(store.files[..]), store.files[..], h)
      ensures store.IsFile(h)
      ensures SeekAsAsked(reply, target, old(store.files[h].canWrite), old(store.FileOf(h)), store.FileOf(h),
                          old(store.fat.calls), store.fat.calls)
      ensures reply.Failed? ==> machine.Ram() == old(machine.Ram())
      ensures OnlyPrivate(machine.pages, c, old(machine.Ram()), machine.Ram())
      ensures reply.Success? ==>
                && reply == Success(store.files[h].pos, 0)
                && Wrote(machine.pages, c, old(machine.Ram()), machine.Ram(), args + 6, Bytes32(reply.value))
                && (target <= |old(store.FileOf(h))| ==> reply.value == target)
      ensures OnlyFileChanges(old(store.disks[..]), store.disks[..], store.files[h].device, store.files[h].path)
    {
      hide Settled, Apply, OnlyPrivate, Wrote, Store.HandlesOk, Store.DevicesOk, Store.FileOf, CopyWrites, Refused;
      hide Later;
      ghost var file := store.FileOf(h);
      NothingCopied(machine.Ram(), machine.pages, c, 0);
      var ok := store.Seek(h, target);
      if !ok {
        return Failed(ERR_EIO, 0);
      }
      var position := store.Position(h);
      WriteBack(c, args + 6, Bytes32(position));
      return Success(position, 0);
    }

    /** TELL: the only effect is the 32-bit position in the argument block. */
    method ExecTell(c: u8, args: u16, h: u8) returns (reply: Reply)
      requires Valid() && c < MAX_BRACKET_CONTEXTS
      modifies machine, machine.ram
      ensures Valid() && SameBus(old(machine.BusState()), machine.BusState())
      ensures OnlyPrivate(machine.pages, c, old(machine.Ram()), machine.Ram())
      ensures if PrivateRange(args, 6) && store.IsFile(h) then
                && reply == Success(store.files[h].pos, 0)
                && Wrote(machine.pages, c, old(machine.Ram()), machine.Ram(), args + 2, Bytes32(reply.value))
              else reply == REJECTED && machine.Ram() == old(machine.Ram())
    {
      hide Settled, Apply, SameBus, OnlyPrivate, Wrote, Store.HandlesOk, Store.DevicesOk;
      var raw := ReadArgs(c, args, 6);
      NothingCopied(machine.Ram(), machine.pages, c, 0);
      if raw.None? || h >= FILES || !store.files[h].inUse {
        return REJECTED;
      }
      var position := store.Position(h);
      ghost var bus := machine.BusState();
      WriteBack(c, args + 2, Bytes32(position));
      SameBusTrans(old(machine.BusState()), bus, machine.BusState());
      return Success(position, 0);
    }

    ghost predicate ReadDirAccepted(c: nat, args: u16, h: u8)
      requires machine.Valid() && store.Valid() && c < CONTEXTS
      reads machine, machine.ram, store, store.usb, store.mounted, store.files, store.dirs
    {
      && PrivateRange(args, 6) && store.IsDir(h)
      && Field(c, args, 4) >= DIRENT_SIZE && PrivateRange(Field(c, args, 2), DIRENT_SIZE)
    }

    /** READDIR: the entry delivered is the next listable one, whole, in the caller's buffer. */
    method ExecReadDir(c: u8, args: u16, h: u8) returns (reply: Reply)
      requires Valid() && c < MAX_BRACKET_CONTEXTS
      modifies machine, machine.ram, store.dirs, store.fat
      ensures Valid() && SameBus(old(machine.BusState()), machine.BusState())
      ensures reply == REJECTED <==> !old(ReadDirAccepted(c, args, h))
      ensures reply == REJECTED ==> store.dirs[..] == old(store.dirs[..]) && store.fat.calls == old(store.fat.calls)
      ensures Later(old(store.fat.calls), store.fat.calls)
      ensures reply.Failed? && reply != REJECTED ==>
                var rest := old(store.dirs[h].rest);
                var k := NextShown(rest);
                && reply == Failed(ERR_EIO, 0)
                && (Refused(old(store.fat.calls), store.fat.calls)
                    || (k < |rest| && |Shown(rest[k]).value| >= NAME_ROOM))
      ensures forall i | 0 <= i < DIRS ::
                if i == h then SameDir(old(store.dirs[i]), store.dirs[i]) else store.dirs[i] == old(store.dirs[i])
      ensures reply.Failed? ==> machine.Ram() == old(machine.Ram())
      ensures OnlyPrivate(machine.pages, c, old(machine.Ram()), machine.Ram())
      ensures reply.Success? ==>
                var rest := old(store.dirs[h].rest);
                var k := NextShown(rest);
                if k < |rest| then
                  && reply == Success(1, 0) && store.dirs[h].rest == rest[k + 1..]
                  && Wrote(machine.pages, c, old(machine.Ram()), machine.Ram(), old(Field(c, args, 2)),
                           DirentBytes(Shown(rest[k]).value, rest[k].attr, rest[k].size))
                else reply == Success(0, FLAG_EOF) && machine.Ram() == old(machine.Ram())
    {
      hide Settled, Apply, SameBus, OnlyPrivate, Wrote, Store.HandlesOk, Store.DevicesOk, NextShown, Shown, DirentBytes;
      hide Refused, Later;
      NoCall(store.fat.calls);
      var raw := ReadArgs(c, args, 6);
      NothingCopied(machine.Ram(), machine.pages, c, 0);
      if raw.None? || h >= DIRS || !store.dirs[h].inUse {
        return REJECTED;
      }
      var dst, dstLen := Word(raw.value, 2), Word(raw.value, 4);
      if dstLen < DIRENT_SIZE || !PrivateRange(dst, DIRENT_SIZE) {
        return REJECTED;
      }
      var r := store.ReadDir(h, NAME_ROOM);
      match r
      case DirError => return Failed(ERR_EIO, 0);
      case DirEnd => return Success(0, FLAG_EOF);
      case Listed(name, attr, size) =>
        ghost var bus := machine.BusState();
        WriteBack(c, dst, DirentBytes(name, attr, size));
        SameBusTrans(old(machine.BusState()), bus, machine.BusState());
        return Success(1, 0);
    }

    ghost predicate GetCwdAccepted(pid: u8, c: nat, args: u16)
      requires machine.Valid() && c < CONTEXTS && cwd.Valid()
      reads machine, machine.ram, cwd, cwd.slots
    {
      && PrivateRange(args, 8) && Field(c, args, 6) == 0
      && pid < MAX_PROCS && cwd.slots[pid].valid
      && |CwdText(pid)| + 1 <= Field(c, args, 2) && PrivateRange(Field(c, args, 0), |CwdText(pid)| + 1)
    }

    ghost function CwdText(pid: u8): (text: string)
      requires cwd.Valid() && pid < MAX_PROCS
      reads cwd, cwd.slots
      ensures |text| < CWD_MAX + 3
    {
      Qualified(cwd.slots[pid].device, cwd.slots[pid].path)
    }

    /** GETCWD: the text and its NUL go to the buffer, the length into the argument block. */
    method ExecGetCwd(pid: u8, c: u8, args: u16) returns (reply: Reply)
      requires Valid() && c < MAX_BRACKET_CONTEXTS
      modifies machine, machine.ram
      ensures Valid() && SameBus(old(machine.BusState()), machine.BusState())
      ensures reply == REJECTED <==> !old(GetCwdAccepted(pid, c, args))
      ensures reply.Failed? ==> reply == REJECTED && machine.Ram() == old(machine.Ram())
      ensures OnlyPrivate(machine.pages, c, old(machine.Ram()), machine.Ram())
      ensures reply.Success? ==>
                var text := CwdText(pid);
                && reply == Success(|text|, 0)
                && WroteTwice(machine.pages, c, old(machine.Ram()), machine.Ram(),
                              old(Field(c, args, 0)), AsBytes(text + ['\0']), args + 4, [|text|, 0])
    {
      hide Settled, Apply, SameBus, OnlyPrivate, Wrote, Qualified;
      var raw := ReadArgs(c, args, 8);
      NothingCopied(machine.Ram(), machine.pages, c, 0);
      if raw.None? || raw.value[6] != 0 || raw.value[7] != 0 {
        return REJECTED;
      }
      var dst, dstLen := Word(raw.value, 0), Word(raw.value, 2);
      var text := cwd.Format(pid, PATH_MAX);
      if text.None? || |text.value| + 1 > dstLen {
        return REJECTED;
      }
      assert text.value == CwdText(pid);
      ghost var bus := machine.BusState();
      reply := DeliverCwd(c, args, dst, text.value);
      SameBusTrans(old(machine.BusState()), bus, machine.BusState());
    }

    method DeliverCwd(c: u8, args: u16, dst: u16, text: string) returns (reply: Reply)
      requires Valid() && c < MAX_BRACKET_CONTEXTS && PrivateRange(args, 8) && |text| < 255
      modifies machine, machine.ram
      ensures Valid() && SameBus(old(machine.BusState()), machine.BusState())
      ensures OnlyPrivate(machine.pages, c, old(machine.Ram()), machine.Ram())
      ensures if PrivateRange(dst, |text| + 1) then
                && reply == Success(|text|, 0)
                && WroteTwice(machine.pages, c, old(machine.Ram()), machine.Ram(),
                              dst, AsBytes(text + ['\0']), args + 4, [|text|, 0])
              else reply == REJECTED && machine.Ram() == old(machine.Ram())
    {
      hide Settled, Apply, SameBus, OnlyPrivate, Wrote, Store.HandlesOk, Store.DevicesOk;
      NothingCopied(machine.Ram(), machine.pages, c, 0);
      var copied := WriteBlock(machine, c, dst, AsBytes(text + ['\0']));
      if !copied {
        return REJECTED;
      }
      ghost var bus, ram := machine.BusState(), machine.Ram();
      WriteBack(c, args + 4, [|text|, 0]);
      SameBusTrans(old(machine.BusState()), bus, machine.BusState());
      OnlyPrivateTrans(machine.pages, c, old(machine.Ram()), ram, machine.Ram());
      assert Wrote(machine.pages, c, old(machine.Ram()), ram, dst, AsBytes(text + ['\0']));
      return Success(|text|, 0);
    }
  }

  /** STATUS: the number of mounted drives above a ready bit, and their mask. */
  method ExecStatus(e: Executor) returns (reply: Reply)
    requires e.Valid()
    ensures var mask, count := e.store.MountedSum(DEVICES, BIT_WEIGHTS), e.store.MountedSum(DEVICES, UNIT_WEIGHTS);
            reply.Success? && reply.value == (if mask != 0 then 1 else 0) + 256 * count && reply.flags == mask
  {
    var mask, count := e.store.MountedSummary();
    var high: int := count;
    return Success((if mask != 0 then 1 else 0) + 256 * high, mask);
  }

  /** CLOSE: frees the handle, even if the last data did not reach the stick. */
  method ExecClose(e: Executor, h: u8) returns (reply: Reply)
    requires e.Valid()
    modifies e.store.files, e.store.fat
    ensures e.Valid() && (reply == REJECTED <==> !old(e.store.IsFile(h)))
    ensures reply == REJECTED ==> e.store.fat.calls == old(e.store.fat.calls)
    ensures reply != REJECTED ==>
              && Later(old(e.store.fat.calls), e.store.fat.calls)
              && reply == if Refused(old(e.store.fat.calls), e.store.fat.calls) then Failed(ERR_EIO, 0)
                          else Success(0, 0)
    ensures e.store.files[..] == if old(e.store.IsFile(h))
                                 then old(e.store.files[..])[h := Freed(old(e.store.files[h]))]
                                 else old(e.store.files[..])
  {
    if h >= FILES || !e.store.files[h].inUse {
      return REJECTED;
    }
    ghost var call := FatCall(CloseFn, e.store.files[h].device, e.store.files[h].path, "", true);
    var ok := e.store.Close(h);
    OneCall(old(e.store.fat.calls), call.(ok := ok));
    return if ok then Success(0, 0) else Failed(ERR_EIO, 0);
  }

  /** CLOSEDIR: likewise for a directory handle. */
  method ExecCloseDir(e: Executor, h: u8) returns (reply: Reply)
    requires e.Valid()
    modifies e.store.dirs, e.store.fat
    ensures e.Valid() && (reply == REJECTED <==> !old(e.store.IsDir(h)))
    ensures reply == REJECTED ==> e.store.fat.calls == old(e.store.fat.calls)
    ensures reply != REJECTED ==>
              && Later(old(e.store.fat.calls), e.store.fat.calls)
              && reply == if Refused(old(e.store.fat.calls), e.store.fat.calls) then Failed(ERR_EIO, 0)
                          else Success(0, 0)
    ensures e.store.dirs[..] == if old(e.store.IsDir(h))
                                then old(e.store.dirs[..])[h := old(e.store.dirs[h]).(inUse := false, device := 0)]
                                else old(e.store.dirs[..])
  {
    if h >= DIRS || !e.store.dirs[h].inUse {
      return REJECTED;
    }
    ghost var call := FatCall(ClosedirFn, e.store.dirs[h].device, "", "", true);
    var ok := e.store.CloseDir(h);
    OneCall(old(e.store.fat.calls), call.(ok := ok));
    return if ok then Success(0, 0) else Failed(ERR_EIO, 0);
  }

  /** One copy, then another, which wins where they meet. */
  ghost predicate WroteTwice(pages: PageMap, c: nat, before: Ram, after: Ram, a: u16, xs: seq<u8>, b: u16, ys: seq<u8>)
    requires ValidPages(pages) && c < CONTEXTS
  {
    exists mid: Ram :: Wrote(pages, c, before, mid, a, xs) && Wrote(pages, c, mid, after, b, ys)
  }

  lemma NothingCopied(m: Ram, pages: PageMap, c: nat, address: u16)
    requires ValidPages(pages) && c < CONTEXTS
    ensures CopyWrites(pages, c, address, []) == [] && Apply(m, []) == m && OnlyPrivate(pages, c, m, m)
    ensures Wrote(pages, c, m, m, address, [])
  {
  }
}
