/**
 USB sticks, FatFs mounts and the RP-side handle tables (usb_storage.cpp, usb_fatfs.cpp, rp_fs.cpp).
 FatFs itself is a nondeterministic environment: any call may fail, and reads and writes may come
 up short. A file is its bytes; a handle adds a position.
 */
module Storage {
  import opened Words
  import opened Names83
  import opened PathModel
  import opened FatPaths

  const DEVICES: nat := 4
  const FILES: nat := 4
  const DIRS: nat := 4

  const BIT_WEIGHTS: seq<nat> := [1, 2, 4, 8]
  const BIT_LIMITS: seq<nat> := [1, 2, 4, 8, 16]
  const UNIT_WEIGHTS: seq<nat> := [1, 1, 1, 1]

  const BOOT_GRACE_MS: nat := 2000
  const MIN_AGE_MS: nat := 500
  const STAGGER_MS: nat := 1000

  datatype UsbSlot = UsbSlot(present: bool, mountPending: bool, devAddr: u8, since: u32)

  datatype FileHandle = FileHandle(inUse: bool, device: u8, canRead: bool, canWrite: bool, path: string, pos: u32)

  type FatName = s: string | s != "" witness "A"
  datatype Entry = Entry(name: FatName, alt: string, attr: u8, size: u32)

  datatype DirHandle = DirHandle(inUse: bool, device: u8, rest: seq<Entry>)

  datatype OpenMode = ReadOnly | Truncate | WriteExisting | RwExisting | RwCreate

  /** FAT32 sizes and positions are 32 bits wide. */
  const SIZE_LIMIT: nat := 0x1_0000_0000
  type File = s: seq<u8> | |s| < SIZE_LIMIT witness []

  type Disk = map<string, File>

  /** How an f_write ends: the bytes it stored, and whether it reports an error instead of their count. */
  datatype WriteOutcome = WriteOutcome(stored: nat, error: bool)

  datatype FatFn = MountFn | OpenFn | CloseFn | ReadFn | WriteFn | SeekFn | UnlinkFn | MkdirFn | RenameFn
                 | OpendirFn | ReaddirFn | ClosedirFn

  /** A call of FatFs; `ok` if it reported no error and did all that was asked of it. */
  datatype FatCall = FatCall(fn: FatFn, device: u8, path: string, to: string, ok: bool)

  /** FatFs on the sticks, which may refuse any call; the history of its calls. */
  class FatFs {
    ghost var calls: seq<FatCall>

    constructor ()
      ensures calls == []
    {
      calls := [];
    }

    method Attempt(fn: FatFn, device: u8, path: string, to: string, possible: bool) returns (ok: bool)
      modifies this
      ensures (ok ==> possible) && calls == old(calls) + [FatCall(fn, device, path, to, ok)]
    {
      ok := *;
      ok := ok && possible;
      calls := calls + [FatCall(fn, device, path, to, ok)];
    }
  }

  /** The calls go on from earlier ones. */
  ghost predicate Later(before: seq<FatCall>, after: seq<FatCall>) {
    before <= after
  }

  /** Some call in between was refused or came up short. */
  ghost predicate Refused(before: seq<FatCall>, after: seq<FatCall>) {
    exists i | |before| <= i < |after| :: !after[i].ok
  }

  /** A call was made in between, and did all that was asked. */
  ghost predicate Did(before: seq<FatCall>, after: seq<FatCall>, fn: FatFn, device: u8, path: string, to: string) {
    exists i | |before| <= i < |after| :: after[i] == FatCall(fn, device, path, to, true)
  }

  lemma LaterTrans(a: seq<FatCall>, b: seq<FatCall>, c: seq<FatCall>)
    requires Later(a, b) && Later(b, c)
    ensures Later(a, c) && (Refused(a, b) || Refused(b, c) <==> Refused(a, c))
    ensures forall fn, device, path, to ::
              Did(a, b, fn, device, path, to) || Did(b, c, fn, device, path, to) <==> Did(a, c, fn, device, path, to)
  {
  }

  lemma OneCall(a: seq<FatCall>, call: FatCall)
    ensures Later(a, a + [call]) && (Refused(a, a + [call]) <==> !call.ok)
    ensures forall fn, device, path, to ::
              Did(a, a + [call], fn, device, path, to) <==> call == FatCall(fn, device, path, to, true)
  {
    assert (a + [call])[|a|] == call;
  }

  lemma NoCall(a: seq<FatCall>)
    ensures Later(a, a) && !Refused(a, a)
    ensures forall fn, device, path, to :: !Did(a, a, fn, device, path, to)
  {
  }

  /** There is no stick to mount. */
  predicate Missing(usb: seq<UsbSlot>, device: u8)
    requires |usb| == DEVICES
  {
    device >= DEVICES || !usb[device].present
  }

  const EMPTY_SLOT: UsbSlot := UsbSlot(false, false, 0, 0)

  predicate ModeReads(mode: OpenMode) {
    mode == ReadOnly || mode == RwExisting || mode == RwCreate
  }

  predicate ModeWrites(mode: OpenMode) {
    mode != ReadOnly
  }

  /** A closed handle keeps neither device nor permissions. */
  function Freed(h: FileHandle): FileHandle {
    h.(inUse := false, device := 0, canRead := false, canWrite := false)
  }

  /** What a successful f_open leaves on the disk. */
  function Opened(disk: Disk, path: string, mode: OpenMode): Disk {
    match mode
    case Truncate => disk[path := []]
    case RwCreate => if path in disk then disk else disk[path := []]
    case _ => disk
  }

  function Bytes(disk: Disk, path: string): File {
    if path in disk then disk[path] else []
  }

  /** The data is at the position, and every byte before and behind it is as it was. */
  ghost predicate WrittenAt(file: File, pos: nat, data: seq<u8>, after: File) {
    if data == [] then after == file
    else
      && |after| == (if pos + |data| > |file| then pos + |data| else |file|)
      && after[pos..pos + |data|] == data
      && forall i | 0 <= i < |file| && !(pos <= i < pos + |data|) :: after[i] == file[i]
  }

  /** Bytes written at a position replace what was there and may extend the file. */
  function Overwritten(file: File, pos: nat, data: seq<u8>): (r: File)
    requires pos + |data| < SIZE_LIMIT
    ensures pos == |file| ==> r == file + data
    ensures data == [] ==> r == file
    ensures WrittenAt(file, pos, data, r)
  {
    if data == [] then file
    else
      var head := if pos <= |file| then file[..pos] else file + seq(pos - |file|, _ => 0);
      var r := head + data + if pos + |data| <= |file| then file[pos + |data|..] else [];
      assert r[pos..pos + |data|] == data;
      assert pos == |file| ==> r == file + data;
      r
  }

  /** How many of len bytes there are from a position to the end. */
  function Available(pos: nat, size: nat, len: nat): (n: nat)
    ensures n <= len && (n == len || (n == 0 && pos >= size) || pos + n == size)
    ensures pos + n <= size || n == 0
  {
    if pos >= size then 0 else if len <= size - pos then len else size - pos
  }

  /** A difference of two millisecond readings, as the firmware's signed 32-bit cast sees it. */
  function SignedDelta(a: u32, b: u32): (delta: int)
    ensures -0x8000_0000 <= delta < 0x8000_0000 && (delta - (a - b)) % 0x1_0000_0000 == 0
  {
    var d := (a - b) % 0x1_0000_0000;
    if d < 0x8000_0000 then d else d - 0x1_0000_0000
  }

  /** rp_fs_is_valid_83_name. */
  ghost predicate ListableName(name: string) {
    Valid83(if HasDrive(name) then name[3..] else name)
  }

  /** The name under which readdir lists an entry, if it lists it at all. */
  ghost function Shown(e: Entry): Option<string> {
    if e.name == "." || e.name == ".." then None
    else if ListableName(e.name) then Some(e.name)
    else if e.alt != "" && ListableName(e.alt) then Some(e.alt)
    else None
  }

  /** Names on a drive have no slash: the long one is listed if it is a valid 8.3 name, else the short one. */
  lemma ShownNames(e: Entry)
    requires '/' !in e.name && '/' !in e.alt
    ensures Valid83(e.name) ==> Shown(e) == Some(e.name)
    ensures e.name == "." || e.name == ".." ==> Shown(e) == None
    ensures !Valid83(e.name) && Valid83(e.alt) && e.name != "." && e.name != ".." ==> Shown(e) == Some(e.alt)
    ensures !Valid83(e.name) && !Valid83(e.alt) ==> Shown(e) == None
  {
    hide Valid83;
    if Valid83(e.name) {
      Valid83Shape(e.name);
    }
    if Valid83(e.alt) {
      Valid83Shape(e.alt);
    }
    assert |e.name| > 2 ==> e.name[2] in e.name;
    assert |e.alt| > 2 ==> e.alt[2] in e.alt;
  }

  /** The index of the first entry that is listed. */
  ghost function NextShown(rest: seq<Entry>): (k: nat)
    ensures k <= |rest| && (k < |rest| ==> Shown(rest[k]).Some?)
    ensures forall j | 0 <= j < k :: Shown(rest[j]) == None
  {
    if rest == [] || Shown(rest[0]).Some? then 0 else 1 + NextShown(rest[1..])
  }

  lemma NextShownFrom(rest: seq<Entry>, k: nat)
    requires k <= |rest|
    ensures NextShown(rest[k..]) ==
            if k == |rest| || Shown(rest[k]).Some? then 0 else 1 + NextShown(rest[k + 1..])
  {
    if k < |rest| {
      assert rest[k..][1..] == rest[k + 1..];
    }
  }

  /** The same open directory, perhaps at another entry. */
  predicate SameDir(before: DirHandle, after: DirHandle) {
    after == before.(rest := after.rest)
  }

  datatype DirResult = DirError | DirEnd | Listed(name: string, attr: u8, size: u32)

  class Store {
    const usb: array<UsbSlot>
    const mounted: array<bool>
    const files: array<FileHandle>
    const dirs: array<DirHandle>
    const disks: array<Disk>
    const fat: FatFs
    var mountEnable: u32
    var nextMountAllowed: u32

    ghost predicate Shape()
      reads this
    {
      && usb.Length == DEVICES && mounted.Length == DEVICES && disks.Length == DEVICES
      && files.Length == FILES && dirs.Length == DIRS
    }

    /** Present sticks have distinct USB addresses, and only present sticks are pending or mounted. */
    ghost predicate DevicesOk()
      requires Shape()
      reads this, usb, mounted
    {
      && (forall d, e | 0 <= d < e < DEVICES && usb[d].present && usb[e].present :: usb[d].devAddr != usb[e].devAddr)
      && (forall d | 0 <= d < DEVICES :: (mounted[d] || usb[d].mountPending) ==> usb[d].present)
    }

    /** Open handles belong to mounted devices; free handles carry no device and no permission. */
    ghost predicate HandlesOk()
      requires Shape()
      reads this, mounted, files, dirs
    {
      && (forall h | 0 <= h < FILES :: if files[h].inUse then files[h].device < DEVICES && mounted[files[h].device]
                                       else files[h].device == 0 && !files[h].canRead && !files[h].canWrite)
      && (forall h | 0 <= h < DIRS :: if dirs[h].inUse then dirs[h].device < DEVICES && mounted[dirs[h].device]
                                      else dirs[h].device == 0)
    }

    ghost predicate Valid()
      reads this, usb, mounted, files, dirs
    {
      Shape() && DevicesOk() && HandlesOk()
    }

    ghost predicate IsFile(h: u8)
      requires Shape()
      reads this, files
    {
      h < FILES && files[h].inUse
    }

    ghost predicate IsDir(h: u8)
      requires Shape()
      reads this, dirs
    {
      h < DIRS && dirs[h].inUse
    }

    /** The bytes of the file behind an open handle. */
    ghost function FileOf(h: u8): File
      requires Valid() && IsFile(h)
      reads this, usb, mounted, files, dirs, disks
      ensures files[h].device < DEVICES && usb[files[h].device].present
    {
      Bytes(disks[files[h].device], files[h].path)
    }

    constructor (now: u32)
      ensures Valid() && forall h | 0 <= h < FILES :: !files[h].inUse
      ensures fresh(usb) && fresh(mounted) && fresh(files) && fresh(dirs) && fresh(disks) && fresh(fat)
      ensures nextMountAllowed == mountEnable == (now + BOOT_GRACE_MS) % 0x1_0000_0000
    {
      usb := new UsbSlot[DEVICES](_ => EMPTY_SLOT);
      mounted := new bool[DEVICES](_ => false);
      files := new FileHandle[FILES](_ => FileHandle(false, 0, false, false, "", 0));
      dirs := new DirHandle[DIRS](_ => DirHandle(false, 0, []));
      disks := new Disk[DEVICES](_ => map[]);
      fat := new FatFs();
      mountEnable := (now + BOOT_GRACE_MS) % 0x1_0000_0000;
      nextMountAllowed := (now + BOOT_GRACE_MS) % 0x1_0000_0000;
    }

    // -------------------------------------------------------------------------
    // Plugging and unplugging
    // -------------------------------------------------------------------------

    method FindByAddress(addr: u8) returns (d: nat)
      requires Valid()
      ensures d <= DEVICES && (d < DEVICES ==> usb[d].present && usb[d].devAddr == addr)
      ensures forall e | 0 <= e < DEVICES && usb[e].present && usb[e].devAddr == addr :: e == d
    {
      d := 0;
      while d < DEVICES
        invariant d <= DEVICES
        invariant forall e | 0 <= e < d :: !(usb[e].present && usb[e].devAddr == addr)
      {
        if usb[d].present && usb[d].devAddr == addr {
          return;
        }
        d := d + 1;
      }
    }

    method FindFreeSlot() returns (d: nat)
      requires Valid()
      ensures d <= DEVICES && (d < DEVICES ==> !usb[d].present)
      ensures forall e | 0 <= e < d :: usb[e].present
    {
      d := 0;
      while d < DEVICES
        invariant d <= DEVICES
        invariant forall e | 0 <= e < d :: usb[e].present
      {
        if !usb[d].present {
          return;
        }
        d := d + 1;
      }
    }

    /** The slot for a stick that appears: the one that has its address already, else the first free one. */
    ghost predicate SlotFor(d: nat, addr: u8)
      requires Shape()
      reads this, usb
    {
      && d < DEVICES
      && if exists e | 0 <= e < DEVICES :: usb[e].present && usb[e].devAddr == addr
         then usb[d].present && usb[d].devAddr == addr
         else !usb[d].present && forall e | 0 <= e < d :: usb[e].present
    }

    /** A stick appears: it keeps its slot if it has one, else takes the first free one, if any. */
    method MountCallback(addr: u8, now: u32)
      requires Valid()
      modifies usb
      ensures Valid()
      ensures forall d: nat | old(SlotFor(d, addr)) :: usb[..] == old(usb[..])[d := UsbSlot(true, true, addr, now)]
      ensures (forall d | 0 <= d < DEVICES :: old(usb[d].present && usb[d].devAddr != addr)) ==> usb[..] == old(usb[..])
      ensures (exists d: nat :: old(SlotFor(d, addr))) <==>
              !forall d | 0 <= d < DEVICES :: old(usb[d].present && usb[d].devAddr != addr)
    {
      var d := FindByAddress(addr);
      if d == DEVICES {
        d := FindFreeSlot();
      }
      if d == DEVICES {
        return;
      }
      assert SlotFor(d, addr) && old(SlotFor(d, addr));
      usb[d] := UsbSlot(true, true, addr, now);
    }

    /** A stick goes: its handles are closed and its slot freed; nothing else changes. */
    method UnmountCallback(addr: u8)
      requires Valid()
      modifies usb, mounted, files, dirs
      ensures Valid()
      ensures forall d | 0 <= d < DEVICES :: !(usb[d].present && usb[d].devAddr == addr)
      ensures forall d | 0 <= d < DEVICES ::
                if old(usb[d].present && usb[d].devAddr == addr) then usb[d] == EMPTY_SLOT && !mounted[d]
                else usb[d] == old(usb[d]) && mounted[d] == old(mounted[d])
      ensures forall h | 0 <= h < FILES ::
                if old(files[h].inUse && usb[files[h].device].devAddr == addr) then !files[h].inUse
                else files[h] == old(files[h])
      ensures forall h | 0 <= h < DIRS ::
                if old(dirs[h].inUse && usb[dirs[h].device].devAddr == addr) then !dirs[h].inUse
                else dirs[h] == old(dirs[h])
    {
      var d := FindByAddress(addr);
      if d < DEVICES {
        Unmount(d);
        usb[d] := EMPTY_SLOT;
      }
    }

    /** usb_fatfs_mount: the first mount of a stick brings its own contents. */
    method Mount(device: u8) returns (ok: bool)
      requires Valid()
      modifies mounted, disks, fat
      ensures Valid() && (ok ==> device < DEVICES && mounted[device])
      ensures forall d | 0 <= d < DEVICES && d != device :: mounted[d] == old(mounted[d]) && disks[d] == old(disks[d])
      ensures device < DEVICES && !ok ==> mounted[device] == old(mounted[device]) == false
      ensures device < DEVICES && (old(mounted[device]) || !ok) ==> disks[device] == old(disks[device])
      ensures fat.calls == if device < DEVICES && !old(mounted[device]) && usb[device].present
                           then old(fat.calls) + [FatCall(MountFn, device, "", "", ok)] else old(fat.calls)
    {
      if device >= DEVICES {
        return false;
      }
      if mounted[device] {
        return true;
      }
      if !usb[device].present {
        return false;
      }
      ok := fat.Attempt(MountFn, device, "", "", true);
      if !ok {
        return;
      }
      var contents: Disk := *;
      disks[device] := contents;
      mounted[device] := true;
      return true;
    }

    /** There is no stick to mount. */
    ghost predicate Absent(device: u8)
      requires Shape()
      reads this, usb
    {
      Missing(usb[..], device)
    }

    /** What every operation by path does first. */
    method EnsureMounted(device: u8) returns (ready: bool)
      requires Valid()
      modifies mounted, disks, fat
      ensures Valid() && (ready ==> device < DEVICES && mounted[device])
      ensures forall d | 0 <= d < DEVICES && d != device :: mounted[d] == old(mounted[d]) && disks[d] == old(disks[d])
      ensures device < DEVICES && old(mounted[device]) ==> ready && disks[device] == old(disks[device])
      ensures Later(old(fat.calls), fat.calls)
      ensures if ready then !Refused(old(fat.calls), fat.calls)
              else Absent(device) || Refused(old(fat.calls), fat.calls)
    {
      NoCall(fat.calls);
      if device >= DEVICES {
        return false;
      }
      if !mounted[device] {
        ghost var calls := fat.calls;
        ready := Mount(device);
        OneCall(calls, FatCall(MountFn, device, "", "", ready));
        return;
      }
      return true;
    }

    method Unmount(device: u8)
      requires Valid()
      modifies mounted, files, dirs
      ensures Valid()
      ensures forall d | 0 <= d < DEVICES :: mounted[d] == (old(mounted[d]) && d != device)
      ensures forall h | 0 <= h < FILES ::
                if old(files[h].inUse) && old(files[h].device) == device then !files[h].inUse
                else files[h] == old(files[h])
      ensures forall h | 0 <= h < DIRS ::
                if old(dirs[h].inUse) && old(dirs[h].device) == device then !dirs[h].inUse
                else dirs[h] == old(dirs[h])
    {
      if device >= DEVICES {
        return;
      }
      if !mounted[device] {
        return;
      }
      CloseAllForDevice(device);
      mounted[device] := false;
    }

    method CloseAllForDevice(device: u8)
      requires Valid()
      modifies files, dirs
      ensures Valid()
      ensures forall h | 0 <= h < FILES ::
                if old(files[h].inUse) && old(files[h].device) == device then !files[h].inUse
                else files[h] == old(files[h])
      ensures forall h | 0 <= h < DIRS ::
                if old(dirs[h].inUse) && old(dirs[h].device) == device then !dirs[h].inUse
                else dirs[h] == old(dirs[h])
    {
      if device >= DEVICES {
        return;
      }
      CloseFiles(device);
      CloseDirs(device);
    }

    method CloseFiles(device: u8)
      requires Valid()
      modifies files
      ensures Valid()
      ensures forall h | 0 <= h < FILES ::
                if old(files[h].inUse) && old(files[h].device) == device then !files[h].inUse
                else files[h] == old(files[h])
    {
      var i := 0;
      while i < FILES
        invariant 0 <= i <= FILES && Valid()
        invariant forall h | 0 <= h < FILES ::
            if h < i && old(files[h].inUse) && old(files[h].device) == device then !files[h].inUse
            else files[h] == old(files[h])
      {
        if files[i].inUse && files[i].device == device {
          files[i] := Freed(files[i]);
        }
        i := i + 1;
      }
    }

    method CloseDirs(device: u8)
      requires Valid()
      modifies dirs
      ensures Valid()
      ensures forall h | 0 <= h < DIRS ::
                if old(dirs[h].inUse) && old(dirs[h].device) == device then !dirs[h].inUse
                else dirs[h] == old(dirs[h])
    {
      var i := 0;
      while i < DIRS
        invariant 0 <= i <= DIRS && Valid()
        invariant forall h | 0 <= h < DIRS ::
            if h < i && old(dirs[h].inUse) && old(dirs[h].device) == device then !dirs[h].inUse
            else dirs[h] == old(dirs[h])
      {
        if dirs[i].inUse && dirs[i].device == device {
          dirs[i] := dirs[i].(inUse := false, device := 0);
        }
        i := i + 1;
      }
    }

    /** The stick that is mounted next: the first that has waited long enough. */
    ghost predicate NextPending(d: nat, now: u32)
      requires Shape()
      reads this, usb
    {
      d < DEVICES && Ripe(d, now) && forall e | 0 <= e < d :: !Ripe(e, now)
    }

    ghost predicate Ripe(d: nat, now: u32)
      requires Shape() && d < DEVICES
      reads this, usb
    {
      usb[d].mountPending && SignedDelta(now, usb[d].since) >= MIN_AGE_MS
    }

    /** A pending stick has waited long enough from 500 ms on, until half the range of the clock has gone by. */
    lemma RipeAfterHalfASecond(d: nat, now: u32)
      requires Shape() && d < DEVICES
      ensures Ripe(d, now) <==> usb[d].mountPending && 500 <= (now - usb[d].since) % 0x1_0000_0000 < 0x8000_0000
    {
    }

    /** taskUSBStorage after the host stack ran: at most one mount, and none for a second after. */
    method MountTask(now: u32, later: u32)
      requires Valid()
      modifies this`nextMountAllowed, usb, mounted, disks, fat
      ensures Valid()
      ensures old(SignedDelta(now, mountEnable) < 0 || SignedDelta(now, nextMountAllowed) < 0
                  || forall d | 0 <= d < DEVICES :: !Ripe(d, now)) ==>
                usb[..] == old(usb[..]) && mounted[..] == old(mounted[..]) && nextMountAllowed == old(nextMountAllowed)
      ensures forall d: nat | old(SignedDelta(now, mountEnable) >= 0 && SignedDelta(now, nextMountAllowed) >= 0
                                  && NextPending(d, now)) ::
                && usb[..] == old(usb[..])[d := old(usb[d]).(mountPending := false)]
                && nextMountAllowed == (later + STAGGER_MS) % 0x1_0000_0000
                && (forall e | 0 <= e < DEVICES && e != d :: mounted[e] == old(mounted[e]) && disks[e] == old(disks[e]))
                && (mounted[d] || Refused(old(fat.calls), fat.calls))
    {
      if SignedDelta(now, mountEnable) < 0 {
        return;
      }
      if SignedDelta(now, nextMountAllowed) < 0 {
        return;
      }
      var device := 0;
      while device < DEVICES
        invariant 0 <= device <= DEVICES && Valid()
        invariant usb[..] == old(usb[..]) && mounted[..] == old(mounted[..]) && disks[..] == old(disks[..])
        invariant nextMountAllowed == old(nextMountAllowed) && fat.calls == old(fat.calls)
        invariant forall e | 0 <= e < device :: !old(Ripe(e, now))
      {
        if usb[device].mountPending && SignedDelta(now, usb[device].since) >= MIN_AGE_MS {
          assert old(Ripe(device, now)) && old(usb[device]) == usb[device];
          usb[device] := usb[device].(mountPending := false);
          assert usb[..] == old(usb[..])[device := old(usb[device]).(mountPending := false)];
          if usb[device].present && !mounted[device] {
            ghost var calls := fat.calls;
            var ok := Mount(device);
            OneCall(calls, FatCall(MountFn, device, "", "", ok));
          }
          nextMountAllowed := (later + STAGGER_MS) % 0x1_0000_0000;
          return;
        }
        device := device + 1;
      }
    }

    /** How many of the first n drives are mounted, each counted with a weight. */
    ghost function MountedSum(n: nat, weights: seq<nat>): (sum: nat)
      requires Shape() && n <= DEVICES && |weights| == DEVICES
      reads this, mounted
    {
      if n == 0 then 0 else MountedSum(n - 1, weights) + if mounted[n - 1] then weights[n - 1] else 0
    }

    /** Bit d of the mask tells whether drive d is mounted. */
    lemma MaskBits()
      requires Shape()
      ensures var mask := MountedSum(DEVICES, BIT_WEIGHTS);
              && mask < 16
              && (mask % 2 == 1 <==> mounted[0]) && (mask / 2 % 2 == 1 <==> mounted[1])
              && (mask / 4 % 2 == 1 <==> mounted[2]) && (mask / 8 % 2 == 1 <==> mounted[3])
    {
      assert MountedSum(1, BIT_WEIGHTS) == if mounted[0] then 1 else 0;
      assert MountedSum(2, BIT_WEIGHTS) == MountedSum(1, BIT_WEIGHTS) + if mounted[1] then 2 else 0;
      assert MountedSum(3, BIT_WEIGHTS) == MountedSum(2, BIT_WEIGHTS) + if mounted[2] then 4 else 0;
    }

    /** usb_fatfs_mounted_mask and usb_fatfs_mounted_count. */
    method MountedSummary() returns (mask: u8, count: u8)
      requires Valid()
      ensures mask == MountedSum(DEVICES, BIT_WEIGHTS) && count == MountedSum(DEVICES, UNIT_WEIGHTS) <= DEVICES
    {
      mask, count := 0, 0;
      var device := 0;
      while device < DEVICES
        invariant 0 <= device <= DEVICES
        invariant mask == MountedSum(device, BIT_WEIGHTS) < BIT_LIMITS[device]
        invariant count == MountedSum(device, UNIT_WEIGHTS) <= device
      {
        if mounted[device] {
          mask := mask + BIT_WEIGHTS[device];
          count := count + 1;
        }
        device := device + 1;
      }
    }

    // -------------------------------------------------------------------------
    // Files
    // -------------------------------------------------------------------------

    method FreeHandleCount() returns (count: u8)
      requires Valid()
      ensures count == 0 <==> forall h | 0 <= h < FILES :: files[h].inUse
    {
      count := 0;
      var i := 0;
      while i < FILES
        invariant 0 <= count <= i <= FILES
        invariant count == 0 <==> forall h | 0 <= h < i :: files[h].inUse
      {
        if !files[i].inUse {
          count := count + 1;
        }
        i := i + 1;
      }
    }

    method FindFreeFile() returns (slot: nat)
      requires Valid()
      ensures slot <= FILES && (slot < FILES ==> !files[slot].inUse)
      ensures forall h | 0 <= h < slot :: files[h].inUse
    {
      slot := 0;
      while slot < FILES
        invariant slot <= FILES
        invariant forall h | 0 <= h < slot :: files[h].inUse
      {
        if !files[slot].inUse {
          return;
        }
        slot := slot + 1;
      }
    }

    /**
     Opens a file: the handle is the first one that was free, positioned at the start. A failed
     attempt to create or truncate may still have created or emptied the file.
     */
    method Open(device: u8, filename: string, mode: OpenMode) returns (handle: Option<u8>)
      requires Valid()
      modifies mounted, files, disks, fat
      ensures Valid()
      ensures Later(old(fat.calls), fat.calls)
      ensures handle.None? ==>
                || Absent(device) || Refused(old(fat.calls), fat.calls)
                || (forall h | 0 <= h < FILES :: old(files[h].inUse))
                || !Acceptable(device, filename, FAT_PATH) || IsRoot(Logical(filename))
      ensures handle.Some? ==>
                && device < DEVICES && !Refused(old(fat.calls), fat.calls)
                && Did(old(fat.calls), fat.calls, OpenFn, device, FatText(device, filename), "")
      ensures forall d | 0 <= d < DEVICES && d != device :: mounted[d] == old(mounted[d]) && disks[d] == old(disks[d])
      ensures device < DEVICES && old(mounted[device]) ==> mounted[device]
      ensures device < DEVICES && old(mounted[device]) ==>
                || disks[device] == old(disks[device])
                || disks[device] == Opened(old(disks[device]), FatText(device, filename), mode)
      ensures handle.None? ==> files[..] == old(files[..])
      ensures handle.Some? ==>
                var h := handle.value;
                && h < FILES && !old(files[h].inUse) && (forall i | 0 <= i < h :: old(files[i].inUse))
                && device < DEVICES && mounted[device]
                && Acceptable(device, filename, FAT_PATH) && !IsRoot(Logical(filename))
                && files[..] == old(files[..])[h := FileHandle(true, device, ModeReads(mode), ModeWrites(mode),
                                                               FatText(device, filename), 0)]
                && FatText(device, filename) in disks[device]
                && (mode == Truncate ==> FileOf(h) == [])
                && (old(mounted[device]) ==>
                      disks[device] == Opened(old(disks[device]), FatText(device, filename), mode))
    {
      hide Acceptable, FatText, Logical, IsRoot, Refused, Did, Later;
      var ready := EnsureMounted(device);
      if !ready {
        return None;
      }
      ghost var calls := fat.calls;
      handle := OpenMounted(device, filename, mode);
      LaterTrans(old(fat.calls), calls, fat.calls);
    }

    method OpenMounted(device: u8, filename: string, mode: OpenMode) returns (handle: Option<u8>)
      requires Valid() && device < DEVICES && mounted[device]
      modifies files, disks, fat
      ensures Valid()
      ensures Later(old(fat.calls), fat.calls)
      ensures handle.None? ==>
                || Refused(old(fat.calls), fat.calls) || (forall h | 0 <= h < FILES :: old(files[h].inUse))
                || !Acceptable(device, filename, FAT_PATH) || IsRoot(Logical(filename))
      ensures handle.Some? ==>
                && device < DEVICES && !Refused(old(fat.calls), fat.calls)
                && Did(old(fat.calls), fat.calls, OpenFn, device, FatText(device, filename), "")
      ensures forall d | 0 <= d < DEVICES && d != device :: disks[d] == old(disks[d])
      ensures || disks[device] == old(disks[device])
              || disks[device] == Opened(old(disks[device]), FatText(device, filename), mode)
      ensures handle.None? ==> files[..] == old(files[..])
      ensures handle.Some? ==>
                var h := handle.value;
                && h < FILES && !old(files[h].inUse) && (forall i | 0 <= i < h :: old(files[i].inUse))
                && Acceptable(device, filename, FAT_PATH) && !IsRoot(Logical(filename))
                && files[..] == old(files[..])[h := FileHandle(true, device, ModeReads(mode), ModeWrites(mode),
                                                               FatText(device, filename), 0)]
                && FatText(device, filename) in disks[device]
                && disks[device] == Opened(old(disks[device]), FatText(device, filename), mode)
    {
      hide Acceptable, FatText, Logical, IsRoot, Refused, Did, Later;
      NoCall(fat.calls);
      var slot := FindFreeFile();
      if slot == FILES {
        return None;
      }
      var path := MakePath(device, filename, FAT_PATH);
      if path.None? {
        return None;
      }
      var ok := OpenOnDisk(device, path.value, mode);
      OneCall(old(fat.calls), FatCall(OpenFn, device, path.value, "", ok));
      if !ok {
        return None;
      }
      files[slot] := FileHandle(true, device, ModeReads(mode), ModeWrites(mode), path.value, 0);
      return Some(slot);
    }

    /** f_open. */
    method OpenOnDisk(device: u8, path: string, mode: OpenMode) returns (ok: bool)
      requires Valid() && device < DEVICES
      modifies disks, fat
      ensures ok ==> path in disks[device]
      ensures disks[device] == old(disks[device]) || disks[device] == Opened(old(disks[device]), path, mode)
      ensures ok ==> disks[device] == Opened(old(disks[device]), path, mode)
      ensures forall d | 0 <= d < DEVICES && d != device :: disks[d] == old(disks[d])
      ensures fat.calls == old(fat.calls) + [FatCall(OpenFn, device, path, "", ok)]
    {
      ok := fat.Attempt(OpenFn, device, path, "", path in disks[device] || mode == Truncate || mode == RwCreate);
      if !ok {
        if * {
          return;
        }
      }
      disks[device] := Opened(disks[device], path, mode);
    }

    /** Close always frees the handle; whether the last data reached the stick is another matter. */
    method Close(h: u8) returns (ok: bool)
      requires Valid()
      modifies files, fat
      ensures Valid() && (ok ==> old(IsFile(h)))
      ensures files[..] == if old(IsFile(h)) then old(files[..])[h := Freed(old(files[h]))] else old(files[..])
      ensures fat.calls == if old(IsFile(h))
                           then old(fat.calls) + [FatCall(CloseFn, old(files[h].device), old(files[h].path), "", ok)]
                           else old(fat.calls)
    {
      if h >= FILES || !files[h].inUse {
        return false;
      }
      ok := fat.Attempt(CloseFn, files[h].device, files[h].path, "", true);
      files[h] := Freed(files[h]);
    }

    /** The position of an open handle moves. */
    method MoveTo(h: u8, pos: u32)
      requires Valid() && IsFile(h)
      modifies files
      ensures Valid() && IsFile(h) && files[h].pos == pos && FileOf(h) == old(FileOf(h))
      ensures SameButPosition(old(files[..]), files[..], h)
    {
      files[h] := files[h].(pos := pos);
    }

    /** The file behind an open handle gets new contents. */
    method Replace(h: u8, contents: File)
      requires Valid() && IsFile(h)
      modifies disks
      ensures FileOf(h) == contents
      ensures OnlyFileChanges(old(disks[..]), disks[..], files[h].device, files[h].path)
    {
      var device := files[h].device;
      disks[device] := disks[device][files[h].path := contents];
    }

    method Contents(h: u8) returns (file: File)
      requires Valid() && IsFile(h)
      ensures file == FileOf(h)
    {
      var device, path := files[h].device, files[h].path;
      return if path in disks[device] then disks[device][path] else [];
    }

    /** Position and bytes of one handle are all that a read can change or return. */
    method Read(h: u8, len: u16) returns (data: Option<seq<u8>>)
      requires Valid()
      modifies files, fat
      ensures Valid() && (data.Some? ==> old(IsFile(h)) && files[h].canRead && |data.value| <= len)
      ensures data.Some? ==>
                && (data.value != [] ==> old(files[h].pos) + |data.value| <= |FileOf(h)|
                                         && data.value ==
                                            FileOf(h)[old(files[h].pos)..old(files[h].pos) + |data.value|])
                && files[h].pos == old(files[h].pos) + |data.value|
      ensures old(IsFile(h)) ==> IsFile(h) && FileOf(h) == old(FileOf(h))
      ensures !(old(IsFile(h)) && files[h].canRead) ==> data.None? && files[..] == old(files[..])
      ensures SameButPosition(old(files[..]), files[..], h)
      ensures Later(old(fat.calls), fat.calls)
      ensures old(IsFile(h)) && old(files[h].canRead) && !Refused(old(fat.calls), fat.calls) ==>
                && data.Some?
                && |data.value| == Available(old(files[h].pos), |FileOf(h)|, len)
      ensures data.Some? && data.value == [] && len > 0 && old(files[h].pos) < |FileOf(h)| ==>
                Refused(old(fat.calls), fat.calls)
    {
      NoCall(fat.calls);
      if h >= FILES || !files[h].inUse {
        return None;
      }
      if !files[h].canRead {
        return None;
      }
      if len == 0 {
        return Some([]);
      }
      hide HandlesOk, DevicesOk, FileOf, Refused, Later;
      var file := Contents(h);
      var pos := files[h].pos;
      var limit: nat := Available(pos, |file|, len);
      var ok := fat.Attempt(ReadFn, files[h].device, files[h].path, "", true);
      OneCall(old(fat.calls), FatCall(ReadFn, files[h].device, files[h].path, "", ok));
      var n := limit;
      if !ok {
        if * {
          var p: u32 :| true;
          MoveTo(h, p);
          return None;
        }
        n :| 0 <= n <= limit;
      }
      MoveTo(h, pos + n);
      return Some(if n == 0 then [] else file[pos..pos + n]);
    }

    /** A write that reports an error may still have stored part of the data. */
    method Write(h: u8, data: seq<u8>) returns (count: Option<nat>, ghost w: WriteOutcome)
      requires Valid() && |data| < 0x1_0000
      modifies files, disks, fat
      ensures Valid() && w.stored <= |data| && count == if w.error then None else Some(w.stored)
      ensures !(old(IsFile(h)) && files[h].canWrite) ==> w == WriteOutcome(0, true)
      ensures !(old(IsFile(h)) && files[h].canWrite) || data == [] ==>
                files[..] == old(files[..]) && disks[..] == old(disks[..])
      ensures old(IsFile(h)) ==>
                && IsFile(h) && files[h].pos == old(files[h].pos) + w.stored
                && FileOf(h) == Overwritten(old(FileOf(h)), old(files[h].pos), data[..w.stored])
                && WrittenAt(old(FileOf(h)), old(files[h].pos), data[..w.stored], FileOf(h))
      ensures SameButPosition(old(files[..]), files[..], h)
      ensures old(IsFile(h)) ==> OnlyFileChanges(old(disks[..]), disks[..], files[h].device, files[h].path)
      ensures !old(IsFile(h)) ==> disks[..] == old(disks[..])
      ensures Later(old(fat.calls), fat.calls)
      ensures old(IsFile(h)) && old(files[h].canWrite) && !Refused(old(fat.calls), fat.calls) ==>
                w == WriteOutcome(|data|, false)
    {
      NoCall(fat.calls);
      w := WriteOutcome(0, true);
      if h >= FILES || !files[h].inUse {
        return None, w;
      }
      if !files[h].canWrite {
        return None, w;
      }
      if |data| == 0 {
        return Some(0), WriteOutcome(0, false);
      }
      hide HandlesOk, DevicesOk, FileOf, Overwritten, WrittenAt, Refused, Later;
      var file := Contents(h);
      var ok := fat.Attempt(WriteFn, files[h].device, files[h].path, "", files[h].pos + |data| < SIZE_LIMIT);
      OneCall(old(fat.calls), FatCall(WriteFn, files[h].device, files[h].path, "", ok));
      var n := |data|;
      if !ok {
        n :| 0 <= n <= |data| && files[h].pos + n < SIZE_LIMIT;
      }
      var after := Overwritten(file, files[h].pos, data[..n]);
      Replace(h, after);
      MoveTo(h, files[h].pos + n);
      var failed := !ok;
      if failed {
        failed := *;
      }
      return if failed then None else Some(n), WriteOutcome(n, failed);
    }

    /** f_lseek: exact inside the file; a writable file may grow to reach the position. */
    method Seek(h: u8, position: u32) returns (ok: bool)
      requires Valid()
      modifies files, disks, fat
      ensures Valid() && (ok ==> old(IsFile(h)) && IsFile(h))
      ensures ok && position <= |old(FileOf(h))| ==> files[h].pos == position && disks[..] == old(disks[..])
      ensures ok && (position <= |old(FileOf(h))| || !files[h].canWrite) ==> FileOf(h) == old(FileOf(h))
      ensures ok && position > |old(FileOf(h))| ==> |old(FileOf(h))| <= files[h].pos <= position
      ensures ok ==> files[h].pos <= |FileOf(h)| && old(FileOf(h)) <= FileOf(h)
      ensures ok && !files[h].canWrite ==> disks[..] == old(disks[..])
      ensures !ok ==> files[..] == old(files[..]) && disks[..] == old(disks[..])
      ensures !ok && old(IsFile(h)) ==> IsFile(h) && FileOf(h) == old(FileOf(h))
      ensures SameButPosition(old(files[..]), files[..], h)
      ensures if old(IsFile(h)) then OnlyFileChanges(old(disks[..]), disks[..], files[h].device, files[h].path)
              else disks[..] == old(disks[..])
      ensures Later(old(fat.calls), fat.calls)
      ensures old(IsFile(h)) && !Refused(old(fat.calls), fat.calls) ==>
                && ok
                && (old(files[h].canWrite) || position <= |old(FileOf(h))| ==> files[h].pos == position)
    {
      NoCall(fat.calls);
      if h >= FILES || !files[h].inUse {
        return false;
      }
      hide HandlesOk, DevicesOk, FileOf, Refused, Later;
      ok := fat.Attempt(SeekFn, files[h].device, files[h].path, "", true);
      OneCall(old(fat.calls), FatCall(SeekFn, files[h].device, files[h].path, "", ok));
      if !ok {
        if * {
          return false;
        }
      }
      var file := Contents(h);
      if position <= |file| {
        MoveTo(h, position);
        return true;
      }
      if files[h].canWrite {
        var n: nat := position - |file|;
        if !ok {
          n :| 0 <= n <= position - |file|;
        }
        var zeros: seq<u8> := seq(n, _ => 0);
        var grown: seq<u8> :| |grown| == |zeros|;
        Replace(h, file + grown);
        MoveTo(h, |file| + n);
        return true;
      }
      MoveTo(h, |file|);
      return true;
    }

    method Size(h: u8) returns (size: u32)
      requires Valid()
      ensures size == if IsFile(h) then |FileOf(h)| else 0
    {
      if h >= FILES || !files[h].inUse {
        return 0;
      }
      var file := Contents(h);
      return |file|;
    }

    method Position(h: u8) returns (pos: u32)
      requires Valid()
      ensures pos == if IsFile(h) then files[h].pos else 0
    {
      if h >= FILES || !files[h].inUse {
        return 0;
      }
      return files[h].pos;
    }

    // -------------------------------------------------------------------------
    // Operations by path
    // -------------------------------------------------------------------------

    /** f_unlink: a failure leaves the drive as it was. */
    method Unlink(device: u8, path: string) returns (ok: bool)
      requires Valid() && device < DEVICES
      modifies disks, fat
      ensures forall d | 0 <= d < DEVICES && d != device :: disks[d] == old(disks[d])
      ensures disks[device] == if ok then old(disks[device]) - {path} else old(disks[device])
      ensures fat.calls == old(fat.calls) + [FatCall(UnlinkFn, device, path, "", ok)]
    {
      ok := fat.Attempt(UnlinkFn, device, path, "", true);
      if ok {
        disks[device] := disks[device] - {path};
      }
    }

    /** rp_fs_delete_83: the named file goes, and no other. */
    method Delete(device: u8, filename: string) returns (ok: bool)
      requires Valid()
      modifies mounted, disks, fat
      ensures Later(old(fat.calls), fat.calls)
      ensures if ok then
                && device < DEVICES && !Refused(old(fat.calls), fat.calls)
                && Did(old(fat.calls), fat.calls, UnlinkFn, device, FatText(device, filename), "")
              else Absent(device) || Refused(old(fat.calls), fat.calls) || !Acceptable(device, filename, FAT_PATH)
                   || IsRoot(Logical(filename))
      ensures Valid() && (ok ==> device < DEVICES && mounted[device])
      ensures forall d | 0 <= d < DEVICES && d != device :: mounted[d] == old(mounted[d]) && disks[d] == old(disks[d])
      ensures ok ==>
                && Acceptable(device, filename, FAT_PATH) && !IsRoot(Logical(filename))
                && FatText(device, filename) !in disks[device]
      ensures device < DEVICES && old(mounted[device]) ==>
                && mounted[device]
                && disks[device] == if ok then old(disks[device]) - {FatText(device, filename)} else old(disks[device])
    {
      hide Acceptable, FatText, Logical, IsRoot, Refused, Did, Later;
      var ready := EnsureMounted(device);
      if !ready {
        return false;
      }
      ghost var calls := fat.calls;
      NoCall(calls);
      LaterTrans(old(fat.calls), calls, calls);
      var path := MakePath(device, filename, FAT_PATH);
      if path.None? {
        return false;
      }
      ok := Unlink(device, path.value);
      OneCall(calls, FatCall(UnlinkFn, device, path.value, "", ok));
      LaterTrans(old(fat.calls), calls, fat.calls);
    }

    /** rp_fs_mkdir_83: no file changes; roots are refused. */
    method MakeDir(device: u8, dirname: string) returns (ok: bool)
      requires Valid()
      modifies mounted, disks, fat
      ensures Later(old(fat.calls), fat.calls)
      ensures if ok then
                && device < DEVICES && !Refused(old(fat.calls), fat.calls)
                && Did(old(fat.calls), fat.calls, MkdirFn, device, FatText(device, dirname), "")
              else Absent(device) || Refused(old(fat.calls), fat.calls) || !Acceptable(device, dirname, FAT_PATH)
                   || IsRootDirPath(FatText(device, dirname))
      ensures Valid() && (ok ==> device < DEVICES && mounted[device])
      ensures forall d | 0 <= d < DEVICES && d != device :: mounted[d] == old(mounted[d]) && disks[d] == old(disks[d])
      ensures ok ==> Acceptable(device, dirname, FAT_PATH) && !IsRootDirPath(FatText(device, dirname))
      ensures device < DEVICES && old(mounted[device]) ==> mounted[device] && disks[device] == old(disks[device])
    {
      hide Acceptable, FatText, Refused, Did, Later;
      var ready := EnsureMounted(device);
      if !ready {
        return false;
      }
      ghost var calls := fat.calls;
      NoCall(calls);
      LaterTrans(old(fat.calls), calls, calls);
      var path := MakeDirPath(device, dirname, FAT_PATH);
      if path.None? || IsRootDirPath(path.value) {
        return false;
      }
      ok := fat.Attempt(MkdirFn, device, path.value, "", true);
      OneCall(calls, FatCall(MkdirFn, device, path.value, "", ok));
      LaterTrans(old(fat.calls), calls, fat.calls);
    }

    /** rp_fs_rmdir_83: f_unlink on a directory path, so an equally named file would go. */
    method RemoveDir(device: u8, dirname: string) returns (ok: bool)
      requires Valid()
      modifies mounted, disks, fat
      ensures Later(old(fat.calls), fat.calls)
      ensures if ok then
                && device < DEVICES && !Refused(old(fat.calls), fat.calls)
                && Did(old(fat.calls), fat.calls, UnlinkFn, device, FatText(device, dirname), "")
              else Absent(device) || Refused(old(fat.calls), fat.calls) || !Acceptable(device, dirname, FAT_PATH)
                   || IsRootDirPath(FatText(device, dirname))
      ensures Valid() && (ok ==> device < DEVICES && mounted[device])
      ensures forall d | 0 <= d < DEVICES && d != device :: mounted[d] == old(mounted[d]) && disks[d] == old(disks[d])
      ensures ok ==>
                && Acceptable(device, dirname, FAT_PATH) && !IsRootDirPath(FatText(device, dirname))
                && FatText(device, dirname) !in disks[device]
      ensures device < DEVICES && old(mounted[device]) ==>
                && mounted[device]
                && disks[device] == if ok then old(disks[device]) - {FatText(device, dirname)} else old(disks[device])
    {
      hide Acceptable, FatText, Refused, Did, Later;
      var ready := EnsureMounted(device);
      if !ready {
        return false;
      }
      ghost var calls := fat.calls;
      NoCall(calls);
      LaterTrans(old(fat.calls), calls, calls);
      var path := MakeDirPath(device, dirname, FAT_PATH);
      if path.None? || IsRootDirPath(path.value) {
        return false;
      }
      ok := Unlink(device, path.value);
      OneCall(calls, FatCall(UnlinkFn, device, path.value, "", ok));
      LaterTrans(old(fat.calls), calls, fat.calls);
    }

    /** rp_fs_rename_83: a file moves with its bytes; only what lies at or below the two names changes. */
    method Rename(device: u8, source: string, target: string) returns (ok: bool)
      requires Valid()
      modifies mounted, disks, fat
      ensures Later(old(fat.calls), fat.calls)
      ensures if ok then
                && device < DEVICES && !Refused(old(fat.calls), fat.calls)
                && Did(old(fat.calls), fat.calls, RenameFn, device, FatText(device, source), FatText(device, target))
              else Absent(device) || Refused(old(fat.calls), fat.calls) || !Acceptable(device, source, FAT_PATH)
                   || IsRoot(Logical(source))
                   || !Acceptable(device, target, FAT_PATH) || IsRoot(Logical(target))
      ensures Valid() && (ok ==> device < DEVICES && mounted[device])
      ensures forall d | 0 <= d < DEVICES && d != device :: mounted[d] == old(mounted[d]) && disks[d] == old(disks[d])
      ensures ok ==>
                && Acceptable(device, source, FAT_PATH) && !IsRoot(Logical(source))
                && Acceptable(device, target, FAT_PATH) && !IsRoot(Logical(target))
      ensures device < DEVICES && old(mounted[device]) ==>
                && mounted[device]
                && if ok then Moved(old(disks[device]), disks[device], FatText(device, source), FatText(device, target))
                   else disks[device] == old(disks[device])
    {
      hide Acceptable, FatText, Logical, IsRoot, Moved, Refused, Did, Later;
      var ready := EnsureMounted(device);
      if !ready {
        return false;
      }
      ghost var calls := fat.calls;
      NoCall(calls);
      LaterTrans(old(fat.calls), calls, calls);
      var from := MakePath(device, source, FAT_PATH);
      if from.None? {
        return false;
      }
      var to := MakePath(device, target, FAT_PATH);
      if to.None? {
        return false;
      }
      ok := fat.Attempt(RenameFn, device, from.value, to.value, true);
      OneCall(calls, FatCall(RenameFn, device, from.value, to.value, ok));
      LaterTrans(old(fat.calls), calls, fat.calls);
      if !ok {
        return;
      }
      var below: Disk := *;
      MoveIsMoved(disks[device], from.value, to.value, below);
      disks[device] := Move(disks[device], from.value, to.value, below);
      return true;
    }

    // -------------------------------------------------------------------------
    // Directories
    // -------------------------------------------------------------------------

    method FindFreeDir() returns (slot: nat)
      requires Valid()
      ensures slot <= DIRS && (slot < DIRS ==> !dirs[slot].inUse)
      ensures forall h | 0 <= h < slot :: dirs[h].inUse
    {
      slot := 0;
      while slot < DIRS && dirs[slot].inUse
        invariant slot <= DIRS
        invariant forall h | 0 <= h < slot :: dirs[h].inUse
      {
        slot := slot + 1;
      }
    }

    method OpenDir(device: u8, dirname: string) returns (handle: Option<u8>)
      requires Valid()
      modifies mounted, dirs, disks, fat
      ensures Valid()
      ensures forall d | 0 <= d < DEVICES && d != device :: mounted[d] == old(mounted[d]) && disks[d] == old(disks[d])
      ensures device < DEVICES && old(mounted[device]) ==> mounted[device] && disks[device] == old(disks[device])
      ensures Later(old(fat.calls), fat.calls)
      ensures if handle.Some? then
                && device < DEVICES && !Refused(old(fat.calls), fat.calls)
                && Did(old(fat.calls), fat.calls, OpendirFn, device, FatText(device, dirname), "")
              else
                || Absent(device) || Refused(old(fat.calls), fat.calls) || !Acceptable(device, dirname, FAT_PATH)
                || (forall h | 0 <= h < DIRS :: old(dirs[h].inUse))
      ensures handle.None? ==> dirs[..] == old(dirs[..])
      ensures handle.Some? ==>
                var h := handle.value;
                && h < DIRS && !old(dirs[h].inUse) && (forall i | 0 <= i < h :: old(dirs[i].inUse))
                && device < DEVICES && mounted[device] && Acceptable(device, dirname, FAT_PATH)
                && dirs[h].inUse && dirs[h].device == device
                && (forall i | 0 <= i < DIRS && i != h :: dirs[i] == old(dirs[i]))
    {
      hide Acceptable, FatText, Refused, Did, Later;
      var ready := EnsureMounted(device);
      if !ready {
        return None;
      }
      ghost var calls := fat.calls;
      NoCall(calls);
      LaterTrans(old(fat.calls), calls, calls);
      var slot := FindFreeDir();
      if slot == DIRS {
        return None;
      }
      var path := MakeDirPath(device, dirname, FAT_PATH);
      if path.None? {
        return None;
      }
      var ok := fat.Attempt(OpendirFn, device, path.value, "", true);
      OneCall(calls, FatCall(OpendirFn, device, path.value, "", ok));
      LaterTrans(old(fat.calls), calls, fat.calls);
      if !ok {
        return None;
      }
      var entries: seq<Entry> := *;
      dirs[slot] := DirHandle(true, device, entries);
      return Some(slot);
    }

    method NameValid(name: string) returns (valid: bool)
      ensures valid <==> ListableName(name)
    {
      valid := PathComponentValid(if HasDrive(name) then name[3..] else name);
    }

    method EntryName(info: Entry) returns (name: Option<string>)
      ensures name == Shown(info)
    {
      if info.name == "." || info.name == ".." {
        return None;
      }
      var valid := NameValid(info.name);
      if valid {
        return Some(info.name);
      }
      if |info.alt| == 0 {
        return None;
      }
      valid := NameValid(info.alt);
      return if valid then Some(info.alt) else None;
    }

    /** f_readdir, unless it is refused: the next entry, or none at the end. */
    method NextEntry(h: u8) returns (ok: bool, info: Option<Entry>)
      requires Valid() && IsDir(h)
      modifies dirs, fat
      ensures Valid() && IsDir(h)
      ensures fat.calls == old(fat.calls) + [FatCall(ReaddirFn, old(dirs[h].device), "", "", ok)]
      ensures !ok ==> dirs[..] == old(dirs[..])
      ensures ok ==> info == if old(dirs[h].rest) == [] then None else Some(old(dirs[h].rest)[0])
      ensures ok ==> dirs[h].rest == if info.None? then [] else old(dirs[h].rest)[1..]
      ensures forall i | 0 <= i < DIRS :: if i == h then SameDir(old(dirs[i]), dirs[i]) else dirs[i] == old(dirs[i])
    {
      ok := fat.Attempt(ReaddirFn, dirs[h].device, "", "", true);
      if !ok || |dirs[h].rest| == 0 {
        return ok, None;
      }
      info := Some(dirs[h].rest[0]);
      dirs[h] := dirs[h].(rest := dirs[h].rest[1..]);
    }

    /** The next entry with a valid 8.3 name, long or short; others and the dot entries are passed over. */
    method ReadDir(h: u8, nameLen: nat) returns (r: DirResult)
      requires Valid()
      modifies dirs, fat
      ensures Valid() && (r != DirError ==> old(IsDir(h)) && nameLen >= 13)
      ensures r.Listed? ==>
                var rest := old(dirs[h].rest);
                var k := NextShown(rest);
                && k < |rest| && Shown(rest[k]) == Some(r.name) && |r.name| < nameLen
                && r.attr == rest[k].attr && r.size == rest[k].size && dirs[h].rest == rest[k + 1..]
      ensures r.DirEnd? ==> NextShown(old(dirs[h].rest)) == |old(dirs[h].rest)|
      ensures forall i | 0 <= i < DIRS :: if i == h then SameDir(old(dirs[i]), dirs[i]) else dirs[i] == old(dirs[i])
      ensures Later(old(fat.calls), fat.calls)
      ensures r.DirError? && old(IsDir(h)) && nameLen >= 13 ==>
                var rest := old(dirs[h].rest);
                var k := NextShown(rest);
                Refused(old(fat.calls), fat.calls) || (k < |rest| && |Shown(rest[k]).value| >= nameLen)
    {
      if h >= DIRS || !dirs[h].inUse || nameLen < 13 {
        return DirError;
      }
      hide Shown, NextShown, HandlesOk, DevicesOk, Refused, Later, Did;
      NoCall(fat.calls);
      ghost var rest := dirs[h].rest;
      ghost var k := 0;
      assert rest[0..] == rest;
      while true
        invariant Valid() && IsDir(h) && k <= |rest| && dirs[h].rest == rest[k..]
        invariant forall i | 0 <= i < DIRS :: if i == h then SameDir(old(dirs[i]), dirs[i]) else dirs[i] == old(dirs[i])
        invariant NextShown(rest) == k + NextShown(rest[k..])
        invariant Later(old(fat.calls), fat.calls)
        decreases |rest| - k
      {
        ghost var calls, call := fat.calls, FatCall(ReaddirFn, dirs[h].device, "", "", true);
        NextShownFrom(rest, k);
        var ok, info := NextEntry(h);
        OneCall(calls, call.(ok := ok));
        LaterTrans(old(fat.calls), calls, fat.calls);
        if !ok {
          return DirError;
        }
        if info.None? {
          return DirEnd;
        }
        assert rest[k..][1..] == rest[k + 1..];
        k := k + 1;
        var name := EntryName(info.value);
        if name.None? {
          continue;
        }
        if |name.value| >= nameLen {
          return DirError;
        }
        return Listed(name.value, info.value.attr, info.value.size);
      }
    }

    method CloseDir(h: u8) returns (ok: bool)
      requires Valid()
      modifies dirs, fat
      ensures Valid() && (ok ==> old(IsDir(h)))
      ensures dirs[..] == if old(IsDir(h)) then old(dirs[..])[h := old(dirs[h]).(inUse := false, device := 0)]
                          else old(dirs[..])
      ensures fat.calls == if old(IsDir(h))
                           then old(fat.calls) + [FatCall(ClosedirFn, old(dirs[h].device), "", "", ok)]
                           else old(fat.calls)
    {
      if h >= DIRS || !dirs[h].inUse {
        return false;
      }
      ok := fat.Attempt(ClosedirFn, dirs[h].device, "", "", true);
      dirs[h] := dirs[h].(inUse := false, device := 0);
    }
  }

  /** A path is the name itself or lies in the directory of that name. */
  predicate Under(path: string, name: string) {
    path == name || name + "/" <= path
  }

  /** A renaming: a file's bytes are found under the new name and no longer under the old one. */
  ghost predicate Moved(before: Disk, after: Disk, from: string, to: string) {
    && (from in before ==> to in after && after[to] == before[from] && (from != to ==> from !in after))
    && forall p: string :: !Under(p, from) && !Under(p, to) ==>
         (p in after <==> p in before) && (p in before ==> after[p] == before[p])
  }

  /** The old name's bytes under the new name; what f_rename leaves below the two names is open. */
  function Move(before: Disk, from: string, to: string, below: Disk): Disk {
    var kept := map p | p in before && !Under(p, from) && !Under(p, to) :: before[p];
    var other := map p | p in below && (Under(p, from) || Under(p, to)) :: below[p];
    if from in before then (kept + other - {from})[to := before[from]] else kept + other
  }

  lemma MoveIsMoved(before: Disk, from: string, to: string, below: Disk)
    ensures Moved(before, Move(before, from, to, below), from, to)
  {
  }

  /** The handle table differs at most in the position of one handle. */
  ghost predicate SameButPosition(before: seq<FileHandle>, after: seq<FileHandle>, h: u8) {
    && |before| == |after|
    && forall i | 0 <= i < |before| ::
         if i == h then after[i] == before[i].(pos := after[i].pos) else after[i] == before[i]
  }

  /** No file but one changes on any drive. */
  ghost predicate OnlyFileChanges(before: seq<Disk>, after: seq<Disk>, device: u8, path: string) {
    && |before| == |after| == DEVICES && device < DEVICES
    && (forall d | 0 <= d < DEVICES && d != device :: after[d] == before[d])
    && after[device] - {path} == before[device] - {path}
  }
}
