/**
 ROM cartridges and boot (rom.cpp, boot.cpp): a configuration is a list of cartridges, each
 streamed into its own MMU context, later ones overlaying earlier ones.
 */
module Cartridge {
  import opened Words
  import opened MmuTable
  import opened SystemBus
  import opened PhysicalMemory
  import opened Neobus

  const HEADER: nat := 16
  const CHUNK: nat := 512

  /** A configuration entry: the file's content (None when it cannot be opened) and its context. */
  datatype CartEntry = CartEntry(file: Option<seq<u8>>, context: u8)

  /** LittleFS: a read delivers what was asked for or comes up short, and the short ones are counted. */
  class Flash {
    ghost var shortReads: nat

    method Read(file: seq<u8>, offset: nat, count: nat) returns (bytes: seq<u8>)
      requires offset + count <= |file|
      modifies this
      ensures |bytes| <= count && bytes == file[offset..offset + |bytes|]
      ensures shortReads == old(shortReads) + if |bytes| < count then 1 else 0
    {
      var n: nat :| n <= count;
      shortReads := shortReads + if n < count then 1 else 0;
      return file[offset..offset + n];
    }
  }

  function Sum(bytes: seq<u8>): nat {
    if bytes == [] then 0 else Sum(bytes[..|bytes| - 1]) + bytes[|bytes| - 1]
  }

  /** Marker bytes, version 1, checksum over bytes 3..13, and a payload that fits below 64K. */
  ghost predicate GoodHeader(h: seq<u8>) {
    && |h| == HEADER
    && h[0] == 0x5A && h[15] == 0xA5 && h[2] == 0x01
    && Sum(h[3..14]) % 0x100 == h[14]
    && Word(h, 3) + Word(h, 5) <= ADDRESSES
  }

  lemma SumOne(h: seq<u8>, i: nat)
    requires i < |h|
    ensures Sum(h[i..i + 1]) == h[i]
  {
    assert h[i..i + 1][..0] == [];
  }

  lemma SumMore(h: seq<u8>, lo: nat, i: nat)
    requires lo <= i < |h|
    ensures (Sum(h[lo..i]) % 0x100 + h[i]) % 0x100 == Sum(h[lo..i + 1]) % 0x100
  {
    assert h[lo..i + 1][..i - lo] == h[lo..i];
  }

  method ValidateHeader(h: seq<u8>) returns (ok: bool, start: u16, size: u16)
    requires |h| == HEADER
    ensures ok <==> GoodHeader(h)
    ensures ok ==> start == Word(h, 3) && size == Word(h, 5)
  {
    hide Sum;
    start, size := 0, 0;
    if h[0] != 0x5A || h[15] != 0xA5 {
      return false, start, size;
    }
    if h[2] != 0x01 {
      return false, start, size;
    }
    var csum: u8 := h[3];
    var i := 4;
    SumOne(h, 3);
    while i < 14
      invariant 4 <= i <= 14
      invariant csum == Sum(h[3..i]) % 0x100
    {
      SumMore(h, 3, i);
      csum := (csum + h[i]) % 0x100;
      i := i + 1;
    }
    if csum != h[14] {
      return false, start, size;
    }
    start, size := Word(h, 3), Word(h, 5);
    return start + size <= ADDRESSES, start, size;
  }

  ghost predicate GoodFile(file: seq<u8>) {
    |file| >= HEADER && GoodHeader(file[..HEADER]) && |file| == HEADER + Word(file, 5)
  }

  /** The file can be opened and is a good cartridge. */
  ghost predicate Loadable(file: Option<seq<u8>>) {
    file.Some? && GoodFile(file.value)
  }

  /** Whether the TYPE byte asks for vector k: 0 is NMI, 1 is RESET, 2 is IRQ. */
  predicate HasVector(file: seq<u8>, k: nat)
    requires |file| >= HEADER && k < 3
  {
    (if k == 0 then file[7] else if k == 1 then file[7] / 2 else file[7] / 4) % 2 == 1
  }

  function VectorWrites(pages: PageMap, c: nat, file: seq<u8>, k: nat): (ws: seq<Write>)
    requires ValidPages(pages) && c < CONTEXTS && |file| >= HEADER && k < 3
    ensures InRam(ws)
  {
    if HasVector(file, k) then CopyWrites(pages, c, 0xFFFA + 2 * k, file[8 + 2 * k..10 + 2 * k]) else []
  }

  function PayloadWrites(pages: PageMap, c: nat, file: seq<u8>): (ws: seq<Write>)
    requires ValidPages(pages) && c < CONTEXTS && |file| >= HEADER
    ensures InRam(ws)
  {
    CopyWrites(pages, c, Word(file, 3), file[HEADER..])
  }

  /** Everything a cartridge writes, in order: its payload, then its vectors. */
  ghost function EntryWrites(pages: PageMap, e: CartEntry): (ws: seq<Write>)
    requires ValidPages(pages) && e.context < CONTEXTS
    ensures InRam(ws)
  {
    if !Loadable(e.file) then []
    else
      var f := e.file.value;
      PayloadWrites(pages, e.context, f) + VectorWrites(pages, e.context, f, 0) +
      VectorWrites(pages, e.context, f, 1) + VectorWrites(pages, e.context, f, 2)
  }

  ghost predicate ValidEntries(entries: seq<CartEntry>) {
    forall i | 0 <= i < |entries| :: entries[i].context < CONTEXTS
  }

  ghost function AllWrites(pages: PageMap, entries: seq<CartEntry>): (ws: seq<Write>)
    requires ValidPages(pages) && ValidEntries(entries)
    ensures InRam(ws)
  {
    if entries == [] then []
    else AllWrites(pages, entries[..|entries| - 1]) + EntryWrites(pages, entries[|entries| - 1])
  }

  // ---------------------------------------------------------------------------
  // Loading
  // ---------------------------------------------------------------------------

  /** Some prefix of a write list has been applied. */
  ghost predicate PrefixApplied(m: Ram, ws: seq<Write>, m': Ram)
    requires InRam(ws)
  {
    exists k :: 0 <= k <= |ws| && m' == Apply(m, ws[..k])
  }

  lemma WholeIsPrefix(m: Ram, ws: seq<Write>, vs: seq<Write>, m': Ram)
    requires InRam(ws) && InRam(vs) && m' == Apply(m, ws)
    ensures PrefixApplied(m, ws + vs, m')
  {
    assert (ws + vs)[..|ws|] == ws;
  }

  lemma PrefixAfter(m: Ram, ws: seq<Write>, vs: seq<Write>, m': Ram)
    requires InRam(ws) && InRam(vs) && PrefixApplied(Apply(m, ws), vs, m')
    ensures PrefixApplied(m, ws + vs, m')
  {
    hide Apply;
    var k :| 0 <= k <= |vs| && m' == Apply(Apply(m, ws), vs[..k]);
    assert (ws + vs)[..|ws| + k] == ws + vs[..k];
    ApplyAppend(m, ws, vs[..k]);
  }

  method InstallVector(m: Machine, file: seq<u8>, k: nat)
    requires m.Valid() && m.mode == RpiMode && |file| >= HEADER && k < 3
    modifies m.ram
    ensures m.Ram() == Apply(old(m.Ram()), VectorWrites(m.pages, m.context, file, k))
  {
    if HasVector(file, k) {
      m.WriteContextBytes(0xFFFA + 2 * k, file[8 + 2 * k..10 + 2 * k]);
    }
  }

  method InstallVectors(m: Machine, file: seq<u8>)
    requires m.Valid() && m.mode == RpiMode && |file| >= HEADER
    modifies m.ram
    ensures m.Ram() == Apply(old(m.Ram()), VectorWrites(m.pages, m.context, file, 0) +
                                           VectorWrites(m.pages, m.context, file, 1) +
                                           VectorWrites(m.pages, m.context, file, 2))
  {
    hide Apply, CopyWrites, HasVector, VectorWrites;
    ghost var before := m.Ram();
    ghost var v0, v1, v2 := VectorWrites(m.pages, m.context, file, 0), VectorWrites(m.pages, m.context, file, 1),
                            VectorWrites(m.pages, m.context, file, 2);
    InstallVector(m, file, 0);
    InstallVector(m, file, 1);
    InstallVector(m, file, 2);
    ApplyAppend(before, v0, v1);
    ApplyAppend(before, v0 + v1, v2);
  }

  /** The chunk loop of loadROMCartridgeFile; any read may come up short and end the load. */
  method LoadPayload(m: Machine, flash: Flash, file: seq<u8>, start: u16, size: u16) returns (ok: bool)
    requires m.Valid() && m.mode == RpiMode
    requires |file| == HEADER + size && start == Word(file, 3)
    modifies m.ram, flash
    ensures ok <==> flash.shortReads == old(flash.shortReads)
    ensures old(flash.shortReads) <= flash.shortReads
    ensures var ws := PayloadWrites(m.pages, m.context, file);
            if ok then m.Ram() == Apply(old(m.Ram()), ws) else PrefixApplied(old(m.Ram()), ws, m.Ram())
  {
    hide Apply, CopyWrites, PrefixApplied;
    NoWrites(m.Ram());
    assert CopyWrites(m.pages, m.context, start, []) == [];
    var offset: nat := 0;
    ghost var payload := file[HEADER..];
    while offset < size
      invariant offset <= size && flash.shortReads == old(flash.shortReads)
      invariant m.Ram() == Apply(old(m.Ram()), CopyWrites(m.pages, m.context, start, payload[..offset]))
    {
      var remaining := size - offset;
      var requested := if remaining < CHUNK then remaining else CHUNK;
      ghost var done := CopyWrites(m.pages, m.context, start, payload[..offset]);
      var buffer := flash.Read(file, HEADER + offset, requested);
      if |buffer| != requested {
        CopyWritesAppend(m.pages, m.context, start, payload[..offset], payload[offset..]);
        assert payload[..offset] + payload[offset..] == payload;
        WholeIsPrefix(old(m.Ram()), done, CopyWrites(m.pages, m.context, Wrap(start, offset), payload[offset..]),
                      m.Ram());
        return false;
      }
      m.WriteContextBytes(Wrap(start, offset), buffer);
      CopyWritesAppend(m.pages, m.context, start, payload[..offset], buffer);
      ApplyAppend(old(m.Ram()), done, CopyWrites(m.pages, m.context, Wrap(start, offset), buffer));
      assert payload[..offset] + buffer == payload[..offset + requested];
      offset := offset + requested;
    }
    assert payload[..offset] == payload;
    return true;
  }

  /** loadROMCartridgeFile: it loads a file in full exactly if that is good and no read comes up short. */
  method LoadCartridge(m: Machine, flash: Flash, file: Option<seq<u8>>) returns (ok: bool)
    requires m.Valid() && m.mode == RpiMode
    modifies m.ram, flash
    ensures ok <==> Loadable(file) && flash.shortReads == old(flash.shortReads)
    ensures old(flash.shortReads) <= flash.shortReads
    ensures !Loadable(file) ==> m.Ram() == old(m.Ram())
    ensures var ws := EntryWrites(m.pages, CartEntry(file, m.context));
            if ok then m.Ram() == Apply(old(m.Ram()), ws) else PrefixApplied(old(m.Ram()), ws, m.Ram())
  {
    hide Apply, PrefixApplied, CopyWrites, Sum;
    NothingApplied(m.Ram(), EntryWrites(m.pages, CartEntry(file, m.context)));
    if file.None? {
      return false;
    }
    var f := file.value;
    if |f| < HEADER {
      return false;
    }
    var header := flash.Read(f, 0, HEADER);
    if |header| != HEADER {
      return false;
    }
    var good, start, size := ValidateHeader(header);
    if !good {
      return false;
    }
    if |f| != HEADER + size {
      return false;
    }
    ghost var p, c := m.pages, m.context;
    ghost var before := m.Ram();
    ghost var w, v0, v1, v2 := PayloadWrites(p, c, f), VectorWrites(p, c, f, 0), VectorWrites(p, c, f, 1),
                               VectorWrites(p, c, f, 2);
    ok := LoadPayload(m, flash, f, start, size);
    if !ok {
      ShorterPrefix(before, w, v0 + v1 + v2, m.Ram());
      assert w + (v0 + v1 + v2) == w + v0 + v1 + v2;
      return;
    }
    InstallVectors(m, f);
    ApplyAppend(before, w, v0 + v1 + v2);
    assert w + (v0 + v1 + v2) == w + v0 + v1 + v2;
  }

  lemma ShorterPrefix(m: Ram, ws: seq<Write>, vs: seq<Write>, m': Ram)
    requires InRam(ws) && InRam(vs) && PrefixApplied(m, ws, m')
    ensures PrefixApplied(m, ws + vs, m')
  {
    var k :| 0 <= k <= |ws| && m' == Apply(m, ws[..k]);
    assert (ws + vs)[..k] == ws[..k];
  }

  /**
   activateConfiguration: it succeeds exactly if all files are good and no read comes up short. Success
   applies the writes of all entries in order, a failure a prefix of them, which without a short read
   is those before the first bad file. An undefined or out-of-range configuration leaves all as it was.
   */
  method Activate(m: Machine, flash: Flash, configs: seq<Option<seq<CartEntry>>>, index: int) returns (ok: bool)
    requires m.Valid() && Settled(m.BusState())
    requires forall i | 0 <= i < |configs| && configs[i].Some? :: ValidEntries(configs[i].value)
    modifies m, m.ram, flash
    ensures m.Valid()
    ensures !(0 <= index < |configs| && configs[index].Some?) ==>
              !ok && m.Ram() == old(m.Ram()) && m.BusState() == old(m.BusState())
    ensures 0 <= index < |configs| && configs[index].Some? ==>
              var ws := AllWrites(m.pages, configs[index].value);
              && m.state == Boot && Settled(m.BusState())
              && (ok <==> AllLoadable(configs[index].value) && flash.shortReads == old(flash.shortReads))
              && (!ok && flash.shortReads == old(flash.shortReads) ==>
                    StoppedAtBadFile(old(m.Ram()), m.pages, configs[index].value, m.Ram()))
              && if ok then m.Ram() == Apply(old(m.Ram()), ws) else PrefixApplied(old(m.Ram()), ws, m.Ram())
    ensures ok && InjectiveEntries(m.pages, configs[index].value) ==>
              Overlaid(m.pages, configs[index].value, old(m.Ram()), m.Ram())
  {
    if index < 0 || index >= |configs| {
      return false;
    }
    if configs[index].None? {
      return false;
    }
    hide AllWrites, Apply, PrefixApplied, InjectiveEntries, Overlaid, AllLoadable, StoppedAtBadFile;
    var booted := m.SetState(Boot);
    ghost var before := m.Ram();
    ok := LoadEntries(m, flash, configs[index].value);
    if ok && InjectiveEntries(m.pages, configs[index].value) {
      EveryCellIsOverlaid(before, m.pages, configs[index].value);
    }
  }

  ghost predicate AllLoadable(entries: seq<CartEntry>) {
    forall i | 0 <= i < |entries| :: Loadable(entries[i].file)
  }

  /** Exactly the entries before the first bad file have been written. */
  ghost predicate StoppedAtBadFile(m: Ram, pages: PageMap, entries: seq<CartEntry>, m': Ram)
    requires ValidPages(pages) && ValidEntries(entries)
  {
    exists i :: 0 <= i < |entries| && !Loadable(entries[i].file) && AllLoadable(entries[..i])
                && m' == Apply(m, AllWrites(pages, entries[..i]))
  }

  /** The overlay loop of activateConfiguration, on the bus of the booting machine. */
  method LoadEntries(m: Machine, flash: Flash, entries: seq<CartEntry>) returns (ok: bool)
    requires m.Valid() && m.mode == RpiMode && ValidEntries(entries)
    modifies m`context, m.ram, flash
    ensures m.Valid()
    ensures ok <==> AllLoadable(entries) && flash.shortReads == old(flash.shortReads)
    ensures !ok && flash.shortReads == old(flash.shortReads) ==>
              StoppedAtBadFile(old(m.Ram()), m.pages, entries, m.Ram())
    ensures var ws := AllWrites(m.pages, entries);
            if ok then m.Ram() == Apply(old(m.Ram()), ws) else PrefixApplied(old(m.Ram()), ws, m.Ram())
  {
    hide Apply, PrefixApplied, EntryWrites, Loadable;
    NoWrites(m.Ram());
    assert AllWrites(m.pages, entries[..0]) == [];
    hide AllWrites;
    var i := 0;
    while i < |entries|
      invariant 0 <= i <= |entries| && m.Valid()
      invariant AllLoadable(entries[..i]) && flash.shortReads == old(flash.shortReads)
      invariant m.Ram() == Apply(old(m.Ram()), AllWrites(m.pages, entries[..i]))
    {
      m.SetContext(entries[i].context);
      ghost var done, next := AllWrites(m.pages, entries[..i]), EntryWrites(m.pages, entries[i]);
      AllWritesSnoc(m.pages, entries, i);
      ok := LoadCartridge(m, flash, entries[i].file);
      assert CartEntry(entries[i].file, m.context) == entries[i];
      if !ok {
        PrefixAfter(old(m.Ram()), done, next, m.Ram());
        LongerList(old(m.Ram()), m.pages, entries, i + 1, m.Ram());
        return;
      }
      ApplyAppend(old(m.Ram()), done, next);
      i := i + 1;
    }
    assert entries[..i] == entries;
    return true;
  }

  lemma NothingApplied(m: Ram, ws: seq<Write>)
    requires InRam(ws)
    ensures PrefixApplied(m, ws, m)
  {
    assert ws[..0] == [];
  }

  lemma NoWrites(m: Ram)
    ensures Apply(m, []) == m
  {
  }

  lemma AllWritesSnoc(pages: PageMap, entries: seq<CartEntry>, n: nat)
    requires ValidPages(pages) && ValidEntries(entries) && n < |entries|
    ensures AllWrites(pages, entries[..n + 1]) == AllWrites(pages, entries[..n]) + EntryWrites(pages, entries[n])
  {
    assert entries[..n + 1][..n] == entries[..n];
  }

  lemma {:induction false} LongerList(m: Ram, pages: PageMap, entries: seq<CartEntry>, n: nat, m': Ram)
    requires ValidPages(pages) && ValidEntries(entries) && n <= |entries|
    requires PrefixApplied(m, AllWrites(pages, entries[..n]), m')
    ensures PrefixApplied(m, AllWrites(pages, entries), m')
    decreases |entries| - n
  {
    hide PrefixApplied, Apply, EntryWrites;
    if n == |entries| {
      assert entries[..n] == entries;
    } else {
      AllWritesSnoc(pages, entries, n);
      hide AllWrites;
      ShorterPrefix(m, AllWrites(pages, entries[..n]), EntryWrites(pages, entries[n]), m');
      LongerList(m, pages, entries, n + 1, m');
    }
  }

  // ---------------------------------------------------------------------------
  // What memory holds afterwards
  // ---------------------------------------------------------------------------

  /** The byte a cartridge wants at an address: a vector if it has one there, else its payload. */
  ghost function ByteAt(file: seq<u8>, a: u16): Option<u8>
    requires GoodFile(file)
  {
    if a >= 0xFFFA && HasVector(file, (a - 0xFFFA) / 2) then Some(file[8 + (a - 0xFFFA)])
    else if Word(file, 3) <= a < Word(file, 3) + Word(file, 5) then Some(file[HEADER + a - Word(file, 3)])
    else None
  }

  /** The byte an entry puts into a RAM cell, through its context's page map. */
  ghost function EntryByte(pages: PageMap, e: CartEntry, cell: nat): Option<u8>
    requires ValidPages(pages) && e.context < CONTEXTS
  {
    if Loadable(e.file) && Behind(pages, e.context, cell) then
      var a: u16 :| Cell(pages, e.context, a) == cell;
      ByteAt(e.file.value, a)
    else None
  }

  /** The last entry that maps to the cell decides; without one the old byte stays. */
  ghost function OverlayByte(pages: PageMap, entries: seq<CartEntry>, cell: nat, before: u8): u8
    requires ValidPages(pages) && ValidEntries(entries)
  {
    if entries == [] then before
    else match EntryByte(pages, entries[|entries| - 1], cell)
      case Some(v) => v
      case None => OverlayByte(pages, entries[..|entries| - 1], cell, before)
  }

  /** Every cell holds what the last covering cartridge put there. */
  ghost predicate Overlaid(pages: PageMap, entries: seq<CartEntry>, before: Ram, after: Ram)
    requires ValidPages(pages) && ValidEntries(entries)
  {
    forall cell | 0 <= cell < RAM_SIZE :: after[cell] == OverlayByte(pages, entries, cell, before[cell])
  }

  /** The contexts of all entries map their slots apart. */
  ghost predicate InjectiveEntries(pages: PageMap, entries: seq<CartEntry>)
    requires ValidPages(pages) && ValidEntries(entries)
  {
    forall i | 0 <= i < |entries| :: InjectiveContext(pages, entries[i].context)
  }

  /** The last write of a copy to the cell behind address a. */
  lemma CopyLastWrite(pages: PageMap, c: nat, address: u16, bytes: seq<u8>, a: u16)
    requires ValidPages(pages) && c < CONTEXTS && InjectiveContext(pages, c)
    requires address + |bytes| <= ADDRESSES
    ensures LastWrite(CopyWrites(pages, c, address, bytes), Cell(pages, c, a)) ==
            if address <= a < address + |bytes| then Some(bytes[a - address]) else None
  {
    var ws := CopyWrites(pages, c, address, bytes);
    var cell := Cell(pages, c, a);
    forall j | 0 <= j < |ws|
      ensures ws[j].cell == cell <==> address + j == a
    {
      assert Wrap(address, j) == address + j;
      CellInjective(pages, c, address + j, a);
    }
    if address <= a < address + |bytes| {
      OnlyWrite(ws, cell, a - address);
    } else {
      LastWriteExists(ws, cell);
    }
  }

  lemma VectorLastWrite(pages: PageMap, c: nat, file: seq<u8>, k: nat, a: u16)
    requires ValidPages(pages) && c < CONTEXTS && InjectiveContext(pages, c)
    requires |file| >= HEADER && k < 3
    ensures LastWrite(VectorWrites(pages, c, file, k), Cell(pages, c, a)) ==
            if HasVector(file, k) && 0xFFFA + 2 * k <= a < 0xFFFC + 2 * k then Some(file[8 + (a - 0xFFFA)]) else None
  {
    if HasVector(file, k) {
      CopyLastWrite(pages, c, 0xFFFA + 2 * k, file[8 + 2 * k..10 + 2 * k], a);
    }
  }

  /** All writes go to cells behind addresses of context c. */
  ghost predicate WithinContext(pages: PageMap, c: nat, ws: seq<Write>)
    requires ValidPages(pages) && c < CONTEXTS
  {
    forall i | 0 <= i < |ws| :: Behind(pages, c, ws[i].cell)
  }

  lemma EntryStaysWithinContext(pages: PageMap, e: CartEntry)
    requires ValidPages(pages) && e.context < CONTEXTS
    ensures WithinContext(pages, e.context, EntryWrites(pages, e))
  {
    if Loadable(e.file) {
      var c, f := e.context, e.file.value;
      CopyStaysWithinContext(pages, c, Word(f, 3), f[HEADER..]);
      CopyStaysWithinContext(pages, c, 0xFFFA, f[8..10]);
      CopyStaysWithinContext(pages, c, 0xFFFC, f[10..12]);
      CopyStaysWithinContext(pages, c, 0xFFFE, f[12..14]);
      assert WithinContext(pages, c, VectorWrites(pages, c, f, 0));
      assert WithinContext(pages, c, VectorWrites(pages, c, f, 1));
      assert WithinContext(pages, c, VectorWrites(pages, c, f, 2));
    }
  }

  lemma CopyStaysWithinContext(pages: PageMap, c: nat, address: u16, bytes: seq<u8>)
    requires ValidPages(pages) && c < CONTEXTS
    ensures WithinContext(pages, c, CopyWrites(pages, c, address, bytes))
  {
    var ws := CopyWrites(pages, c, address, bytes);
    forall i | 0 <= i < |ws|
      ensures Behind(pages, c, ws[i].cell)
    {
      assert ws[i].cell == Cell(pages, c, Wrap(address, i));
    }
  }

  lemma EntryLastWriteAt(pages: PageMap, e: CartEntry, a: u16)
    requires ValidPages(pages) && e.context < CONTEXTS && InjectiveContext(pages, e.context)
    requires Loadable(e.file)
    ensures LastWrite(EntryWrites(pages, e), Cell(pages, e.context, a)) == ByteAt(e.file.value, a)
  {
    hide LastWrite, CopyWrites, Cell, HasVector, Sum;
    var c, f := e.context, e.file.value;
    var cell := Cell(pages, c, a);
    var w, v0, v1, v2 := PayloadWrites(pages, c, f), VectorWrites(pages, c, f, 0),
                         VectorWrites(pages, c, f, 1), VectorWrites(pages, c, f, 2);
    LastWriteAppend(w + v0 + v1, v2, cell);
    LastWriteAppend(w + v0, v1, cell);
    LastWriteAppend(w, v0, cell);
    VectorLastWrite(pages, c, f, 0, a);
    VectorLastWrite(pages, c, f, 1, a);
    VectorLastWrite(pages, c, f, 2, a);
    CopyLastWrite(pages, c, Word(f, 3), f[HEADER..], a);
  }

  lemma EntryLastWrite(pages: PageMap, e: CartEntry, cell: nat)
    requires ValidPages(pages) && e.context < CONTEXTS && InjectiveContext(pages, e.context)
    ensures LastWrite(EntryWrites(pages, e), cell) == EntryByte(pages, e, cell)
  {
    hide ByteAt, EntryWrites;
    if Loadable(e.file) {
      if Behind(pages, e.context, cell) {
        forall a: u16 | Cell(pages, e.context, a) == cell
          ensures LastWrite(EntryWrites(pages, e), cell) == ByteAt(e.file.value, a)
        {
          EntryLastWriteAt(pages, e, a);
        }
      } else {
        EntryStaysWithinContext(pages, e);
        LastWriteExists(EntryWrites(pages, e), cell);
      }
    } else {
      NoEntryNoWrite(pages, e, cell);
    }
  }

  lemma NoEntryNoWrite(pages: PageMap, e: CartEntry, cell: nat)
    requires ValidPages(pages) && e.context < CONTEXTS
    requires !Loadable(e.file)
    ensures LastWrite(EntryWrites(pages, e), cell) == None
  {
  }

  /** The boot overlay: every cell holds what the last covering cartridge put there. */
  lemma {:induction false} BootOverlay(m: Ram, pages: PageMap, entries: seq<CartEntry>, cell: nat)
    requires ValidPages(pages) && ValidEntries(entries) && cell < RAM_SIZE
    requires InjectiveEntries(pages, entries)
    ensures Apply(m, AllWrites(pages, entries))[cell] == OverlayByte(pages, entries, cell, m[cell])
  {
    if entries != [] {
      var init, last := entries[..|entries| - 1], entries[|entries| - 1];
      BootOverlay(m, pages, init, cell);
      EntryLastWrite(pages, last, cell);
      var before := Apply(m, AllWrites(pages, init));
      ApplyAppend(m, AllWrites(pages, init), EntryWrites(pages, last));
      ApplyAt(before, EntryWrites(pages, last), cell);
    }
  }

  lemma EveryCellIsOverlaid(m: Ram, pages: PageMap, entries: seq<CartEntry>)
    requires ValidPages(pages) && ValidEntries(entries) && InjectiveEntries(pages, entries)
    ensures Overlaid(pages, entries, m, Apply(m, AllWrites(pages, entries)))
  {
    hide Apply, AllWrites;
    forall cell | 0 <= cell < RAM_SIZE
      ensures Apply(m, AllWrites(pages, entries))[cell] == OverlayByte(pages, entries, cell, m[cell])
    {
      BootOverlay(m, pages, entries, cell);
    }
  }

  /** Bits 0, 1 and 2 of the TYPE byte ask for the NMI, RESET and IRQ vectors at $FFFA, $FFFC and $FFFE. */
  lemma VectorsAskedFor(pages: PageMap, e: CartEntry, nmi: bool, reset: bool, irq: bool, others: nat, a: u16)
    requires ValidPages(pages) && e.context < CONTEXTS && InjectiveContext(pages, e.context)
    requires Loadable(e.file) && 0xFFFA <= a
    requires e.file.value[7] ==
               (if nmi then 1 else 0) + (if reset then 2 else 0) + (if irq then 4 else 0) + 8 * others
    requires if a <= 0xFFFB then nmi else if a <= 0xFFFD then reset else irq
    ensures LastWrite(EntryWrites(pages, e), Cell(pages, e.context, a)) == Some(e.file.value[8 + (a - 0xFFFA)])
  {
    hide LastWrite, EntryWrites, Cell, Sum;
    TypeBits(e.file.value, nmi, reset, irq, others);
    hide HasVector;
    EntryLastWriteAt(pages, e, a);
  }

  lemma TypeBits(file: seq<u8>, nmi: bool, reset: bool, irq: bool, others: nat)
    requires |file| >= HEADER
    requires file[7] == (if nmi then 1 else 0) + (if reset then 2 else 0) + (if irq then 4 else 0) + 8 * others
    ensures HasVector(file, 0) == nmi && HasVector(file, 1) == reset && HasVector(file, 2) == irq
  {
  }

  /** No change of a single byte of a good header, but for the unused one, goes unnoticed. */
  lemma SingleByteChangeIsNoticed(h: seq<u8>, i: nat, b: u8)
    requires GoodHeader(h) && i < HEADER && i != 1 && b != h[i]
    ensures !GoodHeader(h[i := b])
  {
    if 3 <= i < 14 {
      var h' := h[i := b];
      SumChanges(h[3..14], i - 3, b);
      assert h'[3..14] == h[3..14][i - 3 := b];
    } else if i == 14 {
      assert h[14 := b][3..14] == h[3..14];
    }
  }

  lemma {:induction false} SumChanges(bytes: seq<u8>, i: nat, b: u8)
    requires i < |bytes|
    ensures Sum(bytes[i := b]) == Sum(bytes) - bytes[i] + b
  {
    var n := |bytes| - 1;
    if i == n {
      assert bytes[i := b][..n] == bytes[..n];
    } else {
      SumChanges(bytes[..n], i, b);
      assert bytes[i := b][..n] == bytes[..n][i := b];
    }
  }
}
