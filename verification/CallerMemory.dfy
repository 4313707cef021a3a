/**
 How a filesystem request reaches its caller's memory (rp_fs_mailbox.cpp): range checks, block
 copies in and out of a context, and what they cannot touch.
 */
module CallerMemory {
  import opened Words
  import opened MmuTable
  import opened MemoryConfig
  import opened PageAllocator
  import opened SystemBus
  import opened PhysicalMemory
  import opened Neobus

  const PRIVATE_LIMIT: nat := 0x8000
  const PRIVATE_SLOTS: nat := 8

  /** A size of zero means 65536 bytes. */
  function EffectiveSize(word: u16): (n: nat)
    ensures 1 <= n <= ADDRESSES && n % ADDRESSES == word
  {
    if word == 0 then 65536 else word
  }

  /** The range stays inside the 64K address space: no address wraps. */
  predicate ValidRange(start: u16, count: nat)
    ensures ValidRange(start, count) <==> count == 0 || start + count <= ADDRESSES
  {
    if count == 0 then true
    else if count > 65536 then false
    else if count == 65536 then start == 0
    else start + count - 1 <= 0xFFFF
  }

  /** A non-empty range within 1..$7FFF. */
  predicate PrivateRange(address: u16, length: u16)
    ensures PrivateRange(address, length) <==> length > 0 && 1 <= address && address + length <= PRIVATE_LIMIT
  {
    if address == 0 || length == 0 || address >= PRIVATE_LIMIT then false
    else address + length <= PRIVATE_LIMIT
  }

  /** The cell is behind a private address of the context. */
  ghost predicate BehindPrivate(pages: PageMap, c: nat, cell: nat)
    requires ValidPages(pages) && c < CONTEXTS
  {
    exists a: u16 :: 1 <= a < PRIVATE_LIMIT && Cell(pages, c, a) == cell
  }

  /** Memory changes nowhere but behind private addresses of the context. */
  ghost predicate OnlyPrivate(pages: PageMap, c: nat, before: Ram, after: Ram)
    requires ValidPages(pages) && c < CONTEXTS
  {
    forall cell | 0 <= cell < RAM_SIZE && !BehindPrivate(pages, c, cell) :: after[cell] == before[cell]
  }

  lemma OnlyPrivateTrans(pages: PageMap, c: nat, a: Ram, b: Ram, d: Ram)
    requires ValidPages(pages) && c < CONTEXTS && OnlyPrivate(pages, c, a, b) && OnlyPrivate(pages, c, b, d)
    ensures OnlyPrivate(pages, c, a, d)
  {
  }

  lemma CopyIsPrivate(m: Ram, pages: PageMap, c: nat, address: u16, bytes: seq<u8>)
    requires ValidPages(pages) && c < CONTEXTS
    requires bytes != [] && 1 <= address && address + |bytes| <= PRIVATE_LIMIT
    ensures OnlyPrivate(pages, c, m, Apply(m, CopyWrites(pages, c, address, bytes)))
  {
    var ws := CopyWrites(pages, c, address, bytes);
    forall cell | 0 <= cell < RAM_SIZE && !BehindPrivate(pages, c, cell)
      ensures Apply(m, ws)[cell] == m[cell]
    {
      forall i | 0 <= i < |ws|
        ensures ws[i].cell != cell
      {
        assert Wrap(address, i) == address + i;
      }
      ApplyMisses(m, ws, cell);
    }
  }

  /** In the context's view the bytes are at the address, and every other address shows what it did. */
  ghost predicate OnlyPut(pages: PageMap, c: nat, before: Ram, after: Ram, address: u16, bytes: seq<u8>)
    requires ValidPages(pages) && c < CONTEXTS
  {
    forall a: u16 :: View(after, pages, c, a) ==
      if address <= a < address + |bytes| then bytes[a - address] else View(before, pages, c, a)
  }

  /** The bytes were copied to the context's memory, and nothing else was written. */
  ghost predicate Wrote(pages: PageMap, c: nat, before: Ram, after: Ram, address: u16, bytes: seq<u8>)
    requires ValidPages(pages) && c < CONTEXTS
  {
    && after == Apply(before, CopyWrites(pages, c, address, bytes))
    && (InjectiveContext(pages, c) ==> OnlyPut(pages, c, before, after, address, bytes))
  }

  /** A copy that fits below 64K is what the caller sees, in a context that maps its slots apart. */
  lemma CopyWrote(m: Ram, pages: PageMap, c: nat, address: u16, bytes: seq<u8>)
    requires ValidPages(pages) && c < CONTEXTS && (bytes == [] || address + |bytes| <= ADDRESSES)
    ensures Wrote(pages, c, m, Apply(m, CopyWrites(pages, c, address, bytes)), address, bytes)
  {
    hide Apply;
    var ws := CopyWrites(pages, c, address, bytes);
    if bytes == [] {
      ApplyNothing(m);
    } else if InjectiveContext(pages, c) {
      forall a: u16
        ensures View(Apply(m, ws), pages, c, a) ==
                if address <= a < address + |bytes| then bytes[a - address] else View(m, pages, c, a)
      {
        if address <= a < address + |bytes| {
          CopyHits(m, pages, c, address, bytes, a - address);
        } else {
          CopyMisses(m, pages, c, address, bytes, a);
        }
      }
    }
  }

  lemma ApplyNothing(m: Ram)
    ensures Apply(m, []) == m
  {
  }

  lemma CopyMisses(m: Ram, pages: PageMap, c: nat, address: u16, bytes: seq<u8>, a: u16)
    requires ValidPages(pages) && c < CONTEXTS && InjectiveContext(pages, c) && address + |bytes| <= ADDRESSES
    requires !(address <= a < address + |bytes|)
    ensures View(Apply(m, CopyWrites(pages, c, address, bytes)), pages, c, a) == View(m, pages, c, a)
  {
    hide Apply;
    var ws := CopyWrites(pages, c, address, bytes);
    forall i | 0 <= i < |ws|
      ensures ws[i].cell != Cell(pages, c, a)
    {
      assert Wrap(address, i) == address + i;
      CellInjective(pages, c, address + i, a);
    }
    ApplyMisses(m, ws, Cell(pages, c, a));
  }

  /** The first eight slots of a context belong to private regions. */
  ghost predicate PrivateLow(cfg: Config, c: u8)
    requires Sound(cfg) && c < ActiveContexts(cfg)
  {
    forall s: nat | s < PRIVATE_SLOTS :: !RegionOver(cfg, c, s).shared
  }

  /** Two addresses at the same place of slots that the sharing rule puts on one page. */
  ghost predicate Aliases(cfg: Config, c: u8, b: u16, d: u8, a: u16)
    requires Sound(cfg) && c < ActiveContexts(cfg) && d < ActiveContexts(cfg)
  {
    SamePage(cfg, c, b / PAGE_SIZE, d, a / PAGE_SIZE) && b % PAGE_SIZE == a % PAGE_SIZE
  }

  lemma AllocatedPagesAreValid(cfg: Config, pages: PageMap, granted: map<Page, nat>)
    requires Sound(cfg) && Allocation(cfg, pages, granted)
    ensures ValidPages(pages) && ActiveContexts(cfg) <= MAX_CONTEXTS
  {
  }

  /** An allocation maps two addresses of active contexts to one cell exactly if they are aliases by the rule. */
  lemma AliasesIffSameCell(cfg: Config, pages: PageMap, granted: map<Page, nat>, c: u8, b: u16, d: u8, a: u16)
    requires Sound(cfg) && Allocation(cfg, pages, granted) && c < ActiveContexts(cfg) && d < ActiveContexts(cfg)
    ensures Cell(pages, c, b) == Cell(pages, d, a) <==> Aliases(cfg, c, b, d, a)
  {
    hide Sound, Allocation, SamePage, Cell;
    AllocatedPagesAreValid(cfg, pages, granted);
    PageIdentity(cfg, pages, granted, c, b / PAGE_SIZE, d, a / PAGE_SIZE);
    SameCell(pages, c, b, d, a);
  }

  lemma SameCell(pages: PageMap, c: nat, b: u16, d: nat, a: u16)
    requires ValidPages(pages) && c < CONTEXTS && d < CONTEXTS
    ensures Cell(pages, c, b) == Cell(pages, d, a) <==>
            pages[c][b / PAGE_SIZE] == pages[d][a / PAGE_SIZE] && b % PAGE_SIZE == a % PAGE_SIZE
  {
  }

  /**
   When the lower half of a context is private, a change behind its private addresses is invisible at
   every address of every other active context, and at every address from $8000 on of its own.
   */
  lemma PrivateChangesAreInvisible(cfg: Config, pages: PageMap, granted: map<Page, nat>, c: u8, before: Ram, after: Ram,
                                   d: u8, address: u16)
    requires Sound(cfg) && Allocation(cfg, pages, granted)
    requires c < ActiveContexts(cfg) && d < ActiveContexts(cfg) && PrivateLow(cfg, c)
    requires OnlyPrivate(pages, c, before, after)
    requires d != c || address >= PRIVATE_LIMIT
    ensures View(after, pages, d, address) == View(before, pages, d, address)
  {
    hide Sound, Allocation, Cell;
    AllocatedPagesAreValid(cfg, pages, granted);
    var cell := Cell(pages, d, address);
    if BehindPrivate(pages, c, cell) {
      var a: u16 :| 1 <= a < PRIVATE_LIMIT && Cell(pages, c, a) == cell;
      AliasesIffSameCell(cfg, pages, granted, c, a, d, address);
      assert false;
    }
  }

  /** The bus is as it was, or as a bracket leaves it. */
  predicate SameBus(before: Bus, after: Bus) {
    after == before || after == Released(before)
  }

  lemma SameBusTrans(a: Bus, b: Bus, c: Bus)
    requires SameBus(a, b) && SameBus(b, c)
    ensures SameBus(a, c)
  {
  }

  /** rp_fs_mb_read_context_block. */
  method ReadBlock(m: Machine, c: u8, address: u16, length: u16) returns (bytes: Option<seq<u8>>)
    requires m.Valid() && Settled(m.BusState())
    modifies m
    ensures m.Valid() && Settled(m.BusState()) && SameBus(old(m.BusState()), m.BusState())
    ensures bytes.Some? <==> PrivateRange(address, length) && c < MAX_BRACKET_CONTEXTS
    ensures bytes.Some? ==> |bytes.value| == length
    ensures bytes.Some? ==> forall i | 0 <= i < length :: bytes.value[i] == m.Seen(c, address + i)
  {
    hide Settled, Exec, ExecAll;
    if !PrivateRange(address, length) {
      return None;
    }
    BracketRestores(m.BusState(), c);
    var ok, state, context := m.BeginContextAccess(c);
    if !ok {
      return None;
    }
    assert forall i | 0 <= i < length :: Wrap(address, i) == address + i;
    var data := m.ReadContextBytes(address, length);
    m.EndContextAccess(state, context);
    return Some(data);
  }

  /** rp_fs_mb_write_context_block. */
  method WriteBlock(m: Machine, c: u8, address: u16, bytes: seq<u8>) returns (ok: bool)
    requires m.Valid() && Settled(m.BusState()) && |bytes| < ADDRESSES
    modifies m, m.ram
    ensures m.Valid() && Settled(m.BusState()) && SameBus(old(m.BusState()), m.BusState())
    ensures ok <==> PrivateRange(address, |bytes|) && c < MAX_BRACKET_CONTEXTS
    ensures m.Ram() == if ok then Apply(old(m.Ram()), CopyWrites(m.pages, c, address, bytes)) else old(m.Ram())
    ensures ok ==> OnlyPrivate(m.pages, c, old(m.Ram()), m.Ram())
    ensures ok ==> Wrote(m.pages, c, old(m.Ram()), m.Ram(), address, bytes)
  {
    hide Settled, Exec, ExecAll;
    if !PrivateRange(address, |bytes|) {
      return false;
    }
    BracketRestores(m.BusState(), c);
    var state, context;
    ok, state, context := m.BeginContextAccess(c);
    if !ok {
      return;
    }
    m.WriteContextBytes(address, bytes);
    m.EndContextAccess(state, context);
    CopyIsPrivate(old(m.Ram()), m.pages, c, address, bytes);
    CopyWrote(old(m.Ram()), m.pages, c, address, bytes);
  }

  /** Stealing the bus for a context and giving it back, as the two bracket methods do it. */
  lemma BracketRestores(b: Bus, c: u8)
    requires Settled(b) && b.context < CONTEXTS
    ensures c < MAX_BRACKET_CONTEXTS ==>
              var stolen := Steal(b, Some(c));
              && stolen.pins.mode == RpiMode && stolen.context == c
              && var back := Enter(stolen.(context := b.context), b.state);
                 Settled(back) && SameBus(b, back)
  {
    if c < MAX_BRACKET_CONTEXTS {
      BracketIsTransparent(b, Some(c), []);
    }
  }

  /** The byte that a context sees some way past an address. */
  ghost function CharAt(m: Ram, pages: PageMap, c: nat, address: u16, i: nat): u8
    requires ValidPages(pages) && c < CONTEXTS && address + i < ADDRESSES
  {
    View(m, pages, c, address + i)
  }

  /** A NUL-terminated printable text of at least one character lies at the address. */
  ghost predicate PathAt(m: Ram, pages: PageMap, c: nat, address: u16, limit: nat, path: string)
    requires ValidPages(pages) && c < CONTEXTS
  {
    && 1 <= address && 1 <= |path| < limit && address + |path| < PRIVATE_LIMIT
    && CharAt(m, pages, c, address, |path|) == 0
    && forall i | 0 <= i < |path| ::
         32 <= CharAt(m, pages, c, address, i) < 127 && path[i] == CharAt(m, pages, c, address, i) as char
  }

  lemma PathAtIsUnique(m: Ram, pages: PageMap, c: nat, address: u16, limit: nat, p: string, q: string)
    requires ValidPages(pages) && c < CONTEXTS
    requires PathAt(m, pages, c, address, limit, p) && PathAt(m, pages, c, address, limit, q)
    ensures p == q
  {
    assert |p| == |q|;
  }

  /** After i printable characters, the end of the range or a bad character rules every path out. */
  lemma NoPathAt(m: Ram, pages: PageMap, c: nat, address: u16, limit: nat, i: nat)
    requires ValidPages(pages) && c < CONTEXTS && address + i < ADDRESSES
    requires forall j | 0 <= j < i :: 32 <= CharAt(m, pages, c, address, j)
    requires i == limit || address + i >= PRIVATE_LIMIT
             || !(32 <= CharAt(m, pages, c, address, i) < 127 || (CharAt(m, pages, c, address, i) == 0 && i > 0))
    ensures forall p :: !PathAt(m, pages, c, address, limit, p)
  {
  }

  /** rp_fs_mb_read_context_path. */
  method ReadPath(m: Machine, c: u8, address: u16, maxLen: u16, room: nat) returns (path: Option<string>)
    requires m.Valid() && Settled(m.BusState())
    modifies m
    ensures m.Valid() && Settled(m.BusState()) && SameBus(old(m.BusState()), m.BusState())
    ensures path.Some? ==> c < MAX_BRACKET_CONTEXTS && maxLen <= room && '\0' !in path.value
                           && PathAt(m.Ram(), m.pages, c, address, maxLen, path.value)
    ensures path.None? && c < MAX_BRACKET_CONTEXTS && maxLen <= room ==>
              forall p :: !PathAt(m.Ram(), m.pages, c, address, maxLen, p)
  {
    hide Settled, Exec, ExecAll;
    if room < 2 || maxLen == 0 || maxLen > room || address == 0 || address >= PRIVATE_LIMIT {
      return None;
    }
    BracketRestores(m.BusState(), c);
    var begun, state, context := m.BeginContextAccess(c);
    if !begun {
      return None;
    }
    ghost var ram := m.Ram();
    var text := ScanPath(m, address, maxLen);
    assert m.context == c && m.Ram() == ram;
    forall p | text.None?
      ensures !PathAt(ram, m.pages, c, address, maxLen, p)
    {
      assert !PathAt(m.Ram(), m.pages, m.context, address, maxLen, p);
    }
    m.EndContextAccess(state, context);
    assert m.Ram() == ram;
    return text;
  }

  method ScanPath(m: Machine, address: u16, maxLen: u16) returns (path: Option<string>)
    requires m.Valid() && m.mode == RpiMode && 1 <= address < PRIVATE_LIMIT
    ensures path.Some? ==> '\0' !in path.value && PathAt(m.Ram(), m.pages, m.context, address, maxLen, path.value)
    ensures path.None? ==> forall p :: !PathAt(m.Ram(), m.pages, m.context, address, maxLen, p)
  {
    ghost var ram := m.Ram();
    var text: string := "";
    var i: nat := 0;
    while i < maxLen
      invariant i <= maxLen && |text| == i && '\0' !in text && address + i <= PRIVATE_LIMIT
      invariant forall j | 0 <= j < i :: 32 <= CharAt(ram, m.pages, m.context, address, j) < 127
      invariant forall j | 0 <= j < i :: text[j] == CharAt(ram, m.pages, m.context, address, j) as char
    {
      if address + i >= PRIVATE_LIMIT {
        NoPathAt(ram, m.pages, m.context, address, maxLen, i);
        return None;
      }
      var ch := m.ReadMemory(address + i);
      assert ch == CharAt(ram, m.pages, m.context, address, i);
      if ch == 0 && i != 0 {
        return Some(text);
      }
      if ch < 32 || ch >= 127 {
        NoPathAt(ram, m.pages, m.context, address, maxLen, i);
        return None;
      }
      text := text + [ch as char];
      i := i + 1;
    }
    NoPathAt(ram, m.pages, m.context, address, maxLen, i);
    return None;
  }
}
