/**
 The physical page allocator (configureMMUFromActiveModel, memory_config.cpp). Private slots
 get fresh pages; a shared region gets one page per (region name, offset), whatever the context.
 */
module PageAllocator {
  import opened Words
  import opened MemoryConfig
  import opened MemoryIni
  import opened MmuTable

  /**
   What a slot asks for. Equal identities must end up on the same physical page. Spare pages are
   those taken for a private slot that already had one, when regions of a layout overlap.
   */
  datatype Page = Private(context: nat, slot: nat) | Shared(region: Name, offset: nat) | Spare(number: nat)

  function Identity(context: nat, r: Region, slot: nat): Page
    requires Covers(r, slot)
  {
    if r.shared then Shared(r.name, slot - r.start) else Private(context, slot)
  }

  /** Every active context is bound to a layout that partitions the slots. */
  ghost predicate Sound(cfg: Config) {
    forall c: u8 | c < ActiveContexts(cfg) ::
      LayoutOf(cfg, cfg.activeModel, c).Some? && IsPartition(LayoutOf(cfg, cfg.activeModel, c).value.regions)
  }

  lemma AcceptedIsSound(cfg: Config)
    requires Accepted(cfg)
    ensures Sound(cfg) && 0 < ActiveContexts(cfg) <= MAX_CONTEXTS
  {
    AcceptedMeans(cfg);
  }

  ghost function Regions(cfg: Config, c: u8): seq<Region>
    requires Sound(cfg) && c < ActiveContexts(cfg)
    ensures IsPartition(Regions(cfg, c))
  {
    LayoutOf(cfg, cfg.activeModel, c).value.regions
  }

  /** The region of context c that holds a slot. */
  ghost function RegionOver(cfg: Config, c: u8, slot: nat): (r: Region)
    requires Sound(cfg) && c < ActiveContexts(cfg) && slot < SLOTS
    ensures Covers(r, slot) && r in Regions(cfg, c)
  {
    var rs := Regions(cfg, c);
    assert CoveredOnce(rs, slot);
    var i :| 0 <= i < |rs| && Covers(rs[i], slot);
    rs[i]
  }

  lemma RegionOverIndex(cfg: Config, c: u8, slot: nat) returns (i: nat)
    requires Sound(cfg) && c < ActiveContexts(cfg) && slot < SLOTS
    ensures i < |Regions(cfg, c)| && Regions(cfg, c)[i] == RegionOver(cfg, c, slot)
  {
    var rs, r := Regions(cfg, c), RegionOver(cfg, c, slot);
    i :| 0 <= i < |rs| && rs[i] == r;
  }

  lemma RegionOverIs(cfg: Config, c: u8, slot: nat, i: nat)
    requires Sound(cfg) && c < ActiveContexts(cfg) && slot < SLOTS
    requires i < |Regions(cfg, c)| && Covers(Regions(cfg, c)[i], slot)
    ensures RegionOver(cfg, c, slot) == Regions(cfg, c)[i]
  {
    assert CoveredOnce(Regions(cfg, c), slot);
  }

  ghost function PageId(cfg: Config, c: u8, slot: nat): Page
    requires Sound(cfg) && c < ActiveContexts(cfg) && slot < SLOTS
  {
    Identity(c, RegionOver(cfg, c, slot), slot)
  }

  /** All identities the active contexts ask for. */
  ghost function Demand(cfg: Config): set<Page>
    requires Sound(cfg)
  {
    set c: u8, s: nat | c < ActiveContexts(cfg) && s < SLOTS :: PageId(cfg, c, s)
  }

  /** Distinct identities have distinct numbers and the numbers are 0..|granted|-1. */
  ghost predicate Dense(granted: map<Page, nat>) {
    && (forall k | k in granted :: granted[k] < |granted|)
    && (forall k, k' | k in granted && k' in granted && granted[k] == granted[k'] :: k == k')
    && (forall n | 0 <= n < |granted| :: n in granted.Values)
  }

  ghost function Grant(granted: map<Page, nat>, k: Page): (bigger: map<Page, nat>)
    ensures bigger.Keys == granted.Keys + {k}
    ensures Extends(granted, bigger)
  {
    if k in granted then granted else granted[k := |granted|]
  }

  lemma GrantKeepsDense(granted: map<Page, nat>, k: Page)
    requires Dense(granted)
    ensures Dense(Grant(granted, k))
  {
    var bigger := Grant(granted, k);
    if k !in granted {
      forall n | 0 <= n < |bigger|
        ensures n in bigger.Values
      {
        if n < |granted| {
          assert n in granted.Values;
          var k' :| k' in granted && granted[k'] == n;
          assert bigger[k'] == n;
        } else {
          assert bigger[k] == n;
        }
      }
    }
  }

  ghost predicate Extends(small: map<Page, nat>, big: map<Page, nat>) {
    forall k | k in small :: k in big && big[k] == small[k]
  }

  datatype SharedPage = SharedPage(model: Name, region: Name, offset: nat, phys: u8)

  const NO_PAGE: u8 := 0xFF

  ghost predicate Listed(sps: seq<SharedPage>, region: Name, offset: nat) {
    exists i | 0 <= i < |sps| :: sps[i].region == region && sps[i].offset == offset
  }

  /** The shared-page table lists exactly the granted shared identities, with their numbers. */
  ghost predicate Directory(model: Name, sps: seq<SharedPage>, granted: map<Page, nat>) {
    && (forall i | 0 <= i < |sps| ::
          sps[i].model == model && Shared(sps[i].region, sps[i].offset) in granted &&
          granted[Shared(sps[i].region, sps[i].offset)] == sps[i].phys)
    && (forall region, offset | Shared(region, offset) in granted :: Listed(sps, region, offset))
  }

  ghost predicate Ledger(model: Name, sps: seq<SharedPage>, next: nat, granted: map<Page, nat>) {
    && Dense(granted)
    && next == |granted| <= TOTAL_PAGES
    && |sps| <= next
    && Directory(model, sps, granted)
    && forall n: nat | Spare(n) in granted :: n < |granted|
  }

  lemma LedgerMeans(model: Name, sps: seq<SharedPage>, next: nat, granted: map<Page, nat>)
    ensures Ledger(model, sps, next, granted) ==> Dense(granted) && next == |granted| <= TOTAL_PAGES
    ensures Ledger(model, [], 0, map[])
  {
  }

  /** The identity that a page is taken for. */
  ghost function Wanted(granted: map<Page, nat>, context: nat, r: Region, slot: nat): Page
    requires Covers(r, slot)
  {
    var k := Identity(context, r, slot);
    if k.Private? && k in granted then Spare(|granted|) else k
  }

  /** The stores for a region stay in its context's row of the map: start and page count are bytes. */
  predicate InRow(r: Region) {
    r.pages == 0 || r.start + r.pages <= SLOTS
  }

  /** The slot that the store for a page of a region goes to. */
  function Slot(r: Region, p: nat): u8 {
    (r.start + p) % 256
  }

  /**
   The layouts of all active contexts keep their stores in their rows. The validator sees to it; a
   configuration that it refused is programmed all the same.
   */
  ghost predicate InRows(cfg: Config) {
    forall c: u8 | c < ActiveContexts(cfg) && LayoutOf(cfg, cfg.activeModel, c).Some? ::
      RegionsInRow(LayoutOf(cfg, cfg.activeModel, c).value.regions)
  }

  ghost predicate RegionsInRow(rs: seq<Region>) {
    forall i | 0 <= i < |rs| :: InRow(rs[i])
  }

  /** Every store of every active context stays in the context's row, exactly then. */
  lemma StoresStayInRows(cfg: Config)
    ensures InRows(cfg) <==> forall c: u8, i: nat, p: nat |
                c < ActiveContexts(cfg) && LayoutOf(cfg, cfg.activeModel, c).Some?
                && i < |LayoutOf(cfg, cfg.activeModel, c).value.regions|
                && p < LayoutOf(cfg, cfg.activeModel, c).value.regions[i].pages ::
              Slot(LayoutOf(cfg, cfg.activeModel, c).value.regions[i], p) < SLOTS
  {
    forall c: u8, i: nat | c < ActiveContexts(cfg) && LayoutOf(cfg, cfg.activeModel, c).Some?
                           && i < |LayoutOf(cfg, cfg.activeModel, c).value.regions|
      ensures var r := LayoutOf(cfg, cfg.activeModel, c).value.regions[i];
              InRow(r) <==> forall p: nat | p < r.pages :: Slot(r, p) < SLOTS
    {
      var r := LayoutOf(cfg, cfg.activeModel, c).value.regions[i];
      if !InRow(r) {
        assert Slot(r, if r.start >= SLOTS then 0 else SLOTS - r.start) >= SLOTS;
      }
    }
  }

  /** A region of the last slot and the one after it: the parser stores it, the validator refuses the file. */
  lemma RefusedFileLeavesItsRow()
    ensures var cfg := Config(1, "M", 0, [Model("M", 1)], [Layout("M", "L", [Region("R", 15, 2, false, false, false)])],
                              [Binding("M", 0, "L")]);
            WellFormed(cfg) && !Accepted(cfg) && !InRows(cfg)
  {
    var r := Region("R", 15, 2, false, false, false);
    var cfg := Config(1, "M", 0, [Model("M", 1)], [Layout("M", "L", [r])], [Binding("M", 0, "L")]);
    assert ModelIndex(cfg.models, "M") == 0 && LayoutIndex(cfg.layouts, "M", "L") == 0;
    assert BindingIndex(cfg.bindings, "M", 0) == 0;
    assert LayoutOf(cfg, "M", 0) == Some(cfg.layouts[0]) && !InRow(cfg.layouts[0].regions[0]);
    if Accepted(cfg) {
      AcceptedIsSound(cfg);
      SoundIsCovering(cfg);
    }
  }

  /** Every active context has a layout that covers all its slots. */
  ghost predicate Covering(cfg: Config) {
    forall c: u8 | c < ActiveContexts(cfg) ::
      LayoutOf(cfg, cfg.activeModel, c).Some? && Complete(LayoutOf(cfg, cfg.activeModel, c).value.regions)
  }

  lemma LayoutFits(cfg: Config, c: u8)
    requires c < ActiveContexts(cfg) && LayoutOf(cfg, cfg.activeModel, c).Some? && Sound(cfg)
    ensures RegionsInRow(Regions(cfg, c)) && IsPartition(Regions(cfg, c))
    ensures Regions(cfg, c) == LayoutOf(cfg, cfg.activeModel, c).value.regions
  {
    SoundIsCovering(cfg);
  }

  lemma SoundHasLayouts(cfg: Config)
    requires Sound(cfg)
    ensures forall c: u8 | c < ActiveContexts(cfg) :: LayoutOf(cfg, cfg.activeModel, c).Some?
  {
  }

  lemma MissingIsNotCovering(cfg: Config)
    ensures (exists c: u8 :: c < ActiveContexts(cfg) && LayoutOf(cfg, cfg.activeModel, c).None?) ==> !Covering(cfg)
  {
  }

  lemma SoundIsCovering(cfg: Config)
    requires Sound(cfg)
    ensures InRows(cfg) && Covering(cfg)
  {
    forall c: u8 | c < ActiveContexts(cfg)
      ensures RegionsInRow(LayoutOf(cfg, cfg.activeModel, c).value.regions)
      ensures Complete(LayoutOf(cfg, cfg.activeModel, c).value.regions)
    {
      DisjointCompleteIsPartition(LayoutOf(cfg, cfg.activeModel, c).value.regions);
    }
  }

  lemma EntryMeans(model: Name, sps: seq<SharedPage>, granted: map<Page, nat>, i: nat)
    requires Directory(model, sps, granted) && i < |sps|
    ensures sps[i].model == model && Shared(sps[i].region, sps[i].offset) in granted
            && granted[Shared(sps[i].region, sps[i].offset)] == sps[i].phys
  {
  }

  lemma NotListed(model: Name, sps: seq<SharedPage>, granted: map<Page, nat>, region: Name, offset: nat)
    requires Directory(model, sps, granted)
    requires forall i | 0 <= i < |sps| :: sps[i].region != region || sps[i].offset != offset
    ensures Shared(region, offset) !in granted
  {
    assert !Listed(sps, region, offset);
  }

  lemma DirectoryGrows(model: Name, sps: seq<SharedPage>, granted: map<Page, nat>, k: Page, phys: u8)
    requires Directory(model, sps, granted) && k !in granted && phys == |granted|
    ensures Directory(model, if k.Shared? then sps + [SharedPage(model, k.region, k.offset, phys)] else sps,
                      Grant(granted, k))
  {
    if k.Shared? {
      var longer := sps + [SharedPage(model, k.region, k.offset, phys)];
      assert longer[|sps|].region == k.region && longer[|sps|].offset == k.offset;
      forall region, offset: nat | Listed(sps, region, offset)
        ensures Listed(longer, region, offset)
      {
        var i :| 0 <= i < |sps| && sps[i].region == region && sps[i].offset == offset;
        assert longer[i] == sps[i];
      }
    }
  }

  class Allocator {
    const physMap: array2<u8>
    var sharedPages: seq<SharedPage>
    var nextPhysical: nat
    ghost var granted: map<Page, nat>

    ghost predicate Valid(model: Name)
      reads this
    {
      && physMap.Length0 == MAX_CONTEXTS && physMap.Length1 == SLOTS
      && Ledger(model, sharedPages, nextPhysical, granted)
    }

    /** The map holds physical pages only. */
    ghost predicate Mapped()
      requires physMap.Length0 == MAX_CONTEXTS && physMap.Length1 == SLOTS
      reads this, physMap
    {
      forall c, s | 0 <= c < MAX_CONTEXTS && 0 <= s < SLOTS :: physMap[c, s] < TOTAL_PAGES
    }

    /** A slot holds the number granted to its identity. */
    ghost predicate Placed(context: nat, r: Region, slot: nat)
      requires physMap.Length0 == MAX_CONTEXTS && physMap.Length1 == SLOTS
      requires context < MAX_CONTEXTS && slot < SLOTS && Covers(r, slot)
      reads this, physMap
    {
      Identity(context, r, slot) in granted && physMap[context, slot] == granted[Identity(context, r, slot)]
    }

    ghost predicate RegionPlaced(context: nat, r: Region)
      requires physMap.Length0 == MAX_CONTEXTS && physMap.Length1 == SLOTS
      requires context < MAX_CONTEXTS && InRow(r)
      reads this, physMap
    {
      forall slot: nat | Covers(r, slot) :: Placed(context, r, slot)
    }

    constructor ()
      ensures physMap.Length0 == MAX_CONTEXTS && physMap.Length1 == SLOTS && fresh(physMap)
    {
      physMap := new u8[MAX_CONTEXTS, SLOTS];
      sharedPages, nextPhysical, granted := [], 0, map[];
    }

    method GetSharedPhysical(model: Name, region: Name, offset: nat) returns (phys: u8)
      requires Valid(model)
      modifies this
      ensures Valid(model)
      ensures phys == NO_PAGE <==> Shared(region, offset) !in old(granted) && old(nextPhysical) == TOTAL_PAGES
      ensures phys == NO_PAGE ==> granted == old(granted)
      ensures phys != NO_PAGE ==>
                granted == Grant(old(granted), Shared(region, offset)) && granted[Shared(region, offset)] == phys
    {
      hide Dense, Directory;
      var i := 0;
      while i < |sharedPages|
        invariant 0 <= i <= |sharedPages| && Valid(model) && unchanged(this)
        invariant forall j | 0 <= j < i :: sharedPages[j].region != region || sharedPages[j].offset != offset
      {
        var sp := sharedPages[i];
        EntryMeans(model, sharedPages, granted, i);
        if sp.model == model && sp.region == region && sp.offset == offset {
          GrantIsPage(granted, Shared(region, offset));
          return sp.phys;
        }
        i := i + 1;
      }
      NotListed(model, sharedPages, granted, region, offset);
      if nextPhysical >= TOTAL_PAGES || |sharedPages| >= TOTAL_PAGES {
        return NO_PAGE;
      }
      phys := nextPhysical;
      ghost var k := Shared(region, offset);
      GrantKeepsDense(granted, k);
      DirectoryGrows(model, sharedPages, granted, k, phys);
      sharedPages := sharedPages + [SharedPage(model, region, offset, phys)];
      granted := Grant(granted, k);
      nextPhysical := nextPhysical + 1;
    }

    method TakePage(model: Name, ghost k: Page) returns (phys: u8)
      requires Valid(model) && !k.Shared? && k !in granted && nextPhysical < TOTAL_PAGES
      requires k.Spare? ==> k.number == |granted|
      modifies this
      ensures Valid(model) && granted == Grant(old(granted), k) && granted[k] == phys
    {
      phys := nextPhysical;
      GrantKeepsDense(granted, k);
      DirectoryGrows(model, sharedPages, granted, k, phys);
      granted := Grant(granted, k);
      nextPhysical := nextPhysical + 1;
    }

    /** The page for one offset of a region: a new one, the shared one, or none when they have run out. */
    method TakeFor(model: Name, context: nat, r: Region, p: nat) returns (phys: u8)
      requires Valid(model) && p < r.pages
      modifies this
      ensures Valid(model)
      ensures var k := Wanted(old(granted), context, r, r.start + p);
              if phys != NO_PAGE then granted == Grant(old(granted), k) && phys == granted[k] < TOTAL_PAGES
              else granted == old(granted) && |granted| == TOTAL_PAGES && k !in granted
    {
      ghost var k := Wanted(granted, context, r, r.start + p);
      assert r.shared ==> k == Shared(r.name, p);
      LedgerMeans(model, sharedPages, nextPhysical, granted);
      if !r.shared {
        WantedIsNew(model, sharedPages, nextPhysical, granted, context, r, r.start + p);
      }
      hide Ledger, Dense, Directory, Grant, Wanted, Extends;
      if r.shared {
        phys := GetSharedPhysical(model, r.name, p);
        if phys == NO_PAGE {
          return;
        }
      } else {
        if nextPhysical >= TOTAL_PAGES {
          return NO_PAGE;
        }
        phys := TakePage(model, k);
      }
      LedgerMeans(model, sharedPages, nextPhysical, granted);
      GrantIsPage(granted, k);
    }

    /**
     One turn of the innermost loop: the page at one offset of a region. The store goes to the slot's
     place in the flat map, which for a slot of 16 or more lies in a later row, or past the end.
     */
    method AllocatePage(model: Name, context: nat, r: Region, p: nat) returns (ok: bool)
      requires Valid(model) && context < MAX_CONTEXTS && p < r.pages
      modifies this, physMap
      ensures Valid(model)
      ensures var k := Wanted(old(granted), context, r, r.start + p);
              if ok then granted == Grant(old(granted), k) && granted[k] < TOTAL_PAGES
              else granted == old(granted) && |granted| == TOTAL_PAGES && k !in granted
      ensures forall c, s | 0 <= c < MAX_CONTEXTS && 0 <= s < SLOTS ::
                physMap[c, s] == if ok && SLOTS * c + s == SLOTS * context + Slot(r, p)
                                 then granted[Wanted(old(granted), context, r, r.start + p)] else old(physMap[c, s])
    {
      hide Ledger, Wanted, Grant;
      var phys := TakeFor(model, context, r, p);
      if phys == NO_PAGE {
        return false;
      }
      var index := SLOTS * context + Slot(r, p);
      if index < SLOTS * MAX_CONTEXTS {
        physMap[index / SLOTS, index % SLOTS] := phys;
      }
      return true;
    }

    /** After p pages of a region whose identities are new: its first slots are placed, the others still free. */
    ghost predicate SoFar(context: nat, r: Region, p: nat, before: map<Page, nat>, all: set<Page>)
      requires physMap.Length0 == MAX_CONTEXTS && physMap.Length1 == SLOTS
      requires context < MAX_CONTEXTS && InRow(r) && p <= r.pages
      reads this, physMap
    {
      && granted.Keys <= all && OnlyAdds(context, r, before, granted)
      && (forall slot: nat | r.start <= slot < r.start + p :: Placed(context, r, slot))
      && (!r.shared ==>
            forall slot: nat | r.start + p <= slot < r.start + r.pages :: Private(context, slot) !in granted)
    }

    /** The loop body: a page, and what it means for a region whose identities are new. */
    method AllocateNext(model: Name, context: nat, r: Region, p: nat,
                        ghost before: map<Page, nat>, ghost all: set<Page>, ghost clean: bool) returns (ok: bool)
      requires Valid(model) && context < MAX_CONTEXTS && p < r.pages && Mapped()
      requires clean ==> InRow(r) && SoFar(context, r, p, before, all) && Identity(context, r, r.start + p) in all
      modifies this, physMap
      ensures Valid(model) && Mapped() && Extends(old(granted), granted)
      ensures clean && ok ==> SoFar(context, r, p + 1, before, all)
      ensures !ok ==> |granted| == TOTAL_PAGES && (clean ==> granted == old(granted))
      ensures clean && !ok ==> Identity(context, r, r.start + p) !in granted
      ensures clean ==> forall c, s | 0 <= c < MAX_CONTEXTS && 0 <= s < SLOTS && !(c == context && s == r.start + p) ::
                physMap[c, s] == old(physMap[c, s])
    {
      hide Ledger, Grant, OnlyAdds;
      ghost var k, g := Identity(context, r, r.start + p), granted;
      assert clean ==> Wanted(granted, context, r, r.start + p) == k;
      if clean {
        StoreInRow(r, p);
      }
      hide Wanted, Slot;
      ok := AllocatePage(model, context, r, p);
      if ok && clean {
        GrantAdds(context, r, before, g, r.start + p);
        hide InRow;
        forall slot: nat | r.start <= slot < r.start + p + 1
          ensures Placed(context, r, slot)
        {
          assert slot != r.start + p ==> old(Placed(context, r, slot));
        }
      }
    }

    /**
     Allocates the pages of one region for one context. When its identities are `clean`, among `all`
     and not yet granted privately, each slot ends up with its own identity's page.
     */
    method AllocateRegion(model: Name, context: nat, r: Region, ghost all: set<Page>, ghost clean: bool)
      returns (ok: bool)
      requires Valid(model) && context < MAX_CONTEXTS && Mapped()
      requires clean ==> InRow(r) && granted.Keys <= all
      requires clean ==> forall slot | Covers(r, slot) :: Identity(context, r, slot) in all
      requires clean && !r.shared ==> forall slot | Covers(r, slot) :: Private(context, slot) !in granted
      modifies this, physMap
      ensures Valid(model) && Mapped() && Extends(old(granted), granted)
      ensures clean ==> granted.Keys <= all && OnlyAdds(context, r, old(granted), granted)
      ensures clean && ok ==> RegionPlaced(context, r)
      ensures !ok ==> |granted| == TOTAL_PAGES
      ensures clean && !ok ==> exists k :: k in all && k !in granted
      ensures clean ==> forall c, s | 0 <= c < MAX_CONTEXTS && 0 <= s < SLOTS && !(c == context && Covers(r, s)) ::
                physMap[c, s] == old(physMap[c, s])
    {
      hide Ledger, Dense, Directory, OnlyAdds, Placed;
      var p := 0;
      assert clean ==> SoFar(context, r, 0, granted, all) by {
        OnlyAddsRefl(context, r, granted);
      }
      while p < r.pages
        invariant 0 <= p <= r.pages
        invariant Valid(model) && Mapped() && Extends(old(granted), granted)
        invariant clean ==> SoFar(context, r, p, old(granted), all)
        invariant clean ==> forall c, s | 0 <= c < MAX_CONTEXTS && 0 <= s < SLOTS && !(c == context && Covers(r, s)) ::
            physMap[c, s] == old(physMap[c, s])
      {
        assert Covers(r, r.start + p);
        ok := AllocateNext(model, context, r, p, old(granted), all, clean);
        if !ok {
          return;
        }
        p := p + 1;
      }
      return true;
    }

    /** Allocates all regions of one context's layout. */
    method AllocateContext(model: Name, context: nat, rs: seq<Region>, ghost all: set<Page>, ghost clean: bool)
      returns (ok: bool)
      requires Valid(model) && context < MAX_CONTEXTS && Mapped()
      requires clean ==> IsPartition(rs) && RegionsInRow(rs) && granted.Keys <= all
      requires clean ==> forall i, slot | 0 <= i < |rs| && Covers(rs[i], slot) :: Identity(context, rs[i], slot) in all
      requires clean ==> forall slot :: Private(context, slot) !in granted
      modifies this, physMap
      ensures Valid(model) && Mapped() && Extends(old(granted), granted)
      ensures clean ==> granted.Keys <= all
      ensures clean && ok ==> forall i | 0 <= i < |rs| :: RegionPlaced(context, rs[i])
      ensures !ok ==> |granted| == TOTAL_PAGES
      ensures clean && !ok ==> exists k :: k in all && k !in granted
      ensures clean ==> forall c, s | 0 <= c < MAX_CONTEXTS && 0 <= s < SLOTS && c != context ::
                physMap[c, s] == old(physMap[c, s])
      ensures clean ==>
                forall c: nat, s: nat | c != context && Private(c, s) in granted :: Private(c, s) in old(granted)
    {
      hide Ledger;
      if clean {
        DisjointCompleteIsPartition(rs);
      }
      var r := 0;
      while r < |rs|
        invariant 0 <= r <= |rs|
        invariant Valid(model) && Mapped() && Extends(old(granted), granted)
        invariant clean ==> granted.Keys <= all
        invariant clean ==> forall i | 0 <= i < r :: RegionPlaced(context, rs[i])
        invariant clean ==> forall i, slot | r <= i < |rs| && Covers(rs[i], slot) :: Private(context, slot) !in granted
        invariant clean ==> forall c, s | 0 <= c < MAX_CONTEXTS && 0 <= s < SLOTS && c != context ::
            physMap[c, s] == old(physMap[c, s])
        invariant clean ==>
            forall c: nat, s: nat | c != context && Private(c, s) in granted :: Private(c, s) in old(granted)
      {
        label before:
        ok := AllocateRegion(model, context, rs[r], all, clean);
        if !ok {
          return;
        }
        forall i, slot: nat | clean && 0 <= i < r && Covers(rs[i], slot)
          ensures Placed(context, rs[i], slot)
        {
          assert old@before(Placed(context, rs[i], slot));
          assert !Covers(rs[r], slot);
        }
        r := r + 1;
      }
      return true;
    }

    /**
     The allocation phase: for a configuration whose layouts are partitions, the identities of all
     active contexts get numbers, or pages run out; for any other, a missing layout is also an end.
     */
    method AllocateAll(cfg: Config) returns (ok: bool)
      requires physMap.Length0 == MAX_CONTEXTS && physMap.Length1 == SLOTS
      requires ActiveContexts(cfg) <= MAX_CONTEXTS
      modifies this, physMap
      ensures Valid(cfg.activeModel) && Mapped()
      ensures ok ==> forall c: u8 | c < ActiveContexts(cfg) :: LayoutOf(cfg, cfg.activeModel, c).Some?
      ensures !ok ==> |granted| == TOTAL_PAGES
                      || exists c: u8 :: c < ActiveContexts(cfg) && LayoutOf(cfg, cfg.activeModel, c).None?
      ensures Sound(cfg) ==> (ok <==> |Demand(cfg)| <= TOTAL_PAGES)
      ensures Sound(cfg) && ok ==> Dense(granted) && granted.Keys == Demand(cfg)
      ensures Sound(cfg) && ok ==> forall c: u8, s: nat | c < ActiveContexts(cfg) && s < SLOTS ::
                physMap[c, s] == granted[PageId(cfg, c, s)]
    {
      hide Ledger, Dense, Directory, Sound, Demand, OnlyAdds;
      Clear(cfg.activeModel);
      var m := FindModel(cfg.models, cfg.activeModel);
      var contexts: u8 := if m == |cfg.models| then 0 else cfg.models[m].contexts;
      ghost var clean := Sound(cfg);
      ghost var all := if clean then Demand(cfg) else {};
      if clean {
        SoundHasLayouts(cfg);
      }
      var c: u8 := 0;
      while c < contexts
        invariant 0 <= c <= contexts
        invariant Valid(cfg.activeModel) && Mapped() && (clean ==> granted.Keys <= all)
        invariant forall d: u8 | d < c :: LayoutOf(cfg, cfg.activeModel, d).Some?
        invariant clean ==> forall d: u8, s: nat | d < c && s < SLOTS :: Placed(d, RegionOver(cfg, d, s), s)
        invariant clean ==> forall d: nat, s: nat | Private(d, s) in granted :: d < c
      {
        var layout := ResolveLayout(cfg, c);
        if layout.None? {
          return false;
        }
        if clean {
          LayoutFits(cfg, c);
          DemandOfContext(cfg, c);
        }
        ok := AllocateContext(cfg.activeModel, c, layout.value.regions, all, clean);
        LedgerMeans(cfg.activeModel, sharedPages, nextPhysical, granted);
        if !ok {
          if clean {
            ghost var k :| k in all && k !in granted;
            Smaller(granted.Keys, all, k);
            assert |granted.Keys| == |granted|;
          }
          return;
        }
        if clean {
          PlacedOver(cfg, c);
        }
        c := c + 1;
      }
      LedgerMeans(cfg.activeModel, sharedPages, nextPhysical, granted);
      if clean {
        AllGranted(cfg);
      }
      return true;
    }

    lemma PlacedOver(cfg: Config, c: u8)
      requires physMap.Length0 == MAX_CONTEXTS && physMap.Length1 == SLOTS
      requires Sound(cfg) && c < ActiveContexts(cfg) <= MAX_CONTEXTS
      requires forall i | 0 <= i < |Regions(cfg, c)| :: InRow(Regions(cfg, c)[i]) && RegionPlaced(c, Regions(cfg, c)[i])
      ensures forall s: nat | s < SLOTS :: Placed(c, RegionOver(cfg, c, s), s)
    {
      hide Sound, Placed;
      forall s: nat | s < SLOTS
        ensures Placed(c, RegionOver(cfg, c, s), s)
      {
        var i := RegionOverIndex(cfg, c, s);
        assert RegionPlaced(c, Regions(cfg, c)[i]);
      }
    }

    /** When every slot is placed, the grants are the whole demand. */
    lemma AllGranted(cfg: Config)
      requires Sound(cfg) && physMap.Length0 == MAX_CONTEXTS && physMap.Length1 == SLOTS
      requires ActiveContexts(cfg) <= MAX_CONTEXTS && granted.Keys <= Demand(cfg)
      requires forall d: u8, s: nat | d < ActiveContexts(cfg) && s < SLOTS :: Placed(d, RegionOver(cfg, d, s), s)
      ensures granted.Keys == Demand(cfg) && |granted| == |Demand(cfg)|
      ensures forall c: u8, s: nat | c < ActiveContexts(cfg) && s < SLOTS ::
                physMap[c, s] == granted[PageId(cfg, c, s)]
    {
      forall k | k in Demand(cfg)
        ensures k in granted
      {
        var d, s := DemandedBy(cfg, k);
        assert Placed(d, RegionOver(cfg, d, s), s);
      }
      assert |granted.Keys| == |granted|;
    }

    /** The memory clearing at the start. */
    method Clear(ghost model: Name)
      requires physMap.Length0 == MAX_CONTEXTS && physMap.Length1 == SLOTS
      modifies this, physMap
      ensures Valid(model) && Mapped() && granted == map[]
    {
      forall c, s | 0 <= c < MAX_CONTEXTS && 0 <= s < SLOTS {
        physMap[c, s] := 0;
      }
      sharedPages, nextPhysical, granted := [], 0, map[];
      LedgerMeans(model, sharedPages, nextPhysical, granted);
    }

    /** Programs one context's row, with the trap bit of the slot's region, up to a slot that no region covers. */
    method ProgramContext(c: nat, rs: seq<Region>, mmu: Mmu) returns (ok: bool)
      requires physMap.Length0 == MAX_CONTEXTS && physMap.Length1 == SLOTS && physMap != mmu.table
      requires mmu.Valid() && mmu.IndexCoherent() && c < MAX_CONTEXTS && Mapped()
      modifies mmu, mmu.table
      ensures mmu.Valid() && mmu.IndexCoherent() && (ok <==> Complete(rs))
      ensures ok ==> forall i, s: nat | 0 <= i < |rs| && s < SLOTS && First(rs, s, i) ::
                mmu.table[c, s] == TableEntry(physMap[c, s], rs[i])
      ensures forall d, s | 0 <= d < CONTEXTS && 0 <= s < SLOTS && d != c :: mmu.table[d, s] == old(mmu.table[d, s])
    {
      var slot: nat := 0;
      while slot < SLOTS
        invariant slot <= SLOTS
        invariant mmu.Valid() && mmu.IndexCoherent()
        invariant forall s | 0 <= s < slot :: Covered(rs, s)
        invariant forall i, s: nat | 0 <= i < |rs| && s < slot && First(rs, s, i) ::
            mmu.table[c, s] == TableEntry(physMap[c, s], rs[i])
        invariant forall d, s | 0 <= d < CONTEXTS && 0 <= s < SLOTS && d != c :: mmu.table[d, s] == old(mmu.table[d, s])
      {
        var r := 0;
        while r < |rs| && !Covers(rs[r], slot)
          invariant 0 <= r <= |rs|
          invariant forall i | 0 <= i < r :: !Covers(rs[i], slot)
        {
          r := r + 1;
        }
        if r == |rs| {
          assert !Covered(rs, slot);
          return false;
        }
        mmu.WritePage(c, slot, TableEntry(physMap[c, slot], rs[r]));
        slot := slot + 1;
      }
      return true;
    }

    /** The programming phase: every active context's row, up to one that is not covered; no other row changes. */
    method ProgramTable(cfg: Config, mmu: Mmu) returns (ok: bool)
      requires physMap.Length0 == MAX_CONTEXTS && physMap.Length1 == SLOTS && physMap != mmu.table
      requires mmu.Valid() && mmu.IndexCoherent() && Mapped()
      requires ActiveContexts(cfg) <= MAX_CONTEXTS
      modifies mmu, mmu.table
      ensures mmu.Valid() && mmu.IndexCoherent() && (ok <==> Covering(cfg))
      ensures Sound(cfg) ==> forall c: u8, s: nat | c < ActiveContexts(cfg) && s < SLOTS ::
                mmu.table[c, s] == TableEntry(physMap[c, s], RegionOver(cfg, c, s))
      ensures forall c, s | ActiveContexts(cfg) <= c < CONTEXTS && 0 <= s < SLOTS ::
                mmu.table[c, s] == old(mmu.table[c, s])
    {
      var m := FindModel(cfg.models, cfg.activeModel);
      var contexts: u8 := if m == |cfg.models| then 0 else cfg.models[m].contexts;
      ghost var clean := Sound(cfg);
      if clean {
        SoundIsCovering(cfg);
      }
      var c: u8 := 0;
      while c < contexts
        invariant 0 <= c <= contexts
        invariant mmu.Valid() && mmu.IndexCoherent()
        invariant forall d: u8 | d < c ::
            LayoutOf(cfg, cfg.activeModel, d).Some? && Complete(LayoutOf(cfg, cfg.activeModel, d).value.regions)
        invariant clean ==> forall d: u8, s: nat | d < c && s < SLOTS ::
            mmu.table[d, s] == TableEntry(physMap[d, s], RegionOver(cfg, d, s))
        invariant forall d, s | c <= d < CONTEXTS && 0 <= s < SLOTS :: mmu.table[d, s] == old(mmu.table[d, s])
      {
        var layout := ResolveLayout(cfg, c);
        if layout.None? {
          return false;
        }
        ok := ProgramContext(c, layout.value.regions, mmu);
        if !ok {
          return;
        }
        forall s: nat | clean && s < SLOTS
          ensures mmu.table[c, s] == TableEntry(physMap[c, s], RegionOver(cfg, c, s))
        {
          var i := FirstOver(cfg, c, s);
        }
        c := c + 1;
      }
      return true;
    }

    /**
     configureMMUFromActiveModel, for any configuration. It succeeds exactly when every active context
     has a covering layout and the pages suffice; if the layouts are partitions, pages suffice exactly
     when the distinct identities fit in the 128, and every active row then holds the allocated pages
     with their trap bits. Other rows are never touched.
     */
    method Configure(cfg: Config, mmu: Mmu) returns (ok: bool)
      requires physMap.Length0 == MAX_CONTEXTS && physMap.Length1 == SLOTS && physMap != mmu.table
      requires mmu.Valid() && mmu.IndexCoherent()
      modifies this, physMap, mmu, mmu.table
      ensures mmu.Valid() && mmu.IndexCoherent()
      ensures ok ==> 0 < ActiveContexts(cfg) <= MAX_CONTEXTS && Covering(cfg)
      ensures !ok && 0 < ActiveContexts(cfg) <= MAX_CONTEXTS && Covering(cfg) ==> nextPhysical == TOTAL_PAGES
      ensures Sound(cfg) ==>
                (ok <==> 0 < ActiveContexts(cfg) <= MAX_CONTEXTS && |Demand(cfg)| <= TOTAL_PAGES)
      ensures Sound(cfg) && ok ==> Programmed(cfg, mmu, granted)
      ensures forall c, s | (if 0 < ActiveContexts(cfg) <= MAX_CONTEXTS then ActiveContexts(cfg) else 0) <= c < CONTEXTS
                            && 0 <= s < SLOTS :: mmu.table[c, s] == old(mmu.table[c, s])
      ensures Sound(cfg) && !ok ==> forall c, s | 0 <= c < CONTEXTS && 0 <= s < SLOTS ::
                mmu.table[c, s] == old(mmu.table[c, s])
    {
      var m := FindModel(cfg.models, cfg.activeModel);
      if m == |cfg.models| {
        return false;
      }
      if cfg.models[m].contexts == 0 || cfg.models[m].contexts > MAX_CONTEXTS {
        return false;
      }
      MissingIsNotCovering(cfg);
      if Sound(cfg) {
        SoundIsCovering(cfg);
      }
      hide Ledger, Dense, Demand, PageId, Sound, Covering, Programmed;
      ok := AllocateAll(cfg);
      LedgerMeans(cfg.activeModel, sharedPages, nextPhysical, granted);
      if !ok {
        return;
      }
      if Sound(cfg) {
        GrantedPagesExist(cfg, granted);
      }
      ok := ProgramTable(cfg, mmu);
      if Sound(cfg) {
        TableIsProgrammed(cfg, mmu);
      }
    }

    lemma TableIsProgrammed(cfg: Config, mmu: Mmu)
      requires physMap.Length0 == MAX_CONTEXTS && physMap.Length1 == SLOTS && mmu.Valid() && Mapped()
      requires Sound(cfg) && ActiveContexts(cfg) <= MAX_CONTEXTS
      requires Dense(granted) && granted.Keys == Demand(cfg) && |Demand(cfg)| <= TOTAL_PAGES
      requires forall c: u8, s: nat | c < ActiveContexts(cfg) && s < SLOTS ::
                 physMap[c, s] == granted[PageId(cfg, c, s)]
      requires forall c: u8, s: nat | c < ActiveContexts(cfg) && s < SLOTS ::
                 mmu.table[c, s] == TableEntry(physMap[c, s], RegionOver(cfg, c, s))
      ensures Programmed(cfg, mmu, granted)
    {
      hide Dense, Demand, Sound;
      GrantedPagesExist(cfg, granted);
    }

    /**
     Start-up order: initMMU, then configuration, whatever the parser said of the file. Rows beyond
     the active contexts are default rows; for an accepted file all rows are determined.
     */
    method InitAndConfigure(cfg: Config, mmu: Mmu) returns (ok: bool)
      requires physMap.Length0 == MAX_CONTEXTS && physMap.Length1 == SLOTS && physMap != mmu.table
      requires mmu.Valid() && mmu.IndexCoherent()
      modifies this, physMap, mmu, mmu.table
      ensures mmu.Valid() && mmu.IndexCoherent()
      ensures ok ==> 0 < ActiveContexts(cfg) <= MAX_CONTEXTS && Covering(cfg)
      ensures Accepted(cfg) ==> Sound(cfg) && (ok <==> |Demand(cfg)| <= TOTAL_PAGES)
      ensures Sound(cfg) && ok ==> Programmed(cfg, mmu, granted)
      ensures forall c, s | (if 0 < ActiveContexts(cfg) <= MAX_CONTEXTS then ActiveContexts(cfg) else 0) <= c < CONTEXTS
                            && 0 <= s < SLOTS :: mmu.table[c, s] == DefaultPage(s)
      ensures Sound(cfg) && !ok ==>
                forall c, s | 0 <= c < CONTEXTS && 0 <= s < SLOTS :: mmu.table[c, s] == DefaultPage(s)
    {
      hide Demand, Programmed;
      if Accepted(cfg) {
        AcceptedIsSound(cfg);
      }
      hide Sound, Accepted;
      mmu.Init();
      ok := Configure(cfg, mmu);
    }
  }

  /** resolveLayoutForContext. */
  method ResolveLayout(cfg: Config, c: u8) returns (layout: Option<Layout>)
    ensures layout == LayoutOf(cfg, cfg.activeModel, c)
  {
    var b := FindBinding(cfg.bindings, cfg.activeModel, c);
    if b == |cfg.bindings| {
      return None;
    }
    var l := FindLayout(cfg.layouts, cfg.activeModel, cfg.bindings[b].layout);
    return if l == |cfg.layouts| then None else Some(cfg.layouts[l]);
  }

  lemma WantedIsNew(model: Name, sps: seq<SharedPage>, next: nat, granted: map<Page, nat>,
                    context: nat, r: Region, slot: nat)
    requires Ledger(model, sps, next, granted) && Covers(r, slot) && !r.shared
    ensures var k := Wanted(granted, context, r, slot);
            k !in granted && !k.Shared? && (k.Spare? ==> k.number == |granted|)
  {
  }

  lemma GrantIsPage(granted: map<Page, nat>, k: Page)
    requires Dense(granted) && |granted| <= TOTAL_PAGES && k in granted
    ensures granted[k] < TOTAL_PAGES
  {
  }

  /** The first region that covers a slot. */
  ghost predicate First(rs: seq<Region>, slot: nat, i: nat) {
    i < |rs| && Covers(rs[i], slot) && forall j | 0 <= j < i :: !Covers(rs[j], slot)
  }

  lemma FirstOver(cfg: Config, c: u8, s: nat) returns (i: nat)
    requires Sound(cfg) && c < ActiveContexts(cfg) && s < SLOTS
    ensures i < |Regions(cfg, c)| && First(Regions(cfg, c), s, i) && Regions(cfg, c)[i] == RegionOver(cfg, c, s)
  {
    i := RegionOverIndex(cfg, c, s);
    assert CoveredOnce(Regions(cfg, c), s);
  }

  predicate Trapped(r: Region) {
    r.io || r.trapWrite
  }

  /** The table entry for a page of a region. */
  function TableEntry(page: u8, r: Region): u8
    requires page < TOTAL_PAGES
  {
    if Trapped(r) then page + IO_BIT else page
  }

  /** The only private identities a region adds are its own slots in its own context. */
  ghost predicate OnlyAdds(context: nat, r: Region, before: map<Page, nat>, after: map<Page, nat>) {
    forall c: nat, s: nat | Private(c, s) in after :: Private(c, s) in before || (c == context && Covers(r, s))
  }

  lemma StoreInRow(r: Region, p: nat)
    requires InRow(r) && p < r.pages
    ensures Slot(r, p) == r.start + p < SLOTS
  {
  }

  lemma OnlyAddsRefl(context: nat, r: Region, granted: map<Page, nat>)
    ensures OnlyAdds(context, r, granted, granted)
  {
  }

  lemma GrantAdds(context: nat, r: Region, before: map<Page, nat>, granted: map<Page, nat>, slot: nat)
    requires Covers(r, slot) && OnlyAdds(context, r, before, granted)
    ensures OnlyAdds(context, r, before, Grant(granted, Identity(context, r, slot)))
  {
  }

  /** The MMU holds, for every active slot, the page granted to its identity with its trap bit. */
  ghost predicate Programmed(cfg: Config, mmu: Mmu, granted: map<Page, nat>)
    requires Sound(cfg) && ActiveContexts(cfg) <= MAX_CONTEXTS && mmu.Valid()
    reads mmu, mmu.table
  {
    && Dense(granted) && granted.Keys == Demand(cfg)
    && forall c: u8, s: nat | c < ActiveContexts(cfg) && s < SLOTS ::
         && PageId(cfg, c, s) in granted && granted[PageId(cfg, c, s)] < TOTAL_PAGES
         && mmu.table[c, s] == TableEntry(granted[PageId(cfg, c, s)], RegionOver(cfg, c, s))
  }

  /** The page map of a programmed MMU is an allocation, and bit 7 marks exactly the trapped regions. */
  lemma ProgrammedIsAllocation(cfg: Config, mmu: Mmu, granted: map<Page, nat>)
    requires Sound(cfg) && ActiveContexts(cfg) <= MAX_CONTEXTS && mmu.Valid() && Programmed(cfg, mmu, granted)
    ensures Allocation(cfg, mmu.Pages(), granted)
    ensures forall c: u8, s: nat | c < ActiveContexts(cfg) && s < SLOTS ::
              mmu.table[c, s] >= 128 <==> RegionOver(cfg, c, s).io || RegionOver(cfg, c, s).trapWrite
  {
    hide Dense, Demand, PageId;
    forall c: u8, s: nat | c < ActiveContexts(cfg) && s < SLOTS
      ensures mmu.Pages()[c][s] == granted[PageId(cfg, c, s)]
      ensures mmu.table[c, s] >= 128 <==> RegionOver(cfg, c, s).io || RegionOver(cfg, c, s).trapWrite
    {
      assert mmu.table[c, s] == TableEntry(granted[PageId(cfg, c, s)], RegionOver(cfg, c, s));
    }
  }

  lemma GrantedPagesExist(cfg: Config, granted: map<Page, nat>)
    requires Sound(cfg) && Dense(granted) && granted.Keys == Demand(cfg) && |Demand(cfg)| <= TOTAL_PAGES
    ensures forall c: u8, s: nat | c < ActiveContexts(cfg) && s < SLOTS ::
              PageId(cfg, c, s) in granted && granted[PageId(cfg, c, s)] < TOTAL_PAGES
  {
    assert |granted.Keys| == |granted|;
    forall c: u8, s: nat | c < ActiveContexts(cfg) && s < SLOTS
      ensures PageId(cfg, c, s) in granted && granted[PageId(cfg, c, s)] < TOTAL_PAGES
    {
      assert PageId(cfg, c, s) in Demand(cfg);
    }
  }

  lemma DemandOfContext(cfg: Config, c: u8)
    requires Sound(cfg) && c < ActiveContexts(cfg)
    ensures forall i, slot | 0 <= i < |Regions(cfg, c)| && Covers(Regions(cfg, c)[i], slot) ::
              Identity(c, Regions(cfg, c)[i], slot) in Demand(cfg)
  {
    forall i, slot | 0 <= i < |Regions(cfg, c)| && Covers(Regions(cfg, c)[i], slot)
      ensures Identity(c, Regions(cfg, c)[i], slot) in Demand(cfg)
    {
      assert IsValidRegionRange(Regions(cfg, c)[i]);
      RegionOverIs(cfg, c, slot, i);
      assert PageId(cfg, c, slot) in Demand(cfg);
    }
  }

  lemma Smaller<T>(a: set<T>, b: set<T>, x: T)
    requires a <= b && x in b && x !in a
    ensures |a| < |b|
  {
    SubsetSize(a, b - {x});
  }

  // ---------------------------------------------------------------------------
  // What a successful allocation guarantees
  // ---------------------------------------------------------------------------

  /** The page map realises the granted numbering of all demanded identities. */
  ghost predicate Allocation(cfg: Config, pages: PageMap, granted: map<Page, nat>)
    requires Sound(cfg)
  {
    && ActiveContexts(cfg) <= MAX_CONTEXTS
    && ValidPages(pages)
    && Dense(granted) && granted.Keys == Demand(cfg)
    && forall c: u8, s: nat | c < ActiveContexts(cfg) && s < SLOTS :: pages[c][s] == granted[PageId(cfg, c, s)]
  }

  /** The rule of memory.ini: one page per slot, except equal offsets of equally named shared regions. */
  ghost predicate SamePage(cfg: Config, c: u8, s: nat, d: u8, t: nat)
    requires Sound(cfg) && c < ActiveContexts(cfg) && d < ActiveContexts(cfg) && s < SLOTS && t < SLOTS
  {
    var r, q := RegionOver(cfg, c, s), RegionOver(cfg, d, t);
    (c == d && s == t) || (r.shared && q.shared && r.name == q.name && s - r.start == t - q.start)
  }

  lemma PageIdEqual(cfg: Config, c: u8, s: nat, d: u8, t: nat)
    requires Sound(cfg) && c < ActiveContexts(cfg) && d < ActiveContexts(cfg) && s < SLOTS && t < SLOTS
    ensures PageId(cfg, c, s) == PageId(cfg, d, t) <==> SamePage(cfg, c, s, d, t)
  {
    hide Sound;
  }

  lemma PageIdDemanded(cfg: Config, c: u8, s: nat)
    requires Sound(cfg) && c < ActiveContexts(cfg) && s < SLOTS
    ensures PageId(cfg, c, s) in Demand(cfg)
  {
    hide Sound, PageId;
  }

  /** Page identity: two active slots share a physical page exactly when the rule says so. */
  lemma PageIdentity(cfg: Config, pages: PageMap, granted: map<Page, nat>, c: u8, s: nat, d: u8, t: nat)
    requires Sound(cfg) && Allocation(cfg, pages, granted)
    requires c < ActiveContexts(cfg) && d < ActiveContexts(cfg) && s < SLOTS && t < SLOTS
    ensures pages[c][s] == pages[d][t] <==> SamePage(cfg, c, s, d, t)
  {
    hide Sound, PageId, SamePage, Demand;
    PageIdDemanded(cfg, c, s);
    PageIdDemanded(cfg, d, t);
    PageIdEqual(cfg, c, s, d, t);
  }

  /** A slot of a private region owns its physical page: no other active slot reaches it. */
  lemma PrivatePagesAreIsolated(cfg: Config, pages: PageMap, granted: map<Page, nat>, c: u8, s: nat)
    requires Sound(cfg) && Allocation(cfg, pages, granted)
    requires c < ActiveContexts(cfg) && s < SLOTS && !RegionOver(cfg, c, s).shared
    ensures forall d: u8, t: nat | d < ActiveContexts(cfg) && t < SLOTS && pages[d][t] == pages[c][s] ::
              d == c && t == s
  {
    forall d: u8, t: nat | d < ActiveContexts(cfg) && t < SLOTS && pages[d][t] == pages[c][s]
      ensures d == c && t == s
    {
      PageIdentity(cfg, pages, granted, c, s, d, t);
    }
  }

  lemma UniqueNames(cfg: Config, c: u8)
    requires Sound(cfg) && WellFormed(cfg) && c < ActiveContexts(cfg)
    ensures DistinctRegions(Regions(cfg, c))
  {
  }

  /** Within one context no two slots share a page; this needs the parser's unique region names. */
  lemma ContextMapIsInjective(cfg: Config, pages: PageMap, granted: map<Page, nat>, c: u8, s: nat, t: nat)
    requires Sound(cfg) && Allocation(cfg, pages, granted) && WellFormed(cfg)
    requires c < ActiveContexts(cfg) && s < SLOTS && t < SLOTS
    ensures pages[c][s] == pages[c][t] <==> s == t
  {
    PageIdentity(cfg, pages, granted, c, s, c, t);
    UniqueNames(cfg, c);
    hide Sound, Allocation, RegionOver, WellFormed;
    var i := RegionOverIndex(cfg, c, s);
    var j := RegionOverIndex(cfg, c, t);
    assert SamePage(cfg, c, s, c, t) && s != t ==> i == j;
  }

  ghost function UsedPages(cfg: Config, pages: PageMap): set<nat>
    requires Sound(cfg) && ActiveContexts(cfg) <= MAX_CONTEXTS && ValidPages(pages)
  {
    set c: u8, s: nat | c < ActiveContexts(cfg) && s < SLOTS :: pages[c][s]
  }

  /** Density: the pages in use are exactly 0..n-1, where n is the number of identities. */
  lemma UsedPagesAreDense(cfg: Config, pages: PageMap, granted: map<Page, nat>)
    requires Sound(cfg) && Allocation(cfg, pages, granted)
    ensures forall n :: n in UsedPages(cfg, pages) <==> 0 <= n < |Demand(cfg)|
  {
    hide Sound, PageId;
    assert |granted.Keys| == |granted|;
    forall n | 0 <= n < |Demand(cfg)|
      ensures n in UsedPages(cfg, pages)
    {
      assert n in granted.Values;
      var k :| k in granted && granted[k] == n;
      assert k in Demand(cfg);
      var c: u8, s: nat :| c < ActiveContexts(cfg) && s < SLOTS && k == PageId(cfg, c, s);
      assert pages[c][s] == n;
    }
    forall n | n in UsedPages(cfg, pages)
      ensures 0 <= n < |Demand(cfg)|
    {
      var c: u8, s: nat :| c < ActiveContexts(cfg) && s < SLOTS && pages[c][s] == n;
      PageIdDemanded(cfg, c, s);
    }
  }

  ghost function PrivateSlots(cfg: Config): set<(nat, nat)>
    requires Sound(cfg)
  {
    set c: u8, s: nat | c < ActiveContexts(cfg) && s < SLOTS && !RegionOver(cfg, c, s).shared :: (c, s)
  }

  ghost function SharedOffsets(cfg: Config): set<(Name, nat)>
    requires Sound(cfg)
  {
    set c: u8, s: nat | c < ActiveContexts(cfg) && s < SLOTS && RegionOver(cfg, c, s).shared ::
      (RegionOver(cfg, c, s).name, s - RegionOver(cfg, c, s).start)
  }

  lemma {:induction false} InjectiveMapSize<A, B>(m: map<A, B>)
    requires forall x, x' | x in m && x' in m && m[x] == m[x'] :: x == x'
    ensures |m.Values| == |m|
  {
    if |m| == 0 {
      assert m.Values == {};
    } else {
      var x :| x in m;
      var rest := map x' | x' in m && x' != x :: m[x'];
      assert rest.Keys == m.Keys - {x};
      InjectiveMapSize(rest);
      forall y | y in m.Values
        ensures y in rest.Values + {m[x]}
      {
        var x' :| x' in m && m[x'] == y;
        assert x' != x ==> rest[x'] == y;
      }
      assert m.Values == rest.Values + {m[x]};
    }
  }

  /** Where an identity comes from. */
  lemma DemandedBy(cfg: Config, k: Page) returns (c: u8, s: nat)
    requires Sound(cfg) && k in Demand(cfg)
    ensures c < ActiveContexts(cfg) && s < SLOTS && k == PageId(cfg, c, s)
  {
    c, s :| c < ActiveContexts(cfg) && s < SLOTS && k == PageId(cfg, c, s);
  }

  lemma PageIdKind(cfg: Config, c: u8, s: nat)
    requires Sound(cfg) && c < ActiveContexts(cfg) && s < SLOTS
    ensures PageId(cfg, c, s) == if RegionOver(cfg, c, s).shared
              then Shared(RegionOver(cfg, c, s).name, s - RegionOver(cfg, c, s).start) else Private(c, s)
  {
  }

  lemma PrivateDemand(cfg: Config, p: (nat, nat))
    requires Sound(cfg)
    ensures Private(p.0, p.1) in Demand(cfg) <==> p in PrivateSlots(cfg)
  {
    hide Sound, PageId, RegionOver;
    if Private(p.0, p.1) in Demand(cfg) {
      var c, s := DemandedBy(cfg, Private(p.0, p.1));
      PageIdKind(cfg, c, s);
    }
    if p in PrivateSlots(cfg) {
      var c: u8, s: nat :| c < ActiveContexts(cfg) && s < SLOTS && !RegionOver(cfg, c, s).shared && p == (c, s);
      PageIdKind(cfg, c, s);
      PageIdDemanded(cfg, c, s);
    }
  }

  lemma SharedDemand(cfg: Config, p: (Name, nat))
    requires Sound(cfg)
    ensures Shared(p.0, p.1) in Demand(cfg) <==> p in SharedOffsets(cfg)
  {
    hide Sound, PageId, RegionOver;
    if Shared(p.0, p.1) in Demand(cfg) {
      var c, s := DemandedBy(cfg, Shared(p.0, p.1));
      PageIdKind(cfg, c, s);
    }
    if p in SharedOffsets(cfg) {
      var c: u8, s: nat :| c < ActiveContexts(cfg) && s < SLOTS && RegionOver(cfg, c, s).shared &&
        (RegionOver(cfg, c, s).name, s - RegionOver(cfg, c, s).start) == p;
      PageIdKind(cfg, c, s);
      PageIdDemanded(cfg, c, s);
    }
  }

  lemma PrivateCount(cfg: Config, own: set<Page>)
    requires Sound(cfg) && own == set k | k in Demand(cfg) && k.Private?
    ensures |own| == |PrivateSlots(cfg)|
  {
    hide Sound, Demand, PrivateSlots;
    var m := map k | k in own :: (k.context, k.slot);
    forall p
      ensures p in m.Values <==> p in PrivateSlots(cfg)
    {
      PrivateDemand(cfg, p);
      assert Private(p.0, p.1) in own ==> m[Private(p.0, p.1)] == p;
    }
    assert m.Values == PrivateSlots(cfg);
    InjectiveMapSize(m);
    assert m.Keys == own;
  }

  lemma SharedCount(cfg: Config, common: set<Page>)
    requires Sound(cfg) && common == set k | k in Demand(cfg) && k.Shared?
    ensures |common| == |SharedOffsets(cfg)|
  {
    hide Sound, Demand, SharedOffsets;
    var m := map k | k in common :: (k.region, k.offset);
    forall p
      ensures p in m.Values <==> p in SharedOffsets(cfg)
    {
      SharedDemand(cfg, p);
      assert Shared(p.0, p.1) in common ==> m[Shared(p.0, p.1)] == p;
    }
    assert m.Values == SharedOffsets(cfg);
    InjectiveMapSize(m);
    assert m.Keys == common;
  }

  /** The page count n: one page per private slot plus one per distinct (shared name, offset). */
  lemma DemandCount(cfg: Config)
    requires Sound(cfg)
    ensures |Demand(cfg)| == |PrivateSlots(cfg)| + |SharedOffsets(cfg)|
  {
    var own := set k | k in Demand(cfg) && k.Private?;
    var common := set k | k in Demand(cfg) && k.Shared?;
    assert Demand(cfg) == own + common;
    PrivateCount(cfg, own);
    SharedCount(cfg, common);
  }

  /** A map that keeps apart what the sharing rule keeps apart. */
  ghost predicate Isolates(cfg: Config, pages: PageMap)
    requires Sound(cfg) && ActiveContexts(cfg) <= MAX_CONTEXTS && ValidPages(pages)
  {
    forall c: u8, s: nat, d: u8, t: nat |
      c < ActiveContexts(cfg) && d < ActiveContexts(cfg) && s < SLOTS && t < SLOTS &&
      pages[c][s] == pages[d][t] :: SamePage(cfg, c, s, d, t)
  }

  /** Some page that a map gives to an identity. */
  ghost function HolderOf(cfg: Config, pages: PageMap, k: Page): (page: nat)
    requires Sound(cfg) && ActiveContexts(cfg) <= MAX_CONTEXTS && ValidPages(pages) && k in Demand(cfg)
    ensures page in UsedPages(cfg, pages)
    ensures exists c: u8, s: nat :: Holds(cfg, pages, k, page, c, s)
  {
    var c: u8, s: nat :| c < ActiveContexts(cfg) && s < SLOTS && k == PageId(cfg, c, s);
    assert Holds(cfg, pages, k, pages[c][s], c, s);
    pages[c][s]
  }

  ghost predicate Holds(cfg: Config, pages: PageMap, k: Page, page: nat, c: u8, s: nat)
    requires Sound(cfg) && ActiveContexts(cfg) <= MAX_CONTEXTS && ValidPages(pages)
  {
    c < ActiveContexts(cfg) && s < SLOTS && k == PageId(cfg, c, s) && page == pages[c][s]
  }

  lemma HoldersDiffer(cfg: Config, pages: PageMap, k: Page, k': Page)
    requires Sound(cfg) && ActiveContexts(cfg) <= MAX_CONTEXTS && ValidPages(pages) && Isolates(cfg, pages)
    requires k in Demand(cfg) && k' in Demand(cfg) && HolderOf(cfg, pages, k) == HolderOf(cfg, pages, k')
    ensures k == k'
  {
    hide Sound, PageId, Demand, SamePage, HolderOf, UsedPages;
    var p := HolderOf(cfg, pages, k);
    var c: u8, s: nat :| Holds(cfg, pages, k, p, c, s);
    var d: u8, t: nat :| Holds(cfg, pages, k', p, d, t);
    assert SamePage(cfg, c, s, d, t);
    PageIdEqual(cfg, c, s, d, t);
  }

  /**
   Optimality: any page map at all that isolates what the rule isolates needs as many pages,
   so the allocator fails only when no such map exists.
   */
  lemma AnyIsolatingMapNeedsDemand(cfg: Config, pages: PageMap)
    requires Sound(cfg) && ActiveContexts(cfg) <= MAX_CONTEXTS && ValidPages(pages) && Isolates(cfg, pages)
    ensures |Demand(cfg)| <= |UsedPages(cfg, pages)| <= TOTAL_PAGES
  {
    var m := map k | k in Demand(cfg) :: HolderOf(cfg, pages, k);
    forall k, k' | k in m && k' in m && m[k] == m[k']
      ensures k == k'
    {
      HoldersDiffer(cfg, pages, k, k');
    }
    InjectiveMapSize(m);
    assert m.Keys == Demand(cfg);
    assert |m| == |m.Keys|;
    SubsetSize(m.Values, UsedPages(cfg, pages));
    SubsetSize(UsedPages(cfg, pages), Interval(0, TOTAL_PAGES));
  }
}
