/**
 The MMU page table and its two write-through latches (mmu.cpp). The table lives in hardware:
 a write lands in the row selected by the context latch and in the slot selected by the upper
 nibble of the address latch. The firmware skips a latch write when its cached value is equal.
 */
module MmuTable {
  import opened Words

  const CONTEXTS: nat := 128      // NUM_CONTEXTS
  const SLOTS: nat := 16          // NUM_CONTEXT_PAGES
  const TOTAL_PAGES: nat := 128   // NUM_TOTAL_PAGES
  const DEFAULT_CONTEXT: nat := 0
  const IO_BIT: nat := 0x80

  /** The power-on row: a straight 64K space with the I/O page trapped at $E000. */
  function DefaultPage(slot: nat): u8
    requires slot < SLOTS
  {
    if slot == 14 then 0x8E else slot
  }

  /** For every context, the physical page of each slot, without the trap bit. */
  type PageMap = seq<seq<nat>>

  ghost predicate ValidPages(pages: PageMap) {
    |pages| == CONTEXTS && forall c | 0 <= c < CONTEXTS ::
      |pages[c]| == SLOTS && forall s | 0 <= s < SLOTS :: pages[c][s] < TOTAL_PAGES
  }

  class Mmu {
    // hardware
    const table: array2<u8>
    var contextLatch: u8
    var addressHigh: u8
    // firmware caches, -1 before first use
    var currentContext: int
    var currentIndex: int

    ghost predicate Valid()
      reads this
    {
      && table.Length0 == CONTEXTS && table.Length1 == SLOTS
      && contextLatch < CONTEXTS
      && -1 <= currentIndex < SLOTS
      && (currentContext == -1 || currentContext == contextLatch)
    }

    /** The cached index agrees with the address latch, so skipping the latch write is sound. */
    ghost predicate IndexCoherent()
      reads this
    {
      currentIndex == -1 || currentIndex == addressHigh / 16
    }

    /** The page map that the hardware applies to every bus access. */
    function Pages(): (pages: PageMap)
      requires Valid()
      reads this, table
      ensures ValidPages(pages)
      ensures forall c, s | 0 <= c < CONTEXTS && 0 <= s < SLOTS :: pages[c][s] == table[c, s] % IO_BIT
    {
      seq(CONTEXTS, c requires 0 <= c < CONTEXTS && Valid() reads this, table =>
        seq(SLOTS, s requires 0 <= s < SLOTS && Valid() reads this, table => table[c, s] % IO_BIT))
    }

    constructor ()
      ensures Valid() && IndexCoherent() && fresh(table)
      ensures currentContext == -1 && currentIndex == -1
    {
      table := new u8[CONTEXTS, SLOTS];
      contextLatch, addressHigh := 0, 0;
      currentContext, currentIndex := -1, -1;
    }

    method SetContext(context: u8)
      requires Valid() && context < CONTEXTS
      modifies this`contextLatch, this`currentContext
      ensures Valid() && currentContext == contextLatch == context
    {
      if context != currentContext {
        contextLatch := context;
        currentContext := context;
      }
    }

    /** writeMMUIndex: latches A12..A15 unless the cache says it is already there. */
    method WriteIndex(index: u8)
      requires Valid() && index < SLOTS
      modifies this`addressHigh, this`currentIndex
      ensures Valid() && currentIndex == index
      ensures addressHigh / 16 == old(TargetSlot(index))
    {
      if index != currentIndex {
        addressHigh := (index % 16) * 16;
        currentIndex := index;
      }
    }

    /** An ordinary bus access (writeCPUAddress) moves the address latch behind the cache's back. */
    method LatchAddress(address: u16)
      requires Valid()
      modifies this`addressHigh
      ensures Valid() && addressHigh == address / 256
    {
      addressHigh := address / 256;
    }

    /** The slot that a table access for `index` really reaches. */
    ghost function TargetSlot(index: u8): (slot: nat)
      requires Valid() && index < SLOTS
      reads this
      ensures slot < SLOTS
      ensures slot == index <==> index != currentIndex || addressHigh / 16 == currentIndex
      ensures IndexCoherent() ==> slot == index
    {
      if index == currentIndex then addressHigh / 16 else index
    }

    method ReadPage(context: u8, index: u8) returns (page: u8)
      requires Valid() && context < CONTEXTS && index < SLOTS
      modifies this
      ensures Valid() && currentContext == context && currentIndex == index
      ensures page == table[context, old(TargetSlot(index))]
      ensures old(IndexCoherent()) ==> IndexCoherent()
    {
      SetContext(context);
      WriteIndex(index);
      page := table[contextLatch, addressHigh / 16];
    }

    method WritePage(context: u8, index: u8, page: u8)
      requires Valid() && context < CONTEXTS && index < SLOTS
      modifies this, table
      ensures Valid() && currentContext == context && currentIndex == index
      ensures table[context, old(TargetSlot(index))] == page
      ensures forall c, s | 0 <= c < CONTEXTS && 0 <= s < SLOTS && (c != context || s != old(TargetSlot(index))) ::
                table[c, s] == old(table[c, s])
      ensures old(IndexCoherent()) ==> IndexCoherent()
    {
      SetContext(context);
      WriteIndex(index);
      table[contextLatch, addressHigh / 16] := page;
    }

    method DefineContext(context: u8)
      requires Valid() && IndexCoherent() && context < CONTEXTS
      modifies this, table
      ensures Valid() && IndexCoherent()
      ensures forall s | 0 <= s < SLOTS :: table[context, s] == DefaultPage(s)
      ensures forall c, s | 0 <= c < CONTEXTS && 0 <= s < SLOTS && c != context :: table[c, s] == old(table[c, s])
    {
      var page := 0;
      while page < SLOTS
        invariant 0 <= page <= SLOTS
        invariant Valid() && IndexCoherent()
        invariant forall s | 0 <= s < page :: table[context, s] == DefaultPage(s)
        invariant forall c, s | 0 <= c < CONTEXTS && 0 <= s < SLOTS && c != context :: table[c, s] == old(table[c, s])
      {
        WritePage(context, page, DefaultPage(page));
        page := page + 1;
      }
    }

    /** initMMU: every one of the 128 contexts gets the default row. */
    method Init()
      requires Valid() && IndexCoherent()
      modifies this, table
      ensures Valid() && IndexCoherent() && currentContext == DEFAULT_CONTEXT
      ensures forall c, s | 0 <= c < CONTEXTS && 0 <= s < SLOTS ::
                && table[c, s] == DefaultPage(s)
                && table[c, s] % 128 == s && (table[c, s] >= 128 <==> s == 14)
    {
      var context := 0;
      while context < CONTEXTS
        invariant 0 <= context <= CONTEXTS
        invariant Valid() && IndexCoherent()
        invariant forall c, s | 0 <= c < context && 0 <= s < SLOTS :: table[c, s] == DefaultPage(s)
      {
        DefineContext(context);
        context := context + 1;
      }
      SetContext(DEFAULT_CONTEXT);
    }
  }

  /**
   A table write after an ordinary memory access can land in the wrong slot: writing slot 5,
   touching address $2000 and writing slot 5 again reaches slot 2. TargetSlot says exactly when.
   */
  method StaleIndexMissesItsSlot() returns (wanted: u8, hit: u8)
    ensures wanted == 0x10 && hit == 0x11
  {
    var mmu := new Mmu();
    mmu.WritePage(0, 5, 0x10);
    mmu.LatchAddress(0x2000);
    mmu.WritePage(0, 5, 0x11);
    wanted, hit := mmu.table[0, 5], mmu.table[0, 2];
  }
}
