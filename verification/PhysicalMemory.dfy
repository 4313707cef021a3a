/**
 The 512K RAM behind the MMU, as a sequence of cells, and lists of writes to it. Loading,
 copying and publishing are all described by the list of writes they perform.
 */
module PhysicalMemory {
  import opened Words
  import opened MmuTable

  const PAGE_SIZE: nat := 0x1000
  const RAM_SIZE: nat := 0x8_0000
  const ADDRESSES: nat := 0x1_0000

  type Ram = m: seq<u8> | |m| == RAM_SIZE witness seq(RAM_SIZE, _ => 0)

  datatype Write = Write(cell: nat, value: u8)

  /** The RAM cell behind an address in a context. */
  function Cell(pages: PageMap, context: nat, address: u16): (cell: nat)
    requires ValidPages(pages) && context < CONTEXTS
    ensures cell < RAM_SIZE
    ensures cell / PAGE_SIZE == pages[context][address / PAGE_SIZE]
    ensures cell % PAGE_SIZE == address % PAGE_SIZE
  {
    pages[context][address / PAGE_SIZE] * PAGE_SIZE + address % PAGE_SIZE
  }

  /** What a context sees at an address. */
  function View(m: Ram, pages: PageMap, context: nat, address: u16): u8
    requires ValidPages(pages) && context < CONTEXTS
  {
    m[Cell(pages, context, address)]
  }

  /** Some address of context c leads to the cell. */
  ghost predicate Behind(pages: PageMap, c: nat, cell: nat)
    requires ValidPages(pages) && c < CONTEXTS
  {
    exists a: u16 :: Cell(pages, c, a) == cell
  }

  /** No two slots of a context share a page. */
  ghost predicate InjectiveContext(pages: PageMap, context: nat)
    requires ValidPages(pages) && context < CONTEXTS
  {
    forall s, t | 0 <= s < SLOTS && 0 <= t < SLOTS && pages[context][s] == pages[context][t] :: s == t
  }

  lemma CellsDiffer(pages: PageMap, c: nat, a: u16, d: nat, b: u16)
    requires ValidPages(pages) && c < CONTEXTS && d < CONTEXTS
    requires Cell(pages, c, a) == Cell(pages, d, b)
    ensures pages[c][a / PAGE_SIZE] == pages[d][b / PAGE_SIZE] && a % PAGE_SIZE == b % PAGE_SIZE
    ensures a / PAGE_SIZE == b / PAGE_SIZE ==> a == b
  {
  }

  lemma CellInjective(pages: PageMap, c: nat, a: u16, b: u16)
    requires ValidPages(pages) && c < CONTEXTS && InjectiveContext(pages, c)
    ensures Cell(pages, c, a) == Cell(pages, c, b) <==> a == b
  {
    if Cell(pages, c, a) == Cell(pages, c, b) {
      CellsDiffer(pages, c, a, c, b);
    }
  }

  function Apply(m: Ram, ws: seq<Write>): (m': Ram)
    requires InRam(ws)
    decreases |ws|
  {
    if ws == [] then m
    else
      var last := ws[|ws| - 1];
      Apply(m, ws[..|ws| - 1])[last.cell := last.value]
  }

  ghost predicate InRam(ws: seq<Write>) {
    forall i | 0 <= i < |ws| :: ws[i].cell < RAM_SIZE
  }

  /** The value of the last write to a cell, if any. */
  ghost function LastWrite(ws: seq<Write>, cell: nat): Option<u8> {
    if ws == [] then None
    else if ws[|ws| - 1].cell == cell then Some(ws[|ws| - 1].value)
    else LastWrite(ws[..|ws| - 1], cell)
  }

  /** Last writer wins, and cells nobody writes keep their value. */
  lemma {:induction false} ApplyAt(m: Ram, ws: seq<Write>, cell: nat)
    requires InRam(ws) && cell < RAM_SIZE
    ensures Apply(m, ws)[cell] == match LastWrite(ws, cell) case Some(v) => v case None => m[cell]
  {
    if ws != [] {
      ApplyAt(m, ws[..|ws| - 1], cell);
    }
  }

  lemma {:induction false} ApplyAppend(m: Ram, ws: seq<Write>, vs: seq<Write>)
    requires InRam(ws) && InRam(vs)
    ensures InRam(ws + vs) && Apply(m, ws + vs) == Apply(Apply(m, ws), vs)
    decreases |vs|
  {
    if vs == [] {
      assert ws + vs == ws;
    } else {
      var init := vs[..|vs| - 1];
      ApplyAppend(m, ws, init);
      assert (ws + vs)[..|ws + vs| - 1] == ws + init;
    }
  }

  lemma {:induction false} LastWriteAppend(ws: seq<Write>, vs: seq<Write>, cell: nat)
    ensures LastWrite(ws + vs, cell) == if LastWrite(vs, cell).Some? then LastWrite(vs, cell) else LastWrite(ws, cell)
    decreases |vs|
  {
    if vs == [] {
      assert ws + vs == ws;
    } else {
      var init := vs[..|vs| - 1];
      LastWriteAppend(ws, init, cell);
      assert (ws + vs)[..|ws + vs| - 1] == ws + init;
    }
  }

  /** A cell has a last write exactly when some write in the list targets it. */
  lemma {:induction false} LastWriteExists(ws: seq<Write>, cell: nat)
    ensures LastWrite(ws, cell).Some? <==> exists i | 0 <= i < |ws| :: ws[i].cell == cell
  {
    if ws != [] {
      LastWriteExists(ws[..|ws| - 1], cell);
      var n := |ws| - 1;
      assert forall i | 0 <= i < n :: ws[..n][i] == ws[i];
    }
  }

  /** Address arithmetic of the 6502 is modulo 64K. */
  function Wrap(address: u16, offset: nat): u16 {
    (address + offset) % ADDRESSES
  }

  lemma WrapWrap(address: u16, i: nat, j: nat)
    ensures Wrap(Wrap(address, i), j) == Wrap(address, i + j)
  {
  }

  /** What a context sees at n consecutive addresses, modulo 64K. */
  ghost function MemoryAt(m: Ram, pages: PageMap, context: nat, address: u16, n: nat): (s: seq<u8>)
    requires ValidPages(pages) && context < CONTEXTS
    ensures |s| == n && forall i | 0 <= i < n :: s[i] == View(m, pages, context, Wrap(address, i))
  {
    seq(n, i requires 0 <= i < n => View(m, pages, context, Wrap(address, i)))
  }

  /** The writes that put bytes at consecutive addresses of a context, modulo 64K. */
  function CopyWrites(pages: PageMap, context: nat, address: u16, bytes: seq<u8>): (ws: seq<Write>)
    requires ValidPages(pages) && context < CONTEXTS
    ensures |ws| == |bytes|
    ensures forall i | 0 <= i < |bytes| :: ws[i] == Write(Cell(pages, context, Wrap(address, i)), bytes[i])
    ensures InRam(ws)
  {
    seq(|bytes|, i requires 0 <= i < |bytes| => Write(Cell(pages, context, Wrap(address, i)), bytes[i]))
  }

  /** A copy that fits into 64K puts each byte at its own address. */
  lemma CopyHits(m: Ram, pages: PageMap, c: nat, address: u16, bytes: seq<u8>, i: nat)
    requires ValidPages(pages) && c < CONTEXTS && InjectiveContext(pages, c)
    requires address + |bytes| <= ADDRESSES && i < |bytes|
    ensures View(Apply(m, CopyWrites(pages, c, address, bytes)), pages, c, address + i) == bytes[i]
  {
    var ws := CopyWrites(pages, c, address, bytes);
    var cell := Cell(pages, c, address + i);
    forall j | 0 <= j < |ws| && j != i
      ensures ws[j].cell != cell
    {
      assert Wrap(address, j) == address + j;
      CellInjective(pages, c, address + i, address + j);
    }
    assert Wrap(address, i) == address + i;
    OnlyWrite(ws, cell, i);
    ApplyAt(m, ws, cell);
  }

  /** A list of writes leaves every cell alone that none of them targets. */
  lemma ApplyMisses(m: Ram, ws: seq<Write>, cell: nat)
    requires InRam(ws) && cell < RAM_SIZE
    requires forall i | 0 <= i < |ws| :: ws[i].cell != cell
    ensures Apply(m, ws)[cell] == m[cell]
  {
    ApplyAt(m, ws, cell);
    LastWriteExists(ws, cell);
  }

  lemma {:induction false} OnlyWrite(ws: seq<Write>, cell: nat, i: nat)
    requires i < |ws| && ws[i].cell == cell
    requires forall j | 0 <= j < |ws| && j != i :: ws[j].cell != cell
    ensures LastWrite(ws, cell) == Some(ws[i].value)
  {
    if i < |ws| - 1 {
      OnlyWrite(ws[..|ws| - 1], cell, i);
    }
  }

  /** Copying in chunks is copying at once. */
  lemma CopyWritesAppend(pages: PageMap, c: nat, address: u16, xs: seq<u8>, ys: seq<u8>)
    requires ValidPages(pages) && c < CONTEXTS
    ensures CopyWrites(pages, c, address, xs + ys) ==
            CopyWrites(pages, c, address, xs) + CopyWrites(pages, c, Wrap(address, |xs|), ys)
  {
    var all := CopyWrites(pages, c, address, xs + ys);
    var parts := CopyWrites(pages, c, address, xs) + CopyWrites(pages, c, Wrap(address, |xs|), ys);
    forall i | 0 <= i < |all|
      ensures all[i] == parts[i]
    {
      if i >= |xs| {
        WrapWrap(address, |xs|, i - |xs|);
      }
    }
  }
}
