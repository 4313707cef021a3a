/**
 The ring buffer of fifo.h: two 32-bit cursors masked by a power-of-two size, one cell always
 free. It is proved to be a bounded double-ended queue.
 */
module Fifo {
  import opened Words

  function Pow2(k: nat): (n: nat)
    ensures n >= 1
  {
    if k == 0 then 1 else 2 * Pow2(k - 1)
  }

  /** Bitwise and of two naturals. */
  function BitAnd(x: nat, y: nat): nat {
    if x == 0 || y == 0 then 0
    else 2 * BitAnd(x / 2, y / 2) + if x % 2 == 1 && y % 2 == 1 then 1 else 0
  }

  /** Masking with 2^k - 1 is the remainder modulo 2^k. */
  lemma {:induction false} MaskIsRemainder(x: nat, k: nat)
    ensures BitAnd(x, Pow2(k) - 1) == x % Pow2(k)
  {
    if k == 0 {
    } else if x == 0 {
    } else {
      var n := Pow2(k - 1);
      MaskIsRemainder(x / 2, k - 1);
      assert (2 * n - 1) / 2 == n - 1;
      HalvedRemainder(x, n);
    }
  }

  lemma HalvedRemainder(x: nat, n: nat)
    requires n >= 1
    ensures x % (2 * n) == 2 * (x / 2 % n) + x % 2
  {
    var q, r := x / 2 / n, x / 2 % n;
    assert x / 2 == q * n + r;
    assert x == q * (2 * n) + (2 * r + x % 2);
    RemainderIs(x, 2 * n, q, 2 * r + x % 2);
  }

  lemma RemainderIs(x: int, n: nat, q: int, r: nat)
    requires n >= 1 && x == q * n + r && r < n
    ensures x % n == r
  {
    var d := x / n - q;
    assert d * n == r - x % n;
  }

  lemma {:induction false} Pow2Divides(k: nat, m: nat)
    requires k <= m
    ensures Pow2(m) == Pow2(m - k) * Pow2(k)
    decreases m - k
  {
    if k < m {
      Pow2Divides(k, m - 1);
      var a, b := Pow2(m - 1 - k), Pow2(k);
      assert Pow2(m - k) == 2 * a && Pow2(m) == 2 * (a * b);
    }
  }

  lemma Pow2Of32()
    ensures Pow2(32) == 0x1_0000_0000
  {
    assert Pow2(8) == 0x100;
    assert Pow2(16) == 0x1_0000;
    assert Pow2(24) == 0x100_0000;
  }

  /** Unsigned 32-bit wrap-around before masking does no harm, even below zero. */
  lemma MaskAfterWrap(x: int, k: nat, r: nat)
    requires k <= 32 && -0x1_0000_0000 <= x < 0x1_0000_0000
    requires r < Pow2(k) && (x == r || x == r - Pow2(k) || x == r + Pow2(k))
    ensures BitAnd(x % 0x1_0000_0000, Pow2(k) - 1) == r
  {
    Pow2Divides(k, 32);
    Pow2Of32();
    MaskIsRemainder(x % 0x1_0000_0000, k);
    WrappedRemainder(x, Pow2(k), Pow2(32 - k), r);
  }

  lemma WrappedRemainder(x: int, n: nat, m: nat, r: nat)
    requires -0x1_0000_0000 <= x < 0x1_0000_0000 && m * n == 0x1_0000_0000
    requires r < n && (x == r || x == r - n || x == r + n)
    ensures x % 0x1_0000_0000 % n == r
  {
    var w := x % 0x1_0000_0000;
    if x < 0 {
      assert w == x + 0x1_0000_0000;
      assert (m - 1) * n == m * n - n;
      RemainderIs(w, n, m - 1, r);
    } else {
      assert w == x;
      RemainderIs(w, n, if x == r then 0 else 1, r);
    }
  }

  const EMPTY: bv8 := 1
  const FULL: bv8 := 2
  const DATA: bv8 := 4
  const SPACE: bv8 := 8

  class Fifo<T> {
    const log: nat
    const size: nat
    const buffer: array<T>
    var head: u32
    var tail: u32

    ghost predicate Valid()
      reads this
    {
      log < 32 && size == Pow2(log) == buffer.Length && head < size && tail < size
    }

    ghost function Count(): nat
      requires Valid()
      reads this
    {
      if tail <= head then head - tail else head - tail + size
    }

    /** The cell that lies i places after the tail. */
    ghost function Place(i: nat): nat
      requires Valid() && i < size
      reads this
      ensures Place(i) < size
    {
      if tail + i < size then tail + i else tail + i - size
    }

    /** The queued elements, oldest first. */
    ghost function Contents(): (s: seq<T>)
      requires Valid()
      reads this, buffer
      ensures |s| < size
      ensures forall i | 0 <= i < |s| :: s[i] == buffer[Place(i)]
    {
      seq(Count(), i requires Valid() && 0 <= i < Count() reads this, buffer => buffer[Place(i)])
    }

    constructor (log: nat, fill: T)
      requires log < 32
      ensures Valid() && Contents() == [] && this.log == log && fresh(buffer)
    {
      this.log := log;
      size := Pow2(log);
      buffer := new T[Pow2(log)](_ => fill);
      head, tail := 0, 0;
    }

    /** (cursor + delta) & MASK on 32-bit unsigned words. */
    method Masked(cursor: u32, delta: int) returns (next: u32)
      requires Valid() && cursor < size && (delta == 1 || delta == -1)
      ensures next == (if delta == 1 then if cursor + 1 == size then 0 else cursor + 1
                       else if cursor == 0 then size - 1 else cursor - 1)
    {
      SmallSize(log);
      MaskAfterWrap(cursor + delta, log, if delta == 1 then if cursor + 1 == size then 0 else cursor + 1
                                         else if cursor == 0 then size - 1 else cursor - 1);
      next := BitAnd((cursor + delta) % 0x1_0000_0000, size - 1);
    }

    method Clear()
      requires Valid()
      modifies this
      ensures Valid() && Contents() == []
    {
      head, tail := 0, 0;
    }

    method IsEmpty() returns (empty: bool)
      requires Valid()
      ensures empty <==> Contents() == []
    {
      empty := head == tail;
    }

    method IsFull() returns (full: bool)
      requires Valid()
      ensures full <==> |Contents()| == size - 1
    {
      var next := Masked(head, 1);
      full := next == tail;
    }

    method Length() returns (n: nat)
      requires Valid()
      ensures n == |Contents()|
    {
      SmallSize(log);
      MaskAfterWrap(head - tail, log, Count());
      n := BitAnd((head - tail) % 0x1_0000_0000, size - 1);
    }

    method Status() returns (s: bv8)
      requires Valid()
      ensures (s & EMPTY != 0 <==> Contents() == []) && (s & DATA != 0 <==> Contents() != [])
      ensures (s & FULL != 0 <==> |Contents()| == size - 1) && (s & SPACE != 0 <==> |Contents()| < size - 1)
      ensures s & 0xF0 == 0
    {
      s := 0;
      if head == tail {
        s := s | EMPTY;
      } else {
        s := s | DATA;
      }
      var next := Masked(head, 1);
      if next == tail {
        s := s | FULL;
      } else {
        s := s | SPACE;
      }
    }

    method Push(value: T) returns (ok: bool)
      requires Valid()
      modifies this`head, buffer
      ensures Valid() && (ok <==> |old(Contents())| < size - 1)
      ensures Contents() == if ok then old(Contents()) + [value] else old(Contents())
    {
      var h := head;
      var next := Masked(h, 1);
      if next == tail {
        return false;
      }
      buffer[h] := value;
      head := next;
      return true;
    }

    method Pop() returns (value: Option<T>)
      requires Valid()
      modifies this`tail
      ensures Valid()
      ensures value == if old(Contents()) == [] then None else Some(old(Contents())[0])
      ensures Contents() == if old(Contents()) == [] then [] else old(Contents())[1..]
    {
      var t := tail;
      if t == head {
        return None;
      }
      value := Some(buffer[t]);
      tail := Masked(t, 1);
    }

    method Peek() returns (value: Option<T>)
      requires Valid()
      ensures value == if Contents() == [] then None else Some(Contents()[0])
    {
      if head == tail {
        return None;
      }
      return Some(buffer[tail]);
    }

    /** Takes back the newest element. */
    method Unpush() returns (ok: bool)
      requires Valid()
      modifies this`head
      ensures Valid() && (ok <==> old(Contents()) != [])
      ensures Contents() == if ok then old(Contents())[..|old(Contents())| - 1] else []
    {
      if head == tail {
        return false;
      }
      head := Masked(head, -1);
      return true;
    }

    /** Puts an element back in front of the oldest. */
    method Unpop(value: T) returns (ok: bool)
      requires Valid()
      modifies this`tail, buffer
      ensures Valid() && (ok <==> |old(Contents())| < size - 1)
      ensures Contents() == if ok then [value] + old(Contents()) else old(Contents())
    {
      var prev := Masked(tail, -1);
      if prev == head {
        return false;
      }
      tail := prev;
      buffer[tail] := value;
      return true;
    }
  }

  lemma {:induction false} SmallSize(k: nat)
    requires k < 32
    ensures Pow2(k) <= 0x8000_0000
    decreases 32 - k
  {
    if k == 31 {
      Pow2Of32();
    } else {
      SmallSize(k + 1);
    }
  }
}
