/**
 Console transfers (rp_console_io.cpp) over the character queues (input.cpp): reads move a prefix
 of the keyboard queue into 6502 memory, writes hand 6502 memory to the display queue in chunks.
 */
module ConsoleIo {
  import opened Words
  import opened SystemBus
  import opened PhysicalMemory
  import opened Neobus
  import opened Fifo

  const CHUNK: nat := 256
  const QUEUE_LOG: nat := 7     // 128 cells

  /** How many characters a read of at most n takes: up to the first zero or the end of the queue. */
  function Taken(queue: seq<u8>, n: nat): (k: nat)
    ensures k <= n && k <= |queue|
    ensures forall i | 0 <= i < k :: queue[i] != 0
    ensures k < n && k < |queue| ==> queue[k] == 0
  {
    if n == 0 || queue == [] || queue[0] == 0 then 0 else 1 + Taken(queue[1..], n - 1)
  }

  /** The terminating zero is consumed, but not delivered. */
  function Left(queue: seq<u8>, n: nat): seq<u8> {
    var k := Taken(queue, n);
    if k < n && k < |queue| then queue[k + 1..] else queue[k..]
  }

  lemma {:induction false} TakenNext(queue: seq<u8>, i: nat, n: nat)
    requires i < n && i <= |queue| && i <= Taken(queue, n)
    ensures Taken(queue, n) == i <==> i == |queue| || queue[i] == 0
    ensures Taken(queue, n) == i ==> Left(queue, n) == if i == |queue| then [] else queue[i + 1..]
  {
  }

  lemma LeftAll(queue: seq<u8>, n: nat)
    requires Taken(queue, n) == n
    ensures Left(queue, n) == queue[n..]
  {
  }

  /** The characters that reach the display queue when every one of them fits: NULs do not. */
  function Printable(bytes: seq<u8>): seq<u8> {
    if bytes == [] then []
    else Printable(bytes[..|bytes| - 1]) + if bytes[|bytes| - 1] != 0 then [bytes[|bytes| - 1]] else []
  }

  /** The display queue after a series of writeVDUQ calls. */
  function Displayed(queue: seq<u8>, bytes: seq<u8>, size: nat): seq<u8>
    decreases |bytes|
  {
    if bytes == [] then queue
    else
      var q, c := Displayed(queue, bytes[..|bytes| - 1], size), bytes[|bytes| - 1];
      if c != 0 && |q| + 1 < size then q + [c] else q
  }

  class Console {
    const machine: Machine
    const keys: Fifo<u8>
    const display: Fifo<u8>
    var target: u16
    var len: u16
    var current: u16
    var remaining: u16
    ghost var handed: seq<u8>     // every byte passed to writeVDUQ so far

    ghost predicate Valid()
      reads machine, keys, display
    {
      && machine.Valid() && Settled(machine.BusState())
      && keys.Valid() && keys.log == QUEUE_LOG && display.Valid() && display.log == QUEUE_LOG
      && keys != display && keys.buffer != display.buffer
      && machine.ram != keys.buffer && machine.ram != display.buffer
    }

    /** A write is in progress: so far the bytes before `current` have been handed over. */
    ghost predicate Writing(start: seq<u8>)
      requires Valid()
      reads this, machine, machine.ram, keys, display
    {
      && remaining <= len && current == Wrap(target, len - remaining)
      && handed == start + machine.Memory(machine.context, target, len - remaining)
    }

    lemma MemoryExtends(address: u16, n: nat, k: nat)
      requires machine.Valid()
      ensures machine.Memory(machine.context, address, n + k) ==
              machine.Memory(machine.context, address, n) + machine.Memory(machine.context, Wrap(address, n), k)
      ensures Wrap(Wrap(address, n), k) == Wrap(address, n + k)
    {
      WrapWrap(address, n, k);
      forall i | 0 <= i < k
        ensures machine.Memory(machine.context, Wrap(address, n), k)[i] ==
                machine.Memory(machine.context, address, n + k)[n + i]
      {
        WrapWrap(address, n, i);
      }
    }

    constructor (machine: Machine)
      requires machine.Valid() && Settled(machine.BusState())
      ensures Valid() && this.machine == machine && keys.Contents() == [] && display.Contents() == [] && handed == []
      ensures fresh(keys) && fresh(display) && fresh(keys.buffer) && fresh(display.buffer)
    {
      this.machine := machine;
      keys := new Fifo(QUEUE_LOG, 0);
      display := new Fifo(QUEUE_LOG, 0);
      target, len, current, remaining := 0, 0, 0, 0;
      handed := [];
    }

    /** Keyboard side: a character is refused when the queue is full. */
    method WriteCpuQ(c: u8) returns (ok: bool)
      requires Valid()
      modifies keys, keys.buffer
      ensures Valid() && (ok <==> |old(keys.Contents())| < keys.size - 1)
      ensures keys.Contents() == if ok then old(keys.Contents()) + [c] else old(keys.Contents())
    {
      var full := keys.IsFull();
      if !full {
        ok := keys.Push(c);
        return true;
      }
      return false;
    }

    /** An empty queue reads as 0. */
    method ReadCpuQ() returns (c: u8)
      requires Valid()
      modifies keys`tail
      ensures Valid() && keys.buffer[..] == old(keys.buffer[..])
      ensures c == if old(keys.Contents()) == [] then 0 else old(keys.Contents())[0]
      ensures keys.Contents() == if old(keys.Contents()) == [] then [] else old(keys.Contents())[1..]
    {
      var empty := keys.IsEmpty();
      if !empty {
        var popped := keys.Pop();
        return popped.value;
      }
      return 0;
    }

    method InputBytes(length: u16) returns (data: seq<u8>)
      requires Valid()
      modifies keys`tail
      ensures Valid()
      ensures data == old(keys.Contents())[..Taken(old(keys.Contents()), length)]
      ensures keys.Contents() == Left(old(keys.Contents()), length)
    {
      hide Taken, Left, Fifo.Valid;
      data := [];
      ghost var queue := keys.Contents();
      var n := 0;
      while n < length
        invariant Valid() && n <= length && n <= |queue| && n <= Taken(queue, length)
        invariant data == queue[..n] && keys.Contents() == queue[n..]
      {
        var c := ReadCpuQ();
        TakenNext(queue, n, length);
        if c == 0 {
          return;
        }
        assert queue[..n + 1] == queue[..n] + [queue[n]];
        data := data + [c];
        n := n + 1;
      }
      LeftAll(queue, length);
    }

    /** The display side accepts everything and drops what does not fit. */
    method WriteVduQ(c: u8)
      requires Valid()
      modifies this`handed, display, display.buffer
      ensures Valid() && handed == old(handed) + [c]
      ensures display.Contents() ==
              if c != 0 && |old(display.Contents())| < display.size - 1 then old(display.Contents()) + [c]
              else old(display.Contents())
    {
      if c != 0 {
        var ok := display.Push(c);
      }
      handed := handed + [c];
    }

    method OutputBytes(bytes: seq<u8>)
      requires Valid()
      modifies this`handed, display, display.buffer
      ensures Valid() && handed == old(handed) + bytes
      ensures display.Contents() == Displayed(old(display.Contents()), bytes, display.size)
    {
      var l := 0;
      while l < |bytes|
        invariant 0 <= l <= |bytes| && Valid() && handed == old(handed) + bytes[..l]
        invariant display.Contents() == Displayed(old(display.Contents()), bytes[..l], display.size)
      {
        WriteVduQ(bytes[l]);
        assert bytes[..l + 1] == bytes[..l] + [bytes[l]];
        l := l + 1;
      }
      assert bytes[..l] == bytes;
    }

    /** The result says whether the command is complete at once. */
    method HandleRead(ptr: u16, n: u16) returns (done: bool)
      requires Valid()
      modifies this`target, this`len
      ensures Valid() && (done <==> n == 0) && target == ptr
      ensures len == if n > CHUNK then CHUNK else n
    {
      target := ptr;
      len := n;
      if len == 0 {
        return true;
      }
      if len > CHUNK {
        len := CHUNK;
      }
      return false;
    }

    /**
     One poll of a waiting read: the queue's prefix moves to memory in order, at most `len` bytes
     and up to the first zero, and to nowhere else; an empty prefix keeps the command waiting.
     */
    method ProcessRead() returns (count: Option<u16>)
      requires Valid()
      modifies machine, machine.ram, keys`tail
      ensures Valid() && machine.context == old(machine.context)
      ensures var queue := old(keys.Contents());
              var k := Taken(queue, len);
              && keys.Contents() == Left(queue, len)
              && count == (if k == 0 then None else Some(k))
              && machine.Ram() ==
                 Apply(old(machine.Ram()), CopyWrites(machine.pages, machine.context, target, queue[..k]))
      ensures machine.BusState() == old(machine.BusState()) || machine.BusState() == Released(old(machine.BusState()))
    {
      var data := InputBytes(len);
      if |data| == 0 {
        return None;
      }
      machine.SnoopWriteBlock(target, data);
      return Some(|data|);
    }

    method HandleWrite(ptr: u16, n: u16) returns (done: bool)
      requires Valid()
      modifies this`target, this`len, this`current, this`remaining
      ensures Valid() && (done <==> n == 0) && target == ptr && len == n
      ensures n != 0 ==> Writing(handed) && remaining == n
    {
      target := ptr;
      len := n;
      if len == 0 {
        return true;
      }
      remaining := len;
      current := target;
      return false;
    }

    method HandOver(chunk: u16)
      requires Valid()
      modifies this`handed, machine, display, display.buffer
      ensures Valid() && machine.context == old(machine.context)
      ensures machine.BusState() == old(machine.BusState()) || machine.BusState() == Released(old(machine.BusState()))
      ensures handed == old(handed) + old(machine.Memory(machine.context, current, chunk))
    {
      hide Settled, Released;
      var buffer := machine.SnoopReadBlock(current, chunk);
      assert buffer == old(machine.Memory(machine.context, current, chunk));
      OutputBytes(buffer);
    }

    /** Hands over the next bytes and advances. */
    method Advance(chunk: u16, ghost start: seq<u8>)
      requires Valid() && Writing(start) && chunk <= remaining
      modifies this`current, this`remaining, this`handed, machine, display, display.buffer
      ensures Valid() && Writing(start) && machine.context == old(machine.context)
      ensures machine.BusState() == old(machine.BusState()) || machine.BusState() == Released(old(machine.BusState()))
      ensures remaining == old(remaining) - chunk
    {
      hide Settled, Wrap;
      ghost var done: nat := len - remaining;
      ghost var earlier := machine.Memory(machine.context, target, done);
      ghost var next := machine.Memory(machine.context, current, chunk);
      HandOver(chunk);
      assert machine.Memory(machine.context, target, done) == earlier;
      assert machine.Memory(machine.context, current, chunk) == next;
      MemoryExtends(target, done, chunk);
      assert handed == start + (earlier + next);
      current := Wrap(current, chunk);
      remaining := remaining - chunk;
    }

    /** One poll of a write hands over the next 256 bytes, in order; the last poll reports the length. */
    method ProcessWrite(ghost start: seq<u8>) returns (count: Option<u16>)
      requires Valid() && Writing(start)
      modifies this`current, this`remaining, this`handed, machine, display, display.buffer
      ensures Valid() && Writing(start) && machine.context == old(machine.context)
      ensures machine.BusState() == old(machine.BusState()) || machine.BusState() == Released(old(machine.BusState()))
      ensures count == (if old(remaining) == 0 then Some(len) else None)
      ensures remaining == (if old(remaining) > CHUNK then old(remaining) - CHUNK else 0)
      ensures count.Some? ==> handed == start + machine.Memory(machine.context, target, len)
    {
      if remaining == 0 {
        return Some(len);
      }
      Advance(if remaining > CHUNK then CHUNK else remaining, start);
      return None;
    }
  }

  /** Fewer characters than free cells arrive on the display unchanged and in order, without NULs. */
  lemma {:induction false} SmallOutputArrives(queue: seq<u8>, bytes: seq<u8>, size: nat)
    requires |queue| + |bytes| < size
    ensures Displayed(queue, bytes, size) == queue + Printable(bytes)
    ensures |Printable(bytes)| <= |bytes|
    decreases |bytes|
  {
    if bytes != [] {
      SmallOutputArrives(queue, bytes[..|bytes| - 1], size);
    }
  }

  /** Printable keeps every character but NUL, in order and as often as it comes. */
  lemma {:induction false} PrintableKeepsAllButNul(bytes: seq<u8>, rest: seq<u8>)
    ensures Printable(bytes + rest) == Printable(bytes) + Printable(rest)
    ensures 0 !in bytes ==> Printable(bytes) == bytes
    ensures Printable([0]) == []
    decreases |rest|
  {
    if 0 !in bytes {
      PrintablePlain(bytes);
    }
    assert Printable([0]) == Printable([0][..0]) && [0][..0] == [];
    if rest == [] {
      assert bytes + rest == bytes;
    } else {
      var init := rest[..|rest| - 1];
      PrintableKeepsAllButNul(bytes, init);
      assert (bytes + rest)[..|bytes + rest| - 1] == bytes + init;
    }
  }

  lemma {:induction false} PrintablePlain(bytes: seq<u8>)
    requires 0 !in bytes
    ensures Printable(bytes) == bytes
  {
    if bytes != [] {
      PrintablePlain(bytes[..|bytes| - 1]);
    }
  }

  /** A display queue with no room for one more drops what comes; what was queued always stays, in front. */
  lemma {:induction false} FullDisplayDrops(queue: seq<u8>, bytes: seq<u8>, size: nat)
    ensures queue <= Displayed(queue, bytes, size)
    ensures |queue| + 1 >= size ==> Displayed(queue, bytes, size) == queue
    ensures |queue| < size ==> |Displayed(queue, bytes, size)| < size
    decreases |bytes|
  {
    if bytes != [] {
      FullDisplayDrops(queue, bytes[..|bytes| - 1], size);
    }
  }
}
