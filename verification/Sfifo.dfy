/** The FTP server's sfifo: one slot stays empty, and a position may rest at the very end of the buffer. */
module Sfifo {
  import opened Bits
  import opened Ring
  import opened Kfifo

  const ENODEV := 19
  const ENOMEM := 12

  // ----- Sizes -----

  function ToInt32(x: nat): int
    requires x < U32
  {
    if x < 0x8000_0000 then x else x - U32
  }

  /** f->size after k shifts, as the signed 32-bit field holds it. */
  function Shifted(k: nat): int {
    ToInt32(Wrap32(Pow2(k)))
  }

  lemma ShiftedCases(k: nat)
    ensures k <= 30 ==> Shifted(k) == Pow2(k) && Pow2(k) <= 0x4000_0000
    ensures k == 30 ==> Shifted(k) == 0x4000_0000
    ensures k == 31 ==> Shifted(k) == -0x8000_0000
    ensures k >= 32 ==> Shifted(k) == 0
  {
    PowersBelow32();
    hide Pow2, Wrap32;
    if k <= 30 {
      var half := 30;
      Pow2Splits(k, half);
      MulGrows(Pow2(k), Pow2(half - k));
    } else if k >= 32 {
      MultipleOf32(k);
    }
  }

  lemma PowersBelow32()
    ensures Pow2(30) == 0x4000_0000 && Pow2(31) == 0x8000_0000
  {
    var top := 32;
    Pow2Is32(top);
    assert Pow2(top - 1) == 0x8000_0000 && Pow2(top - 2) == 0x4000_0000;
  }

  lemma MultipleOf32(k: nat)
    requires k >= 32
    ensures Wrap32(Pow2(k)) == 0
  {
    var top := 32;
    Pow2Is32(top);
    Pow2Splits(top, k);
    ModUnique(Pow2(k), U32, Pow2(k - top), 0);
  }

  /** The sizing loop of sfifo_init comes to an end exactly for sizes below 2^30. */
  lemma InitTerminates(size: nat)
    requires size < 0x8000_0000
    ensures (exists k :: Shifted(k) > size) <==> size < 0x4000_0000
  {
    ShiftedCases(30);
    forall k | Shifted(k) > size
      ensures size < 0x4000_0000
    {
      ShiftedCases(k);
    }
  }

  // ----- Positions -----

  /** sfifo_used: the difference of the positions under the size mask. */
  function Used(readpos: nat, writepos: nat, size: nat): nat
    requires 0 < size
  {
    And(Wrap32(writepos - readpos), size - 1)
  }

  lemma UsedIs(readpos: nat, writepos: nat, log: nat)
    requires log < 31 && readpos <= Pow2(log) && writepos <= Pow2(log)
    ensures var size, used := Pow2(log), Used(readpos, writepos, Pow2(log));
            used < size &&
            used == if writepos < readpos then size + writepos - readpos
                    else if writepos - readpos == size then 0 else writepos - readpos
  {
    hide Wrap32, Pow2, And;
    var size, d := Pow2(log), writepos - readpos;
    var m := SizeDivides(log);
    AndMask(Wrap32(d), log);
    if d < 0 {
      if d == -size {
        Regroup(size, m, 1, 0);
        ModUnique(Wrap32(d), size, m - 1, 0);
      } else {
        Regroup(size, m, 1, size + d);
        ModUnique(Wrap32(d), size, m - 1, size + d);
      }
    } else if d == size {
      ModUnique(Wrap32(d), size, 1, 0);
    } else {
      ModUnique(Wrap32(d), size, 0, d);
    }
  }

  // ----- The TCP side -----

  /** tcp_write accepts a segment whole or refuses it; nobody here decides which. */
  class Tcp {
    ghost var accepted: seq<byte>

    method Write(data: seq<byte>) returns (ok: bool)
      modifies this
      ensures accepted == if ok then old(accepted) + data else old(accepted)
    {
      ok := *;
      if ok {
        accepted := accepted + data;
      }
    }
  }

  /**
   * How many bytes a call of send_data gets rid of, from tcp_write's answers: everything offered, in one segment or,
   * around the end, in two; nothing when the first is refused; the part up to the end when only the second is.
   */
  ghost predicate Took(n: nat, answers: seq<bool>, queued: nat, offered: nat, toEnd: int) {
    if queued == 0 then answers == [] && n == 0
    else if offered <= toEnd || answers == [false] then |answers| == 1 && n == if answers[0] then offered else 0
    else |answers| == 2 && answers[0] && n == if answers[1] then offered else toEnd
  }

  class SFifo {
    var buffer: array?<byte>
    var size: nat
    var readpos: nat
    var writepos: nat
    ghost var log: nat

    ghost predicate Valid()
      reads this
    {
      log < 31 && size == Pow2(log) && readpos <= size && writepos <= size &&
      buffer != null && buffer.Length == size
    }

    ghost function Contents(): seq<byte>
      requires Valid()
      reads this, buffer
    {
      UsedIs(readpos, writepos, log);
      Window(buffer[..], readpos, Used(readpos, writepos, size))
    }

    constructor ()
      ensures buffer == null
    {
      buffer := null;
      size, readpos, writepos, log := 1, 0, 0, 0;
    }

    /**
     * sfifo_init, for sizes whose sizing loop ends: the smallest power of two with room for `bytes` bytes beside
     * the slot kept empty. `haveMemory` is the allocator's answer.
     */
    method Init(bytes: nat, haveMemory: bool) returns (err: int)
      requires bytes < 0x4000_0000
      modifies this
      ensures if haveMemory then err == 0 else err == -ENOMEM && buffer == null
      ensures haveMemory ==> Valid() && fresh(buffer) && Contents() == [] && bytes <= Space()
      ensures size == Pow2(log) && bytes < size && (size == 1 || size / 2 <= bytes)
    {
      hide Used, Window, ToInt32, Wrap32;
      size, readpos, writepos := 1, 0, 0;
      log := 0;
      while size <= bytes
        invariant readpos == 0 && writepos == 0 && log <= 30 && size == Pow2(log) && (size == 1 || size / 2 <= bytes)
        decreases 0x8000_0000 - size
      {
        ShiftIs(log);
        size := Shift(size);
        log := log + 1;
      }
      if !haveMemory {
        buffer := null;
        return -ENOMEM;
      }
      buffer := new byte[size](i => 0);
      UsedIs(0, 0, log);
      return 0;
    }

    /** Below 2^30 a shift doubles. */
    static lemma ShiftIs(k: nat)
      requires k <= 30 && Pow2(k) < 0x4000_0000
      ensures k < 30 && Shift(Pow2(k)) == Pow2(k + 1)
    {
      ShiftedCases(k);
    }

    /** f->size <<= 1 in a signed 32-bit field. */
    static function Shift(x: nat): nat
      requires x < 0x4000_0000
    {
      ToInt32(Wrap32(2 * x))
    }

    /** sfifo_space. */
    function Space(): int
      requires 0 < size
      reads this
    {
      size - 1 - Used(readpos, writepos, size)
    }

    /** sfifo_write: as many bytes as there is space for. */
    method Write(data: array<byte>, len: nat) returns (total: int)
      requires (buffer == null || Valid()) && data != buffer && len <= data.Length
      modifies this`writepos, buffer
      ensures old(buffer) == null ==> total == -ENODEV && writepos == old(writepos)
      ensures old(buffer) != null ==>
                Valid() && total == Least(len, old(Space())) && Contents() == old(Contents()) + data[..total]
    {
      if buffer == null {
        return -ENODEV;
      }
      hide Window, Used, Pow2;
      UsedIs(readpos, writepos, log);
      total := Least(len, Space());
      Store(data, total);
    }

    /** The copies of sfifo_write, around the end if need be. */
    method Store(data: array<byte>, total: nat)
      requires Valid() && data != buffer && total <= data.Length && |Contents()| + total < size
      modifies this`writepos, buffer
      ensures Valid() && Contents() == old(Contents()) + data[..total]
    {
      hide Window, Used, Pow2, Overlay;
      UsedIs(readpos, writepos, log);
      ghost var mem, used := buffer[..], Used(readpos, writepos, size);
      WindowGrows(mem, readpos, used, data[..total]);
      assert Overlay(mem, At(readpos, used, size), data[..total]) == Overlay(mem, writepos, data[..total]);
      CopyIn(data, total);
      UsedIs(readpos, writepos, log);
    }

    /** One memcpy, or two around the end. */
    method CopyIn(data: array<byte>, total: nat)
      requires Valid() && data != buffer && total <= data.Length && total < size
      modifies this`writepos, buffer
      ensures buffer[..] == Overlay(old(buffer[..]), old(writepos), data[..total])
      ensures writepos == At(old(writepos), total, size)
    {
      hide Overlay, Pow2;
      var i, at, len := writepos, 0, total;
      if i + len > size {
        Memcpy(buffer, i, data, 0, size - i);
        at := at + (size - i);
        len := len - (size - i);
        i := 0;
      }
      Memcpy(buffer, i, data, at, len);
      writepos := i + len;
    }

    /**
     * send_data: what leaves the queue is what tcp_write took, and that is everything offered when it accepts. Refused
     * segments stay queued, also when only the one behind the wrap is refused. `answers` are tcp_write's, in order.
     */
    method SendData(tcp: Tcp, sndbuf: nat) returns (ghost n: nat, ghost answers: seq<bool>)
      requires Valid() && sndbuf < 0x1_0000
      modifies this`readpos, tcp
      ensures Valid() && writepos == old(writepos) && n <= |old(Contents())|
      ensures tcp.accepted == old(tcp.accepted) + old(Contents())[..n] && Contents() == old(Contents())[n..]
      ensures Took(n, answers, |old(Contents())|, Least(sndbuf, |old(Contents())|), size - old(readpos))
    {
      hide Window, Used, Pow2;
      UsedIs(readpos, writepos, log);
      n, answers := 0, [];
      if Used(readpos, writepos, size) > 0 {
        var len := 0;
        if sndbuf < Used(readpos, writepos, size) {
          len := sndbuf;
        } else {
          len := Used(readpos, writepos, size) % 0x1_0000;
        }
        assert len == Least(sndbuf, |Contents()|);
        n, answers := SendUpTo(tcp, len);
      }
    }

    /** The one or two segments of send_data. */
    method SendUpTo(tcp: Tcp, offered: nat) returns (ghost n: nat, ghost answers: seq<bool>)
      requires Valid() && 0 < |Contents()| && offered <= |Contents()|
      modifies this`readpos, tcp
      ensures Valid() && writepos == old(writepos) && n <= |old(Contents())|
      ensures tcp.accepted == old(tcp.accepted) + old(Contents())[..n] && Contents() == old(Contents())[n..]
      ensures Took(n, answers, |old(Contents())|, offered, size - old(readpos))
    {
      hide Window, Used, Pow2;
      UsedIs(readpos, writepos, log);
      assert |Contents()| < size;
      hide Contents;
      ghost var queue, sent := Contents(), tcp.accepted;
      var len := offered;
      n, answers := 0, [];
      if readpos + len > size {
        var first := size - readpos;
        var accepted := SendSegment(tcp, first, 0);
        answers := [accepted];
        if !accepted {
          return;
        }
        n := first;
        len := len - first;
      }
      var ok := SendSegment(tcp, len, readpos + len);
      answers := answers + [ok];
      if ok {
        TakeTwice(sent, queue, n, len);
        n := n + len;
      }
    }

    /** One tcp_write from the read position, and the position's move when it was accepted. */
    method SendSegment(tcp: Tcp, k: nat, next: nat) returns (ok: bool)
      requires Valid() && k <= |Contents()| && readpos + k <= size
      requires next == readpos + k || (next == 0 && readpos + k == size)
      modifies this`readpos, tcp
      ensures Valid()
      ensures if ok then tcp.accepted == old(tcp.accepted) + old(Contents())[..k] &&
                         Contents() == old(Contents())[k..] && readpos == next
              else tcp.accepted == old(tcp.accepted) && Contents() == old(Contents()) && readpos == old(readpos)
    {
      ok := tcp.Write(buffer[readpos..readpos + k]);
      if ok {
        Dequeue(k, next);
      }
    }

    /** Moving the read position past n queued bytes. */
    method Dequeue(n: nat, next: nat)
      requires Valid() && n <= |Contents()| && next <= size
      requires next == At(readpos, n, size) || (next == 0 && readpos + n == size)
      modifies this`readpos
      ensures Valid() && Contents() == old(Contents())[n..] && readpos == next
      ensures old(Contents())[..n] == Window(buffer[..], old(readpos), n)
    {
      hide Window, Used, Pow2;
      UsedIs(readpos, writepos, log);
      ghost var used := Used(readpos, writepos, size);
      WindowSplit(buffer[..], readpos, used, n);
      WindowAtEnd(buffer[..], used - n);
      readpos := next;
      UsedIs(readpos, writepos, log);
    }
  }

  /** The handlers push and pull in any order; the send buffer has whatever room it has. */
  datatype Op = Push(data: seq<byte>) | Pull(sndbuf: nat)

  /** What a step did: the bytes it put into the queue, those it got rid of, and tcp_write's answers. */
  datatype Done = Done(put: seq<byte>, sent: seq<byte>, answers: seq<bool>)

  /** A push takes what there is space for; a pull sends the front, all that is offered unless tcp_write refuses. */
  ghost predicate Stepped(op: Op, size: nat, queue: seq<byte>, d: Done, next: seq<byte>) {
    |queue| < size &&
    match op
    case Push(data) =>
      d.put == data[..Least(|data|, size - 1 - |queue|)] && d.sent == [] && next == queue + d.put
    case Pull(sndbuf) =>
      d.put == [] && d.sent + next == queue && |d.sent| <= Least(sndbuf, |queue|) &&
      (false !in d.answers ==> |d.sent| == Least(sndbuf, |queue|)) &&
      (d.answers != [] && !d.answers[0] ==> d.sent == [])
  }

  ghost function AllPut(done: seq<Done>): seq<byte> {
    if done == [] then [] else AllPut(done[..|done| - 1]) + done[|done| - 1].put
  }

  ghost function AllSent(done: seq<Done>): seq<byte> {
    if done == [] then [] else AllSent(done[..|done| - 1]) + done[|done| - 1].sent
  }

  /**
   * Over any run every step does what it should to the queue, and nothing is lost, repeated or reordered: tcp_write's
   * bytes, then the queue, are sfifo_write's bytes.
   */
  method AnyRun(f: SFifo, tcp: Tcp, script: seq<Op>)
    returns (written: seq<byte>, ghost done: seq<Done>, ghost queues: seq<seq<byte>>)
    requires f.Valid() && f.Contents() == [] && tcp.accepted == []
    requires forall k :: 0 <= k < |script| ==> script[k].Pull? ==> script[k].sndbuf < 0x1_0000
    modifies f, f.buffer, tcp
    ensures f.Valid() && tcp.accepted + f.Contents() == written
    ensures |done| == |script| && written == AllPut(done) && tcp.accepted == AllSent(done)
    ensures |queues| == |script| + 1 && queues[0] == [] && queues[|script|] == f.Contents()
    ensures forall k :: 0 <= k < |script| ==> Stepped(script[k], f.size, queues[k], done[k], queues[k + 1])
  {
    hide Window, Used, Pow2, Stepped;
    written, done, queues := [], [], [[]];
    ghost var buffer := f.buffer;
    for k := 0 to |script|
      invariant f.Valid() && f.buffer == buffer && f.size == old(f.size) && tcp.accepted + f.Contents() == written
      invariant |done| == k && written == AllPut(done) && tcp.accepted == AllSent(done)
      invariant |queues| == k + 1 && queues[0] == [] && queues[k] == f.Contents()
      invariant forall j :: 0 <= j < k ==> Stepped(script[j], f.size, queues[j], done[j], queues[j + 1])
    {
      ghost var queue, sent := f.Contents(), tcp.accepted;
      var taken, d := OneStep(f, tcp, script[k]);
      Conserved(sent, queue, d, f.Contents());
      assert (done + [d])[..k] == done;
      written, done, queues := written + taken, done + [d], queues + [f.Contents()];
    }
  }

  method OneStep(f: SFifo, tcp: Tcp, op: Op) returns (taken: seq<byte>, ghost d: Done)
    requires f.Valid() && (op.Pull? ==> op.sndbuf < 0x1_0000)
    modifies f`readpos, f`writepos, f.buffer, tcp
    ensures f.Valid() && taken == d.put && tcp.accepted == old(tcp.accepted) + d.sent
    ensures Stepped(op, f.size, old(f.Contents()), d, f.Contents())
    ensures d.sent + f.Contents() == old(f.Contents()) + d.put
  {
    hide Window, Used, Pow2, Took;
    match op
    case Push(data) =>
      taken := PushOnce(f, data);
      d := Done(taken, [], []);
    case Pull(sndbuf) =>
      UsedIs(f.readpos, f.writepos, f.log);
      ghost var queue := f.Contents();
      assert |queue| < f.size;
      var n, answers := f.SendData(tcp, sndbuf);
      assert queue[..n] + f.Contents() == queue;
      TookMeans(n, answers, queue, sndbuf);
      taken, d := [], Done([], queue[..n], answers);
  }

  method PushOnce(f: SFifo, data: seq<byte>) returns (taken: seq<byte>)
    requires f.Valid()
    modifies f`writepos, f.buffer
    ensures f.Valid() && |old(f.Contents())| < f.size
    ensures taken == data[..Least(|data|, f.size - 1 - |old(f.Contents())|)]
    ensures f.Contents() == old(f.Contents()) + taken
  {
    hide Window, Used, Pow2;
    UsedIs(f.readpos, f.writepos, f.log);
    var bytes := new byte[|data|](i requires 0 <= i < |data| => data[i]);
    var total := f.Write(bytes, |data|);
    taken := bytes[..total];
  }

  lemma TookMeans(n: nat, answers: seq<bool>, queue: seq<byte>, sndbuf: nat)
    requires exists toEnd :: Took(n, answers, |queue|, Least(sndbuf, |queue|), toEnd)
    ensures n <= Least(sndbuf, |queue|) && (false !in answers ==> n == Least(sndbuf, |queue|))
    ensures answers != [] && !answers[0] ==> n == 0
  {
  }

  lemma Conserved(sent: seq<byte>, queue: seq<byte>, d: Done, next: seq<byte>)
    requires d.sent + next == queue + d.put
    ensures (sent + d.sent) + next == (sent + queue) + d.put
  {
    assert (sent + d.sent) + next == sent + (d.sent + next);
    assert (sent + queue) + d.put == sent + (queue + d.put);
  }

  lemma TakeTwice(sent: seq<byte>, queue: seq<byte>, a: nat, b: nat)
    requires a + b <= |queue|
    ensures (sent + queue[..a]) + queue[a..][..b] == sent + queue[..a + b] && queue[a..][b..] == queue[a + b..]
  {
  }
}
