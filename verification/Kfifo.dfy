/** kfifo: a power-of-two byte queue whose 32-bit counters run freely and wrap. */
module Kfifo {
  import opened Bits
  import opened Ring

  // ----- Counters and indices -----

  lemma {:induction false} Pow2Splits(k: nat, n: nat)
    requires k <= n
    ensures Pow2(n) == Pow2(n - k) * Pow2(k)
  {
    if k != 0 {
      Pow2Splits(k - 1, n - 1);
      assert Pow2(n) == 2 * Pow2(n - 1) == 2 * (Pow2(n - k) * Pow2(k - 1));
      MulTwo(Pow2(n - k), Pow2(k - 1));
    }
  }

  lemma MulTwo(a: nat, b: nat)
    ensures 2 * (a * b) == a * (2 * b)
  {
  }

  lemma Pow2Is32(n: nat)
    requires n == 32
    ensures Pow2(n) == U32
  {
    Pow2Eight(8);
    Pow2Splits(8, 16);
    Pow2Splits(16, 32);
  }

  /** A queue size divides the range of the counters, so masking a counter survives its wrap. */
  lemma SizeDivides(log: nat) returns (m: nat)
    requires log < 32
    ensures m * Pow2(log) == U32 && Pow2(log) < U32
  {
    m := Pow2(32 - log);
    assert m >= 2;
    hide Pow2;
    Pow2Is32(32);
    Pow2Splits(log, 32);
    Halves(m, Pow2(log));
  }

  lemma Halves(m: nat, p: nat)
    requires m >= 2 && p > 0
    ensures p < m * p
  {
    assert m * p == p + (m - 1) * p;
    MulGrows(p, m - 1);
  }

  /** Where a counter points: the source's (counter & (size - 1)). */
  function Index(counter: nat, size: nat): nat
    requires 0 < size
  {
    And(counter, size - 1)
  }

  /** The masked write counter is `used` steps past the masked read counter, whether or not either has wrapped. */
  lemma MaskedIn(inp: nat, out: nat, log: nat)
    requires inp < U32 && out < U32 && log < 32 && Wrap32(inp - out) <= Pow2(log)
    ensures var size, used := Pow2(log), Wrap32(inp - out);
            Index(inp, size) < size && Index(out, size) < size &&
            Index(inp, size) == if Index(out, size) + used < size then Index(out, size) + used
                                else Index(out, size) + used - size
  {
    hide Wrap32, Pow2, And;
    var size, used := Pow2(log), Wrap32(inp - out);
    AndMask(inp, log);
    AndMask(out, log);
    var m := SizeDivides(log);
    Reindex(inp, out, size, used, if inp < out then m else 0);
  }

  lemma Reindex(inp: nat, out: nat, size: nat, used: nat, w: nat)
    requires 0 < size && used <= size && inp == out + used - w * size
    ensures inp % size == if out % size + used < size then out % size + used else out % size + used - size
  {
    var q, r := out / size, out % size;
    assert out == size * q + r;
    if r + used < size {
      Regroup(size, q, w, r + used);
      ModUnique(inp, size, q - w, r + used);
    } else {
      Regroup(size, q + 1, w, r + used - size);
      ModUnique(inp, size, q + 1 - w, r + used - size);
    }
  }

  lemma Regroup(size: nat, q: int, w: int, r: int)
    ensures size * q + r - w * size == size * (q - w) + r
    ensures size * (q + 1) == size * q + size
  {
  }

  /** Moving a counter by `len` moves the distance between the two by `len`. */
  lemma Distance(inp: nat, out: nat, len: nat, size: nat)
    requires inp < U32 && out < U32 && size < U32 && Wrap32(inp - out) <= size
    ensures Wrap32(size - inp + out) == size - Wrap32(inp - out)
    ensures len <= size - Wrap32(inp - out) ==> Wrap32(Wrap32(inp + len) - out) == Wrap32(inp - out) + len
    ensures len <= Wrap32(inp - out) ==> Wrap32(inp - Wrap32(out + len)) == Wrap32(inp - out) - len
  {
    hide Wrap32;
  }

  /** The queued bytes. */
  function Queue(mem: seq<byte>, inp: nat, out: nat): (r: seq<byte>)
    requires 0 < |mem| && Wrap32(inp - out) <= |mem|
    ensures |r| == Wrap32(inp - out)
  {
    Window(mem, Index(out, |mem|), Wrap32(inp - out))
  }

  /** Data stored at the masked write counter joins the queue, across both kinds of wrap. */
  lemma QueueGrows(mem: seq<byte>, inp: nat, out: nat, data: seq<byte>, log: nat)
    requires inp < U32 && out < U32 && log < 32 && |mem| == Pow2(log) && Wrap32(inp - out) + |data| <= |mem|
    ensures Index(inp, |mem|) < |mem| && Index(out, |mem|) < |mem|
    ensures Wrap32(Wrap32(inp + |data|) - out) == Wrap32(inp - out) + |data|
    ensures Queue(Overlay(mem, Index(inp, |mem|), data), Wrap32(inp + |data|), out) == Queue(mem, inp, out) + data
  {
    hide Wrap32, Pow2, Index, Window;
    var _ := SizeDivides(log);
    MaskedIn(inp, out, log);
    Distance(inp, out, |data|, |mem|);
    var start, used := Index(out, |mem|), Wrap32(inp - out);
    WindowGrows(mem, start, used, data);
    assert Overlay(mem, Index(inp, |mem|), data) == Overlay(mem, At(start, used, |mem|), data);
  }

  /** Moving the read counter by n takes the first n bytes off the queue. */
  lemma QueueShrinks(mem: seq<byte>, inp: nat, out: nat, n: nat, log: nat)
    requires inp < U32 && out < U32 && log < 32 && |mem| == Pow2(log) && n <= Wrap32(inp - out) <= |mem|
    ensures Index(out, |mem|) < |mem| && Index(Wrap32(out + n), |mem|) < |mem|
    ensures Wrap32(inp - Wrap32(out + n)) == Wrap32(inp - out) - n
    ensures Queue(mem, inp, out)[..n] == Window(mem, Index(out, |mem|), n)
    ensures Queue(mem, inp, Wrap32(out + n)) == Queue(mem, inp, out)[n..]
  {
    hide Wrap32, Pow2, Index, Window;
    var _ := SizeDivides(log);
    MaskedIn(inp, out, log);
    Distance(inp, out, n, |mem|);
    Distance(out, out, n, |mem|);
    MaskedIn(Wrap32(out + n), out, log);
    var used, start := Wrap32(inp - out), Index(out, |mem|);
    WindowSplit(mem, start, used, n);
    if At(start, n, |mem|) == |mem| {
      WindowAtEnd(mem, used - n);
      assert Index(Wrap32(out + n), |mem|) == 0;
    } else {
      assert Index(Wrap32(out + n), |mem|) == At(start, n, |mem|);
    }
  }

  // ----- The queue -----

  class KFifo {
    var inp: nat
    var out: nat
    const mask: nat
    const size: nat
    const buffer: array<byte>
    ghost const log: nat

    ghost predicate Valid()
      reads this
    {
      log < 32 && size == Pow2(log) == buffer.Length && mask == size - 1 &&
      inp < U32 && out < U32 && Wrap32(inp - out) <= size
    }

    ghost function Contents(): seq<byte>
      requires Valid()
      reads this, buffer
    {
      Queue(buffer[..], inp, out)
    }

    /** kfifo_init; the size must be a power of two. */
    constructor (buffer: array<byte>, size: nat, ghost log: nat)
      requires log < 32 && size == Pow2(log) == buffer.Length
      ensures Valid() && Contents() == [] && this.buffer == buffer && this.size == size
    {
      this.buffer := buffer;
      this.size := size;
      this.log := log;
      inp, out := 0, 0;
      mask := size - 1;
    }

    /** kfifo_put: the first min(len, free) bytes join the queue. */
    method Put(data: array<byte>, len: nat) returns (n: nat)
      requires Valid() && data != buffer && len <= data.Length && len < U32
      modifies this`inp, buffer
      ensures Valid() && n == Least(len, size - |old(Contents())|)
      ensures Contents() == old(Contents()) + data[..n]
    {
      hide Window, Wrap32, Pow2, Index, Overlay, Queue;
      var _ := SizeDivides(log);
      Distance(inp, out, 0, size);
      n := Least(len, Wrap32(size - inp + out));
      Append(data, n);
    }

    /** The part of kfifo_put behind the size computation. */
    method Append(data: array<byte>, n: nat)
      requires Valid() && data != buffer && n <= data.Length && |Contents()| + n <= size
      modifies this`inp, buffer
      ensures Valid() && Contents() == old(Contents()) + data[..n]
    {
      hide Window, Wrap32, Pow2, Index, Overlay, Queue;
      ghost var mem := buffer[..];
      assert |mem| == size;
      QueueGrows(mem, inp, out, data[..n], log);
      Store(Index(inp, size), data, n);
      inp := Wrap32(inp + n);
    }

    /** The two copies of kfifo_put. */
    method Store(at: nat, data: array<byte>, n: nat)
      requires buffer.Length == size && at < size && data != buffer && n <= data.Length && n <= size
      modifies buffer
      ensures buffer[..] == Overlay(old(buffer[..]), at, data[..n])
    {
      hide Overlay;
      var l := Least(n, size - at);
      Memcpy(buffer, at, data, 0, l);
      Memcpy(buffer, 0, data, l, n - l);
    }

    /** The two copies of kfifo_get and kfifo_copy_out. */
    method Fetch(at: nat, data: array<byte>, n: nat)
      requires buffer.Length == size && at < size && data != buffer && n <= data.Length && n <= size
      modifies data
      ensures data[..n] == Window(buffer[..], at, n)
      ensures forall k :: n <= k < data.Length ==> data[k] == old(data[k])
    {
      hide Window;
      var l := Least(n, size - at);
      Memcpy(data, 0, buffer, at, l);
      Memcpy(data, l, buffer, 0, n - l);
    }

    /** kfifo_get: the first min(len, queued) bytes leave the queue. */
    method Get(data: array<byte>, len: nat) returns (n: nat)
      requires Valid() && data != buffer && len <= data.Length && len < U32
      modifies this`out, data
      ensures Valid() && n == Least(len, |old(Contents())|)
      ensures data[..n] == old(Contents())[..n] && Contents() == old(Contents())[n..]
      ensures forall k :: n <= k < data.Length ==> data[k] == old(data[k])
    {
      hide Window, Wrap32, Pow2, Index, Queue;
      var _ := SizeDivides(log);
      MaskedIn(inp, out, log);
      n := Least(len, Wrap32(inp - out));
      ghost var mem := buffer[..];
      assert |mem| == size;
      QueueShrinks(mem, inp, out, n, log);
      Fetch(Index(out, size), data, n);
      out := Wrap32(out + n);
    }

    function DataSize(): nat
      reads this
    {
      Wrap32(inp - out)
    }

    function Unused(): nat
      reads this
    {
      Wrap32(mask + 1 - Wrap32(inp - out))
    }

    /** kfifo_out_peek: the same bytes kfifo_get would return, and the queue is as it was. */
    method Peek(data: array<byte>, len: nat) returns (n: nat)
      requires Valid() && data != buffer && len <= data.Length
      modifies data
      ensures Valid() && n == Least(len, |Contents()|) && data[..n] == Contents()[..n]
      ensures Contents() == old(Contents())
      ensures forall k :: n <= k < data.Length ==> data[k] == old(data[k])
    {
      hide Window, Wrap32, Pow2, Index;
      var l := Wrap32(inp - out);
      n := len;
      if len > l {
        n := l;
      }
      MaskedIn(inp, out, log);
      WindowSplit(buffer[..], Index(out, size), l, n);
      Fetch(Index(out, mask + 1), data, n);
    }

    /** The size queries count the queue, whatever the counters have done. */
    lemma Sizes()
      requires Valid()
      ensures DataSize() == |Contents()| && Unused() == size - |Contents()|
    {
      var m := SizeDivides(log);
    }
  }
}
