/** What the bytes in a ring buffer mean, whichever convention moves its positions. */
module Ring {
  import opened Bits

  // All four byte queues keep this many bytes free, or stop the DMA this far short.
  const RWP_SAFE_INTERVAL := 4

  /** Position `k` steps past `start`; `start` may sit at the very end. */
  function At(start: nat, k: nat, capacity: nat): (r: nat)
    requires start <= capacity && k <= capacity && 0 < capacity
    ensures r <= capacity
  {
    if start + k <= capacity then start + k else start + k - capacity
  }

  /** The `n` bytes from position `start` on, around the end. */
  function Window(mem: seq<byte>, start: nat, n: nat): (r: seq<byte>)
    requires start <= |mem| && n <= |mem|
    ensures |r| == n
    ensures forall i :: 0 <= i < n ==> r[i] == if start + i < |mem| then mem[start + i] else mem[start + i - |mem|]
  {
    if start + n <= |mem| then mem[start..start + n] else mem[start..] + mem[..start + n - |mem|]
  }

  /** Storing `data` from position `start` on, around the end. */
  function Overlay(mem: seq<byte>, start: nat, data: seq<byte>): (r: seq<byte>)
    requires start <= |mem| && |data| <= |mem|
    ensures |r| == |mem|
    ensures forall i :: 0 <= i < |mem| ==>
                          r[i] == if start <= i < start + |data| then data[i - start]
                                  else if i + |mem| < start + |data| then data[i + |mem| - start]
                                  else mem[i]
  {
    seq(|mem|, i requires 0 <= i < |mem| =>
      if start <= i < start + |data| then data[i - start]
      else if i + |mem| < start + |data| then data[i + |mem| - start]
      else mem[i])
  }

  /** The first k bytes of a window, and the window that is left behind them. */
  lemma WindowSplit(mem: seq<byte>, start: nat, n: nat, k: nat)
    requires start <= |mem| && n <= |mem| && k <= n && 0 < |mem|
    ensures Window(mem, start, n)[..k] == Window(mem, start, k)
    ensures Window(mem, start, n)[k..] == Window(mem, At(start, k, |mem|), n - k)
  {
  }

  /** A position at the end and one at the front see the same bytes. */
  lemma WindowAtEnd(mem: seq<byte>, n: nat)
    requires n <= |mem|
    ensures Window(mem, |mem|, n) == Window(mem, 0, n)
  {
  }

  /** Data stored right behind a window joins it and disturbs nothing in it. */
  lemma WindowGrows(mem: seq<byte>, start: nat, n: nat, data: seq<byte>)
    requires start <= |mem| && 0 < |mem| && n + |data| <= |mem|
    ensures Window(Overlay(mem, At(start, n, |mem|), data), start, n + |data|) == Window(mem, start, n) + data
  {
    hide Window, Overlay;
    var after := Overlay(mem, At(start, n, |mem|), data);
    forall i | 0 <= i < n + |data|
      ensures Window(after, start, n + |data|)[i] == (Window(mem, start, n) + data)[i]
    {
      if i < n {
        assert Window(mem, start, n)[i] == Window(after, start, n + |data|)[i];
      }
    }
  }

  /** Bytes queued between a read and a write position. */
  function Fill(rp: nat, wp: nat, capacity: nat): (r: nat)
    requires rp <= capacity && wp < capacity
    ensures r < capacity
    ensures wp == if At(rp, r, capacity) == capacity then 0 else At(rp, r, capacity)
  {
    if wp >= rp then wp - rp else capacity - rp + wp
  }

  /** The queue after data was stored at the write position and the position moved behind it. */
  lemma Joined(mem: seq<byte>, rp: nat, wp: nat, data: seq<byte>, wp': nat)
    requires rp <= |mem| && wp < |mem| && Fill(rp, wp, |mem|) + |data| < |mem|
    requires wp' == if At(wp, |data|, |mem|) == |mem| then 0 else At(wp, |data|, |mem|)
    ensures Fill(rp, wp', |mem|) == Fill(rp, wp, |mem|) + |data|
    ensures Window(Overlay(mem, wp, data), rp, Fill(rp, wp', |mem|)) == Window(mem, rp, Fill(rp, wp, |mem|)) + data
  {
    var fill := Fill(rp, wp, |mem|);
    WindowGrows(mem, rp, fill, data);
    assert Overlay(mem, wp, data) == Overlay(mem, At(rp, fill, |mem|), data);
  }

  function Least(a: nat, b: nat): nat {
    if a < b then a else b
  }

  /** os_memcpy between distinct buffers. */
  method Memcpy(dst: array<byte>, at: nat, src: array<byte>, from: nat, n: nat)
    requires dst != src && at + n <= dst.Length && from + n <= src.Length
    modifies dst
    ensures forall k :: 0 <= k < dst.Length ==> dst[k] == if at <= k < at + n then src[from + k - at] else old(dst[k])
  {
    forall k | 0 <= k < n {
      dst[at + k] := src[from + k];
    }
  }
}
