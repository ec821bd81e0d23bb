/**
 * The playback ring, mirrored: the CPU writes bytes and a DMA channel reads them, stopping at its source pause
 * address. DmaRuns() stands wherever the channel may have moved, including between any two bytes of a memcpy.
 */
module RingDmaRead {
  import opened Bits
  import opened Ring
  import opened RingBuffer
  import RingDmaWrite

  /** What the channel may still read, and never more than the buffer less the safety interval. */
  predicate Safe(src: nat, pause: nat, capacity: nat) {
    src < capacity && pause < capacity && Fill(src, pause, capacity) + RWP_SAFE_INTERVAL <= capacity
  }

  /** One byte of DMA: unless it is paused, it takes the oldest byte it has been given. */
  lemma DmaStepTakes(mem: seq<byte>, src: nat, pause: nat)
    requires Safe(src, pause, |mem|) && src != pause
    ensures var next := RingDmaWrite.NextPos(src, |mem|);
            Safe(next, pause, |mem|) && Fill(next, pause, |mem|) == Fill(src, pause, |mem|) - 1 &&
            Window(mem, src, Fill(src, pause, |mem|)) == [mem[src]] + Window(mem, next, Fill(next, pause, |mem|))
  {
    hide Window;
    var fill, next := Fill(src, pause, |mem|), RingDmaWrite.NextPos(src, |mem|);
    WindowSplit(mem, src, fill, 1);
    WindowAtEnd(mem, fill - 1);
    assert Window(mem, src, 1) == [mem[src]];
    FirstAndRest(Window(mem, src, fill));
  }

  lemma FirstAndRest(s: seq<byte>)
    requires s != []
    ensures s == s[..1] + s[1..]
  {
  }

  /** A byte stored k places behind the pause address, short of the channel's position, is out of its sight. */
  lemma Unseen(mem: seq<byte>, src: nat, pause: nat, k: nat, b: byte)
    requires Safe(src, pause, |mem|) && Fill(src, pause, |mem|) + k < |mem|
    ensures RingDmaWrite.Wrapped(pause, k, |mem|) < |mem|
    ensures var after := mem[RingDmaWrite.Wrapped(pause, k, |mem|) := b];
            Window(after, src, Fill(src, pause, |mem|)) == Window(mem, src, Fill(src, pause, |mem|))
  {
  }

  /** The data is in place from `at` on, around the end. */
  ghost predicate Standing(mem: seq<byte>, at: nat, data: seq<byte>) {
    at < |mem| && |data| <= |mem| &&
    forall k :: 0 <= k < |data| ==> mem[RingDmaWrite.Wrapped(at, k, |mem|)] == data[k]
  }

  lemma StandingOverlay(mem: seq<byte>, at: nat, data: seq<byte>)
    requires Standing(mem, at, data)
    ensures Overlay(mem, at, data) == mem
  {
    forall i | 0 <= i < |mem|
      ensures Overlay(mem, at, data)[i] == mem[i]
    {
      if at <= i < at + |data| {
        assert RingDmaWrite.Wrapped(at, i - at, |mem|) == i;
      } else if i + |mem| < at + |data| {
        assert RingDmaWrite.Wrapped(at, i + |mem| - at, |mem|) == i;
      }
    }
  }

  lemma PublishSafe(src: nat, pause: nat, len: nat, wp: nat, capacity: nat)
    requires Safe(src, pause, capacity) && Fill(src, pause, capacity) + len + RWP_SAFE_INTERVAL <= capacity
    requires wp == if At(pause, len, capacity) == capacity then 0 else At(pause, len, capacity)
    ensures wp < capacity && Safe(src, wp, capacity) && Fill(src, pause, capacity) + len < capacity
  {
  }

  class RB {
    const address: array<byte>
    var wp: nat
    var rp: nat
    // The channel: source pointer and source pause address, as offsets into the buffer.
    var src: nat
    var pause: nat
    // Every byte a call accepted and published, and every byte the channel has read.
    ghost var accepted: seq<byte>
    ghost var played: seq<byte>

    ghost predicate Running()
      reads this, address
    {
      RWP_SAFE_INTERVAL <= address.Length < U32 && src < address.Length && pause < address.Length &&
      Safe(src, pause, address.Length) && accepted == played + Pending()
    }

    /** Between calls the channel may go as far as the write position. */
    ghost predicate Valid()
      reads this, address
    {
      Running() && wp == pause
    }

    ghost function Pending(): seq<byte>
      requires src < address.Length && pause < address.Length
      reads this, address
    {
      Window(address[..], src, Fill(src, pause, address.Length))
    }

    /** Any number of DMA bytes: each is the next accepted one. */
    method DmaRuns()
      requires Running()
      modifies this`src, this`played
      ensures Running() && |Pending()| <= |old(Pending())| && old(played) <= played
    {
      hide Window;
      var steps := *;
      var k := 0;
      while k < steps
        invariant Running() && |Pending()| <= |old(Pending())| && old(played) <= played
      {
        if src != pause {
          DmaStepTakes(address[..], src, pause);
          played := played + [address[src]];
          src := RingDmaWrite.NextPos(src, address.Length);
        }
        k := k + 1;
      }
    }

    constructor (addr: array<byte>)
      requires RWP_SAFE_INTERVAL <= addr.Length < U32
      ensures Valid() && address == addr && accepted == [] && played == []
    {
      address := addr;
      wp, rp, src, pause := 0, 0, 0, 0;
      accepted, played := [], [];
    }

    /** memcpy into the free part of the ring while the channel keeps going. */
    method CopyIn(at: nat, buffer: array<byte>, from: nat, n: nat)
      requires Running() && buffer != address && from + n <= buffer.Length && at + n <= address.Length
      requires |Pending()| + from + n < address.Length
      requires n == 0 || at == RingDmaWrite.Wrapped(pause, from, address.Length)
      requires Standing(address[..], pause, buffer[..from])
      modifies address, this`src, this`played
      ensures Running() && |Pending()| <= |old(Pending())| && old(played) <= played
      ensures Standing(address[..], pause, buffer[..from + n])
    {
      hide Window;
      for i := 0 to n
        invariant Running() && |Pending()| <= |old(Pending())| && old(played) <= played
        invariant Standing(address[..], pause, buffer[..from + i])
      {
        DmaRuns();
        StoreOne(at + i, buffer[from + i], from + i);
      }
    }

    /** One byte stored outside of what the channel may read. */
    method StoreOne(at: nat, b: byte, ghost k: nat)
      requires Running() && |Pending()| + k < address.Length && at == RingDmaWrite.Wrapped(pause, k, address.Length)
      modifies address
      ensures Running() && Pending() == old(Pending())
      ensures forall i :: 0 <= i < address.Length ==> address[i] == if i == at then b else old(address[i])
    {
      hide Window, Safe, Fill;
      Unseen(address[..], src, pause, k, b);
      ghost var after := address[..][at := b];
      address[at] := b;
      assert address[..] == after;
    }

    /**
     * rb_write_dma_read under every interleaving with the channel: the data is accepted whole and in order, or,
     * only when less than its size was free at the time of the call, not at all.
     */
    method Write(buffer: array<byte>, size: nat, count: nat) returns (writeBytes: nat)
      requires Valid() && buffer != address && Wrap32(size * count) <= buffer.Length
      requires Wrap32(size * count) + RWP_SAFE_INTERVAL < U32
      modifies this, address
      ensures Valid() && old(played) <= played
      ensures writeBytes == Wrap32(size * count) || writeBytes == 0
      ensures Wrap32(size * count) + RWP_SAFE_INTERVAL + |old(Pending())| <= address.Length ==>
                writeBytes == Wrap32(size * count)
      ensures accepted == old(accepted) + buffer[..writeBytes]
    {
      hide Window, Safe;
      writeBytes := Wrap32(size * count);
      if writeBytes == 0 {
        assert accepted == accepted + buffer[..0];
        return;
      }
      writeBytes := WriteBlock(buffer, writeBytes);
    }

    /** The rest of rb_write_dma_read, for a size that is not zero. */
    method WriteBlock(buffer: array<byte>, bytes: nat) returns (writeBytes: nat)
      requires Valid() && buffer != address && 0 < bytes <= buffer.Length && bytes + RWP_SAFE_INTERVAL < U32
      modifies this, address
      ensures Valid() && old(played) <= played
      ensures writeBytes == bytes || writeBytes == 0
      ensures bytes + RWP_SAFE_INTERVAL + |old(Pending())| <= address.Length ==> writeBytes == bytes
      ensures accepted == old(accepted) + buffer[..writeBytes]
    {
      hide Window, Safe, Standing;
      DmaRuns();
      rp := src;
      if wp >= rp {
        var remainBytes := address.Length - wp + rp;
        if Admits(remainBytes, bytes) {
          CopyAround(buffer, bytes);
        } else {
          return 0;
        }
      } else {
        var remainBytes := rp - wp;
        if Admits(remainBytes, bytes) {
          CopyStraight(buffer, bytes);
        } else {
          return 0;
        }
      }
      Publish(buffer[..bytes]);
      writeBytes := bytes;
    }

    /** The copy of a block that may run around the end. */
    method CopyAround(buffer: array<byte>, writeBytes: nat)
      requires Valid() && buffer != address && writeBytes <= buffer.Length && |Pending()| + writeBytes < address.Length
      modifies this`wp, address, this`src, this`played
      ensures Running() && |Pending()| <= |old(Pending())| && old(played) <= played
      ensures Standing(address[..], pause, buffer[..writeBytes]) && wp == At(old(wp), writeBytes, address.Length)
    {
      hide Window, Safe;
      var remainBytes := address.Length - wp;
      if remainBytes >= writeBytes {
        CopyIn(wp, buffer, 0, writeBytes);
        wp := wp + writeBytes;
      } else {
        CopyIn(wp, buffer, 0, remainBytes);
        wp := writeBytes - remainBytes;
        CopyIn(0, buffer, remainBytes, wp);
      }
    }

    /** The copy of a block that stays short of the channel's position. */
    method CopyStraight(buffer: array<byte>, writeBytes: nat)
      requires Valid() && buffer != address && writeBytes <= buffer.Length && |Pending()| + writeBytes < address.Length
      requires wp + writeBytes <= address.Length
      modifies this`wp, address, this`src, this`played
      ensures Running() && |Pending()| <= |old(Pending())| && old(played) <= played
      ensures Standing(address[..], pause, buffer[..writeBytes]) && wp == At(old(wp), writeBytes, address.Length)
    {
      hide Window, Safe;
      CopyIn(wp, buffer, 0, writeBytes);
      wp := wp + writeBytes;
    }

    /** The end of the call: moving the pause address up to the write position lets the channel have the data. */
    method Publish(ghost data: seq<byte>)
      requires Running() && |Pending()| + |data| + RWP_SAFE_INTERVAL <= address.Length
      requires Standing(address[..], pause, data)
      requires wp == At(pause, |data|, address.Length) && (wp == address.Length ==> rp != 0)
      modifies this`wp, this`pause, this`src, this`played, this`accepted
      ensures Valid() && old(played) <= played && accepted == old(accepted) + data
    {
      hide Window, Safe, At, Fill, Overlay, Standing;
      DmaRuns();
      if wp >= address.Length && rp != 0 {
        wp := 0;
      }
      PublishSafe(src, pause, |data|, wp, address.Length);
      StandingOverlay(address[..], pause, data);
      Joined(address[..], src, pause, data, wp);
      ghost var was := Pending();
      pause := wp;
      assert Pending() == was + data;
      accepted := accepted + data;
    }

    method FillSize() returns (fillSize: nat)
      requires Valid()
      modifies this`rp, this`src, this`played
      ensures Valid() && |Pending()| <= fillSize <= |old(Pending())|
    {
      DmaRuns();
      rp := src;
      fillSize := if wp >= rp then wp - rp else address.Length - rp + wp;
      DmaRuns();
    }

    method FreeSize() returns (freeSize: nat)
      requires Valid()
      modifies this`rp, this`src, this`played
      ensures Valid()
      ensures address.Length - RWP_SAFE_INTERVAL - |old(Pending())| <= freeSize
                <= address.Length - RWP_SAFE_INTERVAL - |Pending()|
    {
      DmaRuns();
      rp := src;
      freeSize := if wp >= rp then address.Length - wp + rp else rp - wp;
      freeSize := if freeSize > RWP_SAFE_INTERVAL then freeSize - RWP_SAFE_INTERVAL else 0;
      DmaRuns();
    }
  }

  /** The accepted blocks, put together. */
  ghost function Accepted(blocks: seq<seq<byte>>, took: seq<bool>): seq<byte>
    requires |took| <= |blocks|
  {
    if took == [] then []
    else
      var last := |took| - 1;
      Accepted(blocks, took[..last]) + if took[last] then blocks[last] else []
  }

  /**
   * Whatever is written and however the channel runs in between, what it has read is a prefix of the blocks
   * accepted, put together, and the rest is still in the ring. A block that fits the size a query has just
   * reported is never refused, and the query reports at least what the blocks accepted before leave free.
   */
  method AnyRun(rb: RB, script: seq<seq<byte>>) returns (took: seq<bool>, reported: seq<nat>)
    requires rb.Valid() && rb.accepted == []
    requires forall k :: 0 <= k < |script| ==> |script[k]| + RWP_SAFE_INTERVAL < U32
    modifies rb, rb.address
    ensures rb.Valid() && |took| == |reported| == |script|
    ensures rb.played + rb.Pending() == Accepted(script, took)
    ensures forall k :: 0 <= k < |script| ==> |script[k]| <= reported[k] ==> took[k]
    ensures forall k :: 0 <= k < |script| ==>
                          rb.address.Length - RWP_SAFE_INTERVAL <= reported[k] + |Accepted(script, took[..k])|
  {
    hide Window, Fill, Safe;
    took, reported := [], [];
    for k := 0 to |script|
      invariant rb.Valid() && |took| == |reported| == k && rb.accepted == Accepted(script, took)
      invariant forall j :: 0 <= j < k ==> |script[j]| <= reported[j] ==> took[j]
      invariant forall j :: 0 <= j < k ==>
                              rb.address.Length - RWP_SAFE_INTERVAL <= reported[j] + |Accepted(script, took[..j])|
    {
      ghost var before := took;
      var ok, freeSize := AskAndWrite(rb, script[k]);
      took, reported := took + [ok], reported + [freeSize];
      assert took[..k] == before;
      assert forall j :: 0 <= j < k ==> took[..j] == before[..j];
    }
  }

  method AskAndWrite(rb: RB, block: seq<byte>) returns (ok: bool, freeSize: nat)
    requires rb.Valid() && |block| + RWP_SAFE_INTERVAL < U32
    modifies rb, rb.address
    ensures rb.Valid() && rb.accepted == old(rb.accepted) + if ok then block else []
    ensures |block| <= freeSize ==> ok
    ensures rb.address.Length - RWP_SAFE_INTERVAL <= freeSize + |old(rb.accepted)|
  {
    hide Window, Fill, Safe;
    rb.DmaRuns();
    freeSize := rb.FreeSize();
    rb.DmaRuns();
    var buffer := new byte[|block|](i requires 0 <= i < |block| => block[i]);
    assert buffer[..|block|] == block;
    assert Wrap32(|block| * 1) == |block|;
    var n := rb.Write(buffer, |block|, 1);
    ok := n == |block|;
  }
}
