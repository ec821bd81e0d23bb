/**
 * The capture ring: a DMA channel writes bytes and the CPU reads them. The channel runs on its own, so the CPU
 * code below calls DmaRuns() wherever it may have moved, including between any two bytes of a memcpy.
 */
module RingDmaWrite {
  import opened Bits
  import opened Ring

  /** Where the destination pointer goes after a byte; the channel loops over the buffer. */
  function NextPos(pos: nat, capacity: nat): (r: nat)
    requires pos < capacity
    ensures r < capacity
  {
    if pos + 1 == capacity then 0 else pos + 1
  }

  /** The pause address rb_read_dma_write programs for a read position. */
  function PauseFor(rp: nat, capacity: nat): nat
    requires rp <= capacity && RWP_SAFE_INTERVAL <= capacity
  {
    if rp >= RWP_SAFE_INTERVAL then rp - RWP_SAFE_INTERVAL else capacity + rp - RWP_SAFE_INTERVAL
  }

  /** What is unread, what the channel may still write, and the safety interval fit the buffer together. */
  predicate Safe(rp: nat, dst: nat, pause: nat, capacity: nat) {
    rp <= capacity && dst < capacity && pause < capacity &&
    Fill(rp, dst, capacity) + Fill(dst, pause, capacity) + RWP_SAFE_INTERVAL <= capacity
  }

  /** One byte of DMA: as long as it is not paused it stays safe, and only adds to the unread bytes. */
  lemma DmaStepSafe(mem: seq<byte>, rp: nat, dst: nat, pause: nat, b: byte)
    requires RWP_SAFE_INTERVAL <= |mem| && Safe(rp, dst, pause, |mem|) && dst != pause
    ensures Safe(rp, NextPos(dst, |mem|), pause, |mem|)
    ensures Window(mem[dst := b], rp, Fill(rp, NextPos(dst, |mem|), |mem|)) ==
            Window(mem, rp, Fill(rp, dst, |mem|)) + [b]
  {
    Joined(mem, rp, dst, [b], NextPos(dst, |mem|));
    assert mem[dst := b] == Overlay(mem, dst, [b]);
  }

  /** Reprogramming the pause address for the current read position gives the channel all the room there is. */
  lemma PauseExact(rp: nat, dst: nat, capacity: nat)
    requires RWP_SAFE_INTERVAL <= capacity && rp <= capacity && dst < capacity
    requires Fill(rp, dst, capacity) + RWP_SAFE_INTERVAL <= capacity
    ensures PauseFor(rp, capacity) < capacity
    ensures Fill(rp, dst, capacity) + Fill(dst, PauseFor(rp, capacity), capacity) + RWP_SAFE_INTERVAL == capacity
  {
  }

  /** Moving the read position past n unread bytes leaves the others. */
  lemma Dropped(mem: seq<byte>, rp: nat, dst: nat, pause: nat, n: nat, next: nat)
    requires RWP_SAFE_INTERVAL <= |mem| && Safe(rp, dst, pause, |mem|)
    requires rp <= |mem| && dst < |mem| && n <= Fill(rp, dst, |mem|) && next <= |mem|
    requires next == At(rp, n, |mem|) || (next == 0 && At(rp, n, |mem|) == |mem|)
    ensures Safe(next, dst, pause, |mem|) && Fill(next, dst, |mem|) == Fill(rp, dst, |mem|) - n
    ensures Window(mem, next, Fill(next, dst, |mem|)) == Window(mem, rp, Fill(rp, dst, |mem|))[n..]
  {
    WindowSplit(mem, rp, Fill(rp, dst, |mem|), n);
    WindowAtEnd(mem, Fill(next, dst, |mem|));
  }

  class RB {
    const address: array<byte>
    var wp: nat
    var rp: nat
    // The channel: destination pointer and destination pause address, as offsets into the buffer.
    var dst: nat
    var pause: nat
    // Every byte the channel ever stored, and every byte the calls ever handed over.
    ghost var written: seq<byte>
    ghost var taken: seq<byte>

    ghost predicate Running()
      reads this, address
    {
      RWP_SAFE_INTERVAL <= address.Length < U32 && rp <= address.Length && dst < address.Length &&
      Safe(rp, dst, pause, address.Length) &&
      written == taken + Unread()
    }

    /** Between calls the pause address is exactly the safety interval behind the read position. */
    ghost predicate Valid()
      reads this, address
    {
      Running() && pause == PauseFor(rp, address.Length)
    }

    ghost function Unread(): seq<byte>
      requires rp <= address.Length && dst < address.Length
      reads this, address
    {
      Window(address[..], rp, Fill(rp, dst, address.Length))
    }

    /** Any number of DMA bytes, with any values. */
    method DmaRuns()
      requires Running()
      modifies this`dst, this`written, address
      ensures Running() && old(Unread()) <= Unread() && old(written) <= written
    {
      hide Window;
      var bytes: seq<byte> := *;
      for k := 0 to |bytes|
        invariant Running() && old(Unread()) <= Unread() && old(written) <= written
      {
        if dst != pause {
          DmaStepSafe(address[..], rp, dst, pause, bytes[k]);
          ghost var after := address[..][dst := bytes[k]];
          address[dst] := bytes[k];
          assert address[..] == after;
          dst := NextPos(dst, address.Length);
          written := written + [bytes[k]];
        }
      }
    }

    constructor (addr: array<byte>)
      requires RWP_SAFE_INTERVAL <= addr.Length < U32
      ensures Valid() && address == addr && written == [] && taken == []
    {
      address := addr;
      wp, rp, dst := 0, 0, 0;
      pause := addr.Length - RWP_SAFE_INTERVAL;
      written, taken := [], [];
    }

    /** memcpy out of the ring while the channel keeps going: the buffer goes on with the next unread bytes. */
    method CopyOut(buffer: array<byte>, at: nat, from: nat, n: nat)
      requires Running() && buffer != address && at + n <= buffer.Length && at + n <= |Unread()|
      requires from + n <= address.Length && (n == 0 || from == Wrapped(rp, at, address.Length))
      requires buffer[..at] <= Unread()
      modifies buffer, this`dst, this`written, address
      ensures Running() && old(Unread()) <= Unread() && old(written) <= written
      ensures buffer[..at + n] <= Unread() && (forall k :: at + n <= k < buffer.Length ==> buffer[k] == old(buffer[k]))
    {
      hide Window, Fill, Safe;
      for i := 0 to n
        invariant Running() && old(Unread()) <= Unread() && old(written) <= written
        invariant buffer[..at + i] <= Unread()
        invariant forall k :: at + n <= k < buffer.Length ==> buffer[k] == old(buffer[k])
      {
        DmaRuns();
        assert Unread()[at + i] == address[from + i];
        buffer[at + i] := address[from + i];
        assert buffer[..at + i + 1] == buffer[..at + i] + [address[from + i]];
      }
    }

    /** The assignment rp := next: the bytes before it are no longer unread. */
    method SetRp(next: nat, ghost bytes: seq<byte>)
      requires Running() && bytes <= Unread() && next <= address.Length
      requires next == At(rp, |bytes|, address.Length) ||
               (next == 0 && At(rp, |bytes|, address.Length) == address.Length)
      modifies this`rp, this`taken, this`dst, this`written, address
      ensures Running() && rp == next && taken == old(taken) + bytes && old(written) <= written
    {
      hide Window, Fill, At, Safe;
      DmaRuns();
      Dropped(address[..], rp, dst, pause, |bytes|, next);
      ghost var rest := Unread()[|bytes|..];
      assert Unread() == bytes + rest;
      rp := next;
      assert Unread() == rest;
      assert written == taken + (bytes + rest) == (taken + bytes) + rest;
      taken := taken + bytes;
    }

    /**
     * rb_read_dma_write under every interleaving with the channel: it hands over a prefix of the unread bytes,
     * everything asked for that was there when it was called, and nothing the channel does meanwhile shows.
     */
    method Read(buffer: array<byte>, size: nat, count: nat) returns (readBytes: nat)
      requires Valid() && buffer != address && Wrap32(size * count) <= buffer.Length
      modifies this, address, buffer
      ensures Valid() && old(written) <= written
      ensures Least(Wrap32(size * count), |old(Unread())|) <= readBytes <= Wrap32(size * count)
      ensures taken == old(taken) + buffer[..readBytes]
      ensures forall k :: readBytes <= k < buffer.Length ==> buffer[k] == old(buffer[k])
    {
      hide Window, Fill, Safe, PauseFor;
      var requiredBytes := Wrap32(size * count);
      readBytes := 0;
      if requiredBytes == 0 {
        assert taken == taken + buffer[..0];
        return;
      }
      DmaRuns();
      wp := dst;
      if wp >= rp {
        readBytes := ReadStraight(buffer, requiredBytes);
      } else {
        readBytes := ReadAround(buffer, requiredBytes);
      }
      SetPause();
    }

    method SetPause()
      requires Running()
      modifies this`pause, this`dst, this`written, address
      ensures Valid() && old(written) <= written
    {
      hide Window;
      DmaRuns();
      PauseExact(rp, dst, address.Length);
      if rp >= RWP_SAFE_INTERVAL {
        pause := rp - RWP_SAFE_INTERVAL;
      } else {
        pause := address.Length + rp - RWP_SAFE_INTERVAL;
      }
    }

    /** The branch for data in one piece; wp is the pointer as sampled at the start. */
    method ReadStraight(buffer: array<byte>, requiredBytes: nat) returns (readBytes: nat)
      requires Running() && rp <= wp < address.Length && buffer != address && requiredBytes <= buffer.Length
      requires Fill(rp, wp, address.Length) <= |Unread()|
      modifies this`rp, this`dst, this`written, this`taken, address, buffer
      ensures Running() && old(written) <= written
      ensures readBytes == Least(requiredBytes, Fill(old(rp), wp, address.Length))
      ensures taken == old(taken) + buffer[..readBytes]
      ensures forall k :: readBytes <= k < buffer.Length ==> buffer[k] == old(buffer[k])
    {
      hide Window, Safe;
      var remainBytes := wp - rp;
      if requiredBytes > remainBytes {
        readBytes := remainBytes;
      } else {
        readBytes := requiredBytes;
      }
      CopyOut(buffer, 0, rp, readBytes);
      SetRp(rp + readBytes, buffer[..readBytes]);
    }

    /** The branch for data that runs around the end; wp is the pointer as sampled at the start. */
    method ReadAround(buffer: array<byte>, requiredBytes: nat) returns (readBytes: nat)
      requires Running() && wp < rp && buffer != address && 0 < requiredBytes <= buffer.Length
      requires Fill(rp, wp, address.Length) <= |Unread()|
      modifies this`rp, this`dst, this`written, this`taken, address, buffer
      ensures Running() && old(written) <= written
      ensures readBytes == Least(requiredBytes, Fill(old(rp), wp, address.Length))
      ensures taken == old(taken) + buffer[..readBytes]
      ensures forall k :: readBytes <= k < buffer.Length ==> buffer[k] == old(buffer[k])
    {
      hide Window, Safe;
      var remainBytes := address.Length - rp;
      if requiredBytes > remainBytes {
        readBytes := remainBytes;
        if requiredBytes - readBytes > wp {
          TakeAround(buffer, readBytes, wp);
          readBytes := readBytes + wp;
        } else {
          TakeAround(buffer, readBytes, requiredBytes - readBytes);
          readBytes := requiredBytes;
        }
      } else {
        readBytes := requiredBytes;
        CopyOut(buffer, 0, rp, readBytes);
        SetRp(rp + readBytes, buffer[..readBytes]);
      }
    }

    /** The copies around the end: everything up to it, then so many bytes from the front. */
    method TakeAround(buffer: array<byte>, first: nat, second: nat)
      requires Running() && rp + first == address.Length && second < rp && buffer != address
      requires first + second <= buffer.Length && first + second <= |Unread()|
      modifies this`rp, this`dst, this`written, this`taken, address, buffer
      ensures Running() && old(written) <= written
      ensures taken == old(taken) + buffer[..first + second]
      ensures forall k :: first + second <= k < buffer.Length ==> buffer[k] == old(buffer[k])
    {
      hide Window, Safe, Fill;
      CopyOut(buffer, 0, rp, first);
      CopyOut(buffer, first, 0, second);
      SetRp(second, buffer[..first + second]);
    }

    method FillSize() returns (fillSize: nat)
      requires Valid()
      modifies this`wp, this`dst, this`written, address
      ensures Valid() && old(Unread()) <= Unread()
      ensures |old(Unread())| <= fillSize <= |Unread()|
    {
      DmaRuns();
      wp := dst;
      fillSize := if wp >= rp then wp - rp else address.Length - rp + wp;
      DmaRuns();
    }

    method FreeSize() returns (freeSize: nat)
      requires Valid()
      modifies this`wp, this`dst, this`written, address
      ensures Valid() && old(Unread()) <= Unread()
      ensures address.Length - RWP_SAFE_INTERVAL - |Unread()| <= freeSize
                <= address.Length - RWP_SAFE_INTERVAL - |old(Unread())|
    {
      DmaRuns();
      wp := dst;
      freeSize := if wp >= rp then address.Length - wp + rp else rp - wp;
      freeSize := if freeSize > RWP_SAFE_INTERVAL then freeSize - RWP_SAFE_INTERVAL else 0;
      DmaRuns();
    }
  }

  /** Any use of the ring by one reader. */
  datatype Op = Take(size: nat, count: nat) | AskFill | AskFree | Wait

  /**
   * Whatever the reader does and however the channel runs in between, what the calls returned, put together,
   * followed by what is still unread, is what the channel wrote.
   */
  method AnyRun(rb: RB, script: seq<Op>) returns (got: seq<byte>)
    requires rb.Valid() && rb.taken == []
    modifies rb, rb.address
    ensures rb.Valid() && rb.written == got + rb.Unread()
  {
    got := [];
    for k := 0 to |script|
      invariant rb.Valid() && rb.taken == got
    {
      rb.DmaRuns();
      match script[k]
      case Take(size, count) =>
        var buffer := new byte[Wrap32(size * count)];
        var n := rb.Read(buffer, size, count);
        got := got + buffer[..n];
      case AskFill =>
        var _ := rb.FillSize();
      case AskFree =>
        var _ := rb.FreeSize();
      case Wait =>
    }
  }

  /** Physical position of the k-th byte from `start`. */
  function Wrapped(start: nat, k: nat, capacity: nat): nat {
    if start + k < capacity then start + k else start + k - capacity
  }
}
