/** The interrupt-side audio ring buffer: each call is one step on a byte queue. */
module RingBuffer {
  import opened Bits
  import opened Ring

  /** The size test of rb_write in 32-bit arithmetic. */
  predicate Admits(remain: nat, bytes: nat) {
    remain >= Wrap32(bytes + RWP_SAFE_INTERVAL)
  }

  /** It is the intended comparison for every size but the four at which the addition wraps. */
  lemma AdmitsIff(remain: nat, bytes: nat)
    requires remain < U32 && bytes < U32
    ensures Admits(remain, bytes) <==>
            bytes + RWP_SAFE_INTERVAL <= remain || (bytes >= 0xFFFF_FFFC && remain >= bytes - 0xFFFF_FFFC)
  {
  }

  class RB {
    const address: array<byte>
    var wp: nat
    var rp: nat

    ghost predicate Valid()
      reads this
    {
      0 < address.Length < U32 && wp < address.Length && rp <= address.Length
    }

    /** The queued bytes. */
    ghost function Contents(): seq<byte>
      requires Valid()
      reads this, address
    {
      Window(address[..], rp, Fill(rp, wp, address.Length))
    }

    constructor (addr: array<byte>)
      requires 0 < addr.Length < U32
      ensures Valid() && address == addr && Contents() == []
    {
      address := addr;
      wp, rp := 0, 0;
    }

    method Clear()
      requires Valid()
      modifies this
      ensures Valid() && Contents() == []
    {
      wp := 0;
      rp := 0;
    }

    /** rb_read: a prefix of the queue leaves it, as much as was asked for or as there is. */
    method Read(buffer: array<byte>, size: nat, count: nat) returns (readBytes: nat)
      requires Valid() && buffer != address && Wrap32(size * count) <= buffer.Length
      modifies this`rp, buffer
      ensures Valid() && address[..] == old(address[..])
      ensures readBytes == Least(Wrap32(size * count), |old(Contents())|)
      ensures forall k :: 0 <= k < buffer.Length ==>
                            buffer[k] == if k < readBytes then old(Contents())[k] else old(buffer[k])
      ensures Contents() == old(Contents())[readBytes..]
    {
      hide Window, Fill;
      var requiredBytes := Wrap32(size * count);
      if requiredBytes == 0 {
        return 0;
      }
      if wp >= rp {
        readBytes := ReadAhead(buffer, requiredBytes);
      } else {
        readBytes := ReadAround(buffer, requiredBytes);
      }
    }

    /** The branch of rb_read for data in one piece. */
    method ReadAhead(buffer: array<byte>, requiredBytes: nat) returns (readBytes: nat)
      requires Valid() && rp <= wp && buffer != address && 0 < requiredBytes <= buffer.Length
      modifies this`rp, buffer
      ensures Valid() && address[..] == old(address[..])
      ensures readBytes == Least(requiredBytes, |old(Contents())|)
      ensures forall k :: 0 <= k < buffer.Length ==>
                            buffer[k] == if k < readBytes then old(Contents())[k] else old(buffer[k])
      ensures Contents() == old(Contents())[readBytes..]
    {
      hide Window;
      var remainBytes := wp - rp;
      WindowSplit(address[..], rp, remainBytes, Least(requiredBytes, remainBytes));
      if requiredBytes > remainBytes {
        readBytes := remainBytes;
        Memcpy(buffer, 0, address, rp, readBytes);
        rp := rp + readBytes;
      } else {
        readBytes := requiredBytes;
        Memcpy(buffer, 0, address, rp, readBytes);
        rp := rp + readBytes;
      }
    }

    /** The branch of rb_read for data that runs around the end of the buffer. */
    method ReadAround(buffer: array<byte>, requiredBytes: nat) returns (readBytes: nat)
      requires Valid() && wp < rp && buffer != address && 0 < requiredBytes <= buffer.Length
      modifies this`rp, buffer
      ensures Valid() && address[..] == old(address[..])
      ensures readBytes == Least(requiredBytes, |old(Contents())|)
      ensures forall k :: 0 <= k < buffer.Length ==>
                            buffer[k] == if k < readBytes then old(Contents())[k] else old(buffer[k])
      ensures Contents() == old(Contents())[readBytes..]
    {
      hide Window;
      ghost var fill := Fill(rp, wp, address.Length);
      WindowSplit(address[..], rp, fill, Least(requiredBytes, fill));
      WindowAtEnd(address[..], 0);
      var remainBytes := address.Length - rp;
      if requiredBytes > remainBytes {
        readBytes := remainBytes;
        Memcpy(buffer, 0, address, rp, readBytes);
        if requiredBytes - readBytes > wp {
          Memcpy(buffer, readBytes, address, 0, wp);
          rp := wp;
          readBytes := readBytes + wp;
        } else {
          Memcpy(buffer, readBytes, address, 0, requiredBytes - readBytes);
          rp := requiredBytes - readBytes;
          readBytes := requiredBytes;
        }
      } else {
        readBytes := requiredBytes;
        Memcpy(buffer, 0, address, rp, readBytes);
        rp := rp + readBytes;
      }
    }

    /** rb_write: all of the data joins the queue, or, when less than its size is free, none does. */
    method Write(buffer: array<byte>, size: nat, count: nat) returns (writeBytes: nat)
      requires Valid() && buffer != address && Wrap32(size * count) <= buffer.Length
      requires Wrap32(size * count) + RWP_SAFE_INTERVAL < U32 ||
               !Admits(address.Length - FillSize(), Wrap32(size * count))
      modifies this`wp, address
      ensures Valid()
      ensures writeBytes == if Wrap32(size * count) <= old(FreeSize()) then Wrap32(size * count) else 0
      ensures Contents() == old(Contents()) + buffer[..writeBytes]
    {
      hide Window, Overlay;
      writeBytes := Wrap32(size * count);
      if writeBytes == 0 {
        assert Contents() + buffer[..0] == Contents();
        return;
      }
      ghost var mem, data := address[..], buffer[..writeBytes];
      if wp >= rp {
        var remainBytes := address.Length - wp + rp;
        if Admits(remainBytes, writeBytes) {
          CopyAround(buffer, writeBytes);
        } else {
          return 0;
        }
      } else {
        var remainBytes := rp - wp;
        if Admits(remainBytes, writeBytes) {
          Memcpy(address, wp, buffer, 0, writeBytes);
          wp := wp + writeBytes;
        } else {
          return 0;
        }
      }
      assert address[..] == Overlay(mem, old(wp), data);
      if wp >= address.Length && rp != 0 {
        wp := 0;
      }
      Joined(mem, rp, old(wp), data, wp);
    }

    /** Copying behind the write position, around the end if need be. */
    method CopyAround(buffer: array<byte>, writeBytes: nat)
      requires Valid() && buffer != address && writeBytes <= buffer.Length && writeBytes <= address.Length
      modifies this`wp, address
      ensures address[..] == Overlay(old(address[..]), old(wp), buffer[..writeBytes])
      ensures wp == At(old(wp), writeBytes, address.Length)
    {
      hide Overlay;
      var remainBytes := address.Length - wp;
      if remainBytes >= writeBytes {
        Memcpy(address, wp, buffer, 0, writeBytes);
        wp := wp + writeBytes;
      } else {
        Memcpy(address, wp, buffer, 0, remainBytes);
        wp := writeBytes - remainBytes;
        Memcpy(address, 0, buffer, remainBytes, wp);
      }
    }

    function FillSize(): nat
      requires Valid()
      reads this
    {
      if wp >= rp then wp - rp else address.Length - rp + wp
    }

    function FreeSize(): nat
      requires Valid()
      reads this
    {
      var freeSize := if wp >= rp then address.Length - wp + rp else rp - wp;
      if freeSize > RWP_SAFE_INTERVAL then freeSize - RWP_SAFE_INTERVAL else 0
    }

    /** The two size queries in terms of the queue. */
    lemma Sizes()
      requires Valid()
      ensures FillSize() == |Contents()|
      ensures FreeSize() == if |Contents()| + RWP_SAFE_INTERVAL <= address.Length
                            then address.Length - RWP_SAFE_INTERVAL - |Contents()| else 0
    {
    }
  }
}
