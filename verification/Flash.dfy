/** The NOR flash driver: 32-byte page programming under byte-granular reads and writes. */
module Flash {
  import opened Bits

  const PAGE := 32
  const SECTOR := 0x1000

  // ----- What the device does to its contents -----

  /** Programming can only clear bits: every byte in range becomes old AND new. */
  function Program(mem: seq<byte>, address: nat, data: seq<byte>): (r: seq<byte>)
    requires address + |data| <= |mem|
    ensures |r| == |mem|
    ensures forall i :: 0 <= i < |mem| ==>
                          r[i] == if address <= i < address + |data| then And(mem[i], data[i - address]) else mem[i]
  {
    seq(|mem|, i requires 0 <= i < |mem| =>
      if address <= i < address + |data| then And(mem[i], data[i - address]) else mem[i])
  }

  /** The sector an erase command addresses; only 24 address bits reach the chip. */
  function SectorOf(address: nat): (r: nat)
    ensures r % SECTOR == 0
    ensures address < 0x100_0000 ==> r <= address < r + SECTOR
  {
    address % 0x100_0000 / SECTOR * SECTOR
  }

  /** A sector erase sets 4096 bytes to 0xFF; an address past the chip is refused. */
  function Erase(mem: seq<byte>, address: nat): (r: seq<byte>)
    requires |mem| % SECTOR == 0
    ensures |r| == |mem|
    ensures forall i :: 0 <= i < |mem| ==>
                          r[i] == if SectorOf(address) <= i < SectorOf(address) + SECTOR then 0xFF else mem[i]
  {
    seq(|mem|, i requires 0 <= i < |mem| =>
      if SectorOf(address) <= i < SectorOf(address) + SECTOR then 0xFF else mem[i])
  }

  predicate Blank(mem: seq<byte>, from: nat, to: nat) {
    to <= |mem| && forall i :: from <= i < to ==> mem[i] == 0xFF
  }

  // ----- Consequences the writers above the driver rely on -----

  /** Writing in two adjacent pieces is writing once. */
  lemma ProgramAppend(mem: seq<byte>, address: nat, first: seq<byte>, second: seq<byte>)
    requires address + |first| + |second| <= |mem|
    ensures Program(Program(mem, address, first), address + |first|, second) == Program(mem, address, first + second)
  {
    var both := first + second;
    forall i | address <= i < address + |both|
      ensures Program(Program(mem, address, first), address + |first|, second)[i] == And(mem[i], both[i - address])
    {
      assert i >= address + |first| ==> both[i - address] == second[i - address - |first|];
    }
  }

  /** Padding a page with its own contents, or with 0xFF, changes only the bytes between. */
  lemma ProgramPadded(mem: seq<byte>, page: nat, cells: seq<byte>, address: nat, data: seq<byte>)
    requires page <= address && address + |data| <= page + |cells| <= |mem|
    requires forall i :: 0 <= i < |data| ==> cells[address - page + i] == data[i]
    requires forall i :: 0 <= i < |cells| && !(address <= page + i < address + |data|) ==>
                           cells[i] == mem[page + i] || cells[i] == 0xFF
    ensures Program(mem, page, cells) == Program(mem, address, data)
  {
    forall i | 0 <= i < |mem|
      ensures Program(mem, page, cells)[i] == Program(mem, address, data)[i]
    {
      AndByte(mem[i], 0xFF);
      if address <= i < address + |data| {
        assert cells[address - page + (i - address)] == data[i - address];
      }
    }
  }

  /** The first `done` bytes of the buffer have been programmed over the original contents. */
  ghost predicate Written(mem: seq<byte>, original: seq<byte>, address: nat, buffer: seq<byte>, done: nat) {
    done <= |buffer| && address + done <= |original| && mem == Program(original, address, buffer[..done])
  }

  lemma WrittenGrows(mem: seq<byte>, original: seq<byte>, address: nat, buffer: seq<byte>, done: nat, next: nat)
    requires Written(mem, original, address, buffer, done)
    requires done <= next <= |buffer| && address + next <= |original|
    ensures Written(Program(mem, address + done, buffer[done..next]), original, address, buffer, next)
  {
    assert buffer[..next] == buffer[..done] + buffer[done..next];
    ProgramAppend(original, address, buffer[..done], buffer[done..next]);
  }

  /** Programming one page buffer moves the written prefix from `done` to `next`. */
  lemma PageWritten(mem: seq<byte>, original: seq<byte>, address: nat, buffer: seq<byte>, done: nat, next: nat,
                    page: nat, cells: seq<byte>)
    requires Written(mem, original, address, buffer, done)
    requires done <= next <= |buffer| && page <= address + done && address + next <= page + |cells| <= |mem|
    requires forall k :: 0 <= k < |cells| ==>
                           if address + done <= page + k < address + next then cells[k] == buffer[page + k - address]
                           else cells[k] == mem[page + k] || cells[k] == 0xFF
    ensures Written(Program(mem, page, cells), original, address, buffer, next)
  {
    ProgramPadded(mem, page, cells, address + done, buffer[done..next]);
    WrittenGrows(mem, original, address, buffer, done, next);
  }

  // The same in the terms of one pass of the write loop.
  lemma PagePrepared(mem: seq<byte>, original: seq<byte>, cells: seq<byte>, buffer: seq<byte>, addr: nat,
                     address0: nat, len0: nat, count: nat, address: nat, len: nat)
    requires len < len0 <= count <= |buffer| && count <= address0 + len0 && address == address0 + (len0 - len)
    requires addr <= address0 && address <= addr + PAGE <= |mem| && |cells| == PAGE
    requires Written(mem, original, address0 + len0 - count, buffer, count - len0)
    requires forall k :: 0 <= k < PAGE ==>
                           if address0 <= addr + k < address
                           then cells[k] == buffer[count - len0 + (addr + k - address0)]
                           else cells[k] == mem[addr + k] || cells[k] == 0xFF
    ensures Written(Program(mem, addr, cells), original, address0 + len0 - count, buffer, count - len)
  {
    hide Written, Program;
    PageWritten(mem, original, address0 + len0 - count, buffer, count - len0, count - len, addr, cells);
  }

  /** On blank cells programming stores the data itself. */
  lemma ProgramBlank(mem: seq<byte>, address: nat, data: seq<byte>)
    requires address + |data| <= |mem|
    requires Blank(mem, address, address + |data|)
    ensures Program(mem, address, data)[address..address + |data|] == data
  {
    forall i | 0 <= i < |data|
      ensures Program(mem, address, data)[address + i] == data[i]
    {
      AndByte(data[i], 0xFF);
    }
  }

  /** Bit by bit: after programming a bit is set when it was set and is set in the data. */
  lemma ProgramBit(mem: seq<byte>, address: nat, data: seq<byte>, i: nat, k: nat)
    requires address + |data| <= |mem| && i < |data|
    ensures Bit(Program(mem, address, data)[address + i], k) <==> Bit(mem[address + i], k) && Bit(data[i], k)
  {
    AndBit(mem[address + i], data[i], k);
    hide And, Bit;
  }

  /** An erase command has 24 address bits and takes the 4096 bytes around what they name. */
  lemma EraseBits(mem: seq<byte>, address: nat)
    requires |mem| % SECTOR == 0
    ensures Erase(mem, address) == Erase(mem, address + 0x100_0000)
    ensures address < |mem| && address < 0x100_0000 ==>
              var first := address - address % 0x1000;
              first + 0x1000 <= |mem| && forall i :: 0 <= i < |mem| ==>
                Erase(mem, address)[i] == if first <= i < first + 0x1000 then 0xFF else mem[i]
  {
    ModUnique(address + 0x100_0000, 0x100_0000, address / 0x100_0000 + 1, address % 0x100_0000);
  }

  /** Erasing `count` consecutive sectors from an aligned base. */
  function EraseSectors(mem: seq<byte>, base: nat, count: nat): (r: seq<byte>)
    requires |mem| % SECTOR == 0
    ensures |r| == |mem|
  {
    if count == 0 then mem else Erase(EraseSectors(mem, base, count - 1), base + (count - 1) * SECTOR)
  }

  lemma {:induction false} ErasedRange(mem: seq<byte>, base: nat, count: nat)
    requires |mem| % SECTOR == 0 && |mem| <= 0x100_0000 && base % SECTOR == 0 && base + count * SECTOR <= |mem|
    ensures forall i :: 0 <= i < |mem| ==>
                          EraseSectors(mem, base, count)[i] == if base <= i < base + count * SECTOR
                            then 0xFF else mem[i]
  {
    if count != 0 {
      ErasedRange(mem, base, count - 1);
      var last := base + (count - 1) * SECTOR;
      assert SectorOf(last) == last;
    }
  }

  /** The driver's round trip: erase the sectors, write anything inside them, read the same bytes back. */
  lemma EraseWriteRead(mem: seq<byte>, base: nat, count: nat, address: nat, data: seq<byte>)
    requires |mem| % SECTOR == 0 && |mem| <= 0x100_0000 && base % SECTOR == 0
    requires base <= address && address + |data| <= base + count * SECTOR <= |mem|
    ensures var after := Program(EraseSectors(mem, base, count), address, data);
            after[address..address + |data|] == data &&
            (forall i :: 0 <= i < |mem| && !(base <= i < base + count * SECTOR) ==> after[i] == mem[i])
  {
    ErasedRange(mem, base, count);
    ProgramBlank(EraseSectors(mem, base, count), address, data);
  }

  // ----- The driver -----

  /** What flash_write_data refuses. It tests the page address, not the byte address. */
  predicate WriteRefused(size: nat, address: nat, len: nat) {
    var page := address / PAGE * PAGE;
    page >= size || len > size || page + len > size
  }

  /** What the guard means: writes on the chip are accepted; of those that end past it only the ones that would end on
      the chip if they began at their page are. */
  lemma GuardIs(size: nat, address: nat, len: nat)
    ensures address < size && address + len <= size ==> !WriteRefused(size, address, len)
    ensures address + len > size ==>
              (!WriteRefused(size, address, len) <==>
               address < size + address % 32 && address + len <= size + address % 32)
  {
  }

  /** From `was` to `now` the n bytes at `at` were read from `start` on; past the chip they are anything. */
  ghost predicate Fetched(was: seq<byte>, now: seq<byte>, mem: seq<byte>, at: nat, start: nat, n: nat) {
    at + n <= |was| == |now| &&
    (forall k :: 0 <= k < |now| && !(at <= k < at + n) ==> now[k] == was[k]) &&
    (forall k :: at <= k < at + n && start + k - at < |mem| ==> now[k] == mem[start + k - at])
  }

  lemma FetchedNothing(was: seq<byte>, mem: seq<byte>, at: nat, start: nat)
    requires at <= |was|
    ensures Fetched(was, was, mem, at, start, 0)
  {
  }

  lemma FetchedMore(was: seq<byte>, mid: seq<byte>, now: seq<byte>, mem: seq<byte>, at: nat, start: nat, n: nat,
                    next: nat)
    requires n <= next && Fetched(was, mid, mem, at, start, n) && Fetched(mid, now, mem, at + n, start + n, next - n)
    ensures Fetched(was, now, mem, at, start, next)
  {
  }

  lemma FetchedAll(was: seq<byte>, now: seq<byte>, mem: seq<byte>, at: nat, start: nat, n: nat)
    requires Fetched(was, now, mem, at, start, n)
    ensures |now| == |was| && at + n <= |was|
    ensures forall k :: 0 <= k < |now| && !(at <= k < at + n) ==> now[k] == was[k]
    ensures forall k :: at <= k < at + n && start + k - at < |mem| ==> now[k] == mem[start + k - at]
    ensures start + n <= |mem| ==> now == was[..at] + mem[start..start + n] + was[at + n..]
  {
    if start + n <= |mem| {
      assert now[at..at + n] == mem[start..start + n];
      assert now[..at] == was[..at] && now[at + n..] == was[at + n..];
      assert now == now[..at] + now[at..at + n] + now[at + n..];
    }
  }

  // A page lies on the chip or past it as a whole.
  lemma FetchedPage(was: seq<byte>, now: seq<byte>, mem: seq<byte>, pb: seq<byte>, at: nat, start: nat, n: nat)
    requires |mem| % SECTOR == 0 && |pb| == PAGE && n <= PAGE - start % PAGE && at + n <= |was| == |now|
    requires var page := start / PAGE * PAGE; page + PAGE <= |mem| ==> pb == mem[page..page + PAGE]
    requires forall k :: 0 <= k < |now| ==> now[k] == if at <= k < at + n then pb[start % PAGE + k - at] else was[k]
    ensures Fetched(was, now, mem, at, start, n)
  {
    if start < |mem| {
      PageFits(|mem|, start);
    }
  }

  class Device {
    var mem: seq<byte>

    ghost predicate Valid()
      reads this
    {
      0 < |mem| <= 0x100_0000 && |mem| % SECTOR == 0
    }

    constructor (contents: seq<byte>)
      requires 0 < |contents| <= 0x100_0000 && |contents| % SECTOR == 0
      ensures Valid() && mem == contents
    {
      mem := contents;
    }

    /** One READ command: 32 bytes from an aligned address. Past the chip it returns anything. */
    method ReadPage(page: nat) returns (cells: seq<byte>)
      ensures |cells| == PAGE && (page + PAGE <= |mem| ==> cells == mem[page..page + PAGE])
    {
      cells := *;
      if page + PAGE <= |mem| {
        cells := mem[page..page + PAGE];
      } else if |cells| != PAGE {
        cells := seq(PAGE, i => 0);
      }
    }

    /** One PP command: 32 bytes to an aligned address. */
    method ProgramPage(page: nat, cells: seq<byte>)
      requires page % PAGE == 0 && page + PAGE <= |mem| && |cells| == PAGE
      modifies this
      ensures mem == Program(old(mem), page, cells)
    {
      mem := Program(mem, page, cells);
    }

    method EraseSector(address: nat)
      requires Valid()
      modifies this
      ensures Valid() && mem == Erase(old(mem), address)
    {
      var eraseAddr := SectorOf(address);
      if eraseAddr < |mem| {
        mem := mem[..eraseAddr] + seq(SECTOR, i => 0xFF) + mem[eraseAddr + SECTOR..];
      }
      assert mem == Erase(old(mem), address);
    }

    /** Fills buffer[at..at + count] with the flash bytes from `start` on; there is no guard, and past the chip they
        are anything. */
    method ReadData(buffer: array<byte>, at: nat, start: nat, count: nat)
      requires Valid() && at + count <= buffer.Length
      modifies buffer
      ensures mem == old(mem)
      ensures forall k :: 0 <= k < buffer.Length && !(at <= k < at + count) ==> buffer[k] == old(buffer[k])
      ensures forall k :: at <= k < at + count && start + k - at < |mem| ==> buffer[k] == mem[start + k - at]
      ensures start + count <= |mem| ==>
                buffer[..] == old(buffer[..at]) + mem[start..start + count] + old(buffer[at + count..])
    {
      ghost var was := buffer[..];
      assert was[..at] == old(buffer[..at]) && was[at + count..] == old(buffer[at + count..]);
      FetchedNothing(was, mem, at, start);
      var address, len, out := start, count, at;
      var addr := address / PAGE * PAGE;
      hide Fetched;
      while len > 0
        invariant 0 <= len <= count && address == start + (count - len) && out == at + (count - len)
        invariant len > 0 ==> addr == address / PAGE * PAGE
        invariant mem == old(mem) && Fetched(was, buffer[..], mem, at, start, count - len)
      {
        ghost var mid, n := buffer[..], count - len;
        address, len, out := ReadOne(buffer, addr, address, len, out);
        addr := addr + PAGE;
        FetchedMore(was, mid, buffer[..], mem, at, start, n, count - len);
      }
      FetchedAll(was, buffer[..], mem, at, start, count);
    }

    /** One pass of the loop. */
    method ReadOne(buffer: array<byte>, addr: nat, address0: nat, len0: nat, out0: nat)
      returns (address: nat, len: nat, out: nat)
      requires Valid() && addr == address0 / PAGE * PAGE && 0 < len0 && out0 + len0 <= buffer.Length
      modifies buffer
      ensures len < len0 && address == address0 + (len0 - len) && out == out0 + (len0 - len)
      ensures len > 0 ==> address == addr + PAGE
      ensures Fetched(old(buffer[..]), buffer[..], mem, out0, address0, len0 - len)
    {
      ghost var was := buffer[..];
      var pb := ReadPage(addr);
      address, len, out := TakePage(buffer, pb, address0, len0, out0);
      FetchedPage(was, buffer[..], mem, pb, out0, address0, len0 - len);
    }

    /** The copy loop of flash_read_data: the page's bytes from `address0` on, as many as are wanted or left in it. */
    static method TakePage(buffer: array<byte>, pb: seq<byte>, address0: nat, len0: nat, out0: nat)
      returns (address: nat, len: nat, out: nat)
      requires |pb| == PAGE && 0 < len0 && out0 + len0 <= buffer.Length
      modifies buffer
      ensures len < len0 && address == address0 + (len0 - len) && out == out0 + (len0 - len)
      ensures len0 - len <= PAGE - address0 % PAGE && (len == 0 || len0 - len == PAGE - address0 % PAGE)
      ensures forall k :: 0 <= k < buffer.Length ==>
                            buffer[k] == if out0 <= k < out then pb[address0 % PAGE + k - out0] else old(buffer[k])
    {
      address, len, out := address0, len0, out0;
      var i := address % PAGE;
      while i < PAGE
        invariant address0 % PAGE <= i <= PAGE && 0 < len <= len0
        invariant i == address0 % PAGE + (len0 - len)
        invariant address == address0 + (len0 - len) && out == out0 + (len0 - len)
        invariant forall k :: 0 <= k < buffer.Length ==>
                                buffer[k] == if out0 <= k < out then pb[address0 % PAGE + k - out0] else old(buffer[k])
      {
        buffer[out] := pb[i];
        out := out + 1;
        address := address + 1;
        len := len - 1;
        if len == 0 {
          break;
        }
        i := i + 1;
      }
    }

    /**
     * Programs buffer[..count] from `start` on. The one case the source leaves open is a write its guard lets
     * through although it ends past the chip; callers stay out of it.
     */
    method WriteData(buffer: seq<byte>, start: nat, count: nat)
      requires Valid() && count <= |buffer|
      requires WriteRefused(|mem|, start, count) || start + count <= |mem|
      modifies this
      ensures Valid()
      ensures mem == if WriteRefused(|old(mem)|, start, count)
              then old(mem) else Program(old(mem), start, buffer[..count])
    {
      var address, len := start, count;
      var addr: nat := address / PAGE * PAGE;
      if addr >= |mem| || len > |mem| || addr + len > |mem| {
        return;
      }
      var pb := FirstPage(addr, address);
      assert Written(mem, mem, start, buffer, 0);
      while len > 0
        invariant 0 <= len <= count && address == start + (count - len)
        invariant len > 0 ==> PageReady(mem, pb[..], addr, address)
        invariant Valid() && |mem| == |old(mem)|
        invariant Written(mem, old(mem), start, buffer, count - len)
      {
        address, len := WritePage(pb, buffer, addr, address, len, count, old(mem));
        addr := addr + PAGE;
      }
    }

    /** The page buffer before the first pass: a partial head is laid over the page's old contents. */
    method FirstPage(addr: nat, address: nat) returns (pb: array<byte>)
      requires Valid() && addr == address / PAGE * PAGE && addr < |mem|
      ensures fresh(pb) && pb.Length == PAGE && PageReady(mem, pb[..], addr, address)
    {
      pb := new byte[PAGE](i => 0xFF);
      PageFits(|mem|, address);
      if address % PAGE != 0 {
        ReadData(pb, 0, addr, PAGE);
        assert pb[..] == mem[addr..addr + PAGE];
      }
    }

    /** The page buffer of one pass: the caller's bytes, beside them the page's old contents or blanks. */
    method PreparePage(pb: array<byte>, buffer: seq<byte>, addr: nat, address0: nat, len0: nat, count: nat)
      returns (address: nat, len: nat)
      requires Valid() && 0 < len0 <= count <= |buffer| && address0 + len0 <= |mem|
      requires pb.Length == PAGE && PageReady(mem, pb[..], addr, address0)
      modifies pb
      ensures len < len0 && address == address0 + (len0 - len) <= addr + PAGE && (len == 0 || address == addr + PAGE)
      ensures forall k :: 0 <= k < PAGE ==>
                            if address0 <= addr + k < address
                            then pb[k] == buffer[count - len0 + (addr + k - address0)]
                            else pb[k] == mem[addr + k] || pb[k] == 0xFF
    {
      if len0 < PAGE {
        ReadData(pb, 0, addr, PAGE);
        assert pb[..] == mem[addr..addr + PAGE];
      }
      ghost var cells := pb[..];
      assert forall k :: 0 <= k < PAGE ==> cells[k] == mem[addr + k] || cells[k] == 0xFF;
      address, len := FillPage(pb, buffer, addr, address0, len0, count);
    }

    /** One pass of the write loop: fill the page buffer, program it, blank it again. */
    method WritePage(pb: array<byte>, buffer: seq<byte>, addr: nat, address0: nat, len0: nat, count: nat,
                     ghost original: seq<byte>)
      returns (address: nat, len: nat)
      requires Valid() && 0 < len0 <= count <= |buffer| && address0 + len0 <= |mem|
      requires pb.Length == PAGE && PageReady(mem, pb[..], addr, address0)
      requires count <= address0 + len0 && Written(mem, original, address0 + len0 - count, buffer, count - len0)
      modifies this, pb
      ensures Valid() && |mem| == |old(mem)|
      ensures len < len0 && address == address0 + (len0 - len)
      ensures Written(mem, original, address0 + len0 - count, buffer, count - len)
      ensures len > 0 ==> PageReady(mem, pb[..], addr + PAGE, address)
    {
      hide Written, Program, Blank;
      address, len := PreparePage(pb, buffer, addr, address0, len0, count);
      PagePrepared(mem, original, pb[..], buffer, addr, address0, len0, count, address, len);
      ProgramPage(addr, pb[..]);
      ClearPage(pb);
      if len > 0 {
        PageFits(|mem|, address);
      }
    }

    static method ClearPage(pb: array<byte>)
      requires pb.Length == PAGE
      modifies pb
      ensures Blank(pb[..], 0, PAGE)
    {
      forall i | 0 <= i < PAGE {
        pb[i] := 0xFF;
      }
    }
  }

  /** The round trip on the device: whatever the sectors held, the bytes written come back and nothing changes
      outside the sectors. */
  method EraseWriteBack(d: Device, base: nat, count: nat, address: nat, data: seq<byte>) returns (back: array<byte>)
    requires d.Valid() && base % SECTOR == 0 && base <= address && address + |data| <= base + count * SECTOR <= |d.mem|
    modifies d
    ensures d.Valid() && fresh(back) && back[..] == data
    ensures |d.mem| == |old(d.mem)| && d.mem[address..address + |data|] == data
    ensures forall i :: 0 <= i < |d.mem| && !(base <= i < base + count * SECTOR) ==> d.mem[i] == old(d.mem[i])
  {
    hide Program, Erase;
    ghost var mem := d.mem;
    for k := 0 to count
      invariant d.Valid() && d.mem == EraseSectors(mem, base, k)
    {
      d.EraseSector(base + k * SECTOR);
    }
    EraseWriteRead(mem, base, count, address, data);
    assert data[..|data|] == data;
    d.WriteData(data, address, |data|);
    assert d.mem == Program(EraseSectors(mem, base, count), address, data) by {
      if data == [] {
        ProgramNothing(EraseSectors(mem, base, count), address);
      }
    }
    back := new byte[|data|];
    d.ReadData(back, 0, address, |data|);
  }

  lemma ProgramNothing(mem: seq<byte>, address: nat)
    requires address <= |mem|
    ensures Program(mem, address, []) == mem
  {
  }

  /** What the page buffer holds when a pass begins: the old page under a partial head, or blank. */
  ghost predicate PageReady(mem: seq<byte>, cells: seq<byte>, addr: nat, address: nat) {
    addr % PAGE == 0 && addr <= address < addr + PAGE <= |mem| && |cells| == PAGE &&
    if address != addr then cells == mem[addr..addr + PAGE] else Blank(cells, 0, PAGE)
  }

  /** The copy loop of flash_write_data: overlays the caller's bytes on the page buffer. */
  method FillPage(pb: array<byte>, buffer: seq<byte>, addr: nat, address0: nat, len0: nat, count: nat)
    returns (address: nat, len: nat)
    requires pb.Length == PAGE && 0 < len0 <= count <= |buffer|
    requires addr % PAGE == 0 && addr <= address0 < addr + PAGE
    modifies pb
    ensures len < len0 && address == address0 + (len0 - len)
    ensures address <= addr + PAGE && (len == 0 || address == addr + PAGE)
    ensures forall k :: 0 <= k < PAGE ==>
                          pb[k] == if address0 <= addr + k < address
                                   then buffer[count - len0 + (addr + k - address0)] else old(pb[k])
  {
    address, len := address0, len0;
    var i := address % PAGE;
    while i < PAGE
      invariant address0 - addr <= i <= PAGE
      invariant 0 < len <= len0 && address == addr + i == address0 + (len0 - len)
      invariant forall k :: 0 <= k < PAGE ==>
                              pb[k] == if address0 <= addr + k < address
                                       then buffer[count - len0 + (addr + k - address0)] else old(pb[k])
    {
      pb[i] := buffer[count - len];
      address := address + 1;
      len := len - 1;
      if len == 0 {
        break;
      }
      i := i + 1;
    }
  }

  lemma PageFits(size: nat, address: nat)
    requires size % SECTOR == 0 && address < size
    ensures address / PAGE * PAGE + PAGE <= size
  {
    var sectors, pages := size / SECTOR, address / PAGE;
    assert size == PAGE * (128 * sectors);
    assert address >= PAGE * pages;
    assert pages < 128 * sectors;
  }
}
