/** Appending a stream to flash, erasing each sector on arrival: the pattern both image writers share. */
module SectorStream {
  import opened Bits
  import opened Flash

  // Neither image writer programs at or past this address, or below the application area.
  const WRITE_LIMIT := 0x20_0000
  const WRITE_FLOOR := 0x2_7000

  // Payload bytes per full block of either writer.
  const BLOCK := 1024

  function RoundUp(address: nat): (r: nat)
    ensures address <= r < address + SECTOR
  {
    (address + (SECTOR - 1)) / SECTOR * SECTOR
  }

  function EraseOnArrival(mem: seq<byte>, address: nat): (r: seq<byte>)
    requires |mem| % SECTOR == 0
    ensures |r| == |mem|
  {
    if address % SECTOR == 0 then Erase(mem, address) else mem
  }

  /**
   * `data` stands at `start`, the bytes from its end up to `edge` are blank, and every other byte is as it
   * was in `origin`.
   */
  ghost predicate Stored(mem: seq<byte>, origin: seq<byte>, start: nat, data: seq<byte>, edge: nat) {
    |mem| == |origin| && start + |data| <= |mem| && start + |data| <= edge &&
    forall i :: 0 <= i < |mem| ==>
                  mem[i] == if start <= i < start + |data| then data[i - start]
                            else if start <= i < edge then 0xFF
                            else origin[i]
  }

  /** The first byte past the sectors erased once a block has arrived at `at`. */
  function Edge(at: nat): (r: nat)
    ensures at < r <= at + SECTOR
  {
    RoundUp(at + 1)
  }

  /** Full blocks never straddle a sector, so each block finds its cells blank. */
  lemma StoreNext(mem: seq<byte>, origin: seq<byte>, start: nat, data: seq<byte>, edge: nat, block: seq<byte>)
    requires |mem| % SECTOR == 0 && |mem| <= 0x100_0000
    requires start % SECTOR == 0 && |data| % BLOCK == 0 && |block| <= BLOCK
    requires start + |data| + |block| <= |mem| && start + |data| < |mem|
    requires Stored(mem, origin, start, data, edge)
    requires edge == RoundUp(start + |data|)
    ensures var at := start + |data|;
            Stored(Program(EraseOnArrival(mem, at), at, block), origin, start, data + block, Edge(at))
    ensures |block| > 0 ==> Edge(start + |data|) == RoundUp(start + |data| + |block|)
  {
    hide RoundUp, Edge, SectorOf, Program, Erase;
    var at := start + |data|;
    var erased := EraseOnArrival(mem, at);
    var after := Program(erased, at, block);
    AlignedSum(start, |data|);
    BlockInSector(at, |block|);
    assert Blank(erased, at, at + |block|);
    forall i | at <= i < at + |block|
      ensures after[i] == block[i - at]
    {
      assert erased[i] == 0xFF;
      AndByte(block[i - at], 0xFF);
    }
  }

  lemma AlignedSum(start: nat, len: nat)
    requires start % SECTOR == 0 && len % BLOCK == 0
    ensures (start + len) % BLOCK == 0
  {
  }

  lemma BlockInSector(at: nat, len: nat)
    requires at % BLOCK == 0 && len <= BLOCK
    ensures at + len <= Edge(at)
    ensures at % SECTOR != 0 ==> Edge(at) == RoundUp(at)
    ensures at % SECTOR == 0 ==> RoundUp(at) == at && Edge(at) == at + SECTOR
    ensures at % SECTOR == 0 && at < 0x100_0000 ==> SectorOf(at) == at
    ensures len > 0 ==> Edge(at) == RoundUp(at + len)
  {
    hide RoundUp;
    var q, r := at / SECTOR, at % SECTOR;
    SectorParts(at);
    RoundUpIs(at + 1, q + 1);
    RoundUpIs(at, if r == 0 then q else q + 1);
    if len > 0 {
      RoundUpIs(at + len, q + 1);
    }
  }

  lemma SectorParts(at: nat)
    requires at % BLOCK == 0
    ensures at == at / SECTOR * SECTOR + at % SECTOR && at % SECTOR <= SECTOR - BLOCK
  {
    var b := at / BLOCK;
    ModUnique(at, SECTOR, b / 4, b % 4 * BLOCK);
  }

  lemma RoundUpIs(x: nat, q: nat)
    requires (q - 1) * SECTOR < x <= q * SECTOR
    ensures RoundUp(x) == q * SECTOR
  {
  }
}
