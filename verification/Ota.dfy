/** store_block: the OTA packet sink shared by the TFTP client and the HTTP writer. */
module Ota {
  import opened Bits
  import opened Flash
  import opened SectorStream

  type u32 = x: int | 0 <= x < U32

  const HD_LEN := 24
  const CRC_LEN := 4
  const IMG_LEN := 32
  const PACKET := 1048

  // ----- Wire and flash formats, little endian -----

  function Le16(b: seq<byte>, at: nat): nat
    requires at + 2 <= |b|
  {
    b[at] as int + 0x100 * b[at + 1] as int
  }

  function Le32(b: seq<byte>, at: nat): u32
    requires at + 4 <= |b|
  {
    b[at] as int + 0x100 * b[at + 1] as int + 0x1_0000 * b[at + 2] as int + 0x100_0000 * b[at + 3] as int
  }

  function ToLe32(x: u32): (r: seq<byte>)
    ensures |r| == 4 && Le32(r, 0) == x
  {
    [x % 0x100, x / 0x100 % 0x100, x / 0x1_0000 % 0x100, x / 0x100_0000]
  }

  // Words go into flash as they came.
  lemma SameWord(b: seq<byte>, at: nat)
    requires at + 4 <= |b|
    ensures ToLe32(Le32(b, at)) == b[at..at + 4]
  {
    var x, rest := Le32(b, at), b[at + 1] as int + 0x100 * b[at + 2] as int + 0x1_0000 * b[at + 3] as int;
    var top := b[at + 2] as int + 0x100 * b[at + 3] as int;
    ModUnique(x, 0x100, rest, b[at]);
    ModUnique(rest, 0x100, top, b[at + 1]);
    ModUnique(x, 0x1_0000, top, b[at] as int + 0x100 * b[at + 1] as int);
    ModUnique(top, 0x100, b[at + 3], b[at + 2]);
    ModUnique(x, 0x100_0000, b[at + 3], b[at] as int + 0x100 * b[at + 1] as int + 0x1_0000 * b[at + 2] as int);
    var w := ToLe32(x);
    assert w[0] == b[at] && w[1] == b[at + 1] && w[2] == b[at + 2] && w[3] == b[at + 3];
  }

  datatype Header = Header(totalLen: u32, seqNo: nat, totalSeq: nat, os0ExAddr: u32,
                           osHdAddr: u32, os0FlashAddr: u32, os1FlashAddr: u32)

  function Parse(src: seq<byte>): Header
    requires |src| >= HD_LEN
  {
    Header(Le32(src, 0), Le16(src, 4), Le16(src, 6), Le32(src, 8), Le32(src, 12), Le32(src, 16), Le32(src, 20))
  }

  /** IMG_HEAD as committed: backup address and length, execution and image addresses, CRC, status 1, reserve. */
  function ImageHead(hd: Header, crc: u32): (r: seq<byte>)
    ensures |r| == IMG_LEN && Le32(r, 24) == 1
  {
    var r := ToLe32(hd.os1FlashAddr) + ToLe32(hd.totalLen) + ToLe32(hd.os0ExAddr) + ToLe32(hd.os0FlashAddr) +
             ToLe32(hd.osHdAddr) + ToLe32(crc) + ToLe32(1) + ToLe32(0);
    assert r[24..28] == ToLe32(1);
    r
  }

  // ----- CRC: co_crc32 is a fold of some byte step; which one does not matter here -----

  type CrcStep = (u32, byte) -> u32

  function Fold(f: CrcStep, bytes: seq<byte>, init: u32): u32 {
    if bytes == [] then init else f(Fold(f, bytes[..|bytes| - 1], init), bytes[|bytes| - 1])
  }

  lemma FoldOne(f: CrcStep, b: byte, init: u32)
    ensures Fold(f, [], init) == init && Fold(f, [b], init) == f(init, b)
  {
    assert [b][..0] == [];
  }

  lemma {:induction false} FoldAppend(f: CrcStep, first: seq<byte>, second: seq<byte>, init: u32)
    ensures Fold(f, first + second, init) == Fold(f, second, Fold(f, first, init))
  {
    if second == [] {
      assert first + second == first;
    } else {
      var front := second[..|second| - 1];
      FoldAppend(f, first, front, init);
      assert (first + second)[..|first + second| - 1] == first + front;
    }
  }

  // ----- One call, on values -----

  datatype State = State(mem: seq<byte>, dataAddr: u32, crc: u32)

  function StartAddr(st: State, block: nat, src: seq<byte>): u32
    requires |src| >= HD_LEN
  {
    if block != 0 then st.dataAddr else Parse(src).os1FlashAddr
  }

  predicate InWindow(address: u32) {
    WRITE_FLOOR <= address < WRITE_LIMIT
  }

  /** The flash write as the driver performs it, refusal included. */
  function Write(mem: seq<byte>, address: nat, data: seq<byte>): (r: seq<byte>)
    requires WriteRefused(|mem|, address, |data|) || address + |data| <= |mem|
    ensures |r| == |mem|
  {
    if WriteRefused(|mem|, address, |data|) then mem else Program(mem, address, data)
  }

  predicate ChipOk(mem: seq<byte>) {
    WRITE_LIMIT <= |mem| <= 0x100_0000 && |mem| % SECTOR == 0
  }

  /** What the code takes for granted: a whole header, a payload its 1024-byte scratch holds, writes the driver
      refuses or the chip has room for. */
  predicate InContract(st: State, block: nat, src: seq<byte>) {
    ChipOk(st.mem) && HD_LEN <= |src| <= PACKET &&
    (InWindow(StartAddr(st, block, src)) ==>
       (WriteRefused(|st.mem|, StartAddr(st, block, src), |src| - HD_LEN) ||
        StartAddr(st, block, src) + (|src| - HD_LEN) <= |st.mem|) &&
       (Parse(src).seqNo == Parse(src).totalSeq ==>
          WriteRefused(|st.mem|, Parse(src).osHdAddr, IMG_LEN) || Parse(src).osHdAddr + IMG_LEN <= |st.mem|))
  }

  function Store(f: CrcStep, st: State, block: nat, src: seq<byte>): (r: State)
    requires InContract(st, block, src)
    ensures |r.mem| == |st.mem|
  {
    var hd := Parse(src);
    var at := StartAddr(st, block, src);
    var crc: u32 := if block != 0 then st.crc else 0;
    var erased := EraseOnArrival(st.mem, at);
    if !InWindow(at) then State(erased, at, crc)
    else
      var written := Write(erased, at, src[HD_LEN..]);
      var next := at + (|src| - HD_LEN);
      if hd.seqNo != hd.totalSeq then State(written, next, Fold(f, src, crc))
      else
        var sum := Fold(f, src[..|src| - CRC_LEN], crc);
        if sum != Le32(src, |src| - CRC_LEN) then State(written, next, sum)
        else State(Write(Erase(written, hd.osHdAddr), hd.osHdAddr, ImageHead(hd, sum)), next, sum)
  }

  // ----- The code -----

  class Updater {
    const device: Device
    const crcStep: CrcStep
    var osDataAddr: u32
    var tftpCrc: u32

    constructor (device: Device, crcStep: CrcStep)
      ensures this.device == device && this.crcStep == crcStep
    {
      this.device := device;
      this.crcStep := crcStep;
      osDataAddr := 0x8C000;
      tftpCrc := 0;
    }

    ghost function View(): State
      reads this, device
    {
      State(device.mem, osDataAddr, tftpCrc)
    }

    /** co_crc32 over a buffer. */
    method Crc32(src: seq<byte>, init: u32) returns (crc: u32)
      ensures crc == Fold(crcStep, src, init)
    {
      crc := init;
      for i := 0 to |src|
        invariant crc == Fold(crcStep, src[..i], init)
      {
        assert src[..i + 1][..i] == src[..i];
        crc := crcStep(crc, src[i]);
      }
      assert src[..|src|] == src;
    }

    /** `readBackOk` is the outcome of the read-back comparison, which only decides a message. */
    method StoreBlock(block: nat, src: seq<byte>) returns (readBackOk: bool)
      requires InContract(View(), block, src)
      modifies this, device
      ensures View() == Store(crcStep, old(View()), block, src)
    {
      hide Program, Erase, Fold, Le16, Le32, ImageHead, WriteRefused;
      readBackOk := false;
      var sendHd := Parse(src);
      if block == 0 {
        osDataAddr := sendHd.os1FlashAddr;
        tftpCrc := 0;
      }
      if osDataAddr % 0x1000 == 0 {
        device.EraseSector(osDataAddr);
      }
      if osDataAddr >= 0x20_0000 || osDataAddr < 0x2_7000 {
        return;
      }
      readBackOk := WriteAndCompare(src[HD_LEN..]);
      if sendHd.seqNo != sendHd.totalSeq {
        tftpCrc := Crc32(src, tftpCrc);
      } else {
        var trailer := Le32(src, |src| - CRC_LEN);
        tftpCrc := Crc32(src[..|src| - CRC_LEN], tftpCrc);
        if tftpCrc == trailer {
          CommitHead(sendHd, trailer);
        }
      }
      osDataAddr := osDataAddr + (|src| - HD_LEN);
    }

    method WriteAndCompare(payload: seq<byte>) returns (same: bool)
      requires device.Valid() && |payload| <= BLOCK
      requires WriteRefused(|device.mem|, osDataAddr, |payload|) || osDataAddr + |payload| <= |device.mem|
      modifies device
      ensures device.Valid() && device.mem == Write(old(device.mem), osDataAddr, payload)
      ensures osDataAddr + |payload| <= |device.mem| ==>
                (same <==> device.mem[osDataAddr..osDataAddr + |payload|] == payload)
    {
      device.WriteData(payload, osDataAddr, |payload|);
      assert payload[..|payload|] == payload;
      var scratch := new byte[BLOCK];
      device.ReadData(scratch, 0, osDataAddr, |payload|);
      same := scratch[..|payload|] == payload;
    }

    method CommitHead(sendHd: Header, crc: u32)
      requires device.Valid()
      requires WriteRefused(|device.mem|, sendHd.osHdAddr, IMG_LEN) || sendHd.osHdAddr + IMG_LEN <= |device.mem|
      modifies device
      ensures device.Valid()
      ensures device.mem == Write(Erase(old(device.mem), sendHd.osHdAddr), sendHd.osHdAddr, ImageHead(sendHd, crc))
    {
      var imgHd := ImageHead(sendHd, crc);
      device.EraseSector(sendHd.osHdAddr);
      device.WriteData(imgHd, sendHd.osHdAddr, IMG_LEN);
      assert imgHd[..IMG_LEN] == imgHd;
    }
  }

  // ----- Whole images -----

  function Payload(packets: seq<seq<byte>>): seq<byte>
    requires forall p :: p in packets ==> |p| >= HD_LEN
  {
    if packets == [] then []
    else Payload(packets[..|packets| - 1]) + packets[|packets| - 1][HD_LEN..]
  }

  function Bytes(packets: seq<seq<byte>>): seq<byte> {
    if packets == [] then [] else Bytes(packets[..|packets| - 1]) + packets[|packets| - 1]
  }

  /** Every call of the run starts within the contract, given where the previous ones left the state. */
  predicate Runs(f: CrcStep, st: State, packets: seq<seq<byte>>)
    decreases |packets|, 1
  {
    packets == [] ||
    (Runs(f, st, packets[..|packets| - 1]) &&
     InContract(Run(f, st, packets[..|packets| - 1]), |packets| - 1, packets[|packets| - 1]))
  }

  /** store_block called with blocks 0, 1, 2, ... */
  function Run(f: CrcStep, st: State, packets: seq<seq<byte>>): State
    requires Runs(f, st, packets)
    decreases |packets|, 2
  {
    if packets == [] then st
    else Store(f, Run(f, st, packets[..|packets| - 1]), |packets| - 1, packets[|packets| - 1])
  }

  /**
   * A packaged image for this chip: full packets but the last, which alone says seq == total_seq and carries a
   * CRC trailer; a sector-aligned start; everything inside the write window; the header sector off to the side.
   */
  ghost predicate GoodImage(size: nat, packets: seq<seq<byte>>) {
    var n := |packets|;
    n >= 1 &&
    (forall i :: 0 <= i < n - 1 ==> |packets[i]| == PACKET && !Final(packets[i])) &&
    HD_LEN + CRC_LEN <= |packets[n - 1]| <= PACKET && Final(packets[n - 1]) &&
    var start := Parse(packets[0]).os1FlashAddr;
    var end := start + BLOCK * (n - 1) + (|packets[n - 1]| - HD_LEN);
    var head := Parse(packets[n - 1]).osHdAddr;
    start % SECTOR == 0 && WRITE_FLOOR <= start && end <= WRITE_LIMIT &&
    HeadApart(size, head, start, end)
  }

  /** The image header fits one sector of the chip, and that sector is not one of the image's. */
  predicate HeadApart(size: nat, head: nat, start: nat, end: nat) {
    head % SECTOR + IMG_LEN <= SECTOR && head + IMG_LEN <= size &&
    (SectorOf(head) + SECTOR <= start || RoundUp(end) <= SectorOf(head))
  }

  predicate Final(src: seq<byte>)
    requires |src| >= HD_LEN
  {
    Parse(src).seqNo == Parse(src).totalSeq
  }

  /** A payload arriving behind full ones: its write is accepted and extends what is stored. */
  lemma Lands(mem: seq<byte>, origin: seq<byte>, start: nat, data: seq<byte>, body: seq<byte>)
    requires ChipOk(mem) && start % SECTOR == 0 && |data| % BLOCK == 0 && 0 < |body| <= BLOCK
    requires start + |data| + |body| <= WRITE_LIMIT
    requires Stored(mem, origin, start, data, RoundUp(start + |data|))
    ensures var at := start + |data|;
            !WriteRefused(|mem|, at, |body|) &&
            Stored(Write(EraseOnArrival(mem, at), at, body), origin, start, data + body, RoundUp(start + |data + body|))
  {
    hide Stored, Program, EraseOnArrival, RoundUp;
    StoreNext(mem, origin, start, data, RoundUp(start + |data|), body);
  }

  /** The payloads so far are stored, and the running CRC covers every byte seen. */
  ghost predicate Progress(f: CrcStep, r: State, origin: seq<byte>, start: u32, data: seq<byte>, all: seq<byte>) {
    start % SECTOR == 0 && WRITE_FLOOR <= start && |data| % BLOCK == 0 && ChipOk(r.mem) &&
    Stored(r.mem, origin, start, data, RoundUp(start + |data|)) &&
    (data != [] ==> r.dataAddr == start + |data| && r.crc == Fold(f, all, 0))
  }

  lemma CarriedCrc(f: CrcStep, before: State, block: nat, origin: seq<byte>, start: u32, data: seq<byte>,
                   all: seq<byte>)
    requires if block == 0 then data == [] && all == [] else data != []
    requires Progress(f, before, origin, start, data, all)
    ensures (if block != 0 then before.crc else 0) == Fold(f, all, 0) && |before.mem| == |origin|
  {
  }

  lemma FullStep(f: CrcStep, before: State, block: nat, src: seq<byte>, origin: seq<byte>, start: u32,
                 data: seq<byte>, all: seq<byte>)
    requires |src| == PACKET && !Final(src) && start + |data| + BLOCK <= WRITE_LIMIT
    requires if block == 0 then data == [] && all == [] && Parse(src).os1FlashAddr == start else data != []
    requires Progress(f, before, origin, start, data, all)
    ensures InContract(before, block, src)
    ensures Progress(f, Store(f, before, block, src), origin, start, data + src[HD_LEN..], all + src)
  {
    hide Stored, RoundUp, Program, Erase, EraseOnArrival, Fold, Le16, Le32, ImageHead;
    CarriedCrc(f, before, block, origin, start, data, all);
    Lands(before.mem, origin, start, data, src[HD_LEN..]);
    FoldAppend(f, all, src, 0);
  }

  /** After any number of full packets. */
  lemma {:induction false} PrefixRun(f: CrcStep, st: State, packets: seq<seq<byte>>, start: u32)
    requires ChipOk(st.mem) && start % SECTOR == 0 && WRITE_FLOOR <= start
    requires start + BLOCK * |packets| <= WRITE_LIMIT
    requires forall p :: p in packets ==> |p| == PACKET && !Final(p)
    requires packets != [] ==> Parse(packets[0]).os1FlashAddr == start
    ensures Runs(f, st, packets) && |Payload(packets)| == BLOCK * |packets|
    ensures Progress(f, Run(f, st, packets), st.mem, start, Payload(packets), Bytes(packets))
  {
    if packets != [] {
      var n := |packets| - 1;
      var front := packets[..n];
      PrefixRun(f, st, front, start);
      Snoc(f, st, packets);
      FullStep(f, Run(f, st, front), n, packets[n], st.mem, start, Payload(front), Bytes(front));
    }
  }

  /**
   * What a finished download leaves: the CRC register holding the fold over every byte but the trailer, and every byte
   * of flash. The concatenated payloads stand at `start`, blank up to the end of their last sector; exactly when the
   * fold is the trailer the image header stands in its sector, otherwise blank; everything else is as before.
   */
  ghost predicate Delivered(f: CrcStep, r: State, origin: seq<byte>, hd: Header, start: nat, data: seq<byte>,
                            all: seq<byte>) {
    var sector := SectorOf(hd.osHdAddr);
    |r.mem| == |origin| && |all| >= CRC_LEN && start + |data| <= |origin| &&
    sector <= hd.osHdAddr && hd.osHdAddr + IMG_LEN <= sector + SECTOR <= |origin| &&
    r.crc == Fold(f, all[..|all| - CRC_LEN], 0) &&
    forall i :: 0 <= i < |origin| ==>
                  r.mem[i] == if start <= i < start + |data| then data[i - start]
                              else if start <= i < RoundUp(start + |data|) then 0xFF
                              else if r.crc == Le32(all, |all| - CRC_LEN) && sector <= i < sector + SECTOR
                              then HeadByte(hd, r.crc, i)
                              else origin[i]
  }

  /** A byte of the committed header sector. */
  function HeadByte(hd: Header, crc: u32, i: nat): byte {
    if hd.osHdAddr <= i < hd.osHdAddr + IMG_LEN then ImageHead(hd, crc)[i - hd.osHdAddr] else 0xFF
  }

  /** In terms of whole pieces: the image and the header are where they belong. */
  lemma DeliveredPieces(f: CrcStep, r: State, origin: seq<byte>, hd: Header, start: nat, data: seq<byte>,
                        all: seq<byte>)
    requires Delivered(f, r, origin, hd, start, data, all)
    requires SectorOf(hd.osHdAddr) + SECTOR <= start || RoundUp(start + |data|) <= SectorOf(hd.osHdAddr)
    ensures r.mem[start..start + |data|] == data
    ensures r.crc == Le32(all, |all| - CRC_LEN) ==>
              r.mem[hd.osHdAddr..hd.osHdAddr + IMG_LEN] == ImageHead(hd, r.crc)
    ensures var sector := SectorOf(hd.osHdAddr);
            r.crc != Le32(all, |all| - CRC_LEN) ==> r.mem[sector..sector + SECTOR] == origin[sector..sector + SECTOR]
  {
    hide SectorOf, RoundUp, Le32, ImageHead, Fold;
    forall i | 0 <= i < |data|
      ensures r.mem[start..start + |data|][i] == data[i]
    {
      assert r.mem[start + i] == data[i];
    }
  }

  /** The last packet and the image header, byte by byte: image address, total length, execution address, boot image
      address, the header's own address, the trailer, the status word 1 and nothing. */
  ghost predicate HeaderOf(head: seq<byte>, p: seq<byte>)
    requires |head| == 32 && |p| >= 28
  {
    head[0..4] == p[20..24] && head[4..8] == p[0..4] && head[8..12] == p[8..12] && head[12..16] == p[16..20] &&
    head[16..20] == p[12..16] && head[20..24] == p[|p| - 4..] && head[24..28] == [1, 0, 0, 0] &&
    head[28..32] == [0, 0, 0, 0]
  }

  lemma ImageHeadBytes(p: seq<byte>)
    requires |p| >= 28
    ensures HeaderOf(ImageHead(Parse(p), Le32(p, |p| - 4)), p)
  {
    SameWord(p, 0);
    SameWord(p, 8);
    SameWord(p, 12);
    SameWord(p, 16);
    SameWord(p, 20);
    SameWord(p, |p| - 4);
    HeadPieces(Parse(p), Le32(p, |p| - 4));
    hide ImageHead, Le32;
  }

  lemma HeadPieces(hd: Header, crc: u32)
    ensures var r := ImageHead(hd, crc);
            r[0..4] == ToLe32(hd.os1FlashAddr) && r[4..8] == ToLe32(hd.totalLen) && r[8..12] == ToLe32(hd.os0ExAddr) &&
            r[12..16] == ToLe32(hd.os0FlashAddr) && r[16..20] == ToLe32(hd.osHdAddr) && r[20..24] == ToLe32(crc) &&
            r[24..28] == [1, 0, 0, 0] && r[28..32] == [0, 0, 0, 0]
  {
  }

  lemma LastStep(f: CrcStep, before: State, block: nat, src: seq<byte>, origin: seq<byte>, start: u32,
                 data: seq<byte>, all: seq<byte>)
    requires HD_LEN + CRC_LEN <= |src| <= PACKET && Final(src) && start + |data| + |src| - HD_LEN <= WRITE_LIMIT
    requires if block == 0 then data == [] && all == [] && Parse(src).os1FlashAddr == start else data != []
    requires Progress(f, before, origin, start, data, all)
    requires HeadApart(|origin|, Parse(src).osHdAddr, start, start + |data + src[HD_LEN..]|)
    ensures InContract(before, block, src)
    ensures Delivered(f, Store(f, before, block, src), origin, Parse(src), start, data + src[HD_LEN..], all + src)
  {
    hide Stored, Delivered, RoundUp, Program, Erase, EraseOnArrival, Fold, Le16, Le32, ImageHead, WriteRefused;
    CarriedCrc(f, before, block, origin, start, data, all);
    HeadFits(|origin|, Parse(src).osHdAddr);
    var at, body, hd := start + |data|, src[HD_LEN..], Parse(src);
    Lands(before.mem, origin, start, data, body);
    var written := Write(EraseOnArrival(before.mem, at), at, body);
    var sum := Fold(f, src[..|src| - CRC_LEN], if block != 0 then before.crc else 0);
    SumOfAll(f, all, src);
    Finish(f, Store(f, before, block, src), written, origin, hd, start, data + body, all + src);
  }

  lemma HeadFits(size: nat, address: nat)
    requires address + IMG_LEN <= size
    ensures !WriteRefused(size, address, IMG_LEN)
  {
  }

  /** The final flash contents, committed or not. */
  function Finished(written: seq<byte>, hd: Header, sum: u32, trailer: u32): (r: seq<byte>)
    requires ChipOk(written)
    requires WriteRefused(|written|, hd.osHdAddr, IMG_LEN) || hd.osHdAddr + IMG_LEN <= |written|
  {
    if sum != trailer then written else Write(Erase(written, hd.osHdAddr), hd.osHdAddr, ImageHead(hd, sum))
  }

  lemma Finish(f: CrcStep, r: State, written: seq<byte>, origin: seq<byte>, hd: Header, start: nat,
               data: seq<byte>, all: seq<byte>)
    requires ChipOk(written) && Stored(written, origin, start, data, RoundUp(start + |data|))
    requires |all| >= CRC_LEN && HeadApart(|origin|, hd.osHdAddr, start, start + |data|)
    requires !WriteRefused(|written|, hd.osHdAddr, IMG_LEN)
    requires r.crc == Fold(f, all[..|all| - CRC_LEN], 0)
    requires r.mem == Finished(written, hd, r.crc, Le32(all, |all| - CRC_LEN))
    ensures Delivered(f, r, origin, hd, start, data, all)
  {
    HeadBeside(written, origin, start, data, hd, r.crc);
  }

  /** store_block over a whole image delivers it. */
  lemma ImageRun(f: CrcStep, st: State, packets: seq<seq<byte>>)
    requires ChipOk(st.mem) && GoodImage(|st.mem|, packets)
    ensures Runs(f, st, packets)
    ensures Delivered(f, Run(f, st, packets), st.mem, Parse(packets[|packets| - 1]), Parse(packets[0]).os1FlashAddr,
                      Payload(packets), Bytes(packets))
  {
    hide Stored, Delivered, Store, InContract, HeadApart, RoundUp, Parse, Payload, Bytes, Run, Runs, Progress;
    var n := |packets| - 1;
    var front, start := packets[..n], Parse(packets[0]).os1FlashAddr;
    PrefixRun(f, st, front, start);
    Snoc(f, st, packets);
    FrontEmpty(packets);
    LastStep(f, Run(f, st, front), n, packets[n], st.mem, start, Payload(front), Bytes(front));
  }

  /**
   * In terms of the packets' bytes: a final packet is one whose two sequence numbers agree; the payloads are in flash
   * from the first packet's address on; and when the fold over everything but the trailer is the trailer, the header
   * is in flash at the last packet's header address.
   */
  lemma ImageBytes(f: CrcStep, st: State, packets: seq<seq<byte>>)
    requires ChipOk(st.mem) && GoodImage(|st.mem|, packets)
    ensures Runs(f, st, packets) && |packets| >= 1 && |packets[0]| >= 28
    ensures forall i :: 0 <= i < |packets| ==>
                          |packets[i]| >= 28 && (packets[i][4..6] == packets[i][6..8] <==> i == |packets| - 1)
    ensures var mem, p, data := Run(f, st, packets).mem, packets[|packets| - 1], Payload(packets);
            var start, h, all := Le32(packets[0], 20), Le32(p, 12), Bytes(packets);
            |all| >= 4 && start + |data| <= |mem| && mem[start..start + |data|] == data && h + 32 <= |mem| &&
            (Fold(f, all[..|all| - 4], 0) == Le32(p, |p| - 4) ==> HeaderOf(mem[h..h + 32], p))
  {
    hide GoodImage, Run, Runs, Payload, Bytes, Fold, Parse, Le32, HeaderOf, Delivered, SectorOf, RoundUp;
    ImageNotEmpty(|st.mem|, packets);
    ImageRun(f, st, packets);
    FinalLast(|st.mem|, packets);
    PiecesApart(|st.mem|, packets);
    var p := packets[|packets| - 1];
    TrailerLast(packets);
    AddressWords(packets[0]);
    AddressWords(p);
    BytesOf(f, Run(f, st, packets), st.mem, p, Le32(packets[0], 20), Payload(packets), Bytes(packets));
  }

  lemma AddressWords(p: seq<byte>)
    requires |p| >= HD_LEN
    ensures Parse(p).os1FlashAddr == Le32(p, 20) && Parse(p).osHdAddr == Le32(p, 12)
  {
    hide Le32, Le16;
  }

  // Delivered, with the header's bytes spelled out.
  lemma BytesOf(f: CrcStep, r: State, origin: seq<byte>, p: seq<byte>, start: nat, data: seq<byte>, all: seq<byte>)
    requires |p| >= 28 && Delivered(f, r, origin, Parse(p), start, data, all)
    requires var head := SectorOf(Parse(p).osHdAddr);
             head + SECTOR <= start || RoundUp(start + |data|) <= head
    requires |all| >= CRC_LEN && Le32(all, |all| - CRC_LEN) == Le32(p, |p| - CRC_LEN)
    ensures var h := Le32(p, 12);
            |all| >= 4 && start + |data| <= |r.mem| && r.mem[start..start + |data|] == data && h + 32 <= |r.mem| &&
            (Fold(f, all[..|all| - 4], 0) == Le32(p, |p| - 4) ==> HeaderOf(r.mem[h..h + 32], p))
  {
    AddressWords(p);
    ImageHeadBytes(p);
    DeliveredPieces(f, r, origin, Parse(p), start, data, all);
    hide Parse, Le32, HeaderOf, ImageHead, SectorOf, RoundUp, HeadByte, Fold;
  }

  lemma FinalBytes(p: seq<byte>)
    requires |p| >= HD_LEN
    ensures Final(p) <==> p[4..6] == p[6..8]
  {
    assert p[4..6] == [p[4], p[5]] && p[6..8] == [p[6], p[7]];
    ModUnique(Le16(p, 4), 0x100, p[5], p[4]);
    ModUnique(Le16(p, 6), 0x100, p[7], p[6]);
  }

  lemma FinalLast(size: nat, packets: seq<seq<byte>>)
    requires GoodImage(size, packets)
    ensures forall i :: 0 <= i < |packets| ==>
                          |packets[i]| >= 28 && (packets[i][4..6] == packets[i][6..8] <==> i == |packets| - 1)
  {
    hide Parse, HeadApart, Final;
    forall i | 0 <= i < |packets|
      ensures |packets[i]| >= 28 && (packets[i][4..6] == packets[i][6..8] <==> i == |packets| - 1)
    {
      FinalBytes(packets[i]);
    }
  }

  lemma TrailerLast(packets: seq<seq<byte>>)
    requires packets != [] && |packets[|packets| - 1]| >= CRC_LEN
    ensures var all, p := Bytes(packets), packets[|packets| - 1];
            |all| >= CRC_LEN && Le32(all, |all| - CRC_LEN) == Le32(p, |p| - CRC_LEN)
  {
  }

  lemma {:induction false} FullPayload(packets: seq<seq<byte>>)
    requires forall p :: p in packets ==> |p| == PACKET
    ensures |Payload(packets)| == BLOCK * |packets|
  {
    if packets != [] {
      FullPayload(packets[..|packets| - 1]);
    }
  }

  lemma PacketSizes(size: nat, packets: seq<seq<byte>>)
    requires GoodImage(size, packets)
    ensures |packets| >= 1 && |packets[|packets| - 1]| >= HD_LEN && forall p :: p in packets ==> |p| >= HD_LEN
    ensures forall i :: 0 <= i < |packets| - 1 ==> |packets[i]| == PACKET
  {
    hide Parse, HeadApart, Final;
  }

  /** The payloads of an image are what stands behind the packets' headers, 1024 bytes a packet. */
  lemma PayloadAt(size: nat, packets: seq<seq<byte>>, i: nat)
    requires GoodImage(size, packets) && i < |packets|
    ensures forall p :: p in packets ==> |p| >= 24
    ensures var data, p := Payload(packets), packets[i];
            1024 * i + |p| - 24 <= |data| && data[1024 * i..1024 * i + |p| - 24] == p[24..]
  {
    hide GoodImage, Payload;
    PacketSizes(size, packets);
    PayloadSlice(packets, i);
  }

  lemma {:induction false} PayloadSlice(packets: seq<seq<byte>>, i: nat)
    requires i < |packets| && (forall p :: p in packets ==> |p| >= HD_LEN)
    requires forall j :: 0 <= j < |packets| - 1 ==> |packets[j]| == PACKET
    ensures var data, p := Payload(packets), packets[i];
            BLOCK * i + |p| - HD_LEN <= |data| && data[BLOCK * i..BLOCK * i + |p| - HD_LEN] == p[HD_LEN..]
  {
    var n := |packets| - 1;
    FullPayload(packets[..n]);
    if i < n {
      PayloadSlice(packets[..n], i);
    }
  }

  // The image and the header's sector lie apart.
  lemma PiecesApart(size: nat, packets: seq<seq<byte>>)
    requires GoodImage(size, packets)
    ensures |packets[|packets| - 1]| >= 28 && forall p :: p in packets ==> |p| >= HD_LEN
    ensures var head, end := SectorOf(Parse(packets[|packets| - 1]).osHdAddr),
                             Parse(packets[0]).os1FlashAddr + |Payload(packets)|;
            head + SECTOR <= Parse(packets[0]).os1FlashAddr || RoundUp(end) <= head
  {
    hide Parse, Final, SectorOf, RoundUp;
    FullPayload(packets[..|packets| - 1]);
  }

  lemma Snoc(f: CrcStep, st: State, packets: seq<seq<byte>>)
    requires packets != [] && (forall p :: p in packets ==> |p| >= HD_LEN)
    requires Runs(f, st, packets[..|packets| - 1])
    ensures var n := |packets| - 1;
            var front, last := packets[..n], packets[n];
            Payload(packets) == Payload(front) + last[HD_LEN..] && Bytes(packets) == Bytes(front) + last &&
            (InContract(Run(f, st, front), n, last) ==>
               Runs(f, st, packets) && Run(f, st, packets) == Store(f, Run(f, st, front), n, last))
  {
  }

  lemma FrontEmpty(packets: seq<seq<byte>>)
    requires |packets| >= 1 && (forall p :: p in packets ==> |p| >= HD_LEN)
    ensures |packets| == 1 ==> Payload(packets[..0]) == [] && Bytes(packets[..0]) == []
  {
  }

  /** Committing the header leaves the stored image alone, and an uncommitted header sector is as before. */
  lemma HeadBeside(mem: seq<byte>, origin: seq<byte>, start: nat, data: seq<byte>, hd: Header, sum: u32)
    requires ChipOk(mem) && Stored(mem, origin, start, data, RoundUp(start + |data|))
    requires HeadApart(|mem|, hd.osHdAddr, start, start + |data|)
    ensures !WriteRefused(|mem|, hd.osHdAddr, IMG_LEN)
    ensures var sector := SectorOf(hd.osHdAddr);
            var after := Write(Erase(mem, hd.osHdAddr), hd.osHdAddr, ImageHead(hd, sum));
            sector <= hd.osHdAddr && hd.osHdAddr + IMG_LEN <= sector + SECTOR <= |mem| &&
            forall i :: 0 <= i < |mem| ==>
                          after[i] == if sector <= i < sector + SECTOR then HeadByte(hd, sum, i) else mem[i]
    ensures forall i :: SectorOf(hd.osHdAddr) <= i < SectorOf(hd.osHdAddr) + SECTOR ==>
                          !(start <= i < RoundUp(start + |data|)) && mem[i] == origin[i]
  {
    hide Program, ImageHead, RoundUp;
    Committed(mem, hd, sum);
    SectorFits(|mem|, hd.osHdAddr);
  }

  lemma SectorFits(size: nat, address: nat)
    requires size % SECTOR == 0 && size <= 0x100_0000 && address < size
    ensures SectorOf(address) + SECTOR <= size
  {
  }

  lemma SumOfAll(f: CrcStep, front: seq<byte>, last: seq<byte>)
    requires |last| >= CRC_LEN
    ensures var all := front + last;
            Fold(f, last[..|last| - CRC_LEN], Fold(f, front, 0)) == Fold(f, all[..|all| - CRC_LEN], 0) &&
            Le32(all, |all| - CRC_LEN) == Le32(last, |last| - CRC_LEN)
  {
    var all := front + last;
    FoldAppend(f, front, last[..|last| - CRC_LEN], 0);
    assert all[..|all| - CRC_LEN] == front + last[..|last| - CRC_LEN];
  }

  /** Writing the image header replaces its whole sector and touches nothing else. */
  lemma Committed(mem: seq<byte>, hd: Header, crc: u32)
    requires ChipOk(mem) && hd.osHdAddr % SECTOR + IMG_LEN <= SECTOR && hd.osHdAddr + IMG_LEN <= |mem|
    ensures !WriteRefused(|mem|, hd.osHdAddr, IMG_LEN)
    ensures var after := Write(Erase(mem, hd.osHdAddr), hd.osHdAddr, ImageHead(hd, crc));
            var sector := SectorOf(hd.osHdAddr);
            sector <= hd.osHdAddr && hd.osHdAddr + IMG_LEN <= sector + SECTOR &&
            forall i :: 0 <= i < |mem| ==>
                          after[i] == if sector <= i < sector + SECTOR then HeadByte(hd, crc, i) else mem[i]
  {
    hide ImageHead;
    var erased, head := Erase(mem, hd.osHdAddr), ImageHead(hd, crc);
    InSector(hd.osHdAddr);
    hide SectorOf;
    forall i | hd.osHdAddr <= i < hd.osHdAddr + IMG_LEN
      ensures And(erased[i], head[i - hd.osHdAddr]) == head[i - hd.osHdAddr]
    {
      AndByte(head[i - hd.osHdAddr], 0xFF);
    }
  }

  lemma InSector(address: nat)
    requires address < 0x100_0000 && address % SECTOR + IMG_LEN <= SECTOR
    ensures SectorOf(address) <= address && address + IMG_LEN <= SectorOf(address) + SECTOR
  {
  }

  /** store_block cannot take a packet without a header, so a run that ends with an empty one is none. */
  lemma EmptyLast(f: CrcStep, st: State, packets: seq<seq<byte>>)
    requires packets != [] && packets[|packets| - 1] == []
    ensures !Runs(f, st, packets)
  {
    hide Parse, Run;
  }

  /**
   * Packets whose first one names an address outside the write window store nothing, however many come: at most the
   * sector of that address is erased.
   */
  lemma {:induction false} RefusedRun(f: CrcStep, st: State, packets: seq<seq<byte>>)
    requires packets != [] && Runs(f, st, packets) && |packets[0]| >= 24
    requires var start := Le32(packets[0], 20); start < 0x2_7000 || start >= 0x20_0000
    ensures var r, start := Run(f, st, packets), Le32(packets[0], 20);
            r.dataAddr == start && r.crc == 0 && |r.mem| == |st.mem| &&
            forall i :: 0 <= i < |r.mem| ==>
                          r.mem[i] == if start % 0x1000 == 0 && SectorOf(start) <= i < SectorOf(start) + 0x1000
                            then 0xFF else st.mem[i]
  {
    var n := |packets| - 1;
    var front := packets[..n];
    if n == 0 {
      assert front == [];
    } else {
      RefusedRun(f, st, front);
      assert front[0] == packets[0];
    }
    hide Runs, Fold, SectorOf;
  }

  // A packet of full size that is a whole image: number 1 of 1, image at 0x8C000, header at 0x11000.
  function FullPacket(): (r: seq<byte>)
    ensures |r| == PACKET
  {
    [0, 0, 0, 0, 1, 0, 1, 0, 0, 0, 0, 0, 0, 0x10, 1, 0, 0, 0, 0, 0, 0, 0xC0, 8, 0] + seq(1024, _ => 0)
  }

  /** Good images whose last packet is a full one exist. */
  lemma FullImage(size: nat)
    requires size >= WRITE_LIMIT
    ensures GoodImage(size, [FullPacket()])
  {
    FullHeader();
    hide Parse, FullPacket;
  }

  lemma FullHeader()
    ensures var hd := Parse(FullPacket());
            hd.seqNo == hd.totalSeq && hd.osHdAddr == 0x11000 && hd.os1FlashAddr == 0x8C000
  {
  }

  // A one-packet image of 600 bytes like FullPacket, with one byte that is not zero, at 516.
  function SplitPacket(): (r: seq<byte>)
    ensures |r| == 600 && r[516] == 1
    ensures forall i :: 24 <= i < 600 ==> r[i] == if i == 516 then 1 else 0
  {
    FullPacket()[..516] + [1] + seq(83, _ => 0)
  }

  /** Cut in two at byte 512 it is stored in two calls, and the second one leaves a piece out: its first 24 bytes are
      taken for a header, so the byte that is not zero never reaches flash. */
  lemma Misplaced(f: CrcStep, st: State)
    requires ChipOk(st.mem)
    ensures var p := SplitPacket();
            GoodImage(|st.mem|, [p]) && Runs(f, st, [p[..512], p[512..]]) &&
            !Delivered(f, Run(f, st, [p[..512], p[512..]]), st.mem, Parse(p), Parse(p).os1FlashAddr, Payload([p]), p)
  {
    var p := SplitPacket();
    SplitHeads();
    hide SplitPacket, Parse, Fold, Le32;
    var a, b := p[..512], p[512..];
    SplitImage(|st.mem|);
    FirstHalf(f, st, a);
    var r := Run(f, st, [a]);
    assert InContract(r, 1, b);
    SecondHalf(f, r, b);
    assert [a, b][..1] == [a];
    assert Payload([p]) == p[24..] by {
      assert [p][..0] == [];
    }
  }

  lemma SplitHeads()
    ensures var p := SplitPacket();
            Parse(p) == Parse(p[..512]) && Parse(p).seqNo == Parse(p).totalSeq && Parse(p).osHdAddr == 0x11000 &&
            Parse(p).os1FlashAddr == 0x8C000 && Parse(p[512..]).seqNo == 1 && Parse(p[512..]).totalSeq == 0
  {
  }

  lemma SplitImage(size: nat)
    requires size >= WRITE_LIMIT
    ensures GoodImage(size, [SplitPacket()]) && GoodImage(size, [SplitPacket()[..512]])
  {
    SplitHeads();
    hide Parse, SplitPacket;
  }

  // Behind what the first call stored its sector is blank.
  lemma FirstHalf(f: CrcStep, st: State, a: seq<byte>)
    requires ChipOk(st.mem) && GoodImage(|st.mem|, [a]) && |a| == 512 && Parse(a).os1FlashAddr == 0x8C000
    ensures Runs(f, st, [a])
    ensures var r := Run(f, st, [a]);
            r.dataAddr == 0x8C000 + 488 && |r.mem| == |st.mem| &&
            forall i :: 0x8C000 + 488 <= i < 0x8D000 ==> r.mem[i] == 0xFF
  {
    hide Runs, Run, Store, InContract, Delivered, Parse, GoodImage, Payload, Bytes;
    ImageRun(f, st, [a]);
    OneCall(f, st, a);
    NextAddress(f, st, a);
    BlankBehind(f, Run(f, st, [a]), st.mem, Parse(a), Payload([a]), Bytes([a]));
  }

  lemma OneCall(f: CrcStep, st: State, a: seq<byte>)
    requires Runs(f, st, [a]) && |a| >= HD_LEN
    ensures InContract(st, 0, a) && Run(f, st, [a]) == Store(f, st, 0, a) && |Payload([a])| == |a| - HD_LEN
  {
    hide InContract, Store;
    assert [a][..0] == [];
  }

  lemma NextAddress(f: CrcStep, st: State, a: seq<byte>)
    requires InContract(st, 0, a) && InWindow(Parse(a).os1FlashAddr)
    ensures Store(f, st, 0, a).dataAddr == Parse(a).os1FlashAddr + (|a| - HD_LEN)
  {
    hide Parse, Fold, Le32, Write, Erase, EraseOnArrival, ImageHead, WriteRefused;
  }

  lemma BlankBehind(f: CrcStep, r: State, origin: seq<byte>, hd: Header, data: seq<byte>, all: seq<byte>)
    requires Delivered(f, r, origin, hd, 0x8C000, data, all) && |data| == 488 && ChipOk(origin)
    ensures |r.mem| == |origin| && forall i :: 0x8C000 + 488 <= i < 0x8D000 ==> r.mem[i] == 0xFF
  {
    hide Fold, Le32, SectorOf, HeadByte;
  }

  lemma SecondHalf(f: CrcStep, r: State, b: seq<byte>)
    requires InContract(r, 1, b) && Parse(b).seqNo != Parse(b).totalSeq && |b| == 88 && b[28] == 0
    requires r.dataAddr == 0x8C000 + 488
    ensures Store(f, r, 1, b).mem[0x8C000 + 492] == 0
  {
    hide Parse, Fold, Le32, And;
  }

  // ----- Cutting a stream into packets -----

  /** The first `n` packets of a stream. */
  function Packets(stream: seq<byte>, n: nat): (r: seq<seq<byte>>)
    requires n * PACKET <= |stream|
    ensures |r| == n && forall i :: 0 <= i < n ==> |r[i]| == PACKET
  {
    if n == 0 then [] else Packets(stream, n - 1) + [stream[(n - 1) * PACKET..n * PACKET]]
  }

  /** Packets depend on nothing behind them. */
  lemma {:induction false} PacketsPrefix(front: seq<byte>, stream: seq<byte>, n: nat)
    requires n * PACKET <= |front| && front <= stream
    ensures Packets(front, n) == Packets(stream, n)
  {
    if n != 0 {
      PacketsPrefix(front, stream, n - 1);
      assert front[(n - 1) * PACKET..n * PACKET] == stream[(n - 1) * PACKET..n * PACKET];
    }
  }

  lemma {:induction false} PacketIs(stream: seq<byte>, n: nat, i: nat)
    requires n * PACKET <= |stream| && i < n
    ensures Packets(stream, n)[i] == stream[i * PACKET..(i + 1) * PACKET]
  {
    if i < n - 1 {
      PacketIs(stream, n - 1, i);
    }
  }

  lemma PacketsNext(stream: seq<byte>, n: nat, packet: seq<byte>)
    requires |stream| == n * PACKET && |packet| == PACKET
    ensures Packets(stream + packet, n + 1) == Packets(stream, n) + [packet]
  {
    PacketsPrefix(stream, stream + packet, n);
    assert (stream + packet)[n * PACKET..(n + 1) * PACKET] == packet;
  }

  /** Cutting the concatenation of an image's packets gives the packets back. */
  lemma {:induction false} PacketsOfBytes(packets: seq<seq<byte>>)
    requires forall p :: p in packets ==> |p| == PACKET
    ensures |Bytes(packets)| == |packets| * PACKET && Packets(Bytes(packets), |packets|) == packets
  {
    if packets != [] {
      var n := |packets| - 1;
      var front := packets[..n];
      hide Packets;
      PacketsOfBytes(front);
      PacketsNext(Bytes(front), n, packets[n]);
      assert packets == front + [packets[n]];
    }
  }

  /** The full packets of an image's bytes are its packets, and the remainder is the last one. */
  lemma ImagePieces(size: nat, packets: seq<seq<byte>>)
    requires GoodImage(size, packets) && |packets[|packets| - 1]| < PACKET
    ensures var n := |packets| - 1;
            var stream := Bytes(packets);
            |stream| == n * PACKET + |packets[n]| && |stream| / PACKET == n &&
            Packets(stream, n) == packets[..n] && stream[n * PACKET..] == packets[n]
  {
    hide Parse, HeadApart, RoundUp, Packets;
    var n := |packets| - 1;
    PacketsOfBytes(packets[..n]);
    PacketsPrefix(Bytes(packets[..n]), Bytes(packets), n);
    ModUnique(|Bytes(packets)|, PACKET, n, |packets[n]|);
  }

  /** So store_block can take the full packets of the stream one by one. */
  lemma ImageCut(f: CrcStep, st: State, packets: seq<seq<byte>>)
    requires GoodImage(|st.mem|, packets) && Runs(f, st, packets) && |packets[|packets| - 1]| < PACKET
    ensures var n := |packets| - 1;
            var stream := Bytes(packets);
            |stream| == n * PACKET + |packets[n]| && |stream| / PACKET == n &&
            Packets(stream, n) == packets[..n] && Runs(f, st, Packets(stream, n)) && stream[n * PACKET..] == packets[n]
  {
    hide Run, InContract, GoodImage, Packets, Bytes;
    ImageNotEmpty(|st.mem|, packets);
    ImagePieces(|st.mem|, packets);
  }

  lemma ImageNotEmpty(size: nat, packets: seq<seq<byte>>)
    requires GoodImage(size, packets)
    ensures packets != []
  {
  }

  lemma ImageSize(size: nat, packets: seq<seq<byte>>)
    requires GoodImage(size, packets)
    ensures var n := |packets| - 1;
            (n > 0 ==> |packets[0]| == PACKET) && HD_LEN + CRC_LEN <= |packets[n]| <= PACKET &&
            |Bytes(packets)| == n * PACKET + |packets[n]|
  {
    hide Parse, HeadApart, RoundUp;
    PacketsOfBytes(packets[..|packets| - 1]);
  }

  lemma OnePacket(p: seq<byte>)
    ensures Bytes([p]) == p
  {
    assert [p][..0] == [];
  }
}
