/** The HTTP download writer: re-blocks a byte stream and hands full blocks to flash or to store_block. */
module HttpFlash {
  import opened Bits
  import opened Flash
  import opened SectorStream
  import opened Ota

  // Where a raw download goes, and how much fits below the write limit.
  const HTTP_FLASH_ADDR := 0xF_F000
  const ROOM := 0x10_1000

  function Min(a: nat, b: nat): nat {
    if a < b then a else b
  }

  // ----- http_flash_wr on values -----

  function DirectWrite(mem: seq<byte>, address: nat, src: seq<byte>): (r: (seq<byte>, nat))
    requires |mem| % SECTOR == 0
    requires WRITE_FLOOR <= address < WRITE_LIMIT ==> WriteRefused(|mem|, address, |src|) || address + |src| <= |mem|
    ensures |r.0| == |mem|
  {
    var erased := EraseOnArrival(mem, address);
    if address >= WRITE_LIMIT || address < WRITE_FLOOR then (erased, address)
    else (Write(erased, address, src), address + |src|)
  }

  /** The part of a raw stream that reaches flash. */
  function Kept(stream: seq<byte>): (r: seq<byte>)
    ensures |r| == Min(|stream|, ROOM)
  {
    stream[..Min(|stream|, ROOM)]
  }

  /** First byte past everything erased after `sent` bytes arrived in full blocks. */
  function Frontier(sent: nat): nat {
    if sent <= ROOM then RoundUp(HTTP_FLASH_ADDR + sent) else WRITE_LIMIT + SECTOR
  }

  ghost predicate DirectInv(mem: seq<byte>, address: nat, origin: seq<byte>, sent: seq<byte>) {
    ChipOk(mem) && |sent| % BLOCK == 0 && address == HTTP_FLASH_ADDR + |Kept(sent)| &&
    Stored(mem, origin, HTTP_FLASH_ADDR, Kept(sent), Frontier(|sent|))
  }

  /**
   * First byte past everything erased once a stream of this length has been flushed: the sector its last block, short
   * or empty, went to; for a stream that fills the window or more, the sector at the write limit.
   */
  function FinalEdge(len: nat): nat {
    if len < ROOM then Edge(HTTP_FLASH_ADDR + len / BLOCK * BLOCK) else WRITE_LIMIT + SECTOR
  }

  /** Every byte of flash: the stream up to the write limit, blank from there to the final edge, elsewhere as before. */
  ghost predicate DirectImage(mem: seq<byte>, origin: seq<byte>, stream: seq<byte>) {
    Stored(mem, origin, HTTP_FLASH_ADDR, Kept(stream), FinalEdge(|stream|))
  }

  /** One block, the last one possibly short: within the window it is stored, past it nothing but an erase happens. */
  lemma DirectStep(mem: seq<byte>, address: nat, origin: seq<byte>, sent: seq<byte>, block: seq<byte>)
    requires DirectInv(mem, address, origin, sent) && |block| <= BLOCK
    ensures address < WRITE_LIMIT ==> !WriteRefused(|mem|, address, |block|) && address + |block| <= WRITE_LIMIT
    ensures var (after, next) := DirectWrite(mem, address, block);
            (|block| < BLOCK ==> DirectImage(after, origin, sent + block)) &&
            (|block| == BLOCK ==> DirectInv(after, next, origin, sent + block))
  {
    hide Stored, DirectWrite, Edge, RoundUp, FinalEdge, ChipOk, WriteRefused;
    if |block| < BLOCK {
      FinalEdgeIs(|sent|, |block|);
    }
    if |sent| < ROOM {
      StepInside(mem, address, origin, sent, block);
    } else {
      StepPast(mem, address, origin, sent, block);
    }
  }

  /** Inside the window the block is stored, ... */
  lemma StepInside(mem: seq<byte>, address: nat, origin: seq<byte>, sent: seq<byte>, block: seq<byte>)
    requires DirectInv(mem, address, origin, sent) && |block| <= BLOCK && |sent| < ROOM
    ensures !WriteRefused(|mem|, address, |block|) && address + |block| <= WRITE_LIMIT
    ensures var (after, next) := DirectWrite(mem, address, block);
            Kept(sent + block) == sent + block && next == HTTP_FLASH_ADDR + |sent + block| && ChipOk(after) &&
            Stored(after, origin, HTTP_FLASH_ADDR, sent + block, Edge(HTTP_FLASH_ADDR + |sent|)) &&
            (|block| > 0 ==> Edge(HTTP_FLASH_ADDR + |sent|) == Frontier(|sent + block|))
  {
    hide Stored, Program, Erase, Edge, RoundUp, EraseOnArrival;
    RoomLeft(|sent|);
    assert Kept(sent) == sent && Kept(sent + block) == sent + block;
    StoreNext(mem, origin, HTTP_FLASH_ADDR, sent, RoundUp(HTTP_FLASH_ADDR + |sent|), block);
  }

  /** ... behind it only the sector at the limit is erased. */
  lemma StepPast(mem: seq<byte>, address: nat, origin: seq<byte>, sent: seq<byte>, block: seq<byte>)
    requires DirectInv(mem, address, origin, sent) && |block| <= BLOCK && |sent| >= ROOM
    ensures address == WRITE_LIMIT
    ensures var (after, next) := DirectWrite(mem, address, block);
            Kept(sent + block) == Kept(sent) && next == address && ChipOk(after) &&
            Stored(after, origin, HTTP_FLASH_ADDR, Kept(sent + block), WRITE_LIMIT + SECTOR)
  {
    hide Stored, Program, Erase, RoundUp;
    assert Kept(sent + block) == Kept(sent);
    PastWindow(mem, origin, sent);
  }

  lemma FinalEdgeIs(sent: nat, rest: nat)
    requires sent % BLOCK == 0 && rest < BLOCK
    ensures FinalEdge(sent + rest) == if sent < ROOM then Edge(HTTP_FLASH_ADDR + sent) else WRITE_LIMIT + SECTOR
  {
    hide Edge;
    if sent < ROOM {
      RoomLeft(sent);
    }
    ModUnique(sent + rest, BLOCK, sent / BLOCK, rest);
  }

  lemma RoomLeft(sent: nat)
    requires sent < ROOM && sent % BLOCK == 0
    ensures sent + BLOCK <= ROOM
  {
  }

  /** Once the window is full every further block erases the sector behind it, and the image stays. */
  lemma PastWindow(mem: seq<byte>, origin: seq<byte>, sent: seq<byte>)
    requires ChipOk(mem) && |sent| >= ROOM
    requires Stored(mem, origin, HTTP_FLASH_ADDR, Kept(sent), Frontier(|sent|))
    ensures Stored(Erase(mem, WRITE_LIMIT), origin, HTTP_FLASH_ADDR, Kept(sent), WRITE_LIMIT + SECTOR)
  {
  }

  /** Exactly when a raw download is whole: it fits below the write limit, or what did not fit happens to be what flash
      holds there, blank in the sector at the limit and the old contents behind it. */
  lemma WholeIff(mem: seq<byte>, origin: seq<byte>, stream: seq<byte>)
    requires DirectImage(mem, origin, stream) && HTTP_FLASH_ADDR + |stream| <= |mem|
    ensures mem[HTTP_FLASH_ADDR..HTTP_FLASH_ADDR + |stream|] == stream <==>
            |stream| <= ROOM ||
            forall i :: ROOM <= i < |stream| ==>
                          stream[i] == if i < ROOM + SECTOR then 0xFF else origin[HTTP_FLASH_ADDR + i]
  {
    var got := mem[HTTP_FLASH_ADDR..HTTP_FLASH_ADDR + |stream|];
    forall i | 0 <= i < |stream|
      ensures got[i] == if i < ROOM then stream[i] else if i < ROOM + SECTOR then 0xFF else origin[HTTP_FLASH_ADDR + i]
    {
      assert got[i] == mem[HTTP_FLASH_ADDR + i];
    }
  }

  /** In numbers: the first 0x101000 bytes are at 0xff000, and below that and from 0x201000 on nothing has changed. */
  lemma RawBytes(mem: seq<byte>, origin: seq<byte>, stream: seq<byte>, i: nat)
    requires DirectImage(mem, origin, stream) && i < |mem|
    ensures |mem| == |origin|
    ensures i < |stream| && i < 0x10_1000 ==> 0xF_F000 + i < |mem| && mem[0xF_F000 + i] == stream[i]
    ensures i < 0xF_F000 || i >= 0x20_1000 ==> mem[i] == origin[i]
    ensures |stream| < 0x10_1000 && i >= 0x20_0000 ==> mem[i] == origin[i]
    ensures |stream| >= 0x10_1000 && 0x20_0000 <= i < 0x20_1000 ==> mem[i] == 0xFF
  {
    EdgeInside(|stream|);
    hide Edge;
  }

  lemma EdgeInside(len: nat)
    ensures FinalEdge(len) <= if len < 0x10_1000 then 0x20_0000 else 0x20_1000
  {
  }

  /** A stream that does not fit and is not whole afterwards, whatever flash held: zeros. */
  lemma LostStream(mem: seq<byte>, origin: seq<byte>, n: nat)
    requires n > ROOM && HTTP_FLASH_ADDR + n <= |mem| && DirectImage(mem, origin, seq(n, _ => 0))
    ensures mem[HTTP_FLASH_ADDR..HTTP_FLASH_ADDR + n] != seq(n, _ => 0)
  {
    var zeros: seq<byte> := seq(n, _ => 0);
    WholeIff(mem, origin, zeros);
    assert zeros[ROOM] == 0;
  }

  // ----- Re-blocking -----

  /** Every store_block call the full packets of this stream lead to is within store_block's contract. */
  predicate Acceptable(f: CrcStep, origin: State, stream: seq<byte>) {
    Runs(f, origin, Packets(stream, |stream| / PACKET))
  }

  lemma PacketsFront(stream: seq<byte>, n: nat)
    requires 0 < n && n * PACKET <= |stream|
    ensures Packets(stream, n)[..n - 1] == Packets(stream, n - 1)
  {
  }

  lemma {:induction false} RunsPrefix(f: CrcStep, origin: State, stream: seq<byte>, n: nat, k: nat)
    requires n * PACKET <= |stream| && k <= n && Runs(f, origin, Packets(stream, n))
    ensures Runs(f, origin, Packets(stream, k))
  {
    if k < n {
      hide Run, InContract, Packets;
      PacketsFront(stream, n);
      RunsPrefix(f, origin, stream, n - 1, k);
    }
  }

  /** The run so far, one packet longer. */
  lemma RunsNext(f: CrcStep, origin: State, sent: seq<byte>, n: nat, block: seq<byte>, stream: seq<byte>)
    requires |sent| == n * PACKET && |block| == PACKET && Acceptable(f, origin, stream) && sent + block <= stream
    ensures var before, after := Packets(sent, n), Packets(sent + block, n + 1);
            Runs(f, origin, before) && Runs(f, origin, after) &&
            InContract(Run(f, origin, before), n, block) &&
            Run(f, origin, after) == Store(f, Run(f, origin, before), n, block)
  {
    hide Store, InContract, Packets, Run, Runs;
    var both := sent + block;
    assert n + 1 <= |stream| / PACKET;
    RunsPrefix(f, origin, stream, |stream| / PACKET, n + 1);
    PacketsPrefix(both, stream, n + 1);
    PacketsNext(sent, n, block);
    RunSnoc(f, origin, Packets(sent, n), block);
  }

  lemma RunSnoc(f: CrcStep, origin: State, packets: seq<seq<byte>>, block: seq<byte>)
    requires Runs(f, origin, packets + [block])
    ensures Runs(f, origin, packets) && InContract(Run(f, origin, packets), |packets|, block)
    ensures Run(f, origin, packets + [block]) == Store(f, Run(f, origin, packets), |packets|, block)
  {
    hide Store, InContract;
    assert (packets + [block])[..|packets|] == packets;
  }

  class Writer {
    const device: Device
    const updater: Updater
    // CFG_SUPPORT_OTA_HTTP: blocks are store_block packets rather than raw flash data.
    const otaFormat: bool
    const wrBuf: array<byte>
    var wrLastLen: nat
    var flashAddress: nat
    var otaWrBlock: nat
    ghost var origin: State
    ghost var sent: seq<byte>

    function BlockMax(): nat {
      if otaFormat then PACKET else BLOCK
    }

    ghost predicate Valid()
      reads this, device, updater, wrBuf
    {
      updater.device == device && wrBuf.Length == BlockMax() && wrLastLen <= BlockMax() &&
      ChipOk(device.mem) &&
      if otaFormat
      then |sent| == otaWrBlock * PACKET && Runs(updater.crcStep, origin, Packets(sent, otaWrBlock)) &&
           updater.View() == Run(updater.crcStep, origin, Packets(sent, otaWrBlock))
      else DirectInv(device.mem, flashAddress, origin.mem, sent)
    }

    /** Everything received since http_flash_init. */
    ghost function Stream(): seq<byte>
      requires wrLastLen <= wrBuf.Length
      reads this, wrBuf
    {
      sent + wrBuf[..wrLastLen]
    }

    /** http_flash_init, with the buffer allocated. */
    constructor (device: Device, updater: Updater, otaFormat: bool)
      requires updater.device == device && ChipOk(device.mem)
      ensures Valid() && wrLastLen < BlockMax() && Stream() == [] && origin == updater.View()
      ensures this.device == device && this.updater == updater && this.otaFormat == otaFormat && fresh(wrBuf)
    {
      this.device := device;
      this.updater := updater;
      this.otaFormat := otaFormat;
      wrBuf := new byte[if otaFormat then PACKET else BLOCK];
      wrLastLen := 0;
      flashAddress := HTTP_FLASH_ADDR;
      otaWrBlock := 0;
      origin := State(device.mem, updater.osDataAddr, updater.tftpCrc);
      sent := [];
    }

    /** http_flash_wr. The read-back comparison only decides a message. */
    method FlashWr(len: nat) returns (readBackOk: bool)
      requires device.Valid() && len <= wrBuf.Length
      requires WRITE_FLOOR <= flashAddress < WRITE_LIMIT ==>
                 WriteRefused(|device.mem|, flashAddress, len) || flashAddress + len <= |device.mem|
      modifies device, this`flashAddress
      ensures device.Valid()
      ensures (device.mem, flashAddress) == DirectWrite(old(device.mem), old(flashAddress), wrBuf[..len])
    {
      hide Program, Erase, WriteRefused;
      readBackOk := false;
      if flashAddress % 0x1000 == 0 {
        device.EraseSector(flashAddress);
      }
      if flashAddress >= 0x20_0000 || flashAddress < 0x2_7000 {
        return;
      }
      device.WriteData(wrBuf[..], flashAddress, len);
      assert wrBuf[..][..len] == wrBuf[..len];
      var tmp := new byte[len];
      device.ReadData(tmp, 0, flashAddress, len);
      readBackOk := tmp[..] == wrBuf[..len];
      flashAddress := flashAddress + len;
    }

    /** A full buffer goes out. `stream` is any continuation of what has been received. */
    method FlushFull(ghost stream: seq<byte>)
      requires Valid() && wrLastLen == BlockMax() && Stream() <= stream
      requires otaFormat ==> Acceptable(updater.crcStep, origin, stream)
      modifies this, device, updater
      ensures Valid() && wrLastLen == 0 && Stream() == old(Stream()) && origin == old(origin)
    {
      hide Store, InContract, Run, Runs, Packets, DirectWrite, DirectInv, Acceptable;
      ghost var block := wrBuf[..];
      assert wrBuf[..wrLastLen] == block;
      if otaFormat {
        RunsNext(updater.crcStep, origin, sent, otaWrBlock, block, stream);
        var _ := updater.StoreBlock(otaWrBlock, wrBuf[..]);
        otaWrBlock := otaWrBlock + 1;
      } else {
        DirectStep(device.mem, flashAddress, origin.mem, sent, block);
        var _ := FlashWr(BLOCK);
      }
      wrLastLen := 0;
      sent := sent + block;
    }

    /** http_wr_to_flash: however the stream is cut into calls, it is received byte for byte. */
    method WrToFlash(page: seq<byte>, len: nat)
      requires Valid() && wrLastLen < BlockMax() && len <= |page|
      requires otaFormat ==> Acceptable(updater.crcStep, origin, Stream() + page[..len])
      modifies this, device, updater, wrBuf
      ensures Valid() && wrLastLen < BlockMax()
      ensures Stream() == old(Stream()) + page[..len] && origin == old(origin)
    {
      hide DirectInv, Runs, Run, Packets, Acceptable, ChipOk;
      ghost var stream := Stream() + page[..len];
      var i := 0;
      while i < len
        invariant 0 <= i <= len && Valid() && wrLastLen < BlockMax() && origin == old(origin)
        invariant Stream() == old(Stream()) + page[..i]
      {
        var w := Min(len - i, BlockMax() - wrLastLen);
        CopyIn(page, i, w);
        i := i + w;
        if wrLastLen >= BlockMax() {
          assert page[..i] <= page[..len];
          FlushFull(stream);
        }
      }
    }

    /** The memcpy into the block buffer. */
    method CopyIn(page: seq<byte>, at: nat, w: nat)
      requires Valid() && at + w <= |page| && wrLastLen + w <= BlockMax()
      modifies this`wrLastLen, wrBuf
      ensures Valid() && wrLastLen == old(wrLastLen) + w
      ensures Stream() == old(Stream()) + page[at..at + w]
    {
      forall k | 0 <= k < w {
        wrBuf[wrLastLen + k] := page[at + k];
      }
      wrLastLen := wrLastLen + w;
      assert wrBuf[..wrLastLen] == old(wrBuf[..wrLastLen]) + page[at..at + w];
    }

    /** The flush at the end of the download, raw format: flash is the stream, cut off only at the write limit. */
    method FinishDirect()
      requires Valid() && !otaFormat && wrLastLen < BlockMax()
      modifies this, device
      ensures DirectImage(device.mem, origin.mem, old(Stream())) && origin == old(origin)
    {
      DirectStep(device.mem, flashAddress, origin.mem, sent, wrBuf[..wrLastLen]);
      var _ := FlashWr(wrLastLen);
    }

    /** The same flush in OTA format hands the remainder to store_block as the last packet. */
    method FinishOta()
      requires Valid() && otaFormat && wrLastLen < BlockMax()
      requires InContract(updater.View(), otaWrBlock, wrBuf[..wrLastLen])
      modifies updater, device
      ensures updater.View() == Store(updater.crcStep, Run(updater.crcStep, origin, Packets(sent, otaWrBlock)),
                                      otaWrBlock, wrBuf[..wrLastLen])
    {
      var _ := updater.StoreBlock(otaWrBlock, wrBuf[..wrLastLen]);
    }
  }

  // ----- Whole downloads -----

  function Flatten(chunks: seq<seq<byte>>): seq<byte> {
    if chunks == [] then [] else Flatten(chunks[..|chunks| - 1]) + chunks[|chunks| - 1]
  }

  lemma {:induction false} FlattenPrefix(chunks: seq<seq<byte>>, k: nat)
    requires k <= |chunks|
    ensures Flatten(chunks[..k]) <= Flatten(chunks)
  {
    if k < |chunks| {
      FlattenPrefix(chunks[..|chunks| - 1], k);
      assert chunks[..|chunks| - 1][..k] == chunks[..k];
    } else {
      assert chunks[..k] == chunks;
    }
  }

  /** A raw download, whatever its length and however recv cut it up. */
  method DownloadDirect(device: Device, updater: Updater, chunks: seq<seq<byte>>)
    requires updater.device == device && ChipOk(device.mem)
    modifies device, updater
    ensures DirectImage(device.mem, old(device.mem), Flatten(chunks))
  {
    var w := new Writer(device, updater, false);
    Feed(w, chunks);
    w.FinishDirect();
  }

  method Feed(w: Writer, chunks: seq<seq<byte>>)
    requires w.Valid() && w.wrLastLen < w.BlockMax() && w.Stream() == []
    requires w.otaFormat ==> Acceptable(w.updater.crcStep, w.origin, Flatten(chunks))
    modifies w, w.device, w.updater, w.wrBuf
    ensures w.Valid() && w.wrLastLen < w.BlockMax() && w.origin == old(w.origin)
    ensures w.Stream() == Flatten(chunks)
  {
    for k := 0 to |chunks|
      invariant w.Valid() && w.wrLastLen < w.BlockMax() && w.origin == old(w.origin)
      invariant w.Stream() == Flatten(chunks[..k])
    {
      assert chunks[..k + 1][..k] == chunks[..k];
      FlattenPrefix(chunks, k + 1);
      if w.otaFormat {
        AcceptablePrefix(w.updater.crcStep, w.origin, Flatten(chunks[..k + 1]), Flatten(chunks));
      }
      assert chunks[k][..|chunks[k]|] == chunks[k];
      w.WrToFlash(chunks[k], |chunks[k]|);
    }
    assert chunks[..|chunks|] == chunks;
  }

  lemma AcceptablePrefix(f: CrcStep, origin: State, front: seq<byte>, stream: seq<byte>)
    requires front <= stream && Acceptable(f, origin, stream)
    ensures Acceptable(f, origin, front)
  {
    hide Runs, Run, InContract, Packets;
    var k := |front| / PACKET;
    assert k <= |stream| / PACKET;
    RunsPrefix(f, origin, stream, |stream| / PACKET, k);
    PacketsPrefix(front, stream, k);
  }

  /**
   * An OTA download of a packaged image with a short last packet: whatever recv did to the stream, store_block
   * ends up having delivered the image.
   */
  method DownloadOta(device: Device, updater: Updater, chunks: seq<seq<byte>>, ghost packets: seq<seq<byte>>)
    requires updater.device == device && ChipOk(device.mem) && GoodImage(|device.mem|, packets)
    requires Flatten(chunks) == Bytes(packets) && |packets[|packets| - 1]| < PACKET
    modifies device, updater
    ensures Delivered(updater.crcStep, updater.View(), old(device.mem), Parse(packets[|packets| - 1]),
                      Parse(packets[0]).os1FlashAddr, Payload(packets), Bytes(packets))
  {
    hide Delivered, Parse, InContract, Store, Run, Runs, Packets, Payload, Bytes, Acceptable, Flatten, DirectInv;
    var w := new Writer(device, updater, true);
    ghost var n, f, st := |packets| - 1, updater.crcStep, updater.View();
    ImageRun(f, st, packets);
    ImageCut(f, st, packets);
    Feed(w, chunks);
    LastBlock(f, st, packets, w.sent, w.otaWrBlock, w.wrBuf[..w.wrLastLen]);
    w.FinishOta();
  }

  /** What is left in the block buffer at the end is the last packet, and the calls so far were the others. */
  lemma LastBlock(f: CrcStep, st: State, packets: seq<seq<byte>>, sent: seq<byte>, k: nat, rest: seq<byte>)
    requires GoodImage(|st.mem|, packets) && Runs(f, st, packets) && |packets[|packets| - 1]| < PACKET
    requires |sent| == k * PACKET && |rest| < PACKET && sent + rest == Bytes(packets)
    ensures var n := |packets| - 1;
            k == n && rest == packets[n] && Packets(sent, k) == packets[..n] &&
            InContract(Run(f, st, packets[..n]), n, packets[n]) &&
            Run(f, st, packets) == Store(f, Run(f, st, packets[..n]), n, packets[n])
  {
    hide InContract, Parse, Store;
    var n := |packets| - 1;
    ImageCut(f, st, packets);
    ModUnique(|sent + rest|, PACKET, k, |rest|);
    assert (sent + rest)[k * PACKET..] == rest;
    PacketsPrefix(sent, sent + rest, n);
  }

  /** The final flush of a good image is within store_block's contract exactly when the last packet is not a full one:
      otherwise nothing is left for it, and store_block needs at least a header. */
  lemma FlushIff(f: CrcStep, st: State, packets: seq<seq<byte>>)
    requires ChipOk(st.mem) && GoodImage(|st.mem|, packets)
    ensures var stream := Bytes(packets);
            var k := |stream| / PACKET;
            0 <= k * PACKET <= |stream| && Runs(f, st, Packets(stream, k)) &&
            (InContract(Run(f, st, Packets(stream, k)), k, stream[k * PACKET..]) <==> |packets[|packets| - 1]| < PACKET)
  {
    ImageRun(f, st, packets);
    FullOrNot(packets);
    hide Delivered, Parse, Store, Run, HeadApart, RoundUp, Packets, Bytes, Payload;
    var n := |packets| - 1;
    if |packets[n]| < PACKET {
      ImageCut(f, st, packets);
    } else {
      PacketsOfBytes(packets);
      ModUnique(|Bytes(packets)|, PACKET, n + 1, 0);
    }
  }

  lemma FullOrNot(packets: seq<seq<byte>>)
    requires packets != [] && forall i :: 0 <= i < |packets| - 1 ==> |packets[i]| == PACKET
    ensures |packets[|packets| - 1]| == PACKET ==> forall p :: p in packets ==> |p| == PACKET
  {
  }

  /** Such an image exists: its flush hands store_block nothing at all. */
  lemma FullImageFlushed(f: CrcStep, st: State)
    requires ChipOk(st.mem)
    ensures GoodImage(|st.mem|, [FullPacket()]) && Bytes([FullPacket()]) == FullPacket()
    ensures Runs(f, st, Packets(FullPacket(), 1)) && !InContract(Run(f, st, Packets(FullPacket(), 1)), 1, [])
  {
    hide FullPacket, Run, Runs, Parse, GoodImage, Packets;
    FullImage(|st.mem|);
    OnePacket(FullPacket());
    FlushIff(f, st, [FullPacket()]);
    assert FullPacket()[PACKET..] == [];
  }
}
