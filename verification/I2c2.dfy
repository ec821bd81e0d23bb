/** The second I2C master, whose interrupts move several bytes at a time: the 7-bit master transfers of i2c2.c. */
module I2c2 {
  import opened Bits

  // The bits of the status register the driver uses.
  const SI: bv16 := 0x0001
  const MODE: bv16 := 0x00C0
  const ACK: bv16 := 0x0100
  const STOP: bv16 := 0x0200
  const START: bv16 := 0x0400

  const FIFO := 16

  /** What the caller asks for; `count` is a UINT32. */
  datatype Job = Job(inner: bool, addr: byte, innerAddr: byte, count: nat)

  /** Registers and driver state. fifo and wire: bytes written to the data register, still queued and already sent. */
  datatype Port = Port(stat: bv16, flag: bv16, cur: nat, fifo: seq<byte>, wire: seq<byte>, store: seq<byte>, done: bool)

  predicate Has(word: bv16, bits: bv16) {
    word & bits != 0
  }

  function With(word: bv16, bits: bv16): bv16 {
    word | bits
  }

  function Drop(word: bv16, bits: bv16): bv16 {
    word & !bits
  }

  // ----- The interrupt modes -----

  // Free transmit places promised by an interrupt in this mode.
  function Slots(stat: bv16): (n: nat)
    ensures n in {4, 8, 12, 16}
  {
    var m := stat & MODE;
    if m == 0 then 16 else if m == 0x40 then 12 else if m == 0x80 then 8 else 4
  }

  // Received bytes promised by an interrupt in this mode.
  function Batch(stat: bv16): (n: nat)
    ensures n in {1, 4, 8, 12}
  {
    var m := stat & MODE;
    if m == 0 then 12 else if m == 0x40 then 8 else if m == 0x80 then 4 else 1
  }

  // Bits elsewhere do not show under a mask.
  lemma MaskWith(s: bv16, bits: bv16, mask: bv16)
    requires bits & mask == 0
    ensures With(s, bits) & mask == s & mask
  {
  }

  lemma MaskDrop(s: bv16, bits: bv16, mask: bv16)
    requires bits & mask == 0
    ensures Drop(s, bits) & mask == s & mask
  {
  }

  // A bit outside the mode field does not disturb it, ...
  lemma KeepsMode(s: bv16, bits: bv16)
    requires bits & 0x00C0 == 0
    ensures Slots(With(s, bits)) == Slots(Drop(s, bits)) == Slots(s)
    ensures Batch(With(s, bits)) == Batch(Drop(s, bits)) == Batch(s)
  {
    hide With, Drop;
    MaskWith(s, bits, MODE);
    MaskDrop(s, bits, MODE);
  }

  // ... nor the other single bits.
  lemma OneBit(s: bv16, bits: bv16, other: bv16)
    requires bits & other == 0
    ensures Has(With(s, bits), other) == Has(Drop(s, bits), other) == Has(s, other)
  {
    hide With, Drop;
    MaskWith(s, bits, other);
    MaskDrop(s, bits, other);
  }

  lemma SetBit(s: bv16, bits: bv16)
    requires bits != 0
    ensures Has(With(s, bits), bits)
  {
    assert (s | bits) & bits == bits;
  }

  lemma ClearBit(s: bv16, bits: bv16)
    ensures !Has(Drop(s, bits), bits)
  {
    assert !bits & bits == 0;
    assert (s & !bits) & bits == s & (!bits & bits);
  }

  lemma DropMode(s: bv16)
    ensures Slots(Drop(s, START | MODE)) == 16
    ensures Has(Drop(s, START | MODE), STOP) == Has(s, STOP)
  {
    OneBit(s, START | MODE, STOP);
    assert !(START | MODE) & MODE == 0;
    assert (s & !(START | MODE)) & MODE == s & (!(START | MODE) & MODE);
  }

  // remain_data_cnt is a UINT8.
  function Left(count: nat, cur: nat): (left: nat)
    ensures left < 256 && (cur <= count ==> left <= count - cur)
  {
    (count - cur) % 256
  }

  lemma LeftStep(count: nat, cur: nat)
    ensures Left(count, cur + 1) == if Left(count, cur) > 0 then Left(count, cur) - 1 else 255
  {
  }

  function ReadMode(count: nat): bv16 {
    if count > 12 then 0 else if count > 8 then 0x40 else if count > 4 then 0x80 else 0xC0
  }

  function WriteMode(count: nat): bv16 {
    if count < 4 then 0 else 0x40
  }

  // A mode number at its place in the status register.
  function InPlace(mode: bv16): (r: bv16)
    requires mode in {0, 1, 2, 3}
    ensures r == if mode == 0 then 0 else if mode == 1 then 0x40 else if mode == 2 then 0x80 else 0xC0
  {
    mode << 6
  }

  // i2c2_send_start: the new mode is OR-ed onto whatever mode bits were left from before.
  function Started(stat: bv16, mode: bv16): bv16 {
    ((stat & 0xFFFB) | mode) | START
  }

  /** Whatever was left in the mode bits, the first batch of a read fits the request. */
  lemma FirstBatchFits(stat: bv16, count: nat)
    ensures var s := Started(stat, ReadMode(count)); Batch(s) == Batch(s & !START) && (count > 0 ==> Batch(s) <= count)
  {
    var s := Started(stat, ReadMode(count));
    assert s & MODE == (stat & MODE) | ReadMode(count);
    assert (s & !START) & MODE == s & MODE;
    OnlyModes(stat & MODE, stat);
  }

  /** From clean mode bits the first batch of a read is the largest one below the count, or a single byte; a write's
      first interrupt leaves room for 12 bytes, or for 16 when fewer than 4 are to go. */
  lemma FirstModes(stat: bv16, count: nat)
    requires stat & MODE == 0
    ensures var b := Batch(Started(stat, ReadMode(count)));
            (4 < count <==> 4 <= b) && (8 < count <==> 8 <= b) && (12 < count <==> 12 <= b)
    ensures Slots(Started(stat, WriteMode(count))) == if count < 4 then 16 else 12
  {
    ModesSet(stat, ReadMode(count));
    ModesSet(stat, WriteMode(count));
    hide Started;
  }

  /** Starting sets START, clears bit 2, adds the mode to what is there and leaves every other bit. */
  lemma StartedBits(stat: bv16, mode: bv16)
    requires mode & !MODE == 0
    ensures Started(stat, mode) & 0x0404 == 0x0400
    ensures Started(stat, mode) & 0x00C0 == (stat & 0x00C0) | mode
    ensures Started(stat, mode) & 0xFB3B == stat & 0xFB3B
  {
    StartedLow(stat, mode);
    StartedMode(stat, mode);
    StartedRest(stat, mode);
  }

  lemma StartedLow(stat: bv16, mode: bv16)
    requires mode & !MODE == 0
    ensures Started(stat, mode) & 0x0404 == 0x0400
  {
  }

  lemma StartedMode(stat: bv16, mode: bv16)
    requires mode & !MODE == 0
    ensures Started(stat, mode) & 0x00C0 == (stat & 0x00C0) | mode
  {
  }

  lemma StartedRest(stat: bv16, mode: bv16)
    requires mode & !MODE == 0
    ensures Started(stat, mode) & 0xFB3B == stat & 0xFB3B
  {
  }

  /** Mode m at its place promises 16 - 4 * m free places to a write, and 12, 8, 4 or 1 bytes to a read. */
  lemma ModeTable(s: bv16, m: bv16)
    requires m in {0, 1, 2, 3} && s & 0x00C0 == InPlace(m)
    ensures Slots(s) == 16 - 4 * m as int && Batch(s) == if m == 3 then 1 else 12 - 4 * m as int
  {
  }

  lemma ModesSet(stat: bv16, mode: bv16)
    requires stat & MODE == 0 && mode in {0, 0x40, 0x80, 0xC0}
    ensures Started(stat, mode) & MODE == mode
  {
    assert ((stat & 0xFFFB) | mode | START) & MODE == (stat & MODE) | (mode & MODE);
  }

  lemma OnlyModes(m: bv16, stat: bv16)
    requires m == stat & MODE
    ensures m == 0 || m == 0x40 || m == 0x80 || m == 0xC0
    ensures m | 0xC0 == 0xC0 && m | 0x80 in {0x80, 0xC0} && m | 0x40 in {0x40, 0xC0} && m | 0 == m
  {
  }

  // ----- One interrupt -----

  // What the hardware does before the handler runs: some queued bytes go out, SI rises, ACK shows the slave's answer.
  datatype Event = Event(drained: nat, acked: bool)

  function Interrupt(p: Port, e: Event): Port
    requires e.drained <= |p.fifo|
  {
    var s := With(p.stat, SI);
    p.(stat := if e.acked then With(s, ACK) else Drop(s, ACK),
       wire := p.wire + p.fifo[..e.drained], fifo := p.fifo[e.drained..])
  }

  function Least(a: nat, b: nat): nat {
    if a < b then a else b
  }

  // Leave the handler: SI is cleared.
  function Out(p: Port, s: bv16): Port {
    p.(stat := Drop(s, SI))
  }

  // The data phase of a write.
  function WriteData(job: Job, data: seq<byte>, p: Port, s: bv16): Port
    requires p.cur <= job.count <= |data|
  {
    var left := Left(job.count, p.cur);
    if left == 0 then Out(p.(done := true), With(s, STOP))
    else
      var n := Least(left, Slots(s));
      Out(p.(cur := p.cur + n, fifo := p.fifo + data[p.cur..p.cur + n]),
          if left - n < Slots(s) then Drop(s, START | MODE) else s)
  }

  /** The handler in a master write. */
  function WriteIsr(job: Job, data: seq<byte>, p: Port): Port
    requires p.cur <= job.count <= |data|
  {
    var s := Drop(p.stat, START);
    if !Has(p.stat, ACK) then Out(p.(done := true), With(s, STOP))
    else if Has(p.flag, 0x10) then WriteData(job, data, p, s)
    else if job.inner && !Has(p.flag, 0x08) then
      Out(p.(fifo := p.fifo + [job.innerAddr], flag := With(p.flag, 0x13)), s)
    else Out(p.(flag := With(p.flag, 0x13)), s)
  }

  // The data phase of a read.
  function ReadData(job: Job, line: seq<byte>, p: Port, s: bv16): Port
    requires p.cur + Batch(s) <= |line|
  {
    var b := Batch(s);
    var left := Left(job.count, p.cur + b);
    Out(p.(cur := p.cur + b, store := p.store + line[p.cur..p.cur + b], done := p.done || left == 0),
        Answer(s, left, b))
  }

  /** The handler in a master read; `line` is everything the slave will send. */
  function ReadIsr(job: Job, line: seq<byte>, p: Port): Port
    requires Takes(p) ==> p.cur + Batch(Drop(p.stat, START)) <= |line|
  {
    var s := Drop(p.stat, START);
    var sta := Has(p.stat, START);
    if sta && !Has(p.stat, ACK) then Out(p.(done := true), With(s, STOP))
    else if Has(p.flag, 0x10) then
      if sta then Out(p, With(s, ACK)) else ReadData(job, line, p, s)
    else if job.inner then
      if !Has(p.flag, 0x08) then
        Out(p.(fifo := p.fifo + [job.innerAddr], flag := With(Drop(p.flag, 0x0B), 0x0A)), s)
      else
        Out(p.(fifo := p.fifo + [ReadAddress(job.addr)], flag := With(p.flag, 0x13)), With(s, START))
    else Out(p.(flag := With(p.flag, 0x13)), s)
  }

  // After a batch of b with `left` to go: refuse and stop, go on byte by byte, or go on as before.
  function Answer(s: bv16, left: nat, b: nat): bv16 {
    if left == 0 then With(Drop(s, ACK | START), STOP)
    else if left < b then With(s, ACK | MODE)
    else With(s, ACK)
  }

  // The handler is about to empty a batch out of the receive FIFO.
  predicate Takes(p: Port) {
    !Has(p.stat, START) && Has(p.flag, 0x10)
  }

  function WriteAddress(addr: byte): byte {
    2 * addr % 256
  }

  function ReadAddress(addr: byte): byte {
    2 * addr % 256 + 1
  }

  /** Seven address bits and the direction. */
  lemma AddressBytes(addr: byte)
    ensures WriteAddress(addr) / 2 == addr % 128 && WriteAddress(addr) % 2 == 0
    ensures ReadAddress(addr) / 2 == addr % 128 && ReadAddress(addr) % 2 == 1
  {
    ModUnique(2 * addr, 256, addr / 128, 2 * (addr % 128));
  }

  // i2c2_send_addr and i2c2_send_start, from idle FIFOs.
  function Begun(job: Job, read: bool, stat: bv16): Port {
    Port(Started(stat, if read then ReadMode(job.count) else WriteMode(job.count)), if job.inner then 1 else 0x13, 0,
         [if read && !job.inner then ReadAddress(job.addr) else WriteAddress(job.addr)], [], [], false)
  }

  // ----- The driver -----

  class Master {
    var stat: bv16
    var addrFlag: bv16
    var currentNum: nat
    var transDone: bool
    var allDataNum: nat
    var inner: bool
    var innerAddr: byte
    var sendAddr: byte
    var pData: array<byte>
    var fifo: seq<byte>
    var wire: seq<byte>

    constructor (buf: array<byte>)
      ensures !transDone && fifo == wire == [] && pData == buf && currentNum == 0
    {
      stat, addrFlag, currentNum, transDone, allDataNum := 0, 0, 0, false, 0;
      inner, innerAddr, sendAddr, pData, fifo, wire := false, 0, 0, buf, [], [];
    }

    function Request(): Job
      reads this
    {
      Job(inner, sendAddr, innerAddr, allDataNum)
    }

    function View(store: seq<byte>): Port
      reads this
    {
      Port(stat, addrFlag, currentNum, fifo, wire, store, transDone)
    }

    method WriteDat(x: byte)
      modifies `fifo
      ensures fifo == old(fifo) + [x]
    {
      fifo := fifo + [x];
    }

    // i2c2_send_addr
    method SendAddr(read: bool)
      modifies `fifo, `addrFlag
      ensures fifo == old(fifo) + [if read && !inner then ReadAddress(sendAddr) else WriteAddress(sendAddr)]
      ensures old(addrFlag) == 0 ==> addrFlag == if inner then 1 else 0x13
    {
      WriteDat(if read && !inner then 2 * sendAddr % 256 + 1 else 2 * sendAddr % 256);
      addrFlag := addrFlag + 1;
      if !inner {
        addrFlag := With(addrFlag, 0x13);
      }
    }

    // i2c2_send_start
    method SendStart(read: bool)
      modifies `fifo, `addrFlag, `stat
      ensures fifo == old(fifo) + [if read && !inner then ReadAddress(sendAddr) else WriteAddress(sendAddr)]
      ensures old(addrFlag) == 0 ==> addrFlag == if inner then 1 else 0x13
      ensures stat == Started(old(stat), if read then ReadMode(allDataNum) else WriteMode(allDataNum))
    {
      hide InPlace, Started, ReadAddress, WriteAddress;
      var mode: bv16;
      if read {
        mode := if allDataNum > 12 then 0x00 else if allDataNum > 8 then 0x01 else if allDataNum > 4
          then 0x02 else 0x03;
      } else {
        mode := if allDataNum < 4 then 0x00 else 0x01;
      }
      SendAddr(read);
      Configure(InPlace(mode));
    }

    method Configure(mode: bv16)
      modifies `stat
      ensures stat == Started(old(stat), mode)
    {
      var config := stat;
      config := config & 0xFFFB;
      config := config | mode;
      config := config | START;
      stat := config;
    }

    // The common part of i2c2_read and i2c2_write; a transfer still flagged as done refuses the call.
    method SetUp(read: bool, job: Job, buf: array<byte>) returns (started: bool)
      requires job.count < U32
      modifies this
      ensures started == !old(transDone)
      ensures started && old(fifo) == old(wire) == [] ==>
                View([]) == Begun(job, read, old(stat)) && Request() == job && pData == buf
      ensures !started ==> View([]) == old(View([])) && Request() == old(Request()) && pData == old(pData)
    {
      if transDone {
        return false;
      }
      addrFlag, currentNum, allDataNum, pData := 0, 0, job.count, buf;
      innerAddr, sendAddr, inner := job.innerAddr, job.addr, job.inner;
      SendStart(read);
      started := true;
    }

    // The data phase of a write: push one batch.
    method PushBatch(i2c2_stat: bv16) returns (s: bv16)
      requires currentNum <= allDataNum <= pData.Length && Left(allDataNum, currentNum) != 0
      modifies `fifo, `currentNum
      ensures var left, n := Left(allDataNum, old(currentNum)), Least(Left(allDataNum, old(currentNum)),
              Slots(i2c2_stat));
              currentNum == old(currentNum) + n && fifo == old(fifo) + pData[..][old(currentNum)..currentNum] &&
              s == if left - n < Slots(i2c2_stat) then Drop(i2c2_stat, START | MODE) else i2c2_stat
    {
      s := i2c2_stat;
      var remain := (allDataNum - currentNum) % 256;
      var free;
      match s & 0x00C0 {
        case 0x00 => free := 16;
        case 0x40 => free := 12;
        case 0x80 => free := 8;
        case 0xC0 => free := 4;
        case _ => free := 0;
      }
      var num := if remain < free then remain else free;
      var i := 0;
      while i < num
        invariant 0 <= i <= num && currentNum == old(currentNum) + i && remain == Left(allDataNum, old(currentNum)) - i
        invariant fifo == old(fifo) + pData[old(currentNum)..currentNum]
      {
        WriteDat(pData[currentNum]);
        currentNum := currentNum + 1;
        remain := remain - 1;
        i := i + 1;
      }
      assert pData[old(currentNum)..currentNum] == pData[..][old(currentNum)..currentNum];
      if remain < free {
        s := Drop(s, START | MODE);
      }
    }

    method DataOut(i2c2_stat: bv16) returns (s: bv16)
      requires currentNum <= allDataNum <= pData.Length
      modifies `transDone, `fifo, `currentNum
      ensures Out(View([]), s) == WriteData(Request(), pData[..], old(View([])), i2c2_stat)
    {
      var remain := (allDataNum - currentNum) % 256;
      assert remain == Left(allDataNum, currentNum);
      hide Slots, Left, Least, With, Drop;
      if remain == 0 {
        s := With(i2c2_stat, STOP);
        transDone := true;
      } else {
        s := PushBatch(i2c2_stat);
      }
    }

    // i2c2_isr, master write.
    method IsrWrite()
      requires currentNum <= allDataNum <= pData.Length
      modifies `stat, `transDone, `fifo, `currentNum, `addrFlag
      ensures View([]) == WriteIsr(Request(), pData[..], old(View([])))
    {
      hide WriteData, With, Drop, Has;
      var s := Drop(stat, START);
      if !Has(stat, ACK) {
        s := With(s, STOP);
        transDone := true;
      } else if Has(addrFlag, 0x10) {
        s := DataOut(s);
      } else if inner && !Has(addrFlag, 0x08) {
        WriteDat(innerAddr);
        addrFlag := With(addrFlag, 0x13);
      } else {
        addrFlag := With(addrFlag, 0x13);
      }
      stat := Drop(s, SI);
    }

    // Empty num bytes out of the receive FIFO into the caller's buffer.
    method CopyBatch(rx: seq<byte>, num: nat, remain_data_cnt: nat) returns (remain: nat)
      requires num <= |rx| && currentNum + num <= pData.Length
      requires remain_data_cnt == Left(allDataNum, currentNum)
      modifies `currentNum, pData
      ensures currentNum == old(currentNum) + num && remain == Left(allDataNum, currentNum)
      ensures forall k :: 0 <= k < pData.Length ==>
                pData[k] == if old(currentNum) <= k < currentNum then rx[k - old(currentNum)] else old(pData[k])
    {
      hide Left;
      remain := remain_data_cnt;
      var i := 0;
      while i < num
        invariant 0 <= i <= num && currentNum == old(currentNum) + i
        invariant remain == Left(allDataNum, currentNum)
        invariant forall k :: 0 <= k < pData.Length ==>
                    pData[k] == if old(currentNum) <= k < currentNum then rx[k - old(currentNum)] else old(pData[k])
      {
        LeftStep(allDataNum, currentNum);
        pData[currentNum] := rx[i];
        currentNum := currentNum + 1;
        remain := if remain > 0 then remain - 1 else 255;
        i := i + 1;
      }
    }

    // The data phase of a read.
    method PullBatch(i2c2_stat: bv16, rx: seq<byte>) returns (s: bv16)
      requires Batch(i2c2_stat) <= |rx| && currentNum + Batch(i2c2_stat) <= pData.Length
      modifies `currentNum, `transDone, pData
      ensures var b := Batch(i2c2_stat);
              currentNum == old(currentNum) + b && transDone == (old(transDone) || Left(allDataNum, currentNum) == 0) &&
              s == Answer(i2c2_stat, Left(allDataNum, currentNum), b)
      ensures forall k :: 0 <= k < pData.Length ==>
                pData[k] == if old(currentNum) <= k < currentNum then rx[k - old(currentNum)] else old(pData[k])
    {
      s := i2c2_stat;
      var num;
      match s & 0x00C0 {
        case 0x00 => num := 12;
        case 0x40 => num := 8;
        case 0x80 => num := 4;
        case 0xC0 => num := 1;
        case _ => num := 0;
      }
      assert num == Batch(s);
      hide Batch, Left, With, Drop;
      var remain := CopyBatch(rx, num, Left(allDataNum, currentNum));
      if remain == 0 {
        s := With(Drop(s, ACK | START), STOP);
        transDone := true;
      } else if remain < num {
        s := With(s, ACK | MODE);
      } else {
        s := With(s, ACK);
      }
    }

    method DataIn(i2c2_stat: bv16, rx: seq<byte>, ghost line: seq<byte>) returns (s: bv16)
      requires var b := Batch(i2c2_stat);
               b <= |rx| && currentNum + |rx| <= |line| && currentNum + b <= pData.Length &&
               rx == line[currentNum..currentNum + |rx|]
      modifies `currentNum, `transDone, pData
      ensures old(currentNum) <= currentNum <= pData.Length
      ensures Out(View(pData[..currentNum]), s) == ReadData(Request(), line, old(View(pData[..currentNum])), i2c2_stat)
      ensures pData[currentNum..] == old(pData[..])[currentNum..]
    {
      hide Batch, Left, Answer;
      ghost var start, before := currentNum, pData[..];
      s := PullBatch(i2c2_stat, rx);
      BatchJoins(before, pData[..], start, currentNum, rx, line);
      assert before[..start] == old(pData[..currentNum]) && pData[..][..currentNum] == pData[..currentNum];
    }

    // A batch copied behind what was stored is the line's next part.
    static lemma BatchJoins(before: seq<byte>, after: seq<byte>, start: nat, end: nat, rx: seq<byte>, line: seq<byte>)
      requires start <= end <= |before| == |after| && end - start <= |rx| && start + |rx| <= |line|
      requires rx == line[start..start + |rx|]
      requires forall k :: 0 <= k < |after| ==> after[k] == if start <= k < end then rx[k - start] else before[k]
      ensures after[..end] == before[..start] + line[start..end] && after[end..] == before[end..]
    {
      assert rx[..end - start] == line[start..end];
      assert after[start..end] == rx[..end - start];
      assert after[..end] == after[..start] + after[start..end];
    }

    // i2c2_isr, master read, with rx in the receive FIFO: the front of what the slave has yet to send.
    method IsrRead(rx: seq<byte>, ghost line: seq<byte>)
      requires currentNum <= pData.Length && !transDone
      requires Takes(View([])) ==>
                 var b := Batch(Drop(stat, START));
                 b <= |rx| && currentNum + |rx| <= |line| && currentNum + b <= pData.Length &&
                 rx == line[currentNum..currentNum + |rx|]
      modifies `stat, `transDone, `fifo, `currentNum, `addrFlag, pData
      ensures old(currentNum) <= currentNum <= pData.Length
      ensures View(pData[..currentNum]) == ReadIsr(Request(), line, old(View(pData[..currentNum])))
      ensures pData[currentNum..] == old(pData[..])[currentNum..]
    {
      hide Batch, ReadData, With, Drop, Has;
      var s := Drop(stat, START);
      var sta := Has(stat, START);
      if sta && !Has(stat, ACK) {
        s := With(s, STOP);
        transDone := true;
      } else if Has(addrFlag, 0x10) {
        if sta {
          s := With(s, ACK);
        } else {
          s := DataIn(s, rx, line);
        }
      } else if inner {
        if !Has(addrFlag, 0x08) {
          WriteDat(innerAddr);
          addrFlag := With(Drop(addrFlag, 0x0B), 0x0A);
        } else {
          s := With(s, START);
          WriteDat(2 * sendAddr % 256 + 1);
          addrFlag := With(addrFlag, 0x13);
        }
      } else {
        addrFlag := With(addrFlag, 0x13);
      }
      stat := Drop(s, SI);
    }
  }

  // ----- Whole writes -----

  // An interrupt in the current mode comes only when the promised places are free.
  ghost predicate WriteStep(job: Job, data: seq<byte>, p: Port, e: Event, q: Port) {
    !p.done && e.drained <= |p.fifo| && |p.fifo| - e.drained + Slots(p.stat) <= FIFO &&
    p.cur <= job.count <= |data| && q == WriteIsr(job, data, Interrupt(p, e))
  }

  function Head(job: Job, flag: bv16): seq<byte> {
    [WriteAddress(job.addr)] + if job.inner && flag != 1 then [job.innerAddr] else []
  }

  /** Holds between the interrupts of a write: what was sent is in order, the FIFO never overflows, STOP means done. */
  ghost predicate WriteSound(job: Job, data: seq<byte>, p: Port) {
    p.cur <= job.count % 256 && job.count <= |data| &&
    p.wire + p.fifo == Head(job, p.flag) + data[..p.cur] &&
    |p.fifo| <= FIFO &&
    (p.flag == 0x13 || (job.inner && p.flag == 1 && p.cur == 0)) &&
    (0 < p.cur == job.count % 256 ==> Slots(p.stat) == 16) &&
    (p.done <==> Has(p.stat, STOP))
  }

  // What the handler finds in the status register.
  lemma Finds(p: Port, e: Event)
    requires e.drained <= |p.fifo|
    ensures var m := Interrupt(p, e);
            Has(m.stat, ACK) == e.acked && Has(m.stat, STOP) == Has(p.stat, STOP) &&
            Has(m.stat, START) == Has(p.stat, START) &&
            Slots(m.stat) == Slots(p.stat) && Batch(m.stat) == Batch(p.stat) &&
            m.wire + m.fifo == p.wire + p.fifo && |m.fifo| == |p.fifo| - e.drained &&
            m.flag == p.flag && m.cur == p.cur && m.store == p.store && m.done == p.done
  {
    hide Has, With, Drop, Slots, Batch;
    var s := With(p.stat, SI);
    KeepsMode(p.stat, SI);
    KeepsMode(s, ACK);
    OneBit(p.stat, SI, STOP);
    OneBit(p.stat, SI, START);
    OneBit(s, ACK, STOP);
    OneBit(s, ACK, START);
    SetBit(s, ACK);
    ClearBit(s, ACK);
  }

  // What the handler leaves there.
  lemma Leaves(s: bv16)
    ensures var t := Drop(s, SI); Slots(t) == Slots(s) && Batch(t) == Batch(s)
    ensures forall bits :: bits in {ACK, STOP, START} ==> Has(Drop(s, SI), bits) == Has(s, bits)
  {
    hide Has, With, Drop, Slots, Batch;
    KeepsMode(s, SI);
    OneBit(s, SI, ACK);
    OneBit(s, SI, STOP);
    OneBit(s, SI, START);
  }

  /** One interrupt of a write keeps the invariant; it ends the write exactly when the slave refused or
      nothing is left. */
  lemma WriteKeeps(job: Job, data: seq<byte>, p: Port, e: Event, q: Port)
    requires WriteSound(job, data, p) && WriteStep(job, data, p, e, q)
    ensures WriteSound(job, data, q)
    ensures q.done <==> !e.acked || (p.flag == 0x13 && p.cur == job.count % 256)
    ensures q.done && e.acked && q.cur > 0 ==> q.fifo == []
    ensures !q.done ==> q.cur > p.cur || q.flag != p.flag
    ensures !q.done && p.flag == 0x13 ==>
              q.cur == Least(job.count % 256, p.cur + Slots(p.stat)) &&
              Slots(q.stat) == if q.cur + Slots(p.stat) > job.count % 256 then 16 else Slots(p.stat)
  {
    hide Has, With, Drop, Slots, Batch, Left, Interrupt, Head;
    var m := Interrupt(p, e);
    Finds(p, e);
    Flags();
    LeftIs(job.count, p.cur);
    var s := Drop(m.stat, START);
    KeepsMode(m.stat, START);
    OneBit(m.stat, START, STOP);
    KeepsMode(s, STOP);
    SetBit(s, STOP);
    DropMode(s);
    Leaves(With(s, STOP));
    Leaves(s);
    Leaves(Drop(s, START | MODE));
    WriteOrder(job, data, m);
  }

  lemma WriteOrder(job: Job, data: seq<byte>, m: Port)
    requires m.cur <= job.count % 256 && job.count <= |data|
    requires m.wire + m.fifo == Head(job, m.flag) + data[..m.cur]
    requires m.flag == 0x13 || (job.inner && m.flag == 1 && m.cur == 0)
    ensures var q := WriteIsr(job, data, m); q.cur <= job.count && q.wire + q.fifo == Head(job, q.flag) + data[..q.cur]
  {
    hide Has, With, Drop, Slots, Left;
    Flags();
    var q := WriteIsr(job, data, m);
    if q.cur > m.cur {
      assert q.fifo == m.fifo + data[m.cur..q.cur];
      Onward(Head(job, m.flag), m.wire, m.fifo, data, m.cur, q.cur);
    } else if q.flag != m.flag {
      assert q.wire + q.fifo == (m.wire + m.fifo) + [job.innerAddr];
    }
  }

  lemma Onward(head: seq<byte>, wire: seq<byte>, fifo: seq<byte>, data: seq<byte>, from: nat, to: nat)
    requires from <= to <= |data| && wire + fifo == head + data[..from]
    ensures wire + (fifo + data[from..to]) == head + data[..to]
  {
    assert wire + (fifo + data[from..to]) == (wire + fifo) + data[from..to];
    assert data[..to] == data[..from] + data[from..to];
  }

  lemma Flags()
    ensures Has(0x13, 0x10) && !Has(0x01, 0x10) && !Has(0x01, 0x08) && With(0x01, 0x13) == 0x13
  {
  }

  lemma LeftIs(count: nat, cur: nat)
    requires cur <= count % 256
    ensures Left(count, cur) == count % 256 - cur
  {
  }

  ghost predicate WriteRun(job: Job, data: seq<byte>, ports: seq<Port>, events: seq<Event>) {
    |ports| == |events| + 1 &&
    forall i :: 0 <= i < |events| ==> WriteStep(job, data, ports[i], events[i], ports[i + 1])
  }

  lemma BegunBits(stat: bv16, mode: bv16)
    requires mode & STOP == 0
    ensures Has(Started(stat, mode), START) && Has(Started(stat, mode), STOP) == Has(stat, STOP)
  {
    var masked := stat & 0xFFFB;
    assert masked & STOP == stat & STOP;
    OneBit(masked, mode, STOP);
    OneBit(masked | mode, START, STOP);
    SetBit(masked | mode, START);
  }

  /** Every state of every run is sound, and each interrupt that does not end the run makes progress. */
  lemma {:induction false} WriteRunSound(job: Job, data: seq<byte>, stat: bv16, ports: seq<Port>, events: seq<Event>)
    requires WriteRun(job, data, ports, events) && ports[0] == Begun(job, false, stat)
    requires job.count <= |data| && !Has(stat, STOP)
    ensures var q := ports[|events|];
            WriteSound(job, data, q) &&
            |events| <= q.cur + (if q.flag != ports[0].flag then 1 else 0) + (if q.done then 1 else 0) &&
            (q.flag == ports[0].flag || ports[0].flag == 1)
  {
    hide Has, With, Drop, Slots, Batch, Left, WriteIsr, Interrupt;
    if events == [] {
      BegunBits(stat, WriteMode(job.count));
    } else {
      var n := |events| - 1;
      WriteRunSound(job, data, stat, ports[..n + 1], events[..n]);
      var p, e, q := ports[n], events[n], ports[n + 1];
      assert WriteStep(job, data, p, e, q);
      WriteKeeps(job, data, p, e, q);
      WriteMoves(job, data, p, e);
    }
  }

  // The handler never takes back data or address bytes.
  lemma WriteMoves(job: Job, data: seq<byte>, p: Port, e: Event)
    requires e.drained <= |p.fifo| && p.cur <= job.count <= |data| && p.flag in {0x01, 0x13}
    ensures var q := WriteIsr(job, data, Interrupt(p, e));
            q.cur >= p.cur && (q.flag == p.flag || (q.flag == 0x13 && q.cur == p.cur))
  {
    hide Has, Slots, Left;
    Flags();
    assert With(0x13, 0x13) == 0x13;
  }

  /** A write the slave acknowledges throughout sends the address bytes and then count % 256 data bytes, in order; STOP
      is asked for with the FIFO empty; and that is what the caller asked for exactly when count is below 256. */
  lemma WriteDelivers(job: Job, data: seq<byte>, stat: bv16, ports: seq<Port>, events: seq<Event>)
    requires WriteRun(job, data, ports, events) && ports[0] == Begun(job, false, stat)
    requires job.count <= |data| && !Has(stat, STOP)
    requires ports[|events|].done && forall i :: 0 <= i < |events| ==> events[i].acked
    ensures var q := ports[|events|];
            q.wire + q.fifo == Head(job, 0x13) + data[..job.count % 256] && Has(q.stat, STOP) &&
            (job.count % 256 > 0 ==> q.fifo == []) &&
            (q.wire + q.fifo == Head(job, 0x13) + data[..job.count] <==> job.count < 256)
  {
    hide Has, With, Drop, Slots, Batch, Left, WriteIsr, Interrupt;
    var n := |events| - 1;
    if events != [] {
      WriteRunSound(job, data, stat, ports[..n + 1], events[..n]);
      var p, e, q := ports[n], events[n], ports[n + 1];
      assert WriteStep(job, data, p, e, q);
      WriteKeeps(job, data, p, e, q);
      WriteMoves(job, data, p, e);
    }
  }

  // ----- Whole reads -----

  // An interrupt in the current mode comes only when the promised bytes are in the receive FIFO.
  ghost predicate ReadStep(job: Job, line: seq<byte>, p: Port, e: Event, q: Port) {
    !p.done && e.drained <= |p.fifo| &&
    (Takes(Interrupt(p, e)) ==> p.cur + Batch(Drop(Interrupt(p, e).stat, START)) <= |line|) &&
    q == ReadIsr(job, line, Interrupt(p, e))
  }

  /** Where a read stops: the count modulo 256, or 256 more when the first batch is already larger than that. */
  function Total(count: nat, batch: nat): nat {
    count % 256 + if count % 256 < batch then 256 else 0
  }

  /** A read takes what it was asked for exactly when the count is not zero and below 256 plus the first batch. */
  lemma TotalExact(count: nat, stat: bv16)
    ensures var b := Batch(Started(stat, ReadMode(count))); Total(count, b) == count <==> 1 <= count < 256 + b
  {
    hide Started, Batch, ReadMode;
    FirstBatchFits(stat, count);
  }

  function ReadHead(job: Job, flag: bv16): seq<byte> {
    if !job.inner then [ReadAddress(job.addr)]
    else [WriteAddress(job.addr)] + (if flag != 0x01 then [job.innerAddr] else []) +
         if flag == 0x1B then [ReadAddress(job.addr)] else []
  }

  // The addresses go out first; the data phase begins when START has been seen once more.
  ghost predicate Addressing(job: Job, p: Port) {
    p.flag == (if job.inner then 0x1B else 0x13) ||
    (job.inner && p.flag in {0x01, 0x0A} && p.cur == 0)
  }

  /**
   * Holds between the interrupts of a read whose first batch is b: the bytes stored are the slave's, in order; the
   * next batch always fits what is left; ACK is withheld, and STOP asked for, only when nothing is left or nobody
   * answered.
   */
  ghost predicate ReadSound(job: Job, line: seq<byte>, b: nat, p: Port) {
    var total := Total(job.count, b);
    p.cur <= total && p.cur <= |line| && p.store == line[..p.cur] &&
    p.wire + p.fifo == ReadHead(job, p.flag) && Addressing(job, p) &&
    (p.cur == 0 ==> Batch(p.stat) == b) &&
    (!p.done ==> Batch(p.stat) <= total - p.cur && (total - p.cur < 256 || (p.cur == 0 && total < 256 + b))) &&
    (p.done <==> Has(p.stat, STOP)) &&
    (p.cur > 0 ==> !Has(p.stat, START) && Has(p.stat, ACK) == !p.done && (p.done <==> p.cur == total))
  }

  // What the handler leaves in the status register after a batch.
  lemma Answers(s: bv16, left: nat, b: nat)
    requires !Has(s, START) && !Has(s, STOP)
    ensures var t := Drop(Answer(s, left, b), SI);
            !Has(t, START) && Has(t, STOP) == (left == 0) && Has(t, ACK) == (left != 0) &&
            Batch(t) == if 0 < left < b then 1 else Batch(s)
  {
    hide Has, With, Drop, Batch, Slots;
    Leaves(Answer(s, left, b));
    var quiet := Drop(s, ACK | START);
    KeepsMode(s, ACK | START);
    KeepsMode(quiet, STOP);
    KeepsMode(s, ACK);
    OneBit(s, ACK | START, STOP);
    OneBit(quiet, STOP, ACK);
    OneBit(quiet, STOP, START);
    BothClear(s);
    SetBit(quiet, STOP);
    OneBit(s, ACK, START);
    OneBit(s, ACK, STOP);
    SetBit(s, ACK);
    OneBit(s, ACK | MODE, START);
    OneBit(s, ACK | MODE, STOP);
    ByteByByte(s);
  }

  lemma BothClear(s: bv16)
    ensures !Has(Drop(s, ACK | START), ACK) && !Has(Drop(s, ACK | START), START)
  {
    assert !(ACK | START) & ACK == 0 && !(ACK | START) & START == 0;
    assert (s & !(ACK | START)) & ACK == s & (!(ACK | START) & ACK);
    assert (s & !(ACK | START)) & START == s & (!(ACK | START) & START);
  }

  lemma ByteByByte(s: bv16)
    ensures Batch(With(s, ACK | MODE)) == 1 && Has(With(s, ACK | MODE), ACK)
  {
    assert (s | (ACK | MODE)) & MODE == MODE && (s | (ACK | MODE)) & ACK == ACK;
  }

  lemma LeftTotal(count: nat, b: nat, cur: nat)
    requires cur <= Total(count, b) < cur + 256
    ensures Left(count, cur) == Total(count, b) - cur
  {
  }

  /** One interrupt of a read keeps the invariant. */
  lemma ReadKeeps(job: Job, line: seq<byte>, b: nat, p: Port, e: Event, q: Port)
    requires ReadSound(job, line, b, p) && ReadStep(job, line, p, e, q)
    ensures ReadSound(job, line, b, q)
    ensures q.cur >= p.cur
    ensures q.done <==> (Has(p.stat, START) && !e.acked) || (q.cur > 0 && q.cur == Total(job.count, b))
  {
    hide Has, With, Drop, Slots, Batch, Left, Interrupt, ReadHead, Total, ReadData;
    var m := Interrupt(p, e);
    Finds(p, e);
    ReadFlags();
    var s := Drop(m.stat, START);
    KeepsMode(m.stat, START);
    OneBit(m.stat, START, STOP);
    ClearBit(m.stat, START);
    if Takes(m) {
      ReadDataKeeps(job, line, b, m, s);
    } else {
      ReadAddresses(job, m);
      AddressStatus(m, s);
    }
  }

  // A batch of a read: the next bytes of the slave's, and the status register to match what is left.
  lemma ReadDataKeeps(job: Job, line: seq<byte>, b: nat, m: Port, s: bv16)
    requires var total := Total(job.count, b);
             !m.done && m.cur + Batch(s) <= |line| && m.store == line[..m.cur] && !Has(s, START) && !Has(s, STOP) &&
             m.cur + Batch(s) <= total && (total < m.cur + 256 || total < 256 + Batch(s))
    ensures var total, q := Total(job.count, b), ReadData(job, line, m, s);
            q.cur == m.cur + Batch(s) && q.store == line[..q.cur] && q.flag == m.flag && q.fifo == m.fifo &&
              q.wire == m.wire &&
            q.done == (q.cur == total) == Has(q.stat, STOP) == !Has(q.stat, ACK) && !Has(q.stat, START) &&
            (!q.done ==> Batch(q.stat) <= total - q.cur < 256) &&
            (!q.done ==> Batch(q.stat) == if total - q.cur >= Batch(s) then Batch(s) else 1)
  {
    hide Has, With, Drop, Slots, Batch, Left, Total, Answer;
    var n := Batch(s);
    LeftTotal(job.count, b, m.cur + n);
    Answers(s, Left(job.count, m.cur + n), n);
    assert line[..m.cur + n] == line[..m.cur] + line[m.cur..m.cur + n];
  }

  // What the handler may leave in the status register during the address phase.
  lemma AddressStatus(m: Port, s: bv16)
    requires s == Drop(m.stat, START)
    ensures forall bits :: bits in {ACK, STOP, START} ==>
              var t := Drop(With(s, bits), SI);
              Batch(t) == Batch(m.stat) && Has(t, STOP) == (bits == STOP || Has(m.stat, STOP))
    ensures Batch(Drop(s, SI)) == Batch(m.stat) && Has(Drop(s, SI), STOP) == Has(m.stat, STOP)
  {
    hide Has, With, Drop, Slots, Batch;
    KeepsMode(m.stat, START);
    OneBit(m.stat, START, STOP);
    KeepsMode(s, STOP);
    KeepsMode(s, ACK);
    KeepsMode(s, START);
    OneBit(s, ACK, STOP);
    OneBit(s, START, STOP);
    SetBit(s, STOP);
    Leaves(With(s, STOP));
    Leaves(With(s, ACK));
    Leaves(With(s, START));
    Leaves(s);
  }

  // The address phase sends the right bytes.
  lemma ReadAddresses(job: Job, m: Port)
    requires !Takes(m) && Addressing(job, m) && m.wire + m.fifo == ReadHead(job, m.flag)
    ensures var q := ReadIsr(job, [], m); q.wire + q.fifo == ReadHead(job, q.flag) && Addressing(job, q)
  {
    hide Has, With, Drop;
    ReadFlags();
    var q := ReadIsr(job, [], m);
    if |q.fifo| > |m.fifo| {
      assert q.wire + q.fifo == (m.wire + m.fifo) + [q.fifo[|m.fifo|]];
    }
  }

  lemma ReadFlags()
    ensures Has(0x13, 0x10) && Has(0x1B, 0x10) && !Has(0x01, 0x10) && !Has(0x0A, 0x10)
    ensures !Has(0x01, 0x08) && Has(0x0A, 0x08)
    ensures With(Drop(0x01, 0x0B), 0x0A) == 0x0A && With(0x0A, 0x13) == 0x1B
  {
  }

  ghost predicate ReadRun(job: Job, line: seq<byte>, ports: seq<Port>, events: seq<Event>) {
    |ports| == |events| + 1 &&
    forall i :: 0 <= i < |events| ==> ReadStep(job, line, ports[i], events[i], ports[i + 1])
  }

  // How far the addressing has come, up to the START seen in front of the data.
  function Phase(p: Port): (n: nat)
    ensures n <= 3
  {
    if p.flag == 0x01 then 0 else if p.flag == 0x0A then 1
    else (if p.flag == 0x1B then 2 else 0) + if Has(p.stat, START) then 0 else 1
  }

  /** Every interrupt of a read goes on with the addressing or stores a batch, or a refusal ends it. */
  lemma ReadMoves(job: Job, line: seq<byte>, b: nat, p: Port, e: Event, q: Port)
    requires ReadSound(job, line, b, p) && ReadStep(job, line, p, e, q)
    ensures q.cur + Phase(q) + (if q.done then 1 else 0) > p.cur + Phase(p)
  {
    hide Has, With, Drop, Slots, Batch, Left, Interrupt, ReadHead, Total, Answer;
    ReadKeeps(job, line, b, p, e, q);
    Finds(p, e);
    ReadFlags();
    StartGone(Interrupt(p, e).stat);
  }

  // Having been dropped START stays so, whatever else the handler sets.
  lemma StartGone(stat: bv16)
    ensures var s := Drop(stat, START);
            !Has(Drop(s, SI), START) && !Has(Drop(With(s, STOP), SI), START) && !Has(Drop(With(s, ACK), SI), START)
  {
    hide Has, With, Drop, Slots, Batch;
    var s := Drop(stat, START);
    ClearBit(stat, START);
    OneBit(s, STOP, START);
    OneBit(s, ACK, START);
    Leaves(s);
    Leaves(With(s, STOP));
    Leaves(With(s, ACK));
  }

  /** Every state of every run is sound, and there are at most three interrupts besides those that store a batch and a
      refusal. */
  lemma {:induction false} ReadRunSound(job: Job, line: seq<byte>, stat: bv16, ports: seq<Port>, events: seq<Event>)
    requires ReadRun(job, line, ports, events) && ports[0] == Begun(job, true, stat) && !Has(stat, STOP)
    ensures ReadSound(job, line, Batch(Started(stat, ReadMode(job.count))), ports[|events|])
    ensures var q := ports[|events|]; |events| <= q.cur + Phase(q) + if q.done then 1 else 0
  {
    var b := Batch(Started(stat, ReadMode(job.count)));
    if events == [] {
      BegunBits(stat, ReadMode(job.count));
      FirstBatchFits(stat, job.count);
    } else {
      hide Has, With, Drop, Slots, Batch, Left, ReadIsr, Interrupt, ReadSound, Begun, Phase;
      var n := |events| - 1;
      ReadRunSound(job, line, stat, ports[..n + 1], events[..n]);
      assert ReadStep(job, line, ports[n], events[n], ports[n + 1]);
      ReadKeeps(job, line, b, ports[n], events[n], ports[n + 1]);
      ReadMoves(job, line, b, ports[n], events[n], ports[n + 1]);
    }
  }

  /** A read the slave acknowledges throughout ends with Total bytes of the slave's in the buffer, in order, the last
      one not acknowledged; and that is what the caller asked for exactly when 1 <= count < 256 + the first batch. */
  lemma ReadDelivers(job: Job, line: seq<byte>, stat: bv16, ports: seq<Port>, events: seq<Event>)
    requires ReadRun(job, line, ports, events) && ports[0] == Begun(job, true, stat) && !Has(stat, STOP)
    requires ports[|events|].done && forall i :: 0 <= i < |events| ==> events[i].acked
    ensures var q, b := ports[|events|], Batch(Started(stat, ReadMode(job.count)));
            |q.store| == Total(job.count, b) && q.store <= line && Has(q.stat, STOP) && !Has(q.stat, ACK) &&
            q.wire + q.fifo == ReadHead(job, if job.inner then 0x1B else 0x13) &&
            (|q.store| == job.count <==> 1 <= job.count < 256 + b)
  {
    hide Has, With, Drop, Slots, Batch, Left, ReadIsr, Interrupt, Total, ReadHead;
    var b, n := Batch(Started(stat, ReadMode(job.count))), |events| - 1;
    if events != [] {
      ReadRunSound(job, line, stat, ports[..n + 1], events[..n]);
      assert ReadStep(job, line, ports[n], events[n], ports[n + 1]);
      ReadKeeps(job, line, b, ports[n], events[n], ports[n + 1]);
      TotalExact(job.count, stat);
    }
  }

  // ----- What the handlers leave in the status register -----

  lemma SiCleared(s: bv16)
    ensures !Has(Drop(s, SI), SI)
  {
    ClearBit(s, SI);
  }

  lemma StartDropped(s: bv16)
    ensures !Has(Drop(Drop(s, START | MODE), SI), START)
  {
    hide Slots, Batch;
    assert !(START | MODE) & START == 0;
    assert (s & !(START | MODE)) & START == s & (!(START | MODE) & START);
    Leaves(Drop(s, START | MODE));
  }

  /** A write's handler clears the interrupt and START, so no start is repeated. */
  lemma WriteRegisters(job: Job, data: seq<byte>, p: Port)
    requires p.cur <= job.count <= |data|
    ensures var q := WriteIsr(job, data, p); !Has(q.stat, SI) && !Has(q.stat, START)
  {
    hide Has, With, Drop, WriteData;
    var s := Drop(p.stat, START);
    StartGone(p.stat);
    SiCleared(s);
    SiCleared(With(s, STOP));
    DataRegisters(job, data, p, s);
  }

  lemma DataRegisters(job: Job, data: seq<byte>, p: Port, s: bv16)
    requires p.cur <= job.count <= |data|
    ensures var q := WriteData(job, data, p, s);
            q.stat in {Drop(s, SI), Drop(With(s, STOP), SI), Drop(Drop(s, START | MODE), SI)} && !Has(q.stat, SI) &&
            (!Has(Drop(s, SI), START) && !Has(Drop(With(s, STOP), SI), START) ==> !Has(q.stat, START))
  {
    hide Has, With, Drop, Slots, Left;
    StartDropped(s);
    SiCleared(s);
    SiCleared(With(s, STOP));
    SiCleared(Drop(s, START | MODE));
  }

  /** A read's handler clears the interrupt; it repeats the start exactly once the register number has gone out, and
      when the start before the data was answered it acknowledges. */
  lemma ReadRegisters(job: Job, line: seq<byte>, b: nat, p: Port, e: Event, q: Port)
    requires ReadSound(job, line, b, p) && ReadStep(job, line, p, e, q)
    ensures !Has(q.stat, SI)
    ensures Has(q.stat, START) <==> p.flag == 0x0A && !(Has(p.stat, START) && !e.acked)
    ensures p.flag in {0x13, 0x1B} && Has(p.stat, START) && e.acked ==> Has(q.stat, ACK)
  {
    hide Has, With, Drop, Slots, Batch, Left, Interrupt, ReadHead, Total, Answer;
    ReadKeeps(job, line, b, p, e, q);
    var m := Interrupt(p, e);
    Finds(p, e);
    ReadFlags();
    var s := Drop(m.stat, START);
    StartGone(m.stat);
    SetBit(s, START);
    SetBit(s, ACK);
    Leaves(With(s, START));
    Leaves(With(s, ACK));
    SiCleared(s);
    SiCleared(With(s, STOP));
    SiCleared(With(s, ACK));
    SiCleared(With(s, START));
    SiCleared(Answer(s, Left(job.count, m.cur + Batch(s)), Batch(s)));
  }

  // ----- The two calls, interrupt by interrupt -----

  // The hardware's half of an interrupt: bytes go out, at least until `need` places are free, and the slave answers.
  method Raise(m: Master, need: nat, ghost store: seq<byte>) returns (ghost e: Event)
    requires need <= FIFO
    modifies m`stat, m`fifo, m`wire
    ensures e.drained <= |old(m.fifo)| && |old(m.fifo)| - e.drained + need <= FIFO
    ensures m.View(store) == Interrupt(old(m.View(store)), e)
  {
    hide With, Drop;
    assert |m.fifo| - |m.fifo| + need <= FIFO;
    var drained: nat :| drained <= |m.fifo| && |m.fifo| - drained + need <= FIFO;
    var acked: bool := *;
    e := Event(drained, acked);
    m.wire, m.fifo := m.wire + m.fifo[..drained], m.fifo[drained..];
    m.stat := With(m.stat, SI);
    m.stat := if acked then With(m.stat, ACK) else Drop(m.stat, ACK);
  }

  ghost predicate AllAcked(events: seq<Event>) {
    forall i :: 0 <= i < |events| ==> events[i].acked
  }

  /**
   * i2c2_write with interrupts arriving in time, whatever the slave answers and however fast the FIFO drains: it ends
   * after at most count % 256 + 2 interrupts, and what went out is the address bytes and count % 256 data bytes in
   * order, all of them when the slave acknowledges throughout.
   */
  method Write(m: Master, job: Job, buf: array<byte>)
    returns (started: bool, ghost ports: seq<Port>, ghost events: seq<Event>)
    requires job.count < U32 && job.count <= buf.Length && m.fifo == m.wire == [] && !Has(m.stat, STOP)
    modifies m
    ensures started == !old(m.transDone) && m.transDone == !started
    ensures started ==> WriteRun(job, buf[..], ports, events) && ports[0] == Begun(job, false, old(m.stat)) &&
                        ports[|events|] == m.View([]).(done := true) && |events| <= job.count % 256 + 2
    ensures started ==> m.wire + m.fifo <= Head(job, 0x13) + buf[..job.count % 256]
    ensures started && AllAcked(events) ==> m.wire + m.fifo == Head(job, 0x13) + buf[..job.count % 256]
  {
    hide Begun, Interrupt, WriteIsr, Head, Slots, Has;
    ghost var stat := m.stat;
    ports, events := [], [];
    started := m.SetUp(false, job, buf);
    if !started {
      return;
    }
    ports := [m.View([])];
    while !m.transDone
      invariant m.Request() == job && m.pData == buf
      invariant WriteRun(job, buf[..], ports, events) && ports[0] == Begun(job, false, stat)
      invariant ports[|events|] == m.View([]) && |events| <= job.count % 256 + 2
      decreases job.count % 256 + 2 - |events|
    {
      ghost var p := m.View([]);
      WriteBound(job, buf[..], stat, ports, events);
      ghost var e := Raise(m, Slots(m.stat), []);
      m.IsrWrite();
      assert WriteStep(job, buf[..], p, e, m.View([]));
      ports, events := ports + [m.View([])], events + [e];
      WriteBound(job, buf[..], stat, ports, events);
    }
    WriteBound(job, buf[..], stat, ports, events);
    if AllAcked(events) {
      WriteDelivers(job, buf[..], stat, ports, events);
    }
    m.transDone := false;
  }

  // What every run of a write keeps, in the terms of the loop.
  lemma WriteBound(job: Job, data: seq<byte>, stat: bv16, ports: seq<Port>, events: seq<Event>)
    requires WriteRun(job, data, ports, events) && ports[0] == Begun(job, false, stat)
    requires job.count <= |data| && !Has(stat, STOP)
    ensures var q := ports[|events|];
            q.cur <= job.count % 256 && |events| <= job.count % 256 + (if q.done then 2 else 1) &&
            q.wire + q.fifo <= Head(job, 0x13) + data[..job.count % 256]
  {
    WriteRunSound(job, data, stat, ports, events);
  }

  /** Where a read of these parameters stops. */
  function ReadTotal(job: Job, stat: bv16): nat {
    Total(job.count, Batch(Started(stat, ReadMode(job.count))))
  }

  /**
   * i2c2_read with interrupts arriving in time; `line` is everything the slave has to send. It ends after at most
   * ReadTotal + 4 interrupts. The bytes stored are the slave's, in order, with nothing else in the buffer changed; all
   * of them when the slave acknowledges throughout, and that many are asked for if and only if 1 <= count < 256 + the
   * first batch.
   */
  method Read(m: Master, job: Job, buf: array<byte>, line: seq<byte>)
    returns (started: bool, ghost ports: seq<Port>, ghost events: seq<Event>)
    requires job.count < U32 && m.fifo == m.wire == [] && !Has(m.stat, STOP)
    requires ReadTotal(job, m.stat) <= buf.Length && ReadTotal(job, m.stat) <= |line|
    modifies m, buf
    ensures started == !old(m.transDone) && m.transDone == !started
    ensures !started ==> buf[..] == old(buf[..])
    ensures started ==> ReadRun(job, line, ports, events) && ports[0] == Begun(job, true, old(m.stat)) &&
                        ports[|events|].done && |events| <= ReadTotal(job, old(m.stat)) + 4
    ensures started ==> m.currentNum <= ReadTotal(job, old(m.stat)) && buf[..m.currentNum] == line[..m.currentNum] &&
                        buf[m.currentNum..] == old(buf[..])[m.currentNum..]
    ensures started && AllAcked(events) ==>
              m.currentNum == ReadTotal(job, old(m.stat)) &&
              m.wire + m.fifo == ReadHead(job, if job.inner then 0x1B else 0x13) &&
              (m.currentNum == job.count <==> 1 <= job.count < 256 + Batch(Started(old(m.stat), ReadMode(job.count))))
  {
    ghost var stat := m.stat;
    assert Begun(job, true, stat).cur == 0;
    hide Begun, ReadStep, Batch, Has, ReadTotal, ReadHead, ReadRun;
    ports, events := [], [];
    started := m.SetUp(true, job, buf);
    if !started {
      return;
    }
    assert buf[..0] == [];
    ports, events := ReadToEnd(m, job, line, stat);
    if AllAcked(events) {
      ReadDelivers(job, line, stat, ports, events);
    }
    m.transDone := false;
  }

  // The interrupts of a read that has been set up.
  method ReadToEnd(m: Master, job: Job, line: seq<byte>, ghost stat: bv16)
    returns (ghost ports: seq<Port>, ghost events: seq<Event>)
    requires !m.transDone && m.currentNum == 0 && m.View([]) == Begun(job, true, stat) && m.Request() == job
    requires !Has(stat, STOP) && ReadTotal(job, stat) <= m.pData.Length && ReadTotal(job, stat) <= |line|
    modifies m, m.pData
    ensures m.transDone && m.pData == old(m.pData)
    ensures ReadRun(job, line, ports, events) && ports[0] == Begun(job, true, stat)
    ensures m.currentNum <= m.pData.Length && ports[|events|] == m.View(m.pData[..m.currentNum])
    ensures m.currentNum <= ReadTotal(job, stat) && m.pData[..m.currentNum] == line[..m.currentNum]
    ensures m.pData[m.currentNum..] == old(m.pData[..])[m.currentNum..]
    ensures |events| <= ReadTotal(job, stat) + 4
  {
    hide Begun, ReadStep, Batch, Has, ReadTotal;
    ghost var buf, before := m.pData, m.pData[..];
    assert buf[..0] == [];
    ports, events := [m.View([])], [];
    while !m.transDone
      invariant m.Request() == job && m.pData == buf && m.currentNum <= buf.Length
      invariant ReadRun(job, line, ports, events) && ports[0] == Begun(job, true, stat)
      invariant ports[|events|] == m.View(buf[..m.currentNum])
      invariant buf[m.currentNum..] == before[m.currentNum..] && |events| <= ReadTotal(job, stat) + 4
      decreases ReadTotal(job, stat) + 4 - |events|
    {
      ReadBound(job, line, stat, ports, events);
      ghost var e := ReadInterrupt(m, line);
      ports, events := ports + [m.View(buf[..m.currentNum])], events + [e];
      ReadBound(job, line, stat, ports, events);
    }
    ReadBound(job, line, stat, ports, events);
  }

  // One interrupt of a read: what the handler finds in the receive FIFO is the slave's next batch.
  method ReadInterrupt(m: Master, line: seq<byte>) returns (ghost e: Event)
    requires !m.transDone && m.currentNum + Batch(m.stat) <= m.pData.Length && m.currentNum + Batch(m.stat) <= |line|
    modifies m, m.pData
    ensures m.Request() == old(m.Request()) && m.pData == old(m.pData)
    ensures old(m.currentNum) <= m.currentNum <= m.pData.Length
    ensures m.pData[m.currentNum..] == old(m.pData[..])[m.currentNum..]
    ensures ReadStep(m.Request(), line, old(m.View(m.pData[..m.currentNum])), e, m.View(m.pData[..m.currentNum]))
  {
    hide Interrupt, ReadIsr, Batch, Takes, Drop;
    ghost var p := m.View(m.pData[..m.currentNum]);
    e := Raise(m, 0, p.store);
    NextBatch(p, e);
    var rx := [];
    if Takes(m.View([])) {
      rx := line[m.currentNum..m.currentNum + Batch(Drop(m.stat, START))];
    }
    assert Takes(m.View([])) == Takes(m.View(p.store)) by {
      SameTakes(m.View([]), p.store);
    }
    m.IsrRead(rx, line);
  }

  lemma SameTakes(p: Port, store: seq<byte>)
    ensures Takes(p) == Takes(p.(store := store))
  {
  }

  // What every run of a read keeps, in the terms of the loop.
  lemma ReadBound(job: Job, line: seq<byte>, stat: bv16, ports: seq<Port>, events: seq<Event>)
    requires ReadRun(job, line, ports, events) && ports[0] == Begun(job, true, stat) && !Has(stat, STOP)
    ensures var q := ports[|events|];
            q.cur <= ReadTotal(job, stat) && q.cur <= |line| && q.store == line[..q.cur] &&
            |events| <= ReadTotal(job, stat) + (if q.done then 4 else 3) &&
            (!q.done ==> q.cur + Batch(q.stat) <= ReadTotal(job, stat))
  {
    ReadRunSound(job, line, stat, ports, events);
  }

  lemma NextBatch(p: Port, e: Event)
    requires e.drained <= |p.fifo|
    ensures Batch(Drop(Interrupt(p, e).stat, START)) == Batch(p.stat)
  {
    Finds(p, e);
    KeepsMode(Interrupt(p, e).stat, START);
  }

  // ----- A register device on the bus -----

  /** 256 registers behind an address of seven bits. */
  datatype Slave = Slave(id: nat, regs: seq<byte>)

  predicate SlaveOk(d: Slave) {
    |d.regs| == 256
  }

  // Bytes stored from register `at` on, around the end.
  function StoreFrom(regs: seq<byte>, at: nat, data: seq<byte>): (r: seq<byte>)
    requires |regs| == 256
    ensures |r| == 256
  {
    seq(256, j requires 0 <= j < 256 => if (j - at) % 256 < |data| then data[(j - at) % 256] else regs[j])
  }

  // ... and read from there.
  function ReadFrom(regs: seq<byte>, at: nat, n: nat): (r: seq<byte>)
    requires |regs| == 256
    ensures |r| == n
  {
    seq(n, i requires 0 <= i => regs[(at + i) % 256])
  }

  lemma StoreThenRead(regs: seq<byte>, at: nat, data: seq<byte>)
    requires |regs| == 256 && |data| <= 256
    ensures ReadFrom(StoreFrom(regs, at, data), at, |data|) == data
  {
    var after := StoreFrom(regs, at, data);
    hide StoreFrom;
    forall i | 0 <= i < |data|
      ensures ReadFrom(after, at, |data|)[i] == data[i]
    {
      Offset(at, i);
      StoredAt(regs, at, data, (at + i) % 256);
    }
  }

  lemma StoredAt(regs: seq<byte>, at: nat, data: seq<byte>, j: nat)
    requires |regs| == 256 && j < 256
    ensures StoreFrom(regs, at, data)[j] == if (j - at) % 256 < |data| then data[(j - at) % 256] else regs[j]
  {
  }

  lemma Offset(at: nat, i: nat)
    requires i < 256
    ensures ((at + i) % 256 - at) % 256 == i
  {
    ModUnique((at + i) % 256 - at, 256, -((at + i) / 256), i);
  }

  /** What a write transfer does to the device: its address, a register number, data. */
  function AfterWrite(d: Slave, sent: seq<byte>): Slave
    requires SlaveOk(d)
  {
    if |sent| < 2 || sent[0] / 2 != d.id || sent[0] % 2 != 0 then d
    else d.(regs := StoreFrom(d.regs, sent[1], sent[2..]))
  }

  /** What it returns on a read transfer: its address, a register number, and its address again, asking to read. */
  predicate Asked(d: Slave, sent: seq<byte>, at: nat) {
    |sent| == 3 && sent[0] / 2 == d.id && sent[0] % 2 == 0 && sent[1] == at && sent[2] / 2 == d.id && sent[2] % 2 == 1
  }

  /** Between two transfers the FIFO runs empty and STOP clears. */
  method GoesIdle(m: Master)
    modifies m`stat, m`fifo, m`wire
    ensures m.fifo == m.wire == [] && !Has(m.stat, STOP)
  {
    m.fifo, m.wire := [], [];
    ClearBit(m.stat, STOP);
    m.stat := Drop(m.stat, STOP);
  }

  /**
   * A write and a read with a register number over one device: the device asked is the one with the request's address,
   * and when everything is acknowledged it holds the data in the registers from that number on, and the read asks for
   * these and returns them.
   */
  method RoundTrip(m: Master, job: Job, d: Slave, out: array<byte>, back: array<byte>)
    returns (after: Slave, ghost first: seq<Event>, ghost second: seq<Event>)
    requires !m.transDone && m.fifo == m.wire == [] && !Has(m.stat, STOP) && out != back
    requires job.inner && 1 <= job.count < 256 && job.count <= out.Length && job.count <= back.Length
    requires SlaveOk(d) && d.id == job.addr % 128
    modifies m, back
    ensures SlaveOk(after) && after.id == d.id
    ensures AllAcked(first) ==> after.regs == StoreFrom(d.regs, job.innerAddr, out[..job.count])
    ensures AllAcked(first) && AllAcked(second) ==>
              back[..job.count] == out[..job.count] && Asked(after, m.wire + m.fifo, job.innerAddr)
  {
    ghost var ports;
    var started;
    started, ports, first := Write(m, job, out);
    after := AfterWrite(d, m.wire + m.fifo);
    SentTo(job, d, m.wire + m.fifo, out[..job.count]);
    GoesIdle(m);
    var line := ReadFrom(after.regs, job.innerAddr, job.count);
    ReadExact(job, m.stat);
    ghost var stat := m.stat;
    started, ports, second := Read(m, job, back, line);
    if AllAcked(first) && AllAcked(second) {
      StoreThenRead(d.regs, job.innerAddr, out[..job.count]);
      AskedBytes(job, after);
      assert line[..job.count] == line;
    }
  }

  lemma ReadExact(job: Job, stat: bv16)
    requires 1 <= job.count < 256
    ensures ReadTotal(job, stat) == job.count
  {
    TotalExact(job.count, stat);
    hide Started, Batch;
  }

  lemma AskedBytes(job: Job, d: Slave)
    requires job.inner && d.id == job.addr % 128
    ensures Asked(d, ReadHead(job, 0x1B), job.innerAddr)
  {
    AddressBytes(job.addr);
    hide WriteAddress, ReadAddress;
  }

  /** What a write sends, whole or cut off, stores in the device with its address ... */
  lemma SentTo(job: Job, d: Slave, sent: seq<byte>, data: seq<byte>)
    requires job.inner && SlaveOk(d) && d.id == job.addr % 128 && sent <= Head(job, 0x13) + data
    ensures SlaveOk(AfterWrite(d, sent)) && AfterWrite(d, sent).id == d.id
    ensures sent == Head(job, 0x13) + data ==> AfterWrite(d, sent).regs == StoreFrom(d.regs, job.innerAddr, data)
  {
    AddressBytes(job.addr);
    hide WriteAddress, StoreFrom;
    var whole := Head(job, 0x13) + data;
    assert whole[0] == WriteAddress(job.addr) && whole[1] == job.innerAddr && whole[2..] == data;
  }

  /** ... and in no other; nor does another take a read for itself. */
  lemma NotToOthers(job: Job, d: Slave, sent: seq<byte>, data: seq<byte>, at: nat)
    requires SlaveOk(d) && d.id != job.addr % 128
    ensures sent <= Head(job, 0x13) + data ==> AfterWrite(d, sent) == d
    ensures !Asked(d, ReadHead(job, 0x1B), at)
  {
    AddressBytes(job.addr);
    hide WriteAddress, ReadAddress, StoreFrom;
    assert (Head(job, 0x13) + data)[0] == WriteAddress(job.addr);
  }
}
