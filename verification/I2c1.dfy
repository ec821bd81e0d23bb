/** The interrupt-driven I2C1 master: one interrupt per bus byte, and the bus traffic of whole transfers. */
module I2c1 {
  import opened Bits

  datatype Option<+T> = None | Some(value: T)

  const ADDR_WIDTH_8 := 1
  const ADDR_WIDTH_16 := 2

  /** What the bus sees: a (repeated) start, a byte from the master, a byte from the slave with its answer, a stop. */
  datatype Event = Start | Sent(b: byte) | Got(b: byte, ack: bool) | Stop

  /** The bits of AddrFlag in use: 0x01, 0x02, 0x08 and 0x10. */
  datatype Flag = Flag(b01: bool, b02: bool, b08: bool, b10: bool)

  const NO_FLAG := Flag(false, false, false, false)

  /** A transfer's parameters: 7-bit slave address, register address and its width. */
  datatype Request = Request(slaveId: nat, regAddr: nat, addrWidth: nat)

  predicate RequestOk(q: Request) {
    q.slaveId < 0x100 && q.regAddr < 0x1_0000 && (q.addrWidth == ADDR_WIDTH_8 || q.addrWidth == ADDR_WIDTH_16)
  }

  /** What an interrupt changes: gi2c1 and the configuration register. */
  datatype State = State(flag: Flag, remain: nat, done: bool, errorNo: nat, sta: bool, ackTx: bool, txMode: bool)

  function WriteAddr(q: Request): byte {
    q.slaveId % 0x80 * 2
  }

  function ReadAddr(q: Request): byte {
    (q.slaveId * 2 + 1) % 0x100
  }

  // ----- One interrupt -----

  /** The master-write branch of i2c1_isr; `next` is the byte pData points at. */
  function WriteIsr(q: Request, s: State, ack: bool, next: byte): (State, seq<Event>)
    requires RequestOk(q)
  {
    var s0 := s.(sta := false);
    if !ack then (s0.(done := true, errorNo := 1), [Stop])
    else if s.flag.b10 then
      if s.remain == 0 then (s0.(done := true), [Stop]) else (s0.(remain := s.remain - 1), [Sent(next)])
    else if !s.flag.b08 then
      if q.addrWidth == ADDR_WIDTH_8
      then (s0.(flag := s.flag.(b01 := true, b02 := true, b10 := true)), [Sent(q.regAddr % 0x100)])
      else (s0.(flag := s.flag.(b08 := true)), [Sent(q.regAddr / 0x100)])
    else (s0.(flag := s.flag.(b10 := true)), [Sent(q.regAddr % 0x100)])
  }

  /** The master-read branch; the third result says whether the byte in the data register was stored. */
  function ReadIsr(q: Request, s: State, ack: bool, dat: byte): (State, seq<Event>, bool)
    requires RequestOk(q)
  {
    var s0 := s.(sta := false);
    if !s.flag.b10 && !ack then (s0.(done := true, errorNo := 1), [Stop], false)
    else if s.sta && !ack then (s0.(done := true), [Stop], false)
    else if s.flag.b10 then
      if s.sta then (s0.(txMode := false, ackTx := true), [], false)
      else
        var remain := (s.remain - 1) % 0x1_0000;
        if remain == 0
        then (s0.(txMode := false, ackTx := false, remain := remain, done := true), [Got(dat, false), Stop], true)
        else (s0.(txMode := false, ackTx := true, remain := remain), [Got(dat, true)], true)
    else if !s.flag.b08 then
      if q.addrWidth == ADDR_WIDTH_8
      then (s0.(flag := s.flag.(b01 := false, b08 := true, b02 := true)), [Sent(q.regAddr % 0x100)], false)
      else (s0.(flag := s.flag.(b01 := false, b02 := false, b08 := true)), [Sent(q.regAddr / 0x100)], false)
    else if !s.flag.b02
    then (s0.(flag := s.flag.(b01 := false, b08 := true, b02 := true)), [Sent(q.regAddr % 0x100)], false)
    else (s0.(sta := true, flag := s.flag.(b01 := true, b02 := true, b10 := true)), [Start, Sent(ReadAddr(q))], false)
  }

  // ----- Where a transfer stands -----

  /** Register address bytes, high byte first. */
  function RegBytes(q: Request): (r: seq<byte>)
    requires RequestOk(q)
    ensures |r| == q.addrWidth
  {
    if q.addrWidth == ADDR_WIDTH_8 then [q.regAddr % 0x100] else [q.regAddr / 0x100, q.regAddr % 0x100]
  }

  /** Everything a write transfer sends. */
  function WriteBytes(q: Request, data: seq<byte>): (r: seq<byte>)
    requires RequestOk(q)
    ensures |r| == 1 + q.addrWidth + |data|
  {
    [WriteAddr(q)] + RegBytes(q) + data
  }

  /** The state while the c-th byte of a write is on the bus; `ack` is a leftover of ACK_TX. */
  function WriteState(q: Request, n: nat, c: nat, ack: bool): State
    requires RequestOk(q) && 1 <= c <= 1 + q.addrWidth + n
  {
    var addressed := c >= 1 + q.addrWidth;
    State(if c == 1 then NO_FLAG
          else if q.addrWidth == ADDR_WIDTH_8 then Flag(true, true, false, true)
          else Flag(false, false, true, addressed),
          if addressed then n - (c - 1 - q.addrWidth) else n,
          false, 0, c == 1, ack, true)
  }

  /** One interrupt of a write: the next byte, or the stop when all are out or one was refused. */
  lemma WriteStep(q: Request, data: seq<byte>, c: nat, a: bool, ack: bool, next: byte)
    requires RequestOk(q) && 1 <= c <= |WriteBytes(q, data)|
    requires 1 + q.addrWidth <= c < |WriteBytes(q, data)| ==> next == data[c - 1 - q.addrWidth]
    ensures var (s, events) := WriteIsr(q, WriteState(q, |data|, c, a), ack, next);
            if ack && c < |WriteBytes(q, data)|
            then s == WriteState(q, |data|, c + 1, a) && events == [Sent(WriteBytes(q, data)[c])]
            else s.done && s.errorNo == (if ack then 0 else 1) && events == [Stop]
  {
  }

  /** The bytes a read transfer sends before it receives. */
  function ReadBytes(q: Request): (r: seq<byte>)
    requires RequestOk(q)
    ensures |r| == 2 + q.addrWidth
  {
    [WriteAddr(q)] + RegBytes(q) + [ReadAddr(q)]
  }

  function ReadState(q: Request, n: nat, c: nat, ack: bool): State
    requires RequestOk(q) && 1 <= c <= 2 + q.addrWidth
  {
    State(if c == 1 then NO_FLAG
          else if c == 2 + q.addrWidth then Flag(true, true, true, true)
          else Flag(false, c == 1 + q.addrWidth, true, false),
          n % 0x1_0000, false, 0, c == 1 || c == 2 + q.addrWidth, ack, true)
  }

  /** The state with i of n bytes received. */
  function ReceiveState(n: nat, i: nat): State
    requires i < n
  {
    State(Flag(true, true, true, true), (n - i) % 0x1_0000, false, 0, false, true, false)
  }

  /** One interrupt while addressing: a refusal stops the transfer, but only before the repeated start is it
      an error. */
  lemma AddressStep(q: Request, n: nat, c: nat, a: bool, ack: bool, dat: byte)
    requires RequestOk(q) && 1 <= n <= 0x1_0000 && 1 <= c <= 2 + q.addrWidth
    ensures var (s, events, stored) := ReadIsr(q, ReadState(q, n, c, a), ack, dat);
            !stored &&
            if !ack then s.done && s.errorNo == (if c <= 1 + q.addrWidth then 1 else 0) && events == [Stop]
            else if c == 2 + q.addrWidth then s == ReceiveState(n, 0) && events == []
            else s == ReadState(q, n, c + 1, a) &&
                 events == (if c == 1 + q.addrWidth then [Start] else []) + [Sent(ReadBytes(q)[c])]
  {
  }

  /** One interrupt while receiving: every byte is stored, and all but the last are acknowledged. */
  lemma ReceiveStep(q: Request, n: nat, i: nat, ack: bool, dat: byte)
    requires RequestOk(q) && i < n <= 0x1_0000
    ensures var (s, events, stored) := ReadIsr(q, ReceiveState(n, i), ack, dat);
            stored &&
            if i + 1 < n then s == ReceiveState(n, i + 1) && events == [Got(dat, true)]
            else s.done && s.errorNo == 0 && events == [Got(dat, false), Stop]
  {
  }

  /** The controller transmits until the read address is answered, and receives from then on, acknowledging every byte
      but the last. */
  lemma Direction(q: Request, s: State, ack: bool, dat: byte)
    requires RequestOk(q) && (s.flag.b10 && !s.sta ==> !s.txMode) && s.remain < 0x1_0000
    ensures var (r, events, stored) := ReadIsr(q, s, ack, dat);
            (r.txMode <==> s.txMode && !(s.flag.b10 && s.sta && ack)) &&
            (s.flag.b10 && s.sta && ack ==> r.ackTx) && (stored ==> !r.txMode && (r.ackTx <==> s.remain != 1))
  {
  }

  // ----- Bus traffic of whole transfers -----

  function SentAll(bytes: seq<byte>): (r: seq<Event>)
    ensures |r| == |bytes|
  {
    seq(|bytes|, i requires 0 <= i < |bytes| => Sent(bytes[i]))
  }

  /** Received bytes: the last one is refused, the others acknowledged. */
  function GotAll(bytes: seq<byte>, n: nat): (r: seq<Event>)
    ensures |r| == |bytes|
  {
    seq(|bytes|, i requires 0 <= i < |bytes| => Got(bytes[i], i + 1 < n))
  }

  /** A write after c bytes: a start and the bytes. */
  function WriteTrace(q: Request, data: seq<byte>, c: nat): seq<Event>
    requires RequestOk(q) && c <= |WriteBytes(q, data)|
  {
    [Start] + SentAll(WriteBytes(q, data)[..c])
  }

  /** The addressing of a read after c bytes: a start, the register address, a repeated start, the read address. */
  function AddressTrace(q: Request, c: nat): seq<Event>
    requires RequestOk(q) && 1 <= c <= 2 + q.addrWidth
  {
    if c == 2 + q.addrWidth
    then [Start] + SentAll(ReadBytes(q)[..c - 1]) + [Start, Sent(ReadAddr(q))]
    else [Start] + SentAll(ReadBytes(q)[..c])
  }

  lemma WriteTraceGrows(q: Request, data: seq<byte>, c: nat)
    requires RequestOk(q) && c < |WriteBytes(q, data)|
    ensures WriteTrace(q, data, c + 1) == WriteTrace(q, data, c) + [Sent(WriteBytes(q, data)[c])]
  {
  }

  lemma AddressTraceGrows(q: Request, c: nat)
    requires RequestOk(q) && 1 <= c < 2 + q.addrWidth
    ensures AddressTrace(q, c + 1)
         == AddressTrace(q, c) + ((if c == 1 + q.addrWidth then [Start] else []) + [Sent(ReadBytes(q)[c])])
  {
  }

  // ----- The 16-bit remaining count -----

  /** Data bytes of a write that is asked for count bytes. */
  function Written(count: nat): nat {
    count % 0x1_0000
  }

  /** Bytes a read takes: a remaining count of zero only comes back to zero after all 2^16 values. */
  function Taken(count: nat): (n: nat)
    ensures 1 <= n <= 0x1_0000 && n % 0x1_0000 == count % 0x1_0000
  {
    if count % 0x1_0000 == 0 then 0x1_0000 else count % 0x1_0000
  }

  /** Reads take what they are asked for exactly for counts from 1 to 2^16; a read of nothing stores 2^16 bytes. */
  lemma TakenExact(count: nat)
    ensures Taken(count) == count <==> 1 <= count <= 0x1_0000
    ensures Taken(count) > count <==> count == 0
  {
  }

  // A write of fewer bytes puts another trace on the bus.
  lemma WholeTrace(q: Request, data: seq<byte>, n: nat)
    requires RequestOk(q) && n <= |data|
    ensures |WriteTrace(q, data[..n], 1 + q.addrWidth + n)| == 2 + q.addrWidth + n
    ensures |WriteTrace(q, data, 1 + q.addrWidth + |data|)| == 2 + q.addrWidth + |data|
    ensures n == |data| ==> data[..n] == data
  {
  }

  // ----- The code -----

  class Master {
    var slaveId: nat
    var regAddr: nat
    var addrWidth: nat
    var flag: Flag
    var remainNum: nat
    var pData: nat
    var user: array<byte>
    var transDone: bool
    var errorNO: nat
    var txMode: bool
    // STA, ACK_TX and TX_MODE of the configuration register; STO clears itself.
    var sta: bool
    var ackTx: bool
    var cfgTx: bool
    var bus: seq<Event>

    constructor (user: array<byte>)
      ensures !transDone && bus == []
    {
      slaveId, regAddr, addrWidth, flag, remainNum, pData := 0, 0, 0, NO_FLAG, 0, 0;
      transDone, errorNO, txMode, sta, ackTx, cfgTx, bus := false, 0, false, false, false, false, [];
      this.user := user;
    }

    ghost function Req(): Request
      reads this
    {
      Request(slaveId, regAddr, addrWidth)
    }

    ghost function View(): State
      reads this
    {
      State(flag, remainNum, transDone, errorNO, sta, ackTx, cfgTx)
    }

    /** The two register writes that end the handler, and what the hardware makes of them. */
    method Finish(start: bool, out: Option<byte>, got: Option<byte>, stop: bool)
      modifies this`sta, this`bus
      ensures sta == start
      ensures bus == old(bus) + (if start then [Start] else []) + (if out.Some? then [Sent(out.value)] else []) +
                     (if got.Some? then [Got(got.value, ackTx)] else []) + (if stop then [Stop] else [])
    {
      sta := start;
      if start {
        bus := bus + [Start];
      }
      if out.Some? {
        bus := bus + [Sent(out.value)];
      }
      if got.Some? {
        bus := bus + [Got(got.value, ackTx)];
      }
      if stop {
        bus := bus + [Stop];
      }
    }

    /** i2c1_isr in a write: `ackRx` is the slave's answer to the byte before. */
    method IsrWrite(ackRx: bool)
      requires RequestOk(Req()) && (flag.b10 && remainNum > 0 ==> pData < user.Length)
      modifies this
      ensures Req() == old(Req()) && user == old(user)
      ensures var next := if old(pData) < user.Length then user[old(pData)] else 0;
              var (s, events) := WriteIsr(Req(), old(View()), ackRx, next);
              View() == s && bus == old(bus) + events
      ensures pData == old(pData) + if ackRx && old(flag).b10 && old(remainNum) > 0 then 1 else 0
    {
      var out, stop := None, false;
      if !ackRx {
        stop := true;
        transDone := true;
        errorNO := 1;
      } else if flag.b10 {
        if remainNum == 0 {
          stop := true;
          transDone := true;
        } else {
          out := Some(user[pData]);
          pData := pData + 1;
          remainNum := remainNum - 1;
        }
      } else if !flag.b08 {
        if addrWidth == ADDR_WIDTH_8 {
          out := Some(regAddr % 0x100);
          flag := flag.(b01 := true, b02 := true, b10 := true);
        } else if addrWidth == ADDR_WIDTH_16 {
          out := Some(regAddr / 0x100);
          flag := flag.(b08 := true);
        }
      } else {
        out := Some(regAddr % 0x100);
        flag := flag.(b10 := true);
      }
      Finish(false, out, None, stop);
    }

    /** i2c1_isr in a read; `dat` is the data register. */
    method IsrRead(ackRx: bool, dat: byte)
      requires RequestOk(Req()) && (flag.b10 && !sta ==> pData < user.Length)
      modifies this, user
      ensures Req() == old(Req()) && user == old(user)
      ensures var (s, events, stored) := ReadIsr(Req(), old(View()), ackRx, dat);
              View() == s && bus == old(bus) + events &&
              pData == old(pData) + (if stored then 1 else 0) &&
              user[..] == if stored && old(pData) < user.Length then old(user[..])[old(pData) := dat] else old(user[..])
    {
      var start, out, got, stop := false, None, None, false;
      if !flag.b10 && !ackRx {
        stop := true;
        transDone := true;
        errorNO := 1;
      } else if sta && !ackRx {
        stop := true;
        transDone := true;
      } else if flag.b10 {
        cfgTx := false;
        if sta {
          ackTx := true;
        } else {
          got := Some(dat);
          user[pData] := dat;
          pData := pData + 1;
          remainNum := (remainNum - 1) % 0x1_0000;
          if remainNum == 0 {
            ackTx := false;
            stop := true;
            transDone := true;
          } else {
            ackTx := true;
          }
        }
      } else if !flag.b08 {
        if addrWidth == ADDR_WIDTH_8 {
          out := Some(regAddr % 0x100);
          flag := flag.(b01 := false, b08 := true, b02 := true);
        } else if addrWidth == ADDR_WIDTH_16 {
          out := Some(regAddr / 0x100);
          flag := flag.(b01 := false, b02 := false, b08 := true);
        }
      } else if !flag.b02 {
        out := Some(regAddr % 0x100);
        flag := flag.(b01 := false, b08 := true, b02 := true);
      } else {
        start := true;
        out := Some(ReadAddr(Request(slaveId, regAddr, addrWidth)));
        flag := flag.(b01 := true, b02 := true, b10 := true);
      }
      Finish(start, out, got, stop);
    }

    /** The common set-up of i2c1_read and i2c1_write: parameters, then a start and the write address. */
    method SetUp(q: Request, userBuf: array<byte>, count: nat, write: bool)
      requires RequestOk(q)
      modifies this
      ensures Req() == q && user == userBuf && pData == 0 && ackTx == old(ackTx)
      ensures View() == State(NO_FLAG, count % 0x1_0000, false, 0, true, ackTx, true)
      ensures bus == old(bus) + [Start, Sent(WriteAddr(q))]
    {
      hide WriteAddr;
      txMode := write;
      regAddr, remainNum, user, pData := q.regAddr, count % 0x1_0000, userBuf, 0;
      slaveId, flag, transDone, errorNO, addrWidth := q.slaveId, NO_FLAG, false, 0, q.addrWidth;
      cfgTx := true;
      Finish(true, Some(WriteAddr(q)), None, false);
    }

    /**
     * i2c1_write with interrupts arriving in time: `acks` are the slave's answers, byte by byte. The bus carries
     * a start, the address, the register address high byte first and the data in order, up to the first refused
     * byte, and a stop; one interrupt per byte; and the result is 0 exactly when every byte sent was acknowledged.
     * The data is count modulo 2^16 bytes: a successful write is the one asked for exactly for counts below 2^16.
     */
    method Write(q: Request, userBuf: array<byte>, count: nat, acks: seq<bool>) returns (err: nat, interrupts: nat)
      requires RequestOk(q) && !transDone && count <= userBuf.Length && count < U32
      requires |acks| >= 1 + q.addrWidth + Written(count)
      modifies this
      ensures !transDone && 1 <= interrupts <= 1 + q.addrWidth + Written(count)
      ensures forall i :: 0 <= i < interrupts - 1 ==> acks[i]
      ensures if acks[interrupts - 1] then err == 0 && interrupts == 1 + q.addrWidth + Written(count) else err == 1
      ensures bus == old(bus) + WriteTrace(q, userBuf[..Written(count)], interrupts) + [Stop]
      ensures err == 0 ==>
                (count < 0x1_0000 <==>
                 bus == old(bus) + WriteTrace(q, userBuf[..count], 1 + q.addrWidth + count) + [Stop])
    {
      hide WriteIsr, WriteState, WriteTrace, WriteBytes;
      var n := Written(count);
      ghost var data, a := userBuf[..n], ackTx;
      SetUp(q, userBuf, count, true);
      interrupts := 0;
      WriteStart(q, data, a);
      while !transDone
        invariant Req() == q && user == userBuf && userBuf[..n] == data &&
                  0 <= interrupts <= 1 + q.addrWidth + n
        invariant forall i :: 0 <= i < interrupts - 1 ==> acks[i]
        invariant !transDone ==> interrupts < 1 + q.addrWidth + n &&
                                 View() == WriteState(q, n, interrupts + 1, a) &&
                                 bus == old(bus) + WriteTrace(q, data, interrupts + 1) &&
                                 (interrupts > 0 ==> acks[interrupts - 1]) &&
                                 pData == DataPos(q, interrupts + 1)
        invariant transDone ==> interrupts >= 1 && bus == old(bus) + WriteTrace(q, data, interrupts) + [Stop] &&
                                errorNO == (if acks[interrupts - 1] then 0 else 1) &&
                                (acks[interrupts - 1] ==> interrupts == 1 + q.addrWidth + n)
        decreases !transDone, 1 + q.addrWidth + n - interrupts
      {
        ghost var c := interrupts + 1;
        WriteStateIs(q, n, c, a);
        ghost var next := if pData < user.Length then user[pData] else 0;
        WriteStep(q, data, c, a, acks[interrupts], next);
        if c < 1 + q.addrWidth + n {
          WriteTraceGrows(q, data, c);
          WriteStateIs(q, n, c + 1, a);
        }
        IsrWrite(acks[interrupts]);
        interrupts := interrupts + 1;
      }
      WholeTrace(q, userBuf[..count], n);
      assert userBuf[..count][..n] == data;
      err := errorNO;
      transDone := false;
    }

    /**
     * i2c1_read with interrupts arriving in time: `acks` are the slave's answers to the bytes sent, `supply` the
     * bytes it returns. When all is acknowledged the buffer is filled in order and only the last byte is refused; the
     * number of bytes is count modulo 2^16, or 2^16 where that is zero. A refusal stops the transfer and leaves the
     * buffer alone; the result reports it only when it came before the repeated start, so a slave that refuses the
     * read address looks like a successful read.
     */
    method Read(q: Request, userBuf: array<byte>, count: nat, acks: seq<bool>, supply: seq<byte>)
      returns (err: nat, interrupts: nat)
      requires RequestOk(q) && !transDone && count < U32 && Taken(count) <= userBuf.Length
      requires |acks| == 2 + q.addrWidth && |supply| >= Taken(count)
      modifies this, userBuf
      ensures !transDone
      ensures (forall i :: 0 <= i < |acks| ==> acks[i]) ==>
                var n := Taken(count);
                err == 0 && interrupts == q.addrWidth + n + 2 && userBuf[..n] == supply[..n] &&
                bus == old(bus) + AddressTrace(q, 2 + q.addrWidth) + GotAll(supply[..n], n) + [Stop]
      ensures (exists i :: 0 <= i < |acks| && !acks[i]) ==>
                1 <= interrupts <= |acks| && !acks[interrupts - 1] &&
                (forall i :: 0 <= i < interrupts - 1 ==> acks[i]) &&
                bus == old(bus) + AddressTrace(q, interrupts) + [Stop] && userBuf[..] == old(userBuf[..]) &&
                err == if interrupts < |acks| then 1 else 0
      ensures userBuf[Taken(count)..] == old(userBuf[Taken(count)..])
    {
      hide ReadIsr, ReadState, AddressTrace, ReadBytes, ReceiveState;
      var n := Taken(count);
      ghost var a, before := ackTx, bus;
      SetUp(q, userBuf, count, false);
      ReadStart(q, n, a);
      interrupts := 0;
      while !transDone && interrupts < 2 + q.addrWidth
        invariant Req() == q && user == userBuf && 0 <= interrupts <= 2 + q.addrWidth && pData == 0
        invariant userBuf[..] == old(userBuf[..])
        invariant forall i :: 0 <= i < interrupts - 1 ==> acks[i]
        invariant !transDone ==> (interrupts > 0 ==> acks[interrupts - 1]) &&
                                 if interrupts < 2 + q.addrWidth
                                 then View() == ReadState(q, n, interrupts + 1, a) &&
                                      bus == before + AddressTrace(q, interrupts + 1)
                                 else View() == ReceiveState(n, 0) && bus == before + AddressTrace(q, interrupts)
        invariant transDone ==> interrupts >= 1 && !acks[interrupts - 1] &&
                                bus == before + AddressTrace(q, interrupts) + [Stop] &&
                                errorNO == (if interrupts < 2 + q.addrWidth then 1 else 0)
        decreases !transDone, 2 + q.addrWidth - interrupts
      {
        ghost var c := interrupts + 1;
        ReadStateIs(q, n, c, a);
        AddressStep(q, n, c, a, acks[interrupts], 0);
        if c < 2 + q.addrWidth {
          AddressTraceGrows(q, c);
          ReadStateIs(q, n, c + 1, a);
        }
        ReceiveStateIs(n, 0);
        IsrRead(acks[interrupts], 0);
        interrupts := interrupts + 1;
      }
      if !transDone {
        ReceiveAll(q, userBuf, n, supply);
        interrupts := interrupts + n;
      }
      err := errorNO;
      transDone := false;
    }

    /** The receiving half: one interrupt a byte. */
    method ReceiveAll(q: Request, userBuf: array<byte>, count: nat, supply: seq<byte>)
      requires RequestOk(q) && Req() == q && user == userBuf && pData == 0 && 1 <= count <= userBuf.Length
      requires count <= 0x1_0000 && |supply| >= count && View() == ReceiveState(count, 0)
      modifies this, userBuf
      ensures transDone && errorNO == 0 && userBuf[..count] == supply[..count]
      ensures userBuf[count..] == old(userBuf[count..])
      ensures bus == old(bus) + GotAll(supply[..count], count) + [Stop]
    {
      hide ReadIsr, ReceiveState;
      var i := 0;
      while i < count
        invariant 0 <= i <= count && Req() == q && user == userBuf && pData == i
        invariant i < count ==> View() == ReceiveState(count, i) && bus == old(bus) + GotAll(supply[..i], count)
        invariant i == count ==> transDone && errorNO == 0 && bus == old(bus) + GotAll(supply[..count], count) + [Stop]
        invariant userBuf[..i] == supply[..i] && userBuf[count..] == old(userBuf[count..])
      {
        ReceiveStateIs(count, i);
        ReceiveStep(q, count, i, true, supply[i]);
        assert GotAll(supply[..i + 1], count) == GotAll(supply[..i], count) + [Got(supply[i], i + 1 < count)];
        IsrRead(true, supply[i]);
        i := i + 1;
      }
    }
  }

  lemma ReadStart(q: Request, n: nat, a: bool)
    requires RequestOk(q)
    ensures ReadState(q, n, 1, a) == State(NO_FLAG, n % 0x1_0000, false, 0, true, a, true)
    ensures AddressTrace(q, 1) == [Start, Sent(WriteAddr(q))]
  {
    assert ReadBytes(q)[..1] == [WriteAddr(q)];
  }

  lemma ReadStateIs(q: Request, n: nat, c: nat, a: bool)
    requires RequestOk(q) && 1 <= c <= 2 + q.addrWidth
    ensures var s := ReadState(q, n, c, a);
            !s.done && (s.flag.b10 ==> s.sta)
  {
  }

  lemma ReceiveStateIs(n: nat, i: nat)
    requires i < n
    ensures !ReceiveState(n, i).done && ReceiveState(n, i).errorNo == 0
  {
  }

  /** Position of the next data byte while byte c is on the bus. */
  function DataPos(q: Request, c: nat): nat {
    if c >= 1 + q.addrWidth then c - 1 - q.addrWidth else 0
  }

  lemma WriteStart(q: Request, data: seq<byte>, a: bool)
    requires RequestOk(q)
    ensures WriteState(q, |data|, 1, a) == State(NO_FLAG, |data|, false, 0, true, a, true)
    ensures WriteTrace(q, data, 1) == [Start, Sent(WriteAddr(q))]
  {
    assert WriteBytes(q, data)[..1] == [WriteAddr(q)];
  }

  lemma WriteStateIs(q: Request, n: nat, c: nat, a: bool)
    requires RequestOk(q) && 1 <= c <= 1 + q.addrWidth + n
    ensures var s := WriteState(q, n, c, a);
            !s.done && (s.flag.b10 <==> c >= 1 + q.addrWidth) && (s.flag.b10 ==> s.remain == n - DataPos(q, c))
  {
  }

  // ----- A register device on the bus -----

  /** Where the device is in a transfer: deselected, expecting an address, a register pointer, or data either way. */
  datatype Phase = Off | Addressed | Pointer(left: nat, acc: nat) | Writing | Reading

  /** An auto-increment register file with a 7-bit address of its own. */
  datatype Device = Device(id: nat, regs: seq<byte>, ptr: nat, phase: Phase)

  function Advance(d: Device): nat
    requires |d.regs| > 0
  {
    if d.ptr + 1 < |d.regs| then d.ptr + 1 else 0
  }

  predicate DeviceOk(d: Device) {
    d.ptr < |d.regs|
  }

  function Hears(d: Device, width: nat, e: Event): (r: Device)
    requires DeviceOk(d)
    ensures DeviceOk(r) && |r.regs| == |d.regs| && r.id == d.id
  {
    match e
    case Start => d.(phase := Addressed)
    case Stop => d.(phase := Off)
    case Got(b, ack) =>
      // A byte the master does not acknowledge is the last one: the device lets go of the bus.
      if d.phase == Reading then d.(ptr := Advance(d), phase := if ack then Reading else Off) else d
    case Sent(b) =>
      match d.phase
      case Off => d
      case Reading => d
      case Addressed => d.(phase := if b / 2 != d.id then Off else if b % 2 == 1 then Reading else Pointer(width, 0))
      case Pointer(left, acc) =>
        if left > 1 then d.(phase := Pointer(left - 1, (acc + b) * 0x100))
        else d.(phase := Writing, ptr := (acc + b) % |d.regs|)
      case Writing => d.(regs := d.regs[d.ptr := b], ptr := Advance(d))
  }

  function Play(d: Device, width: nat, events: seq<Event>): (r: Device)
    requires DeviceOk(d)
    ensures DeviceOk(r) && |r.regs| == |d.regs| && r.id == d.id
  {
    if events == [] then d else Hears(Play(d, width, events[..|events| - 1]), width, events[|events| - 1])
  }

  /** Every byte the master receives is one the device puts on the bus. */
  predicate Serves(d: Device, width: nat, events: seq<Event>)
    requires DeviceOk(d)
  {
    events == [] ||
    (Serves(d, width, events[..|events| - 1]) &&
     var now := Play(d, width, events[..|events| - 1]);
     (events[|events| - 1].Got? ==> now.phase == Reading && events[|events| - 1].b == now.regs[now.ptr]))
  }

  /** Register i past the addressed one. */
  function Reg(q: Request, i: nat, size: nat): (r: nat)
    requires RequestOk(q) && size > 0
    ensures r < size
  {
    (RegNo(q) + i) % size
  }

  /** The register number as transmitted: the low byte only, for 8-bit addresses. */
  function RegNo(q: Request): nat {
    if q.addrWidth == ADDR_WIDTH_8 then q.regAddr % 0x100 else q.regAddr
  }

  lemma PlaySnoc(d: Device, width: nat, events: seq<Event>, e: Event)
    requires DeviceOk(d)
    ensures Play(d, width, events + [e]) == Hears(Play(d, width, events), width, e)
    ensures Serves(d, width, events + [e]) <==>
            Serves(d, width, events) &&
            (e.Got? ==> Play(d, width, events).phase == Reading &&
                        e.b == Play(d, width, events).regs[Play(d, width, events).ptr])
  {
    assert (events + [e])[..|events|] == events;
  }

  /** The device the request is for. */
  predicate IsFor(d: Device, q: Request) {
    DeviceOk(d) && d.id == q.slaveId % 0x80
  }

  // The seven address bits and the direction.
  lemma AddressBytes(q: Request)
    ensures WriteAddr(q) / 2 == q.slaveId % 0x80 && WriteAddr(q) % 2 == 0
    ensures ReadAddr(q) / 2 == q.slaveId % 0x80 && ReadAddr(q) % 2 == 1
  {
    ModUnique(q.slaveId * 2 + 1, 0x100, q.slaveId / 0x80, q.slaveId % 0x80 * 2 + 1);
  }

  /** After the addressing part both transfers have the register pointer in place. */
  lemma Pointed(d: Device, q: Request)
    requires RequestOk(q) && IsFor(d, q)
    ensures var events := [Start] + SentAll([WriteAddr(q)] + RegBytes(q));
            Play(d, q.addrWidth, events) == d.(phase := Writing, ptr := Reg(q, 0, |d.regs|))
  {
    var w := q.addrWidth;
    AddressBytes(q);
    hide WriteAddr, ReadAddr;
    var e1: seq<Event> := [Start];
    var e2 := e1 + [Sent(WriteAddr(q))];
    assert Play(d, w, []) == d;
    PlaySnoc(d, w, [], Start);
    assert [] + [Start] == e1;
    PlaySnoc(d, w, e1, Sent(WriteAddr(q)));
    if w == ADDR_WIDTH_8 {
      PlaySnoc(d, w, e2, Sent(q.regAddr % 0x100));
      assert [Start] + SentAll([WriteAddr(q)] + RegBytes(q)) == e2 + [Sent(q.regAddr % 0x100)];
    } else {
      var e3 := e2 + [Sent(q.regAddr / 0x100)];
      PlaySnoc(d, w, e2, Sent(q.regAddr / 0x100));
      PlaySnoc(d, w, e3, Sent(q.regAddr % 0x100));
      assert [Start] + SentAll([WriteAddr(q)] + RegBytes(q)) == e3 + [Sent(q.regAddr % 0x100)];
    }
  }

  lemma RegNext(q: Request, i: nat, size: nat)
    requires RequestOk(q) && size > 0
    ensures Reg(q, i, size) < size
    ensures Reg(q, i + 1, size) == if Reg(q, i, size) + 1 < size then Reg(q, i, size) + 1 else 0
  {
    var x := RegNo(q) + i;
    var k, r := x / size, x % size;
    assert x == size * k + r;
    if r + 1 < size {
      ModUnique(x + 1, size, k, r + 1);
    } else {
      assert size * (k + 1) == size * k + size;
      ModUnique(x + 1, size, k + 1, 0);
    }
  }

  /** Registers a short burst touches are all different. */
  lemma RegsDistinct(q: Request, i: nat, j: nat, size: nat)
    requires RequestOk(q) && i < j < i + size
    ensures Reg(q, i, size) != Reg(q, j, size)
  {
    var x, y := RegNo(q) + i, RegNo(q) + j;
    var kx, ky := x / size, y / size;
    assert x == size * kx + x % size && y == size * ky + y % size;
    assert size * ky - size * kx == size * (ky - kx);
    MulGrows(size, ky - kx);
  }

  /** After c data bytes of a write, the registers from the addressed one on hold them. */
  lemma {:induction false} WriteLands(d: Device, q: Request, data: seq<byte>, c: nat)
    requires RequestOk(q) && IsFor(d, q) && c <= |data| <= |d.regs|
    ensures var r := Play(d, q.addrWidth, WriteTrace(q, data, 1 + q.addrWidth + c));
            r.phase == Writing && r.ptr == Reg(q, c, |d.regs|) && Match(r.regs, q, data, c)
  {
    hide Reg, Play, WriteTrace, WriteBytes, Match, Hears;
    var size := |d.regs|;
    if c == 0 {
      WriteAddressed(d, q, data);
    } else {
      DataByte(q, data, c);
      WriteLands(d, q, data, c - 1);
      var before := WriteTrace(q, data, q.addrWidth + c);
      WriteTraceGrows(q, data, q.addrWidth + c);
      PlaySnoc(d, q.addrWidth, before, Sent(data[c - 1]));
      HearsData(Play(d, q.addrWidth, before), q.addrWidth, data[c - 1]);
      RegNext(q, c - 1, size);
      MatchWritten(Play(d, q.addrWidth, before).regs, q, data, c - 1);
    }
  }

  lemma WriteAddressed(d: Device, q: Request, data: seq<byte>)
    requires RequestOk(q) && IsFor(d, q)
    ensures var r := Play(d, q.addrWidth, WriteTrace(q, data, 1 + q.addrWidth));
            r.phase == Writing && r.ptr == Reg(q, 0, |d.regs|) && Match(r.regs, q, data, 0)
  {
    hide Play, Reg;
    Pointed(d, q);
    assert WriteBytes(q, data)[..1 + q.addrWidth] == [WriteAddr(q)] + RegBytes(q);
  }

  lemma HearsData(d: Device, width: nat, b: byte)
    requires DeviceOk(d)
    ensures d.phase == Writing ==> Hears(d, width, Sent(b)) == d.(regs := d.regs[d.ptr := b], ptr := Advance(d))
    ensures forall ack :: d.phase == Reading ==>
                            Hears(d, width, Got(b, ack)) == d.(ptr := Advance(d), phase := if ack then Reading else Off)
  {
  }

  /** The first c registers from the addressed one on hold these bytes. */
  ghost predicate Match(regs: seq<byte>, q: Request, data: seq<byte>, c: nat)
    requires RequestOk(q) && |regs| > 0
  {
    c <= |data| && forall i :: 0 <= i < c ==> regs[Reg(q, i, |regs|)] == data[i]
  }

  lemma MatchWritten(regs: seq<byte>, q: Request, data: seq<byte>, c: nat)
    requires RequestOk(q) && c < |data| <= |regs| && Match(regs, q, data, c)
    ensures Match(regs[Reg(q, c, |regs|) := data[c]], q, data, c + 1)
  {
    hide Reg;
    RegNext(q, c, |regs|);
    forall i | 0 <= i < c
      ensures Reg(q, i, |regs|) != Reg(q, c, |regs|)
    {
      RegsDistinct(q, i, c, |regs|);
    }
  }

  lemma DataByte(q: Request, data: seq<byte>, c: nat)
    requires RequestOk(q) && 1 <= c <= |data|
    ensures WriteBytes(q, data)[q.addrWidth + c] == data[c - 1]
  {
  }

  /** During a read the device is at the register about to be received; after the last byte it is off the bus. */
  lemma {:induction false} ReadFollows(d: Device, q: Request, got: seq<byte>, n: nat, c: nat)
    requires RequestOk(q) && IsFor(d, q) && c <= |got| && c <= n
    requires Serves(d, q.addrWidth, AddressTrace(q, 2 + q.addrWidth) + GotAll(got[..c], n))
    ensures var r := Play(d, q.addrWidth, AddressTrace(q, 2 + q.addrWidth) + GotAll(got[..c], n));
            r.phase == (if 0 < c == n then Off else Reading) && r.ptr == Reg(q, c, |d.regs|) && r.regs == d.regs
    ensures Match(d.regs, q, got, c)
  {
    hide Reg, Play, Serves, AddressTrace, Hears;
    var w, head := q.addrWidth, AddressTrace(q, 2 + q.addrWidth);
    if c == 0 {
      assert GotAll(got[..0], n) == [] && head + [] == head;
      ReadAddressed(d, q);
    } else {
      var before := head + GotAll(got[..c - 1], n);
      assert head + GotAll(got[..c], n) == before + [Got(got[c - 1], c < n)];
      hide GotAll, Match;
      PlaySnoc(d, w, before, Got(got[c - 1], c < n));
      ReadFollows(d, q, got, n, c - 1);
      HearsData(Play(d, w, before), w, got[c - 1]);
      RegNext(q, c - 1, |d.regs|);
      MatchRead(d.regs, q, got, c - 1);
    }
  }

  lemma MatchRead(regs: seq<byte>, q: Request, got: seq<byte>, c: nat)
    requires RequestOk(q) && c < |got| && |regs| > 0 && Match(regs, q, got, c) && got[c] == regs[Reg(q, c, |regs|)]
    ensures Match(regs, q, got, c + 1)
  {
    hide Reg;
  }

  lemma ReadAddressed(d: Device, q: Request)
    requires RequestOk(q) && IsFor(d, q)
    ensures var r := Play(d, q.addrWidth, AddressTrace(q, 2 + q.addrWidth));
            r.phase == Reading && r.ptr == Reg(q, 0, |d.regs|) && r.regs == d.regs
  {
    var w := q.addrWidth;
    Pointed(d, q);
    var pointed := [Start] + SentAll([WriteAddr(q)] + RegBytes(q));
    assert ReadBytes(q)[..1 + w] == [WriteAddr(q)] + RegBytes(q);
    assert AddressTrace(q, 2 + w) == pointed + [Start] + [Sent(ReadAddr(q))];
    hide Play, Reg, AddressTrace, ReadAddr;
    PlaySnoc(d, w, pointed, Start);
    PlaySnoc(d, w, pointed + [Start], Sent(ReadAddr(q)));
    AddressBytes(q);
  }

  /**
   * The round trip: on an auto-increment register device, writing a burst no longer than the register file and
   * reading as many bytes back from the same register returns the burst.
   */
  lemma WriteThenRead(d: Device, q: Request, data: seq<byte>, got: seq<byte>)
    requires RequestOk(q) && IsFor(d, q) && |got| == |data| <= |d.regs|
    ensures var written := Play(d, q.addrWidth, WriteTrace(q, data, 1 + q.addrWidth + |data|) + [Stop]);
            Serves(written, q.addrWidth, AddressTrace(q, 2 + q.addrWidth) + GotAll(got, |data|)) ==> got == data
  {
    hide Play, Serves, WriteTrace, WriteBytes, AddressTrace, ReadBytes, GotAll, Reg;
    var trace := WriteTrace(q, data, 1 + q.addrWidth + |data|);
    WriteLands(d, q, data, |data|);
    PlaySnoc(d, q.addrWidth, trace, Stop);
    var written := Play(d, q.addrWidth, trace + [Stop]);
    if Serves(written, q.addrWidth, AddressTrace(q, 2 + q.addrWidth) + GotAll(got, |data|)) {
      assert got[..|got|] == got;
      ReadFollows(written, q, got, |data|, |got|);
    }
  }

  /** The registers from the addressed one on: what the device has to offer a read. */
  function Supply(d: Device, q: Request, n: nat): (r: seq<byte>)
    requires RequestOk(q) && DeviceOk(d)
    ensures |r| == n
  {
    seq(n, i requires 0 <= i < n => d.regs[Reg(q, i, |d.regs|)])
  }

  /** A slave that answers with these bytes serves the read. */
  lemma {:induction false} SupplyServes(d: Device, q: Request, n: nat, c: nat)
    requires RequestOk(q) && IsFor(d, q) && c <= n
    ensures Serves(d, q.addrWidth, AddressTrace(q, 2 + q.addrWidth) + GotAll(Supply(d, q, n)[..c], n))
  {
    hide Reg, Play, Serves, AddressTrace, Hears;
    var w, head, got := q.addrWidth, AddressTrace(q, 2 + q.addrWidth), Supply(d, q, n);
    if c == 0 {
      assert GotAll(got[..0], n) == [] && head + [] == head;
      AddressServes(d, q);
    } else {
      var before := head + GotAll(got[..c - 1], n);
      assert head + GotAll(got[..c], n) == before + [Got(got[c - 1], c < n)];
      assert got[c - 1] == d.regs[Reg(q, c - 1, |d.regs|)];
      hide GotAll, Match, Supply;
      SupplyServes(d, q, n, c - 1);
      ReadFollows(d, q, got, n, c - 1);
      PlaySnoc(d, w, before, Got(got[c - 1], c < n));
    }
  }

  // Nothing is received while addressing.
  lemma AddressServes(d: Device, q: Request)
    requires RequestOk(q) && DeviceOk(d)
    ensures Serves(d, q.addrWidth, AddressTrace(q, 2 + q.addrWidth))
  {
    hide ReadAddr, WriteAddr, RegBytes, Play, Hears, Serves;
    NothingGot(d, q.addrWidth, AddressTrace(q, 2 + q.addrWidth));
  }

  lemma {:induction false} NothingGot(d: Device, width: nat, events: seq<Event>)
    requires DeviceOk(d) && forall e :: e in events ==> !e.Got?
    ensures Serves(d, width, events)
  {
    if events != [] {
      NothingGot(d, width, events[..|events| - 1]);
    }
  }

  // ----- Which registers, and which device -----

  lemma {:induction false} PlayAppend(d: Device, width: nat, first: seq<Event>, second: seq<Event>)
    requires DeviceOk(d)
    ensures Play(d, width, first + second) == Play(Play(d, width, first), width, second)
  {
    hide Hears;
    if second == [] {
      assert first + second == first;
    } else {
      PlayAppend(d, width, first, second[..|second| - 1]);
      assert (first + second)[..|first + second| - 1] == first + second[..|second| - 1];
    }
  }

  function Nth(number: nat, i: nat, size: nat): (r: nat)
    requires size > 0
    ensures r < size
  {
    (number + i) % size
  }

  /** The registers from `number` on, around the end, hold the data, and the others what they held before. */
  ghost predicate Holds(regs: seq<byte>, before: seq<byte>, number: nat, data: seq<byte>) {
    var size := |before|;
    0 < size == |regs| &&
    (forall i :: 0 <= i < |data| ==> regs[Nth(number, i, size)] == data[i]) &&
    (forall j :: 0 <= j < size && (forall i :: 0 <= i < |data| ==> Nth(number, i, size) != j) ==> regs[j] == before[j])
  }

  lemma {:induction false} Untouched(d: Device, q: Request, data: seq<byte>, c: nat, j: nat)
    requires RequestOk(q) && IsFor(d, q) && c <= |data| <= |d.regs| && j < |d.regs|
    requires forall i :: 0 <= i < c ==> Reg(q, i, |d.regs|) != j
    ensures Play(d, q.addrWidth, WriteTrace(q, data, 1 + q.addrWidth + c)).regs[j] == d.regs[j]
  {
    hide Reg, Play, WriteTrace, WriteBytes, Match, Hears;
    if c == 0 {
      AddressOnly(d, q, data);
    } else {
      DataByte(q, data, c);
      Untouched(d, q, data, c - 1, j);
      WriteLands(d, q, data, c - 1);
      var before := WriteTrace(q, data, q.addrWidth + c);
      WriteTraceGrows(q, data, q.addrWidth + c);
      PlaySnoc(d, q.addrWidth, before, Sent(data[c - 1]));
      HearsData(Play(d, q.addrWidth, before), q.addrWidth, data[c - 1]);
    }
  }

  lemma AddressOnly(d: Device, q: Request, data: seq<byte>)
    requires RequestOk(q) && IsFor(d, q)
    ensures Play(d, q.addrWidth, WriteTrace(q, data, 1 + q.addrWidth)).regs == d.regs
  {
    hide Play, Reg;
    Pointed(d, q);
    assert WriteBytes(q, data)[..1 + q.addrWidth] == [WriteAddr(q)] + RegBytes(q);
  }

  lemma RegIs(q: Request, size: nat)
    requires RequestOk(q) && size > 0
    ensures forall i: nat :: Reg(q, i, size) == Nth(if q.addrWidth == 2 then q.regAddr else q.regAddr % 0x100, i, size)
  {
  }

  /** A write on the device it is for: the registers from the one asked for on hold the data. */
  lemma WriteEffect(d: Device, q: Request, data: seq<byte>)
    requires RequestOk(q) && IsFor(d, q) && |data| <= |d.regs|
    ensures var r := Play(d, q.addrWidth, WriteTrace(q, data, 1 + q.addrWidth + |data|) + [Stop]);
            Holds(r.regs, d.regs, if q.addrWidth == 2 then q.regAddr else q.regAddr % 0x100, data) && r.id == d.id
  {
    hide Play, WriteTrace, WriteBytes;
    var trace, size := WriteTrace(q, data, 1 + q.addrWidth + |data|), |d.regs|;
    WriteLands(d, q, data, |data|);
    PlaySnoc(d, q.addrWidth, trace, Stop);
    var number := if q.addrWidth == 2 then q.regAddr else q.regAddr % 0x100;
    RegIs(q, size);
    hide Reg, Nth;
    forall j | 0 <= j < size && (forall i :: 0 <= i < |data| ==> Nth(number, i, size) != j)
      ensures Play(d, q.addrWidth, trace).regs[j] == d.regs[j]
    {
      Untouched(d, q, data, |data|, j);
    }
  }

  /** What stands right behind a start is not this device's address. */
  ghost predicate NotFor(id: nat, events: seq<Event>) {
    forall i, j :: 0 <= i && i + 1 == j && j < |events| && events[i] == Start ==> Passes(id, events[j])
  }

  predicate Passes(id: nat, e: Event) {
    match e case Sent(b) => b / 2 != id case Got(_, _) => false case _ => true
  }

  lemma {:induction false} ForOthers(d: Device, width: nat, events: seq<Event>)
    requires DeviceOk(d) && d.phase == Off && NotFor(d.id, events)
    ensures var r := Play(d, width, events);
            r.regs == d.regs && r.phase in {Off, Addressed} &&
            (r.phase == Addressed ==> events != [] && events[|events| - 1] == Start)
  {
    if events != [] {
      ForOthers(d, width, events[..|events| - 1]);
    }
  }

  lemma TransfersNotFor(q: Request, id: nat, data: seq<byte>, c: nat, r: nat)
    requires RequestOk(q) && id != q.slaveId % 0x80 && 1 <= c <= |WriteBytes(q, data)| && 1 <= r <= 2 + q.addrWidth
    ensures NotFor(id, WriteTrace(q, data, c)) && NotFor(id, AddressTrace(q, r))
  {
    AddressBytes(q);
    hide WriteAddr, ReadAddr;
  }

  lemma NotForBoth(id: nat, first: seq<Event>, second: seq<Event>)
    requires NotFor(id, first) && NotFor(id, second) && first != [] && first[|first| - 1] != Start
    ensures NotFor(id, first + second)
  {
    var both := first + second;
    forall i, j | 0 <= i && i + 1 == j && j < |both| && both[i] == Start
      ensures Passes(id, both[j])
    {
      if j < |first| {
        assert both[i] == first[i] && both[j] == first[j];
      } else if i >= |first| {
        assert both[i] == second[i - |first|] && both[j] == second[j - |first|];
      }
    }
  }

  /** A device with any other address keeps its registers through any write and any read, finished or refused. */
  lemma Elsewhere(d: Device, q: Request, data: seq<byte>, c: nat, r: nat, got: seq<byte>, n: nat)
    requires RequestOk(q) && DeviceOk(d) && d.phase == Off && d.id != q.slaveId % 0x80
    requires 1 <= c <= |WriteBytes(q, data)| && 1 <= r <= 2 + q.addrWidth
    ensures var wrote := Play(d, q.addrWidth, WriteTrace(q, data, c) + [Stop]);
            wrote.regs == d.regs && wrote.phase == Off && wrote.id == d.id
    ensures var read := Play(d, q.addrWidth, AddressTrace(q, r) + GotAll(got, n) + [Stop]);
            read.regs == d.regs && read.phase == Off && read.id == d.id
  {
    TransfersNotFor(q, d.id, data, c, r);
    var w, out, address := q.addrWidth, WriteTrace(q, data, c), AddressTrace(q, r);
    LastNotStart(q, data, c, r);
    assert NotFor(d.id, GotAll(got, n)) && NotFor(d.id, [Stop]);
    hide Play, WriteTrace, AddressTrace, GotAll, WriteBytes, NotFor;
    NotForBoth(d.id, address, GotAll(got, n));
    ForOthers(d, w, out);
    ForOthers(d, w, address + GotAll(got, n));
    PlaySnoc(d, w, out, Stop);
    PlaySnoc(d, w, address + GotAll(got, n), Stop);
  }

  lemma LastNotStart(q: Request, data: seq<byte>, c: nat, r: nat)
    requires RequestOk(q) && 1 <= c <= |WriteBytes(q, data)| && 1 <= r <= 2 + q.addrWidth
    ensures var out, address := WriteTrace(q, data, c), AddressTrace(q, r);
            out != [] && out[|out| - 1] != Start && address != [] && address[|address| - 1] != Start
  {
  }

  /**
   * The two transfers one after the other on a bus with the device they are for, which acknowledges everything, and
   * any other one: both succeed, what was written comes back, the device holds it in the registers asked for and
   * nowhere else, and the other device's registers are as they were.
   */
  method RoundTrip(m: Master, d: Device, ghost other: Device, q: Request, out: array<byte>, back: array<byte>,
                   count: nat)
    returns (wrote: nat, read: nat)
    requires !m.transDone && m.bus == [] && RequestOk(q) && out != back
    requires DeviceOk(d) && d.id == q.slaveId % 0x80
    requires DeviceOk(other) && other.id != q.slaveId % 0x80 && other.phase == Off
    requires 1 <= count < 0x1_0000 && count <= out.Length && count <= back.Length && count <= |d.regs|
    modifies m, back
    ensures wrote == 0 && read == 0 && back[..count] == out[..count]
    ensures forall i :: count <= i < back.Length ==> back[i] == old(back[i])
    ensures Holds(Play(d, q.addrWidth, m.bus).regs, d.regs, if q.addrWidth == 2 then q.regAddr else q.regAddr % 0x100,
                  out[..count])
    ensures Play(other, q.addrWidth, m.bus).regs == other.regs
  {
    hide Play, Serves, WriteTrace, WriteBytes, AddressTrace, ReadBytes, GotAll, Supply, Reg, Holds;
    var w := q.addrWidth;
    var interrupts;
    wrote, interrupts := m.Write(q, out, count, seq(1 + w + count, _ => true));
    ghost var data, first := out[..count], m.bus;
    assert first == WriteTrace(q, data, 1 + w + count) + [Stop];
    var written := Play(d, w, m.bus);
    WriteEffect(d, q, data);
    var supply := Supply(written, q, count);
    SupplyServes(written, q, count, count);
    assert supply[..count] == supply;
    WriteThenRead(d, q, data, supply);
    read, interrupts := m.Read(q, back, count, seq(2 + w, _ => true), supply);
    ghost var second := AddressTrace(q, 2 + w) + GotAll(supply, count) + [Stop];
    assert m.bus == first + second;
    ReadKeepsRegs(written, q, supply, count);
    PlayAppend(d, w, first, second);
    ForeignBoth(other, q, data, supply, count);
    PlayAppend(other, w, first, second);
  }

  lemma ReadKeepsRegs(d: Device, q: Request, got: seq<byte>, n: nat)
    requires RequestOk(q) && IsFor(d, q) && |got| == n
    requires Serves(d, q.addrWidth, AddressTrace(q, 2 + q.addrWidth) + GotAll(got, n))
    ensures Play(d, q.addrWidth, AddressTrace(q, 2 + q.addrWidth) + GotAll(got, n) + [Stop]).regs == d.regs
  {
    hide Play, Serves, AddressTrace, GotAll, Reg;
    assert got[..n] == got;
    ReadFollows(d, q, got, n, n);
    PlaySnoc(d, q.addrWidth, AddressTrace(q, 2 + q.addrWidth) + GotAll(got, n), Stop);
  }

  lemma ForeignBoth(d: Device, q: Request, data: seq<byte>, got: seq<byte>, n: nat)
    requires RequestOk(q) && DeviceOk(d) && d.phase == Off && d.id != q.slaveId % 0x80
    ensures var w := q.addrWidth;
            var wrote := Play(d, w, WriteTrace(q, data, 1 + w + |data|) + [Stop]);
            wrote.regs == d.regs &&
            Play(wrote, w, AddressTrace(q, 2 + w) + GotAll(got, n) + [Stop]).regs == d.regs
  {
    hide Play, WriteTrace, AddressTrace, GotAll;
    var w := q.addrWidth;
    Elsewhere(d, q, data, 1 + w + |data|, 2 + w, got, n);
    Elsewhere(Play(d, w, WriteTrace(q, data, 1 + w + |data|) + [Stop]), q, data, 1 + w + |data|, 2 + w, got, n);
  }
}
