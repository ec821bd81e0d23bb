/** The lock-step TFTP receiver, and the network it is promised to work over. */
module Tftp {
  import opened Bits
  import opened Ota

  datatype Option<+T> = None | Some(value: T)

  const TFTP_BLOCK_SIZE := 512
  const TIMEOUT_COUNT := 10

  // The receive buffer, and what it leaves of a data packet's payload behind opcode and block number.
  const TFTP_LEN := 1600
  const PAYLOAD_MAX := 1596

  // ----- The client on values -----

  /** STATE_RRQ, STATE_OACK and STATE_DATA; the two error states are never entered. */
  datatype Phase = Requesting | Acked | Receiving

  datatype ToClient = Oack(blksize: Option<nat>) | Data(number: nat, payload: seq<byte>) | Other
  datatype ToServer = Request | Ack(number: nat)

  /** The globals of tftpclient.c; `stored` is the log of store_block calls. */
  datatype Client = Client(phase: Phase, serverPort: int, block: nat, lastBlock: nat, blkSize: nat,
                           timeouts: nat, running: bool, stored: seq<(nat, seq<byte>)>)

  function Send(c: Client): ToServer {
    if c.phase == Requesting then Request else Ack(c.block % 0x1_0000)
  }

  function Handle(c: Client, p: ToClient, port: int): (Client, Option<ToServer>) {
    if c.phase != Requesting && port != c.serverPort then (c, None)
    else match p
      case Other => (c, None)
      case Oack(blksize) =>
        var c1 := c.(phase := Acked, serverPort := port,
                     blkSize := if blksize.Some? then blksize.value % 0x1_0000 else c.blkSize);
        (c1, Some(Send(c1)))
      case Data(number, payload) =>
        var first := c.phase != Receiving;
        var c1 := if first then c.(block := number, phase := Receiving, serverPort := port, lastBlock := 0)
                  else c.(block := number);
        if first && number != 1 then (c1, None)
        else if number == c1.lastBlock then (c1, Some(Send(c1)))
        else
          var c2 := c1.(lastBlock := number, stored := c1.stored + [(Wrap32(number - 1), payload)]);
          (c2.(running := c2.running && |payload| >= c2.blkSize), Some(Send(c2)))
  }

  function Front(payload: seq<byte>): (r: seq<byte>)
    ensures r <= payload && |r| == if |payload| < PAYLOAD_MAX then |payload| else PAYLOAD_MAX
  {
    if |payload| <= PAYLOAD_MAX then payload else payload[..PAYLOAD_MAX]
  }

  /** recvfrom keeps of a datagram what fits the receive buffer. */
  function Cut(p: ToClient): ToClient {
    if p.Data? then Data(p.number, Front(p.payload)) else p
  }

  function Timeout(c: Client): (Client, Option<ToServer>) {
    var c1 := c.(timeouts := c.timeouts + 1);
    (c1, if c1.timeouts > TIMEOUT_COUNT then None else Some(Send(c1)))
  }

  // ----- The code -----

  class TftpClient {
    var tftpState: Phase
    var tftpServerPort: int
    var tftpBlock: nat
    var tftpLastBlock: nat
    var tftpBlkSize: nat
    var tftpTimeoutCount: nat
    var running: bool
    var stored: seq<(nat, seq<byte>)>

    ghost function View(): Client
      reads this
    {
      Client(tftpState, tftpServerPort, tftpBlock, tftpLastBlock, tftpBlkSize, tftpTimeoutCount, running, stored)
    }

    /** TftpStart; `leftover` is whatever an earlier transfer left in TftpLastBlock. */
    constructor (leftover: nat)
      ensures View() == Start(leftover)
    {
      tftpState := Requesting;
      tftpServerPort := 69;
      tftpBlock := 0;
      tftpLastBlock := leftover;
      tftpBlkSize := TFTP_BLOCK_SIZE;
      tftpTimeoutCount := 0;
      running := true;
      stored := [];
    }

    method TftpSend() returns (packet: ToServer)
      ensures packet == Send(View())
    {
      match tftpState
      case Requesting => packet := Request;
      case Acked => packet := Ack(tftpBlock % 0x1_0000);
      case Receiving => packet := Ack(tftpBlock % 0x1_0000);
    }

    method TftpHandler(p: ToClient, port: int) returns (reply: Option<ToServer>)
      modifies this
      ensures (View(), reply) == Handle(old(View()), p, port)
    {
      reply := None;
      if tftpState != Requesting && port != tftpServerPort {
        return;
      }
      match p {
        case Other =>
        case Oack(blksize) =>
          tftpState := Acked;
          tftpServerPort := port;
          if blksize.Some? {
            tftpBlkSize := blksize.value % 0x1_0000;
          }
          var packet := TftpSend();
          reply := Some(packet);
        case Data(number, payload) =>
          tftpBlock := number;
          if tftpState == Requesting || tftpState == Acked {
            tftpState := Receiving;
            tftpServerPort := port;
            tftpLastBlock := 0;
            if tftpBlock != 1 {
              return;
            }
          }
          if tftpBlock == tftpLastBlock {
            var again := TftpSend();
            return Some(again);
          }
          tftpLastBlock := tftpBlock;
          stored := stored + [(Wrap32(tftpBlock - 1), payload)];
          var packet := TftpSend();
          reply := Some(packet);
          if |payload| < tftpBlkSize {
            running := false;
          }
      }
    }

    method TftpTimeout() returns (packet: Option<ToServer>)
      modifies this
      ensures (View(), packet) == Timeout(old(View()))
    {
      packet := None;
      tftpTimeoutCount := tftpTimeoutCount + 1;
      if tftpTimeoutCount <= TIMEOUT_COUNT {
        var p := TftpSend();
        packet := Some(p);
      }
    }
  }

  function Start(leftover: nat): Client {
    Client(Requesting, 69, 0, leftover, TFTP_BLOCK_SIZE, 0, true, [])
  }

  // ----- The network -----

  /** One transfer: the server's file, its port, and the OACK it sends, if it sends one. */
  datatype Config = Config(file: seq<byte>, port: int, useOack: bool, option: Option<nat>)

  function BlkSize(cfg: Config): nat {
    if cfg.useOack && cfg.option.Some? then cfg.option.value else TFTP_BLOCK_SIZE
  }

  /** Block sizes fit their 16-bit field, and fewer than 65536 blocks make the file. */
  predicate ConfigOk(cfg: Config) {
    0 < BlkSize(cfg) < 0x1_0000 && Blocks(cfg) < 0x1_0000
  }

  /** Data blocks of the file; the last one is short, possibly empty (section 2 of RFC 1350). */
  function Blocks(cfg: Config): nat
    requires 0 < BlkSize(cfg)
  {
    |cfg.file| / BlkSize(cfg) + 1
  }

  function Block(cfg: Config, k: nat): seq<byte>
    requires 0 < BlkSize(cfg) && 1 <= k <= Blocks(cfg)
  {
    BlockStart(cfg, k);
    if k < Blocks(cfg) then cfg.file[(k - 1) * BlkSize(cfg)..k * BlkSize(cfg)]
    else cfg.file[(k - 1) * BlkSize(cfg)..]
  }

  /** The last block the client waits for: a first block cut to the receive buffer looks like a short one. */
  function Last(cfg: Config): (r: nat)
    requires 0 < BlkSize(cfg)
    ensures 1 <= r <= Blocks(cfg)
  {
    if BlkSize(cfg) <= PAYLOAD_MAX then Blocks(cfg) else 1
  }

  /** What the client gets of a block. */
  function Got(cfg: Config, k: nat): seq<byte>
    requires 0 < BlkSize(cfg) && 1 <= k <= Blocks(cfg)
  {
    Front(Block(cfg, k))
  }

  lemma BlockStart(cfg: Config, k: nat)
    requires 0 < BlkSize(cfg) && 1 <= k <= Blocks(cfg)
    ensures 0 <= (k - 1) * BlkSize(cfg) <= |cfg.file|
    ensures k < Blocks(cfg) ==> (k - 1) * BlkSize(cfg) <= k * BlkSize(cfg) <= |cfg.file|
    ensures k == Blocks(cfg) ==> |cfg.file| - (k - 1) * BlkSize(cfg) < BlkSize(cfg)
  {
    var b, q := BlkSize(cfg), |cfg.file| / BlkSize(cfg);
    assert |cfg.file| == q * b + |cfg.file| % b;
    MulMonotone(k - 1, q, b);
    if k < Blocks(cfg) {
      MulMonotone(k, q, b);
      MulMonotone(k - 1, k, b);
    }
  }

  lemma MulMonotone(a: nat, b: nat, c: nat)
    requires a <= b
    ensures 0 <= a * c <= b * c
  {
    assert b * c == a * c + (b - a) * c;
  }

  /** What the server sends at position k of the exchange: 0 is the OACK, k >= 1 is block k. */
  function PacketAt(cfg: Config, k: nat): ToClient
    requires ConfigOk(cfg) && k <= Blocks(cfg)
  {
    if k == 0 then Oack(cfg.option) else Data(k, Block(cfg, k))
  }

  function First(cfg: Config): nat {
    if cfg.useOack then 0 else 1
  }

  /** The server has sent nothing, or is waiting for the acknowledgement of position `value`. */
  datatype Sys = Sys(client: Client, server: Option<nat>, toServer: seq<ToServer>, toClient: seq<ToClient>)

  /**
   * Everything that can happen: the two ends receive, time out and resend; either channel loses or duplicates; packets
   * the client does not act on come from anywhere and, once the server has answered, any packets from other ports.
   */
  datatype Event =
    | ClientReceives | ClientTimesOut | Stray(p: ToClient, port: int)
    | ServerReceives | ServerResends
    | LoseToServer(i: nat) | DuplicateToServer(i: nat)
    | LoseToClient(i: nat) | DuplicateToClient(i: nat)

  function Append<T>(s: seq<T>, x: Option<T>): seq<T> {
    if x.Some? then s + [x.value] else s
  }

  function ServerNext(cfg: Config, server: Option<nat>, m: ToServer): Option<nat>
    requires ConfigOk(cfg)
  {
    match m
    case Request => if server.None? then Some(First(cfg)) else server
    case Ack(n) => if server.Some? && n == server.value < Blocks(cfg) then Some(n + 1) else server
  }

  function Remove<T>(s: seq<T>, i: nat): seq<T>
    requires i < |s|
  {
    s[..i] + s[i + 1..]
  }

  function Repeat<T>(s: seq<T>, i: nat): seq<T>
    requires i < |s|
  {
    s[..i + 1] + s[i..]
  }

  function Step(cfg: Config, sys: Sys, ev: Event): Sys
    requires ConfigOk(cfg) && (sys.server.Some? ==> sys.server.value <= Blocks(cfg))
  {
    match ev
    case ClientReceives =>
      if sys.toClient == [] || !sys.client.running then sys
      else
        var (client, reply) := Handle(sys.client, Cut(sys.toClient[0]), cfg.port);
        sys.(client := client, toServer := Append(sys.toServer, reply), toClient := sys.toClient[1..])
    case ClientTimesOut =>
      if !sys.client.running then sys
      else
        var (client, packet) := Timeout(sys.client);
        sys.(client := client, toServer := Append(sys.toServer, packet))
    case Stray(p, port) =>
      if !sys.client.running || (!p.Other? && (sys.client.phase == Requesting || port == cfg.port)) then sys
      else
        var (client, reply) := Handle(sys.client, Cut(p), port);
        sys.(client := client, toServer := Append(sys.toServer, reply))
    case ServerReceives =>
      if sys.toServer == [] then sys
      else
        var server := ServerNext(cfg, sys.server, sys.toServer[0]);
        sys.(server := server, toServer := sys.toServer[1..],
             toClient := if server == sys.server then sys.toClient
                         else sys.toClient + [PacketAt(cfg, server.value)])
    case ServerResends =>
      if sys.server.None? then sys else sys.(toClient := sys.toClient + [PacketAt(cfg, sys.server.value)])
    case LoseToServer(i) => if i < |sys.toServer| then sys.(toServer := Remove(sys.toServer, i)) else sys
    case DuplicateToServer(i) => if i < |sys.toServer| then sys.(toServer := Repeat(sys.toServer, i)) else sys
    case LoseToClient(i) => if i < |sys.toClient| then sys.(toClient := Remove(sys.toClient, i)) else sys
    case DuplicateToClient(i) => if i < |sys.toClient| then sys.(toClient := Repeat(sys.toClient, i)) else sys
  }

  // ----- The invariant -----

  /** The position the client has not yet seen. */
  function Expected(cfg: Config, c: Client): nat {
    match c.phase
    case Requesting => First(cfg)
    case Acked => 1
    case Receiving => c.lastBlock + 1
  }

  function Log(cfg: Config, k: nat): seq<(nat, seq<byte>)>
    requires 0 < BlkSize(cfg) && k <= Blocks(cfg)
  {
    if k == 0 then [] else Log(cfg, k - 1) + [(k - 1, Got(cfg, k))]
  }

  function Position(p: ToClient): nat {
    if p.Data? then p.number else 0
  }

  /** The client has stored exactly the blocks before the one it expects. */
  ghost predicate ClientInv(cfg: Config, c: Client)
    requires ConfigOk(cfg)
  {
    var e := Expected(cfg, c);
    e <= Last(cfg) + 1 &&
    (c.phase == Acked ==> cfg.useOack) && (c.phase == Receiving ==> c.lastBlock >= 1) &&
    c.block == (if e == 0 then 0 else e - 1) &&
    (c.phase != Requesting ==> c.serverPort == cfg.port) &&
    c.blkSize == (if c.phase == Requesting then TFTP_BLOCK_SIZE else BlkSize(cfg)) &&
    c.stored == Log(cfg, if e == 0 then 0 else e - 1) &&
    (c.running <==> e <= Last(cfg))
  }

  /** In flight to the client: positions in order, none ahead of the server, none older than the client's last. */
  ghost predicate DownInv(cfg: Config, packets: seq<ToClient>, e: nat, cur: nat)
    requires ConfigOk(cfg) && cur <= Blocks(cfg)
  {
    (forall i :: 0 <= i < |packets| ==>
                   First(cfg) <= Position(packets[i]) <= cur && e <= Position(packets[i]) + 1 &&
                   packets[i] == PacketAt(cfg, Position(packets[i]))) &&
    (forall i, j :: 0 <= i < j < |packets| ==> Position(packets[i]) <= Position(packets[j]))
  }

  /** In flight to the server: acknowledgements of things received. */
  ghost predicate UpInv(acks: seq<ToServer>, e: nat) {
    forall i :: 0 <= i < |acks| ==> acks[i].Ack? ==> acks[i].number < e
  }

  ghost predicate Inv(cfg: Config, sys: Sys)
    requires ConfigOk(cfg)
  {
    var e := Expected(cfg, sys.client);
    ClientInv(cfg, sys.client) && UpInv(sys.toServer, e) &&
    (sys.server.None? ==> sys.toClient == [] && sys.client.phase == Requesting) &&
    (sys.server.Some? ==> First(cfg) <= sys.server.value <= Blocks(cfg) &&
                          sys.server.value <= e <= sys.server.value + 1 &&
                          DownInv(cfg, sys.toClient, e, sys.server.value))
  }

  ghost predicate Init(cfg: Config, sys: Sys) {
    sys.server.None? && sys.toServer == [] && sys.toClient == [] && exists leftover :: sys.client == Start(leftover)
  }

  lemma InitInv(cfg: Config, sys: Sys)
    requires ConfigOk(cfg) && Init(cfg, sys)
    ensures Inv(cfg, sys)
  {
  }

  lemma DownAppend(cfg: Config, packets: seq<ToClient>, e: nat, cur: nat, next: nat)
    requires ConfigOk(cfg) && cur <= next <= Blocks(cfg) && First(cfg) <= next && e <= next + 1
    requires DownInv(cfg, packets, e, cur)
    ensures DownInv(cfg, packets + [PacketAt(cfg, next)], e, next)
  {
    hide Block, Blocks, ConfigOk;
  }

  lemma DownLoss(cfg: Config, packets: seq<ToClient>, e: nat, cur: nat, i: nat)
    requires ConfigOk(cfg) && cur <= Blocks(cfg) && i < |packets| && DownInv(cfg, packets, e, cur)
    ensures DownInv(cfg, Remove(packets, i), e, cur) && DownInv(cfg, Repeat(packets, i), e, cur)
  {
    hide Block, Blocks, ConfigOk, PacketAt;
  }

  /** Taking a packet out of the channel: nothing behind it is older. */
  lemma DownTake(cfg: Config, packets: seq<ToClient>, e: nat, cur: nat)
    requires ConfigOk(cfg) && cur <= Blocks(cfg) && packets != [] && DownInv(cfg, packets, e, cur)
    ensures var k := Position(packets[0]);
            packets[0] == PacketAt(cfg, k) && First(cfg) <= k <= cur && e <= k + 1 &&
            DownInv(cfg, packets[1..], e, cur) && (k == e ==> DownInv(cfg, packets[1..], e + 1, cur))
  {
    hide Block, Blocks, ConfigOk, PacketAt;
  }

  /** The client meets a position it expects, or the one before again: only the former adds to the log. */
  lemma HandleInv(cfg: Config, c: Client, k: nat)
    requires ConfigOk(cfg) && ClientInv(cfg, c) && c.running
    requires First(cfg) <= k <= Blocks(cfg) && k <= Expected(cfg, c) <= k + 1
    ensures var (c', reply) := Handle(c, Cut(PacketAt(cfg, k)), cfg.port);
            ClientInv(cfg, c') && reply == Some(Ack(k)) && c'.phase != Requesting && Expected(cfg, c') == k + 1 &&
            c'.timeouts == c.timeouts && (k < Expected(cfg, c) ==> c' == c)
  {
    hide Block, Blocks, Front;
    if k >= 1 {
      GotLength(cfg, k);
    }
  }

  /** Of the blocks the client waits for only the last one looks short to it. */
  lemma GotLength(cfg: Config, k: nat)
    requires 0 < BlkSize(cfg) && 1 <= k <= Last(cfg)
    ensures |Got(cfg, k)| < BlkSize(cfg) <==> k == Last(cfg)
  {
    hide Block, Blocks;
    BlockLength(cfg, k);
  }

  /** Only the last block is short, which is how the client knows it. */
  lemma BlockLength(cfg: Config, k: nat)
    requires 0 < BlkSize(cfg) && 1 <= k <= Blocks(cfg)
    ensures if k < Blocks(cfg) then |Block(cfg, k)| == BlkSize(cfg) else |Block(cfg, k)| < BlkSize(cfg)
  {
    BlockStart(cfg, k);
    hide Blocks, BlkSize;
    NextMultiple(k, BlkSize(cfg));
  }

  lemma NextMultiple(k: nat, b: nat)
    requires k >= 1
    ensures k * b == (k - 1) * b + b
  {
  }

  lemma UpAppend(acks: seq<ToServer>, e: nat, m: ToServer, e': nat)
    requires UpInv(acks, e) && e <= e' && (m.Ack? ==> m.number < e')
    ensures UpInv(acks + [m], e')
  {
  }

  lemma ReceiveInv(cfg: Config, sys: Sys)
    requires ConfigOk(cfg) && Inv(cfg, sys)
    ensures Inv(cfg, Step(cfg, sys, ClientReceives))
  {
    if sys.toClient != [] && sys.client.running {
      var e, cur := Expected(cfg, sys.client), sys.server.value;
      DownTake(cfg, sys.toClient, e, cur);
      var k := Position(sys.toClient[0]);
      HandleInv(cfg, sys.client, k);
      hide ClientInv, DownInv, UpInv, Handle, PacketAt;
      UpAppend(sys.toServer, e, Ack(k), k + 1);
    }
  }

  lemma TimeoutInv(cfg: Config, sys: Sys)
    requires ConfigOk(cfg) && Inv(cfg, sys)
    ensures Inv(cfg, Step(cfg, sys, ClientTimesOut))
  {
    hide DownInv, Log, Block;
  }

  lemma ServerInv(cfg: Config, sys: Sys)
    requires ConfigOk(cfg) && Inv(cfg, sys)
    ensures Inv(cfg, Step(cfg, sys, ServerReceives)) && Inv(cfg, Step(cfg, sys, ServerResends))
  {
    hide ClientInv, Block, Log;
    var e := Expected(cfg, sys.client);
    if sys.server.Some? {
      DownAppend(cfg, sys.toClient, e, sys.server.value, sys.server.value);
    }
    if sys.toServer != [] {
      var next := ServerNext(cfg, sys.server, sys.toServer[0]);
      if next != sys.server {
        FirstOnly(cfg, e);
        DownAppend(cfg, sys.toClient, e, if sys.server.Some? then sys.server.value else next.value, next.value);
      }
    }
  }

  lemma FirstOnly(cfg: Config, e: nat)
    requires ConfigOk(cfg)
    ensures DownInv(cfg, [], e, First(cfg))
  {
  }

  lemma LossInv(cfg: Config, sys: Sys, ev: Event)
    requires ConfigOk(cfg) && Inv(cfg, sys)
    requires ev.LoseToServer? || ev.DuplicateToServer? || ev.LoseToClient? || ev.DuplicateToClient?
    ensures Inv(cfg, Step(cfg, sys, ev))
  {
    hide ClientInv, PacketAt;
    if (ev.LoseToClient? || ev.DuplicateToClient?) && ev.i < |sys.toClient| {
      DownLoss(cfg, sys.toClient, Expected(cfg, sys.client), sys.server.value, ev.i);
    }
  }

  /** Stray packets leave everything as it is. */
  lemma StrayInv(cfg: Config, sys: Sys, p: ToClient, port: int)
    requires ConfigOk(cfg) && Inv(cfg, sys)
    ensures Step(cfg, sys, Stray(p, port)) == sys
  {
    hide DownInv, UpInv, Log, Front;
  }

  lemma StepInv(cfg: Config, sys: Sys, ev: Event)
    requires ConfigOk(cfg) && Inv(cfg, sys)
    ensures Inv(cfg, Step(cfg, sys, ev))
  {
    hide Inv, Step;
    match ev
    case ClientReceives => ReceiveInv(cfg, sys);
    case ClientTimesOut => TimeoutInv(cfg, sys);
    case Stray(p, port) => StrayInv(cfg, sys, p, port);
    case ServerReceives => ServerInv(cfg, sys);
    case ServerResends => ServerInv(cfg, sys);
    case _ => LossInv(cfg, sys, ev);
  }

  // ----- Every run -----

  /** The system after a sequence of events. */
  ghost function Run(cfg: Config, sys: Sys, evs: seq<Event>): (r: Sys)
    requires ConfigOk(cfg) && Inv(cfg, sys)
    ensures Inv(cfg, r)
  {
    if evs == [] then sys
    else
      var before := Run(cfg, sys, evs[..|evs| - 1]);
      StepInv(cfg, before, evs[|evs| - 1]);
      Step(cfg, before, evs[|evs| - 1])
  }

  function Contents(stored: seq<(nat, seq<byte>)>): seq<byte> {
    if stored == [] then [] else Contents(stored[..|stored| - 1]) + stored[|stored| - 1].1
  }

  lemma {:induction false} LogAt(cfg: Config, k: nat)
    requires 0 < BlkSize(cfg) && k <= Blocks(cfg)
    ensures |Log(cfg, k)| == k && forall i :: 0 <= i < k ==> Log(cfg, k)[i] == (i, Got(cfg, i + 1))
  {
    hide Got, Blocks, BlkSize;
    if k != 0 {
      LogAt(cfg, k - 1);
    }
  }

  /** The first k blocks are the file up to there, and all of them are all of it. */
  lemma {:induction false} LogContents(cfg: Config, k: nat)
    requires 0 < BlkSize(cfg) <= PAYLOAD_MAX && k <= Blocks(cfg)
    ensures Contents(Log(cfg, k)) == if k == Blocks(cfg) then cfg.file else cfg.file[..FilePos(cfg, k)]
  {
    hide *;
    if k == 0 {
      LogEmpty(cfg);
    } else {
      LogContents(cfg, k - 1);
      LogStep(cfg, k);
      GotWhole(cfg, k);
      BlockIs(cfg, k);
      var at := FilePos(cfg, k - 1);
      PrefixGrows(cfg.file, at, if k == Blocks(cfg) then |cfg.file| else FilePos(cfg, k));
    }
  }

  /** Blocks the buffer holds arrive whole, ... */
  lemma GotWhole(cfg: Config, k: nat)
    requires 0 < BlkSize(cfg) <= PAYLOAD_MAX && 1 <= k <= Blocks(cfg)
    ensures Got(cfg, k) == Block(cfg, k)
  {
    hide Block, Blocks;
    BlockLength(cfg, k);
  }

  /** ... and of larger ones the first brings the front of the file. */
  lemma GotFront(cfg: Config)
    requires BlkSize(cfg) > PAYLOAD_MAX
    ensures Got(cfg, 1) == Front(cfg.file) && Contents(Log(cfg, 1)) == Got(cfg, 1)
  {
    LogEmpty(cfg);
    BlockStart(cfg, 1);
    LogStep(cfg, 1);
  }

  /** What a client that has stopped has received. */
  lemma AllReceived(cfg: Config)
    requires 0 < BlkSize(cfg)
    ensures Contents(Log(cfg, Last(cfg))) == if BlkSize(cfg) <= PAYLOAD_MAX then cfg.file else Front(cfg.file)
  {
    hide Log, Contents, Block, Blocks, Got, Front;
    if BlkSize(cfg) <= PAYLOAD_MAX {
      LogContents(cfg, Blocks(cfg));
    } else {
      GotFront(cfg);
    }
  }

  lemma LogEmpty(cfg: Config)
    requires 0 < BlkSize(cfg)
    ensures Contents(Log(cfg, 0)) == [] && 0 < Blocks(cfg) && FilePos(cfg, 0) == 0
  {
  }

  lemma PrefixGrows(file: seq<byte>, at: nat, next: nat)
    requires at <= next <= |file|
    ensures file[..at] + file[at..next] == file[..next]
    ensures next == |file| ==> file[..next] == file && file[at..next] == file[at..]
  {
  }

  lemma LogStep(cfg: Config, k: nat)
    requires 0 < BlkSize(cfg) && 1 <= k <= Blocks(cfg)
    ensures Contents(Log(cfg, k)) == Contents(Log(cfg, k - 1)) + Got(cfg, k)
  {
    hide Got, Blocks, BlkSize;
    LogAt(cfg, k);
    LogAt(cfg, k - 1);
    assert Log(cfg, k)[..k - 1] == Log(cfg, k - 1);
  }

  function FilePos(cfg: Config, k: nat): (r: nat)
    requires 0 < BlkSize(cfg) && k < Blocks(cfg)
    ensures r <= |cfg.file|
  {
    BlockStart(cfg, k + 1);
    k * BlkSize(cfg)
  }

  lemma BlockIs(cfg: Config, k: nat)
    requires 0 < BlkSize(cfg) && 1 <= k <= Blocks(cfg)
    ensures k < Blocks(cfg) ==> FilePos(cfg, k - 1) <= FilePos(cfg, k) &&
                                Block(cfg, k) == cfg.file[FilePos(cfg, k - 1)..FilePos(cfg, k)]
    ensures k == Blocks(cfg) ==> Block(cfg, k) == cfg.file[FilePos(cfg, k - 1)..]
  {
    BlockStart(cfg, k);
  }

  /** The file gets through whole: its blocks fit the receive buffer, or it does. */
  predicate Fits(cfg: Config) {
    BlkSize(cfg) <= PAYLOAD_MAX || |cfg.file| <= PAYLOAD_MAX
  }

  /**
   * Exactly once, in order, with the right bytes: in every run, over channels that lose and duplicate, the calls
   * to store_block so far are blocks 0, 1, 2, ... of the file, and the client stops exactly when it has them all. With
   * blocks larger than the receive buffer it stops after the first one's front, which is the file only if that fits.
   */
  lemma ExactlyOnce(cfg: Config, sys: Sys, evs: seq<Event>)
    requires ConfigOk(cfg) && Init(cfg, sys)
    ensures Inv(cfg, sys)
    ensures var stored := Run(cfg, sys, evs).client.stored;
            |stored| <= Last(cfg) &&
            (forall i :: 0 <= i < |stored| ==> stored[i] == (i, Got(cfg, i + 1))) &&
            (Fits(cfg) ==> forall i :: 0 <= i < |stored| ==> stored[i] == (i, Block(cfg, i + 1))) &&
            (Run(cfg, sys, evs).client.running <==> |stored| < Last(cfg)) &&
            (!Run(cfg, sys, evs).client.running ==>
               (Fits(cfg) <==> Contents(stored) == cfg.file) && (!Fits(cfg) ==> Contents(stored) == Front(cfg.file)))
  {
    hide *;
    InitInv(cfg, sys);
    SizeKnown(cfg, Run(cfg, sys, evs));
    var k := Seen(cfg, Run(cfg, sys, evs));
    LogAt(cfg, k);
    AllReceived(cfg);
    FrontPart(cfg);
    if Fits(cfg) {
      forall k | 1 <= k <= Last(cfg)
        ensures Got(cfg, k) == Block(cfg, k)
      {
        FitsWhole(cfg, k);
      }
    }
  }

  lemma SizeKnown(cfg: Config, sys: Sys)
    requires ConfigOk(cfg) && Inv(cfg, sys)
    ensures 0 < BlkSize(cfg)
  {
  }

  // The client's log is that of the blocks before the one it expects.
  lemma Seen(cfg: Config, sys: Sys) returns (k: nat)
    requires ConfigOk(cfg) && 0 < BlkSize(cfg) && Inv(cfg, sys)
    ensures k <= Last(cfg) && sys.client.stored == Log(cfg, k) && (sys.client.running <==> k < Last(cfg))
  {
    hide DownInv, UpInv, Log, Blocks;
    var e := Expected(cfg, sys.client);
    k := if e == 0 then 0 else e - 1;
  }

  lemma FrontPart(cfg: Config)
    requires 0 < BlkSize(cfg)
    ensures var got := if BlkSize(cfg) <= PAYLOAD_MAX then cfg.file else Front(cfg.file);
            (Fits(cfg) <==> got == cfg.file) && (!Fits(cfg) ==> got == Front(cfg.file))
  {
  }

  lemma FitsWhole(cfg: Config, k: nat)
    requires 0 < BlkSize(cfg) && Fits(cfg) && 1 <= k <= Last(cfg)
    ensures Got(cfg, k) == Block(cfg, k)
  {
    if BlkSize(cfg) <= PAYLOAD_MAX {
      GotWhole(cfg, k);
    }
  }

  /** It does happen: whenever the file does not fit, a transfer ends with the first 1596 bytes and reports success. */
  lemma CutShort(cfg: Config, sys: Sys) returns (evs: seq<Event>)
    requires ConfigOk(cfg) && Init(cfg, sys) && !Fits(cfg)
    ensures Inv(cfg, sys) && !Run(cfg, sys, evs).client.running
    ensures Run(cfg, sys, evs).client.stored == [(0, cfg.file[..PAYLOAD_MAX])]
  {
    hide Run, Inv, Got, Block, Blocks;
    InitInv(cfg, sys);
    evs := Complete(cfg, sys);
    ExactlyOnce(cfg, sys, evs);
    GotFront(cfg);
  }

  /** Timeouts and anything the client has seen before change neither the log nor what it waits for. */
  lemma NothingNew(cfg: Config, sys: Sys, ev: Event)
    requires ConfigOk(cfg) && Inv(cfg, sys)
    requires !ev.ClientReceives? || sys.toClient == [] || Position(sys.toClient[0]) < Expected(cfg, sys.client)
    ensures var after := Step(cfg, sys, ev);
            after.client.stored == sys.client.stored && Expected(cfg, after.client) == Expected(cfg, sys.client) &&
            after.client.running == sys.client.running
  {
    if ev.ClientReceives? && sys.toClient != [] && sys.client.running {
      DownTake(cfg, sys.toClient, Expected(cfg, sys.client), sys.server.value);
      HandleInv(cfg, sys.client, Position(sys.toClient[0]));
    }
  }

  // ----- What single packets and timeouts do -----

  /** A timeout repeats the last packet, ten times in a transfer: the request, or the acknowledgement of the last thing
      received. */
  lemma TimeoutSends(cfg: Config, sys: Sys)
    requires ConfigOk(cfg) && Inv(cfg, sys) && sys.client.running
    ensures var e := Expected(cfg, sys.client);
            var last := if sys.client.phase == Requesting then Request else Ack(e - 1);
            Step(cfg, sys, ClientTimesOut) ==
            sys.(client := sys.client.(timeouts := sys.client.timeouts + 1),
                 toServer := sys.toServer + if sys.client.timeouts < 10 then [last] else [])
  {
    hide DownInv, UpInv, Log, Block, Blocks;
    BlocksBound(cfg);
  }

  lemma BlocksBound(cfg: Config)
    requires ConfigOk(cfg)
    ensures 0 < BlkSize(cfg) && Last(cfg) <= Blocks(cfg) < 0x1_0000
  {
  }

  /** So when the server waits for an acknowledgement that was lost, the client's timeout alone moves it on. */
  lemma TimeoutMoves(cfg: Config, sys: Sys)
    requires ConfigOk(cfg) && Inv(cfg, sys) && sys.client.running && sys.client.phase != Requesting
    requires sys.toServer == [] && sys.toClient == [] && sys.client.timeouts < 10
    requires sys.server == Some(Expected(cfg, sys.client) - 1)
    ensures var e, s1 := Expected(cfg, sys.client), Step(cfg, sys, ClientTimesOut);
            1 <= e <= Blocks(cfg) && Inv(cfg, s1) &&
            var s2 := Step(cfg, s1, ServerReceives);
            s2.server == Some(e) && s2.toClient == [Data(e, Block(cfg, e))] && s2.toServer == []
  {
    StepInv(cfg, sys, ClientTimesOut);
    TimeoutSends(cfg, sys);
    BlocksBound(cfg);
    hide DownInv, UpInv, Log, Block, Blocks, Timeout;
  }

  /** Who answers the request first is the server of the transfer: from any other port nothing is taken after that. */
  lemma PortFixed(c: Client, p: ToClient, port: int, q: ToClient, other: int)
    requires !p.Other? && other != port && c.phase == Requesting
    ensures var answered := Handle(c, p, port).0;
            answered.serverPort == port && answered.phase != Requesting &&
            Handle(answered, q, other) == (answered, None)
  {
  }

  /** A first data packet that is not block 1 is not answered and leaves no trace. */
  lemma FirstAgain(c: Client, n: nat, q: seq<byte>, p: seq<byte>, port: int)
    requires c.phase != Receiving && (c.phase == Acked ==> port == c.serverPort) && n != 1
    ensures var (c1, reply) := Handle(c, Data(n, q), port);
            reply == None && c1.stored == c.stored && Handle(c1, Data(1, p), port) == Handle(c, Data(1, p), port)
  {
  }

  /** An OACK that comes late makes the client drop the next block unanswered; sent again, it is taken as ever. */
  lemma LateOack(c: Client, k: nat, p: seq<byte>)
    requires c.phase == Receiving && k >= 1 && k == c.lastBlock == c.block
    ensures var (c1, again) := Handle(c, Oack(None), c.serverPort);
            var (c2, reply) := Handle(c1, Data(k + 1, p), c.serverPort);
            again == Some(Ack(k % 0x1_0000)) && reply == None && c2.stored == c.stored &&
            Handle(c2, Data(k + 1, p), c.serverPort) == Handle(c, Data(k + 1, p), c.serverPort)
  {
  }

  /** Where the block number has wrapped to 0, store_block is called with the largest 32-bit number. */
  lemma BlockZero(c: Client, p: seq<byte>)
    requires c.phase == Receiving && c.lastBlock != 0
    ensures var (c1, reply) := Handle(c, Data(0, p), c.serverPort);
            c1.stored == c.stored + [(0xFFFF_FFFF, p)] && reply == Some(Ack(0)) && c1.lastBlock == 0
  {
  }

  /** The block size is a 16-bit field: sizes that agree in it are the same answer. */
  lemma SizeField(c: Client, a: nat, b: nat, port: int)
    requires a % 0x1_0000 == b % 0x1_0000
    ensures Handle(c, Oack(Some(a)), port) == Handle(c, Oack(Some(b)), port)
  {
  }

  // ----- Which states can still complete -----

  /** The transfer has begun, or a request is on its way, or the client will send one more. */
  predicate CanStart(sys: Sys) {
    sys.server.Some? || Request in sys.toServer || sys.client.timeouts < TIMEOUT_COUNT
  }

  lemma {:induction false} RunAppend(cfg: Config, sys: Sys, first: seq<Event>, second: seq<Event>)
    requires ConfigOk(cfg) && Inv(cfg, sys)
    ensures Run(cfg, sys, first + second) == Run(cfg, Run(cfg, sys, first), second)
  {
    hide Step, Inv;
    if second == [] {
      assert first + second == first;
    } else {
      RunAppend(cfg, sys, first, second[..|second| - 1]);
      assert (first + second)[..|first + second| - 1] == first + second[..|second| - 1];
    }
  }

  lemma RunOne(cfg: Config, sys: Sys, ev: Event)
    requires ConfigOk(cfg) && Inv(cfg, sys)
    ensures Run(cfg, sys, [ev]) == Step(cfg, sys, ev)
  {
    assert [ev][..0] == [];
    assert Run(cfg, sys, []) == sys;
  }

  /** One event, then a run. */
  lemma RunCons(cfg: Config, sys: Sys, ev: Event, evs: seq<Event>)
    requires ConfigOk(cfg) && Inv(cfg, sys)
    ensures Inv(cfg, Step(cfg, sys, ev)) && Run(cfg, sys, [ev] + evs) == Run(cfg, Step(cfg, sys, ev), evs)
  {
    hide Step, Inv;
    StepInv(cfg, sys, ev);
    RunOne(cfg, sys, ev);
    RunAppend(cfg, sys, [ev], evs);
  }

  /** The network may swallow everything in flight. */
  lemma {:induction false} Drain(cfg: Config, sys: Sys) returns (evs: seq<Event>)
    requires ConfigOk(cfg) && Inv(cfg, sys)
    ensures Run(cfg, sys, evs) == sys.(toServer := [], toClient := [])
    decreases |sys.toServer| + |sys.toClient|
  {
    hide *;
    if sys.toServer != [] || sys.toClient != [] {
      var ev := if sys.toServer != [] then LoseToServer(0) else LoseToClient(0);
      ServerKnown(cfg, sys);
      StepInv(cfg, sys, ev);
      LoseFirst(cfg, sys);
      var rest := Drain(cfg, Step(cfg, sys, ev));
      RunCons(cfg, sys, ev, rest);
      evs := [ev] + rest;
    } else {
      evs := [];
      RunNone(cfg, sys);
    }
  }

  lemma ServerKnown(cfg: Config, sys: Sys)
    requires ConfigOk(cfg) && Inv(cfg, sys)
    ensures 0 < BlkSize(cfg) && (sys.server.Some? ==> sys.server.value <= Blocks(cfg))
  {
  }

  lemma LoseFirst(cfg: Config, sys: Sys)
    requires ConfigOk(cfg) && (sys.server.Some? ==> sys.server.value <= Blocks(cfg))
    ensures sys.toServer != [] ==> Step(cfg, sys, LoseToServer(0)) == sys.(toServer := sys.toServer[1..])
    ensures sys.toClient != [] ==> Step(cfg, sys, LoseToClient(0)) == sys.(toClient := sys.toClient[1..])
  {
    hide Handle, Timeout, PacketAt, Cut;
  }

  lemma RunNone(cfg: Config, sys: Sys)
    requires ConfigOk(cfg) && Inv(cfg, sys)
    ensures Run(cfg, sys, []) == sys
  {
  }

  /** One exchange over quiet channels: resend, receive, acknowledge. */
  lemma Exchange(cfg: Config, sys: Sys)
    requires ConfigOk(cfg) && Inv(cfg, sys) && sys.client.running && sys.server.Some?
    requires sys.toServer == [] && sys.toClient == []
    ensures var s1 := Step(cfg, sys, ServerResends);
            Inv(cfg, s1) && var s2 := Step(cfg, s1, ClientReceives);
            Inv(cfg, s2) && s2.server == sys.server && s2.toServer == [Ack(sys.server.value)] && s2.toClient == [] &&
            Expected(cfg, s2.client) == sys.server.value + 1
  {
    StepInv(cfg, sys, ServerResends);
    var s1 := Step(cfg, sys, ServerResends);
    StepInv(cfg, s1, ClientReceives);
    assert s1.toClient[0] == PacketAt(cfg, sys.server.value);
    hide PacketAt, Handle, DownInv, UpInv;
    HandleInv(cfg, sys.client, sys.server.value);
  }

  lemma {:induction false} Finish(cfg: Config, sys: Sys) returns (evs: seq<Event>)
    requires ConfigOk(cfg) && Inv(cfg, sys) && sys.client.running && sys.server.Some?
    requires sys.toServer == [] && sys.toClient == []
    ensures !Run(cfg, sys, evs).client.running
    decreases Blocks(cfg) - sys.server.value
  {
    Exchange(cfg, sys);
    var s1 := Step(cfg, sys, ServerResends);
    var s2 := Step(cfg, s1, ClientReceives);
    var rest := [];
    if s2.client.running {
      var s3 := Step(cfg, s2, ServerReceives);
      StepInv(cfg, s2, ServerReceives);
      var drain := Drain(cfg, s3);
      hide Run, Step, DownInv, UpInv;
      var more := Finish(cfg, Run(cfg, s3, drain));
      RunAppend(cfg, s3, drain, more);
      RunCons(cfg, s2, ServerReceives, drain + more);
      rest := [ServerReceives] + (drain + more);
    }
    hide Inv, Step, Run;
    RunCons(cfg, s1, ClientReceives, rest);
    RunCons(cfg, sys, ServerResends, [ClientReceives] + rest);
    evs := [ServerResends] + ([ClientReceives] + rest);
  }

  /** Getting the request to the server. */
  lemma {:induction false} Begin(cfg: Config, sys: Sys) returns (evs: seq<Event>)
    requires ConfigOk(cfg) && Inv(cfg, sys) && sys.client.running && CanStart(sys)
    ensures Run(cfg, sys, evs).server.Some? && Run(cfg, sys, evs).client.running
    decreases if sys.server.Some? then 0 else 1, if Request in sys.toServer then 0 else 1, |sys.toServer|
  {
    hide DownInv, UpInv;
    if sys.server.Some? {
      evs := [];
    } else {
      var ev := if Request !in sys.toServer then ClientTimesOut
                else if sys.toServer[0] == Request then ServerReceives else LoseToServer(0);
      StepInv(cfg, sys, ev);
      var rest := Begin(cfg, Step(cfg, sys, ev));
      hide Inv, Step, Run;
      RunCons(cfg, sys, ev, rest);
      evs := [ev] + rest;
    }
  }

  lemma Complete(cfg: Config, sys: Sys) returns (evs: seq<Event>)
    requires ConfigOk(cfg) && Inv(cfg, sys) && sys.client.running && CanStart(sys)
    ensures !Run(cfg, sys, evs).client.running
  {
    var begin := Begin(cfg, sys);
    var s1 := Run(cfg, sys, begin);
    var drain := Drain(cfg, s1);
    hide Run, DownInv, UpInv;
    var finish := Finish(cfg, Run(cfg, s1, drain));
    RunAppend(cfg, s1, drain, finish);
    RunAppend(cfg, sys, begin, drain + finish);
    evs := begin + (drain + finish);
  }

  lemma StuckStep(cfg: Config, sys: Sys, ev: Event)
    requires ConfigOk(cfg) && Inv(cfg, sys) && sys.client.running && !CanStart(sys)
    ensures !CanStart(Step(cfg, sys, ev)) && Step(cfg, sys, ev).client.running
  {
    hide DownInv, UpInv, ClientInv, Handle;
    if ev.Stray? {
      StrayInv(cfg, sys, ev.p, ev.port);
    }
  }

  /** With the request lost and the retries used up nothing ever happens again. */
  lemma {:induction false} Stuck(cfg: Config, sys: Sys, evs: seq<Event>)
    requires ConfigOk(cfg) && Inv(cfg, sys) && sys.client.running && !CanStart(sys)
    ensures !CanStart(Run(cfg, sys, evs)) && Run(cfg, sys, evs).client.running
  {
    if evs != [] {
      Stuck(cfg, sys, evs[..|evs| - 1]);
      var before := Run(cfg, sys, evs[..|evs| - 1]);
      hide Inv, Step, CanStart;
      StuckStep(cfg, before, evs[|evs| - 1]);
    }
  }

  /**
   * The retry budget is for the whole transfer, but it only matters before the server has the request: from then
   * on the server's resends suffice. A transfer can still complete exactly when the request is not lost for good.
   */
  lemma CompletionIff(cfg: Config, sys: Sys)
    requires ConfigOk(cfg) && Inv(cfg, sys) && sys.client.running
    ensures CanStart(sys) <==> exists evs :: !Run(cfg, sys, evs).client.running
  {
    if CanStart(sys) {
      var evs := Complete(cfg, sys);
    } else {
      forall evs
        ensures Run(cfg, sys, evs).client.running
      {
        Stuck(cfg, sys, evs);
      }
    }
  }

  // ----- Download to flash -----

  function Payloads(stored: seq<(nat, seq<byte>)>): (r: seq<seq<byte>>)
    ensures |r| == |stored| && forall i :: 0 <= i < |r| ==> r[i] == stored[i].1
  {
    seq(|stored|, i requires 0 <= i < |stored| => stored[i].1)
  }

  /**
   * The blocks of an image file are its packets: both have the same size and the last packet is a short one, or the
   * image is one packet and that fits a block with room to spare.
   */
  predicate Packaged(cfg: Config, packets: seq<seq<byte>>)
    requires packets != []
  {
    (BlkSize(cfg) == PACKET && |packets[|packets| - 1]| < PACKET) || (|packets| == 1 && |cfg.file| < BlkSize(cfg))
  }

  /**
   * From the network to flash, for every block size: when the client stops, the store_block calls it has made are the
   * packaged image's packets in order exactly when the blocks are ...
   */
  lemma CallsIff(cfg: Config, sys: Sys, evs: seq<Event>, packets: seq<seq<byte>>, size: nat)
    requires ConfigOk(cfg) && Init(cfg, sys) && GoodImage(size, packets) && cfg.file == Bytes(packets)
    ensures Inv(cfg, sys)
    ensures !Run(cfg, sys, evs).client.running ==>
              (Payloads(Run(cfg, sys, evs).client.stored) == packets <==> Packaged(cfg, packets))
  {
    hide *;
    ImageNotEmpty(size, packets);
    ExactlyOnce(cfg, sys, evs);
    if Packaged(cfg, packets) {
      BlocksAre(cfg, size, packets);
    } else {
      BlocksDiffer(cfg, size, packets);
    }
    var stored := Run(cfg, sys, evs).client.stored;
    if !Run(cfg, sys, evs).client.running && Packaged(cfg, packets) {
      assert Payloads(stored) == packets;
    }
  }

  /** ... and then they have delivered the image. */
  lemma DownloadDelivered(cfg: Config, sys: Sys, evs: seq<Event>, f: CrcStep, st: State, packets: seq<seq<byte>>)
    requires ConfigOk(cfg) && Init(cfg, sys) && cfg.file == Bytes(packets)
    requires ChipOk(st.mem) && GoodImage(|st.mem|, packets) && Packaged(cfg, packets)
    ensures Inv(cfg, sys)
    ensures !Run(cfg, sys, evs).client.running ==>
              Payloads(Run(cfg, sys, evs).client.stored) == packets && Runs(f, st, packets) &&
              Delivered(f, Ota.Run(f, st, packets), st.mem, Parse(packets[|packets| - 1]),
                        Parse(packets[0]).os1FlashAddr, Payload(packets), cfg.file)
  {
    hide *;
    CallsIff(cfg, sys, evs, packets, |st.mem|);
    ImageRun(f, st, packets);
  }

  lemma BlocksAre(cfg: Config, size: nat, packets: seq<seq<byte>>)
    requires ConfigOk(cfg) && cfg.file == Bytes(packets) && GoodImage(size, packets) && Packaged(cfg, packets)
    ensures Last(cfg) == |packets|
    ensures forall k :: 1 <= k <= |packets| ==> Got(cfg, k) == packets[k - 1]
  {
    hide GoodImage, Block, Blocks, Got, Last, BlkSize, ConfigOk, Bytes;
    ImageNotEmpty(size, packets);
    ImageSize(size, packets);
    if BlkSize(cfg) == PACKET && |packets[|packets| - 1]| < PACKET {
      EvenBlocks(cfg, size, packets);
    } else {
      OneBlock(cfg);
      OnePacket(packets[0]);
      assert packets == [packets[0]];
    }
  }

  lemma EvenBlocks(cfg: Config, size: nat, packets: seq<seq<byte>>)
    requires BlkSize(cfg) == PACKET && cfg.file == Bytes(packets)
    requires GoodImage(size, packets) && |packets[|packets| - 1]| < PACKET
    ensures Last(cfg) == |packets|
    ensures forall k :: 1 <= k <= |packets| ==> Got(cfg, k) == packets[k - 1]
  {
    hide GoodImage, Block, BlkSize, Bytes, Got, Packets;
    ImageNotEmpty(size, packets);
    ImagePieces(size, packets);
    var n := |packets| - 1;
    assert Blocks(cfg) == n + 1;
    hide Blocks;
    forall k | 1 <= k <= n + 1
      ensures Got(cfg, k) == packets[k - 1]
    {
      GotWhole(cfg, k);
      BlockPart(cfg, k);
      if k <= n {
        PacketIs(cfg.file, n, k - 1);
      }
    }
  }

  lemma BlockPart(cfg: Config, k: nat)
    requires BlkSize(cfg) == PACKET && 1 <= k <= Blocks(cfg)
    ensures k < Blocks(cfg) ==> k * PACKET <= |cfg.file| && Block(cfg, k) == cfg.file[(k - 1) * PACKET..k * PACKET]
    ensures k == Blocks(cfg) ==> (k - 1) * PACKET <= |cfg.file| && Block(cfg, k) == cfg.file[(k - 1) * PACKET..]
  {
    BlockStart(cfg, k);
  }

  lemma OneBlock(cfg: Config)
    requires |cfg.file| < BlkSize(cfg) && |cfg.file| <= PACKET
    ensures Last(cfg) == 1 && Got(cfg, 1) == cfg.file
  {
    hide BlkSize;
    ModUnique(|cfg.file|, BlkSize(cfg), 0, |cfg.file|);
    assert Blocks(cfg) == 1;
    BlockIs(cfg, 1);
  }

  /** Otherwise their number is another, or the first one's size. */
  lemma BlocksDiffer(cfg: Config, size: nat, packets: seq<seq<byte>>)
    requires ConfigOk(cfg) && cfg.file == Bytes(packets) && GoodImage(size, packets) && packets != []
    requires !Packaged(cfg, packets)
    ensures Last(cfg) != |packets| || Got(cfg, 1) != packets[0]
  {
    hide GoodImage, Block, Blocks, Got, BlkSize, Bytes;
    ImageSize(size, packets);
    var n := |packets| - 1;
    if BlkSize(cfg) == PACKET {
      EmptyBlock(cfg, n + 1);
    } else if BlkSize(cfg) <= PAYLOAD_MAX && Blocks(cfg) == |packets| {
      BlockLength(cfg, 1);
      GotWhole(cfg, 1);
      if n == 0 {
        TwoBlocks(cfg);
      }
    }
  }

  lemma TwoBlocks(cfg: Config)
    requires 0 < BlkSize(cfg) <= |cfg.file|
    ensures Blocks(cfg) > 1
  {
  }

  /** Exactly when the image's last packet is short: behind a full one TFTP needs an empty block, which the client hands
      to store_block too, and store_block needs at least a header. */
  lemma DownloadIff(cfg: Config, sys: Sys, evs: seq<Event>, f: CrcStep, st: State, packets: seq<seq<byte>>)
    requires ConfigOk(cfg) && Init(cfg, sys) && BlkSize(cfg) == PACKET
    requires ChipOk(st.mem) && GoodImage(|st.mem|, packets) && cfg.file == Bytes(packets)
    ensures Inv(cfg, sys)
    ensures !Run(cfg, sys, evs).client.running ==>
              (Runs(f, st, Payloads(Run(cfg, sys, evs).client.stored)) <==> |packets[|packets| - 1]| < PACKET)
  {
    hide *;
    ImageNotEmpty(|st.mem|, packets);
    if |packets[|packets| - 1]| < PACKET {
      assert Packaged(cfg, packets) by { Agreed(cfg, packets); }
      DownloadDelivered(cfg, sys, evs, f, st, packets);
    } else {
      DownloadFull(cfg, sys, evs, f, st, packets);
    }
  }

  lemma Agreed(cfg: Config, packets: seq<seq<byte>>)
    requires BlkSize(cfg) == PACKET && packets != [] && |packets[|packets| - 1]| < PACKET
    ensures Packaged(cfg, packets)
  {
  }

  /** Behind a full last packet the last call is one with nothing. */
  lemma DownloadFull(cfg: Config, sys: Sys, evs: seq<Event>, f: CrcStep, st: State, packets: seq<seq<byte>>)
    requires ConfigOk(cfg) && Init(cfg, sys) && BlkSize(cfg) == PACKET
    requires GoodImage(|st.mem|, packets) && |packets[|packets| - 1]| >= PACKET && cfg.file == Bytes(packets)
    ensures Inv(cfg, sys)
    ensures !Run(cfg, sys, evs).client.running ==> !Runs(f, st, Payloads(Run(cfg, sys, evs).client.stored))
  {
    hide *;
    InitInv(cfg, sys);
    AllFull(|st.mem|, packets);
    PacketsOfBytes(packets);
    if !Run(cfg, sys, evs).client.running {
      EndsEmpty(cfg, sys, evs, |packets|);
      EmptyLast(f, st, Payloads(Run(cfg, sys, evs).client.stored));
    }
  }

  lemma AllFull(size: nat, packets: seq<seq<byte>>)
    requires GoodImage(size, packets) && |packets[|packets| - 1]| >= PACKET
    ensures forall p :: p in packets ==> |p| == PACKET
  {
    hide Parse, HeadApart;
  }

  /** Behind a file of whole blocks comes an empty one. */
  lemma EndsEmpty(cfg: Config, sys: Sys, evs: seq<Event>, n: nat)
    requires ConfigOk(cfg) && Init(cfg, sys) && BlkSize(cfg) == PACKET && |cfg.file| == n * PACKET
    requires Inv(cfg, sys) && !Run(cfg, sys, evs).client.running
    ensures var sent := Payloads(Run(cfg, sys, evs).client.stored); |sent| == n + 1 && sent[n] == []
  {
    hide Run, Init, Inv;
    EmptyBlock(cfg, n);
    hide Block, Blocks, BlkSize;
    ExactlyOnce(cfg, sys, evs);
  }

  lemma EmptyBlock(cfg: Config, n: nat)
    requires BlkSize(cfg) == PACKET && |cfg.file| == n * PACKET
    ensures Blocks(cfg) == n + 1 && Block(cfg, n + 1) == []
  {
  }

  /** It does happen: an image of one full packet, sent in 1048-byte blocks, ends with such a call. */
  lemma FullImageSent(f: CrcStep, st: State) returns (cfg: Config, sys: Sys, evs: seq<Event>)
    requires ChipOk(st.mem)
    ensures cfg.file == FullPacket() && GoodImage(|st.mem|, [FullPacket()])
    ensures ConfigOk(cfg) && Init(cfg, sys) && Inv(cfg, sys) && !Run(cfg, sys, evs).client.running
    ensures !Runs(f, st, Payloads(Run(cfg, sys, evs).client.stored))
  {
    hide FullPacket, Run, Runs, Parse, GoodImage, Payloads, Inv;
    FullImage(|st.mem|);
    cfg := Config(FullPacket(), 2000, true, Some(PACKET));
    sys := Sys(Start(0), None, [], []);
    OnePacket(FullPacket());
    InitInv(cfg, sys);
    evs := Complete(cfg, sys);
    DownloadIff(cfg, sys, evs, f, st, [FullPacket()]);
  }

  /** From a server without options the blocks are of 512 bytes: this good image arrives whole, every call is one
      store_block can take, and flash does not hold the image. */
  lemma PlainServer(f: CrcStep, st: State) returns (cfg: Config, sys: Sys, evs: seq<Event>)
    requires ChipOk(st.mem)
    ensures !cfg.useOack && GoodImage(|st.mem|, [cfg.file]) && Fits(cfg)
    ensures ConfigOk(cfg) && Init(cfg, sys) && Inv(cfg, sys) && !Run(cfg, sys, evs).client.running
    ensures var calls := Payloads(Run(cfg, sys, evs).client.stored);
            Runs(f, st, calls) &&
            !Delivered(f, Ota.Run(f, st, calls), st.mem, Parse(cfg.file), Parse(cfg.file).os1FlashAddr,
                       Payload([cfg.file]), cfg.file)
  {
    hide SplitPacket, Run, Runs, Parse, GoodImage, Inv, Delivered;
    Misplaced(f, st);
    cfg := Config(SplitPacket(), 2000, false, None);
    sys := Sys(Start(0), None, [], []);
    InitInv(cfg, sys);
    evs := Complete(cfg, sys);
    hide Payloads;
    ExactlyOnce(cfg, sys, evs);
    BlockStart(cfg, 1);
    BlockStart(cfg, 2);
    var p := SplitPacket();
    assert Block(cfg, 1) == p[..512] && Block(cfg, 2) == p[512..];
    assert Payloads(Run(cfg, sys, evs).client.stored) == [p[..512], p[512..]];
  }
}
