/** The bytes the TFTP client receives: opcodes, block numbers, and the scan for the block size in an OACK. */
module TftpPacket {
  import opened Bits
  import opened Tftp

  const TFTP_RRQ := 1
  const TFTP_DATA := 3
  const TFTP_ACK := 4
  const TFTP_OACK := 6

  // "blksize" with its terminator, as the comparison sees it.
  function Name(): (r: seq<byte>)
    ensures |r| == 8 && r[7] == 0 && forall i :: 0 <= i < 7 ==> r[i] != 0
  {
    [98, 108, 107, 115, 105, 122, 101, 0]
  }

  function Ntohs(p: seq<byte>, at: nat): nat
    requires at + 2 <= |p|
  {
    0x100 * p[at] as int + p[at + 1] as int
  }

  predicate Digit(b: byte) {
    48 <= b <= 57
  }

  // What isspace accepts.
  predicate Space(b: byte) {
    b == 32 || 9 <= b <= 13
  }

  function SkipSpaces(s: seq<byte>): seq<byte> {
    if s != [] && Space(s[0]) then SkipSpaces(s[1..]) else s
  }

  // The digits at the start of s, read behind a number.
  function Digits(s: seq<byte>, before: nat): nat
    decreases |s|
  {
    if s == [] || !Digit(s[0]) then before else Digits(s[1..], 10 * before + (s[0] - 48))
  }

  // strtoul in base 10: spaces, one sign, digits; too large a number saturates, a minus sign wraps.
  function StrToUl(s: seq<byte>): nat {
    var t := SkipSpaces(s);
    var signed := t != [] && (t[0] == 43 || t[0] == 45);
    var n := Digits(if signed then t[1..] else t, 0);
    if n >= U32 then U32 - 1 else if signed && t[0] == 45 then Wrap32(-(n as int)) else n
  }

  // The OACK's options from position i on: the value behind the first "blksize" that ends a string.
  function Scan(pkt: seq<byte>, i: nat): Option<nat>
    decreases |pkt| - i
  {
    if i + 8 >= |pkt| then None
    else if pkt[i..i + 8] == Name() then Some(StrToUl(pkt[i + 8..]))
    else Scan(pkt, i + 1)
  }

  /** What TftpHandler makes of a datagram; Other is anything it does not act on. */
  function Decode(p: seq<byte>): ToClient {
    if |p| < 2 then Other
    else if Ntohs(p, 0) == TFTP_OACK then Oack(Scan(p[2..], 0))
    else if Ntohs(p, 0) == TFTP_DATA && |p| >= 4 then Data(Ntohs(p, 2), p[4..])
    else Other
  }

  // The scan of TftpHandler.
  method ScanOptions(pkt: seq<byte>) returns (blkSize: Option<nat>)
    ensures blkSize == Scan(pkt, 0)
  {
    var i := 0;
    while i + 8 < |pkt|
      invariant Scan(pkt, 0) == Scan(pkt, i)
      decreases |pkt| - i
    {
      if pkt[i..i + 8] == Name() {
        return Some(StrToUl(pkt[i + 8..]));
      }
      i := i + 1;
    }
    blkSize := None;
  }

  /** TftpHandler from the datagram on. */
  method Receive(c: TftpClient, p: seq<byte>, port: int) returns (reply: Option<ToServer>)
    modifies c
    ensures (c.View(), reply) == Handle(old(c.View()), Decode(p), port)
  {
    hide Scan;
    reply := None;
    if c.tftpState != Requesting && port != c.tftpServerPort {
      return;
    }
    if |p| < 2 {
      return;
    }
    var proto := Ntohs(p, 0);
    if proto == TFTP_OACK {
      var option := ScanOptions(p[2..]);
      reply := c.TftpHandler(Oack(option), port);
    } else if proto == TFTP_DATA {
      if |p| < 4 {
        return;
      }
      reply := c.TftpHandler(Data(Ntohs(p, 2), p[4..]), port);
    }
  }

  // ----- What a server sends -----

  function Htons(n: nat): (r: seq<byte>)
    requires n < 0x1_0000
    ensures |r| == 2 && Ntohs(r, 0) == n
  {
    [n / 0x100, n % 0x100]
  }

  /** Strings, each with its terminator: how RFC 2347 lays out option names and values. */
  function Join(strings: seq<seq<byte>>): seq<byte> {
    if strings == [] then [] else strings[0] + [0] + Join(strings[1..])
  }

  function Decimal(n: nat): (r: seq<byte>)
    ensures |r| > 0
  {
    if n < 10 then [48 + n] else Decimal(n / 10) + [48 + n % 10]
  }

  lemma DecimalBack(n: nat, rest: seq<byte>)
    requires rest == [] || !Digit(rest[0])
    ensures StrToUl(Decimal(n) + rest) == if n < U32 then n else U32 - 1
  {
    DecimalRead(n, rest);
    DecimalStarts(n);
  }

  lemma {:induction false} DecimalStarts(n: nat)
    ensures Digit(Decimal(n)[0])
  {
    if n >= 10 {
      DecimalStarts(n / 10);
    }
  }

  lemma {:induction false} DecimalRead(n: nat, rest: seq<byte>)
    ensures Digits(Decimal(n) + rest, 0) == Digits(rest, n)
  {
    if n >= 10 {
      var last: byte := 48 + n % 10;
      DecimalRead(n / 10, [last] + rest);
      assert Decimal(n) + rest == Decimal(n / 10) + ([last] + rest);
      assert ([last] + rest)[1..] == rest;
    } else {
      assert (Decimal(n) + rest)[1..] == rest;
    }
  }

  /** A number may stand behind white space and a sign; a minus sign wraps. */
  lemma NumberForms(spaces: seq<byte>, n: nat, rest: seq<byte>)
    requires n < U32 && (rest == [] || !Digit(rest[0]))
    requires forall i :: 0 <= i < |spaces| ==> spaces[i] == 32 || 9 <= spaces[i] <= 13
    ensures StrToUl(spaces + (Decimal(n) + rest)) == n
    ensures StrToUl(spaces + ([43] + (Decimal(n) + rest))) == n
    ensures StrToUl(spaces + ([45] + (Decimal(n) + rest))) == if n == 0 then 0 else U32 - n
  {
    DecimalRead(n, rest);
    DecimalStarts(n);
    var number := Decimal(n) + rest;
    assert number[0] == Decimal(n)[0];
    hide Decimal;
    Skipped(spaces, number);
    Skipped(spaces, [43] + number);
    Skipped(spaces, [45] + number);
    assert ([43] + number)[1..] == number && ([45] + number)[1..] == number;
  }

  lemma {:induction false} Skipped(spaces: seq<byte>, s: seq<byte>)
    requires (forall i :: 0 <= i < |spaces| ==> spaces[i] == 32 || 9 <= spaces[i] <= 13) && s != [] && !Space(s[0])
    ensures SkipSpaces(spaces + s) == s
  {
    if spaces == [] {
      assert [] + s == s;
    } else {
      assert (spaces + s)[1..] == spaces[1..] + s;
      Skipped(spaces[1..], s);
    }
  }

  // A string with no terminator inside that the scan cannot take for the option's name.
  ghost predicate Plain(s: seq<byte>) {
    0 !in s && (|s| >= 7 ==> s[|s| - 7..] + [0] != Name())
  }

  /** The scan steps over such a string. */
  lemma {:induction false} StepOver(pkt: seq<byte>, at: nat, i: nat, s: seq<byte>)
    requires Plain(s) && at <= i <= at + |s| + 1 <= |pkt| && pkt[at..at + |s| + 1] == s + [0]
    ensures Scan(pkt, i) == Scan(pkt, at + |s| + 1)
    decreases at + |s| + 1 - i
  {
    var end := at + |s|;
    assert pkt[end] == (s + [0])[|s|] == 0;
    if i <= end {
      StepOver(pkt, at, i + 1, s);
      if i + 8 < |pkt| {
        NoMatch(pkt, at, i, s);
      }
    }
  }

  lemma NoMatch(pkt: seq<byte>, at: nat, i: nat, s: seq<byte>)
    requires Plain(s) && at <= i <= at + |s| < |pkt| && i + 8 < |pkt| && pkt[at..at + |s| + 1] == s + [0]
    ensures pkt[i..i + 8] != Name()
  {
    var end, w := at + |s|, pkt[i..i + 8];
    assert forall k :: at <= k <= end ==> pkt[k] == (s + [0])[k - at];
    if i + 7 < end {
      assert w[7] == s[i + 7 - at] && s[i + 7 - at] in s;
    } else if i + 7 == end {
      assert w == s[|s| - 7..] + [0];
    } else {
      assert w[end - i] == 0;
    }
  }

  /** The option is found wherever it stands behind plain strings, and its value is what the server meant. */
  lemma {:induction false} ScanFinds(pkt: seq<byte>, at: nat, before: seq<seq<byte>>, n: nat, after: seq<byte>)
    requires forall s :: s in before ==> Plain(s)
    requires at <= |pkt| && pkt[at..] == Join(before) + (Name() + (Decimal(n) + [0] + after))
    ensures Scan(pkt, at) == Some(if n < U32 then n else U32 - 1)
    decreases |before|
  {
    hide Name, Decimal;
    if before == [] {
      assert Join([]) + (Name() + (Decimal(n) + [0] + after)) == Name() + (Decimal(n) + [0] + after);
      ScanHere(pkt, at, n, after);
    } else {
      var s, next, tail := before[0], at + |before[0]| + 1, Name() + (Decimal(n) + [0] + after);
      Behind(pkt, at, s, Join(before[1..]), tail);
      hide Scan, Join;
      StepOver(pkt, at, at, s);
      ScanFinds(pkt, next, before[1..], n, after);
    }
  }

  lemma ScanHere(pkt: seq<byte>, at: nat, n: nat, after: seq<byte>)
    requires at <= |pkt| && pkt[at..] == Name() + (Decimal(n) + [0] + after)
    ensures Scan(pkt, at) == Some(if n < U32 then n else U32 - 1)
  {
    hide Name, Decimal;
    assert pkt[at..at + 8] == pkt[at..][..8] == Name();
    assert pkt[at + 8..] == pkt[at..][8..] == Decimal(n) + ([0] + after);
    DecimalBack(n, [0] + after);
  }

  lemma Behind(pkt: seq<byte>, at: nat, s: seq<byte>, others: seq<byte>, tail: seq<byte>)
    requires at <= |pkt| && pkt[at..] == (s + [0] + others) + tail
    ensures var next := at + |s| + 1; next <= |pkt| && pkt[at..next] == s + [0] && pkt[next..] == others + tail
  {
    assert pkt[at..at + |s| + 1] == pkt[at..][..|s| + 1];
    assert pkt[at + |s| + 1..] == pkt[at..][|s| + 1..];
  }

  lemma {:induction false} ScanFindsNothing(pkt: seq<byte>, at: nat, strings: seq<seq<byte>>)
    requires forall s :: s in strings ==> Plain(s)
    requires at <= |pkt| && pkt[at..] == Join(strings)
    ensures Scan(pkt, at) == None
    decreases |strings|
  {
    if strings != [] {
      var s, next := strings[0], at + |strings[0]| + 1;
      assert (s + [0] + Join(strings[1..])) + [] == Join(strings);
      Behind(pkt, at, s, Join(strings[1..]), []);
      StepOver(pkt, at, at, s);
      ScanFindsNothing(pkt, next, strings[1..]);
    }
  }

  /** On the wire: every data packet and every OACK of the exchange is read back as the packet the server meant. */
  lemma WireBack(k: nat, payload: seq<byte>, before: seq<seq<byte>>, n: nat, after: seq<seq<byte>>)
    requires k < 0x1_0000 && n < U32 && forall s :: s in before ==> Plain(s)
    ensures Decode(Htons(TFTP_DATA) + Htons(k) + payload) == Data(k, payload)
    ensures Decode(Htons(TFTP_OACK) + (Join(before) + (Name() + (Decimal(n) + [0] + Join(after))))) == Oack(Some(n))
    ensures Decode(Htons(TFTP_OACK) + Join(before)) == Oack(None)
  {
    hide Scan, Join, Decimal;
    var options := Join(before) + (Name() + (Decimal(n) + [0] + Join(after)));
    ScanFinds(options, 0, before, n, Join(after));
    ScanFindsNothing(Join(before), 0, before);
    var d := Htons(TFTP_DATA) + Htons(k) + payload;
    assert d[4..] == payload && Ntohs(d, 2) == k;
    assert (Htons(TFTP_OACK) + options)[2..] == options && (Htons(TFTP_OACK) + Join(before))[2..] == Join(before);
  }

  // What recvfrom puts into the receive buffer.
  function Buffered(p: seq<byte>): seq<byte> {
    if |p| <= TFTP_LEN then p else p[..TFTP_LEN]
  }

  /** A datagram cut at the end of the buffer is the packet with its payload cut; what fits stays whole. */
  lemma BufferedIsCut(p: seq<byte>)
    requires Decode(p).Oack? ==> |p| <= TFTP_LEN
    ensures Decode(Buffered(p)) == Cut(Decode(p))
  {
    hide Scan;
    if |p| > TFTP_LEN {
      var q := Buffered(p);
      assert q[0] == p[0] && q[1] == p[1] && q[2] == p[2] && q[3] == p[3];
      assert q[4..] == p[4..][..PAYLOAD_MAX];
    }
  }

  // ----- The packets as RFC 1350 and RFC 2347 write them -----

  // The bytes of a text in ASCII.
  function Text(s: string): (r: seq<byte>)
    ensures |r| == |s|
  {
    seq(|s|, i requires 0 <= i < |s| => if s[i] < 128 as char then s[i] as int else 0)
  }

  /** Opcode 3 is data, opcode 6 an option acknowledgement, and every other one is nothing to the client. */
  lemma Opcodes(op: nat, p: seq<byte>)
    requires op < 0x1_0000
    ensures var d := [op / 0x100, op % 0x100] + p;
            (op == 3 && |p| >= 2 ==> Decode(d) == Data(0x100 * p[0] as int + p[1] as int, p[2..])) &&
            (op == 6 ==> Decode(d).Oack?) && (op != 3 && op != 6 ==> Decode(d) == Other)
  {
    hide Scan;
    var d := [op / 0x100, op % 0x100] + p;
    assert d[2..] == p && (|p| >= 2 ==> d[4..] == p[2..]);
  }

  /** The option is the one called blksize: an OACK with it gives its number, wherever it stands behind others. */
  lemma BlkSizeOption(before: seq<seq<byte>>, n: nat, after: seq<byte>)
    requires n < U32 && forall s :: s in before ==> Plain(s)
    ensures Decode([0, 6] + (Join(before) + (Text("blksize") + [0] + (Decimal(n) + [0] + after)))) == Oack(Some(n))
  {
    assert Name() == Text("blksize") + [0];
    var options := Join(before) + (Name() + (Decimal(n) + [0] + after));
    hide Scan, Join, Decimal, Name;
    ScanFinds(options, 0, before, n, after);
    assert ([0, 6] + options)[2..] == options;
  }

  lemma NumberIs()
    ensures Decimal(1048) == Text("1048") && Decimal(5) == Text("5")
  {
    assert Decimal(104) == Decimal(10) + [52] && Decimal(10) == [49] + [48];
  }

  /** What TftpSend puts on the wire: a read request for the file in octet mode that asks for a 5-second timeout and
      1048-byte blocks, or the acknowledgement of a block. */
  function Wire(m: ToServer, file: seq<byte>): seq<byte> {
    match m
    case Request =>
      [0, 1] + Join([file, Text("octet"), Text("timeout"), Text("5"), Text("blksize"), Text("1048")])
    case Ack(n) => [0, 4, n % 0x1_0000 / 0x100, n % 0x100]
  }

  // The part of TftpSend that fills the packet, for a file name as it stands in BootFile.
  method FillPacket(c: TftpClient, file: seq<byte>) returns (pkt: seq<byte>)
    requires 0 !in file && |file| < 128
    ensures pkt == Wire(Send(c.View()), file) && |pkt| <= 700
  {
    hide Join;
    match c.tftpState
    case Requesting => pkt := FillRequest(file);
    case _ => pkt := Htons(TFTP_ACK) + Htons(c.tftpBlock % 0x1_0000);
  }

  method FillRequest(file: seq<byte>) returns (pkt: seq<byte>)
    requires |file| < 128
    ensures pkt == Wire(Request, file) && |pkt| <= 700
  {
    hide Text, Join, Decimal;
    var strings := file + [0] + Text("octet") + [0] + Text("timeout") + [0] + Decimal(5) + [0] +
                   Text("blksize") + [0] + Decimal(1048) + [0];
    NumberIs();
    Joined6(file, Text("octet"), Text("timeout"), Text("5"), Text("blksize"), Text("1048"));
    pkt := Htons(TFTP_RRQ) + strings;
  }

  lemma Joined6(a: seq<byte>, b: seq<byte>, c: seq<byte>, d: seq<byte>, e: seq<byte>, f: seq<byte>)
    ensures Join([a, b, c, d, e, f]) == a + [0] + b + [0] + c + [0] + d + [0] + e + [0] + f + [0]
  {
    assert Join([f]) == f + [0];
    assert Join([e, f]) == e + [0] + Join([f]);
    assert Join([d, e, f]) == d + [0] + Join([e, f]);
    assert Join([c, d, e, f]) == c + [0] + Join([d, e, f]);
    assert Join([b, c, d, e, f]) == b + [0] + Join([c, d, e, f]);
    assert Join([a, b, c, d, e, f]) == a + [0] + Join([b, c, d, e, f]);
  }
}
