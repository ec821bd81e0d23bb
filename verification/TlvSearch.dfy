/** The drone configuration in flash: type-length-value trees and the nested search of app_drone.c. */
module TlvSearch {
  import opened Bits

  const HEAD := 8
  const CONFIG_ADDR_START := 0xbd000

  type u32 = x: int | 0 <= x < 0x1_0000_0000

  /** A value, or a class of trees; each is stored behind a head of its type and its length. */
  datatype Tree = Leaf(kind: u32, value: seq<byte>) | Dir(kind: u32, children: seq<Tree>)

  // ----- The format -----

  // A UINT32 in memory, least significant byte first.
  function Word(b0: byte, b1: byte, b2: byte, b3: byte): u32 {
    b0 + 0x100 * b1 + 0x10000 * b2 + 0x1000000 * b3
  }

  function Bytes(x: nat): (r: seq<byte>)
    ensures |r| == 4 && Word(r[0], r[1], r[2], r[3]) == Wrap32(x)
  {
    var q1 := x / 0x100;
    var q2 := q1 / 0x100;
    var q3 := q2 / 0x100;
    ModUnique(x, U32, q3 / 0x100, Word(x % 0x100, q1 % 0x100, q2 % 0x100, q3 % 0x100));
    [x % 0x100, q1 % 0x100, q2 % 0x100, q3 % 0x100]
  }

  function Body(t: Tree): seq<byte>
    decreases t, 0
  {
    match t case Leaf(_, value) => value case Dir(_, children) => EncodeAll(children)
  }

  function Encode(t: Tree): (r: seq<byte>)
    decreases t, 1
    ensures |r| == HEAD + |Body(t)|
  {
    Bytes(t.kind) + Bytes(|Body(t)|) + Body(t)
  }

  function EncodeAll(ts: seq<Tree>): seq<byte>
    decreases ts
  {
    if ts == [] then [] else Encode(ts[0]) + EncodeAll(ts[1..])
  }

  // ----- Reading -----

  // What a flash read returns at each address, also past the end of the chip.
  type Flash = nat -> byte

  function Slice(flash: Flash, a: nat, n: nat): (r: seq<byte>)
    ensures |r| == n && forall i :: 0 <= i < n ==> r[i] == flash(a + i)
  {
    seq(n, i requires 0 <= i => flash(a + i))
  }

  function WordAt(flash: Flash, a: nat): u32 {
    Word(flash(a), flash(a + 1), flash(a + 2), flash(a + 3))
  }

  /** t is in flash at address a, inside the address space. */
  ghost predicate Stored(flash: Flash, a: nat, t: Tree) {
    a + |Encode(t)| < U32 && Slice(flash, a, |Encode(t)|) == Encode(t)
  }

  ghost predicate StoredAll(flash: Flash, a: nat, ts: seq<Tree>) {
    a + |EncodeAll(ts)| < U32 && Slice(flash, a, |EncodeAll(ts)|) == EncodeAll(ts)
  }

  lemma SliceSplit(flash: Flash, a: nat, n: nat, k: nat)
    requires k <= n
    ensures Slice(flash, a, n) == Slice(flash, a, k) + Slice(flash, a + k, n - k)
  {
  }

  lemma StoredHead(flash: Flash, a: nat, t: Tree)
    requires Stored(flash, a, t)
    ensures a + |Encode(t)| == a + HEAD + |Body(t)| < U32
    ensures WordAt(flash, a) == t.kind && WordAt(flash, a + 4) == |Body(t)|
    ensures Slice(flash, a + HEAD, |Body(t)|) == Body(t)
    ensures t.Dir? ==> StoredAll(flash, a + HEAD, t.children)
  {
    hide Word, EncodeAll;
    var e, k, l, s := Encode(t), Bytes(t.kind), Bytes(|Body(t)|), Slice(flash, a, |Encode(t)|);
    assert e[..4] == k && e[4..8] == l && e[8..] == Body(t);
    assert forall i :: 0 <= i < 4 ==> flash(a + i) == s[i] == k[i];
    assert forall i :: 0 <= i < 4 ==> flash(a + 4 + i) == s[4 + i] == l[i];
    SliceSplit(flash, a, |e|, HEAD);
    assert s[8..] == Slice(flash, a + HEAD, |Body(t)|);
  }

  lemma StoredSplit(flash: Flash, a: nat, ts: seq<Tree>)
    requires StoredAll(flash, a, ts) && ts != []
    ensures Stored(flash, a, ts[0]) && StoredAll(flash, a + |Encode(ts[0])|, ts[1..])
  {
    hide Encode;
    var e, f := EncodeAll(ts), Encode(ts[0]);
    SliceSplit(flash, a, |e|, |f|);
    assert e[..|f|] == f && e[|f|..] == EncodeAll(ts[1..]);
    assert e[..|f|] == Slice(flash, a, |f|) && e[|f|..] == Slice(flash, a + |f|, |e| - |f|);
  }

  datatype Option<T> = None | Some(value: T)

  // ----- The search -----

  // The loop's step to the next head, in 32 bits.
  function Next(flash: Flash, addr: nat): nat {
    Wrap32(Wrap32(addr + HEAD) + WordAt(flash, addr + 4))
  }

  // The loop stops here: past the end of the class, or at a head of the type.
  predicate Stops(flash: Flash, kind: u32, addr: nat, end: nat) {
    addr >= end || WordAt(flash, addr) == kind
  }

  /** What the loop returns from addr within n steps. */
  function Walk(flash: Flash, kind: u32, addr: nat, end: nat, n: nat): (r: Option<nat>)
    ensures r.Some? ==> r.value < end || r.value == 0
    decreases n
  {
    if Stops(flash, kind, addr, end) then Some(if addr >= end then 0 else addr)
    else if n == 0 then None
    else Walk(flash, kind, Next(flash, addr), end, n - 1)
  }

  // The address after n steps, wherever the loop would have stopped.
  function Iter(flash: Flash, addr: nat, n: nat): nat {
    if n == 0 then addr else Next(flash, Iter(flash, addr, n - 1))
  }

  // ----- When the loop ends -----

  lemma {:induction false} IterAdd(flash: Flash, addr: nat, n: nat, m: nat)
    ensures Iter(flash, Iter(flash, addr, n), m) == Iter(flash, addr, n + m)
  {
    hide Next;
    if m != 0 {
      IterAdd(flash, addr, n, m - 1);
    }
  }

  /** Not having stopped within n steps, it goes on from the address it has reached. */
  lemma {:induction false} WalkOn(flash: Flash, kind: u32, addr: nat, end: nat, n: nat, m: nat)
    requires n == 0 || Walk(flash, kind, addr, end, n - 1).None?
    ensures Walk(flash, kind, addr, end, n + m) == Walk(flash, kind, Iter(flash, addr, n), end, m)
    decreases n
  {
    hide Next, Stops;
    if n != 0 {
      WalkOn(flash, kind, Next(flash, addr), end, n - 1, m);
      IterAdd(flash, addr, 1, n - 1);
      assert Iter(flash, addr, 1) == Next(flash, Iter(flash, addr, 0));
    }
  }

  lemma {:induction false} WalkMore(flash: Flash, kind: u32, addr: nat, end: nat, n: nat, m: nat)
    requires Walk(flash, kind, addr, end, n).Some?
    ensures Walk(flash, kind, addr, end, n + m) == Walk(flash, kind, addr, end, n)
    decreases n
  {
    hide Next;
    if !Stops(flash, kind, addr, end) {
      WalkMore(flash, kind, Next(flash, addr), end, n - 1, m);
    }
  }

  // Without a stop every address so far was below the end.
  lemma Below(flash: Flash, kind: u32, addr: nat, end: nat, n: nat, i: nat)
    requires Walk(flash, kind, addr, end, n).None? && i <= n
    ensures Iter(flash, addr, i) < end && (i == 0 || Walk(flash, kind, addr, end, i - 1).None?)
    ensures Walk(flash, kind, Iter(flash, addr, i), end, n - i).None?
  {
    hide Next, Iter, WordAt;
    if i != 0 && Walk(flash, kind, addr, end, i - 1).Some? {
      WalkMore(flash, kind, addr, end, i - 1, n - (i - 1));
    }
    WalkOn(flash, kind, addr, end, i, n - i);
  }

  /** Back at the same head without a stop in between, the loop never ends. */
  lemma {:induction false} Cycle(flash: Flash, kind: u32, addr: nat, end: nat, p: nat, n: nat)
    requires p > 0 && Walk(flash, kind, addr, end, p - 1).None? && Iter(flash, addr, p) == addr
    ensures Walk(flash, kind, addr, end, n).None?
  {
    hide Walk, Iter;
    if n < p {
      if Walk(flash, kind, addr, end, n).Some? {
        WalkMore(flash, kind, addr, end, n, p - 1 - n);
      }
    } else {
      WalkOn(flash, kind, addr, end, p, n - p);
      Cycle(flash, kind, addr, end, p, n - p);
    }
  }

  // Among more than m numbers below m two are equal.
  lemma {:induction false} Pigeonhole(s: seq<nat>, m: nat) returns (i: nat, j: nat)
    requires |s| > m && forall k :: 0 <= k < |s| ==> s[k] < m
    ensures i < j < |s| && s[i] == s[j]
    decreases m
  {
    var last := |s| - 1;
    if k :| 0 <= k < last && s[k] == s[last] {
      return k, last;
    }
    // Let the last number's value stand for m - 1, and drop it.
    var t := seq(last, k requires 0 <= k < last => if s[k] == m - 1 then s[last] else s[k]);
    i, j := Pigeonhole(t, m - 1);
  }

  /** An address met twice before any stop. */
  ghost predicate Repeats(flash: Flash, kind: u32, addr: nat, end: nat, i: nat, j: nat) {
    i < j && Walk(flash, kind, addr, end, j).None? && Iter(flash, addr, i) == Iter(flash, addr, j)
  }

  /** Exactly when the search ends: when it ends within `end` steps, and when no head is read twice. */
  lemma EndsIff(flash: Flash, kind: u32, addr: nat, end: nat)
    ensures (exists n :: Walk(flash, kind, addr, end, n).Some?) <==> Walk(flash, kind, addr, end, end).Some?
    ensures (exists n :: Walk(flash, kind, addr, end, n).Some?) <==>
            !exists i, j :: Repeats(flash, kind, addr, end, i, j)
  {
    hide Walk, Iter;
    if Walk(flash, kind, addr, end, end).None? {
      var met := seq(end + 1, i requires 0 <= i => Iter(flash, addr, i));
      forall i | 0 <= i <= end
        ensures met[i] < end
      {
        Below(flash, kind, addr, end, end, i);
      }
      var i, j := Pigeonhole(met, end);
      if Walk(flash, kind, addr, end, j).Some? {
        WalkMore(flash, kind, addr, end, j, end - j);
      }
      assert Repeats(flash, kind, addr, end, i, j);
    }
    forall i, j, n | Repeats(flash, kind, addr, end, i, j)
      ensures Walk(flash, kind, addr, end, n).None?
    {
      Forever(flash, kind, addr, end, i, j, n);
    }
  }

  lemma Forever(flash: Flash, kind: u32, addr: nat, end: nat, i: nat, j: nat, n: nat)
    requires Repeats(flash, kind, addr, end, i, j)
    ensures Walk(flash, kind, addr, end, n).None?
  {
    hide Walk, Iter;
    Below(flash, kind, addr, end, j, i);
    IterAdd(flash, addr, i, j - i);
    var back := Iter(flash, addr, i);
    Below(flash, kind, back, end, j - i, j - i);
    if n < i {
      if Walk(flash, kind, addr, end, n).Some? {
        WalkMore(flash, kind, addr, end, n, j - n);
      }
    } else {
      WalkOn(flash, kind, addr, end, i, n - i);
      Cycle(flash, kind, back, end, j - i, n - i);
    }
  }

  /** Every head the loop reads sends it forward: enough for the search to end. */
  ghost predicate Forward(flash: Flash, kind: u32, addr: nat, end: nat)
    decreases end - addr
  {
    Stops(flash, kind, addr, end) || (Next(flash, addr) > addr && Forward(flash, kind, Next(flash, addr), end))
  }

  /** What that asks of a head's length. */
  lemma ForwardIff(flash: Flash, addr: u32)
    ensures var len := WordAt(flash, addr + 4);
            Next(flash, addr) > addr <==>
            addr + HEAD + len < U32 || (len > U32 - HEAD && addr + HEAD + len < 2 * U32)
  {
    hide Word;
  }

  lemma {:induction false} ForwardEnds(flash: Flash, kind: u32, addr: nat, end: nat, n: nat)
    requires Forward(flash, kind, addr, end) && addr + n >= end
    ensures Walk(flash, kind, addr, end, n).Some?
    decreases n
  {
    hide Next;
    if !Stops(flash, kind, addr, end) {
      ForwardEnds(flash, kind, Next(flash, addr), end, n - 1);
    }
  }

  // A configuration whose two items lead back and forth: the second one's length is 2^32 - 24.
  function BackAndForth(a: nat): byte {
    var k := a - CONFIG_ADDR_START;
    if k == 0 then 7 else if k == 4 then 100
    else if k == 8 then 2 else if k == 12 then 8
    else if k == 24 then 3 else if k == 28 then 0xE8 else if 29 <= k <= 31 then 0xFF
    else 0
  }

  /** On this flash a search of the configuration goes from one item to the other and back for ever, for any type but
      theirs: the first search of either getter below does. */
  lemma NeverEnds(kind: u32, n: nat)
    requires kind != 2 && kind != 3
    ensures EndOf(BackAndForth, CONFIG_ADDR_START) == CONFIG_ADDR_START + 108
    ensures Walk(BackAndForth, kind, CONFIG_ADDR_START + HEAD, CONFIG_ADDR_START + 108, n).None?
  {
    TwoHeads();
    var first := CONFIG_ADDR_START + 8;
    hide Next, WordAt, EndOf;
    assert Iter(BackAndForth, first, 1) == Next(BackAndForth, Iter(BackAndForth, first, 0));
    Cycle(BackAndForth, kind, first, CONFIG_ADDR_START + 108, 2, n);
  }

  lemma TwoHeads()
    ensures var first, second := CONFIG_ADDR_START + 8, CONFIG_ADDR_START + 24;
            WordAt(BackAndForth, first) == 2 && WordAt(BackAndForth, second) == 3 &&
            Next(BackAndForth, first) == second && Next(BackAndForth, second) == first
    ensures EndOf(BackAndForth, CONFIG_ADDR_START) == CONFIG_ADDR_START + 108
  {
    WordsThere();
    hide WordAt, BackAndForth;
  }

  lemma WordsThere()
    ensures var a := CONFIG_ADDR_START;
            WordAt(BackAndForth, a + 4) == 100 && WordAt(BackAndForth, a + 8) == 2 &&
            WordAt(BackAndForth, a + 12) == 8 && WordAt(BackAndForth, a + 24) == 3 &&
            WordAt(BackAndForth, a + 28) == U32 - 24
  {
    WordThere(CONFIG_ADDR_START + 4);
    WordThere(CONFIG_ADDR_START + 8);
    WordThere(CONFIG_ADDR_START + 12);
    WordThere(CONFIG_ADDR_START + 24);
    WordThere(CONFIG_ADDR_START + 28);
    hide WordAt;
  }

  lemma WordThere(a: nat)
    ensures WordAt(BackAndForth, a) ==
            Word(BackAndForth(a), BackAndForth(a + 1), BackAndForth(a + 2), BackAndForth(a + 3))
  {
  }

  // ----- The code -----

  // The end of the class at start, as the source computes it.
  function EndOf(flash: Flash, start: nat): nat {
    Wrap32(Wrap32(start + HEAD) + WordAt(flash, start + 4))
  }

  // The outcome of a search that ends.
  function Search(flash: Flash, kind: u32, start: nat): Option<nat> {
    Walk(flash, kind, Wrap32(start + HEAD), EndOf(flash, start), EndOf(flash, start))
  }

  /** For every flash on which the loop ends, and no other. */
  method SearchByType(flash: Flash, kind: u32, start: nat) returns (found: nat)
    requires Search(flash, kind, start).Some?
    ensures Some(found) == Search(flash, kind, start)
  {
    hide WordAt, Wrap32;
    var len := WordAt(flash, start + 4);
    var addr := Wrap32(start + HEAD);
    var end := Wrap32(addr + len);
    ghost var n := end;
    while addr < end
      invariant 0 <= addr && 0 <= n && Walk(flash, kind, addr, end, n) == Search(flash, kind, start)
      decreases n
    {
      var headType, headLen := WordAt(flash, addr), WordAt(flash, addr + 4);
      if kind == headType {
        break;
      } else {
        addr := Wrap32(addr + HEAD);
        addr := Wrap32(addr + headLen);
        n := n - 1;
      }
    }
    if addr >= end {
      addr := 0;
    }
    found := addr;
  }

  // ----- What the search finds in a tree -----

  // The first tree of a kind.
  function Find(ts: seq<Tree>, kind: u32): (r: Option<Tree>)
    ensures r.Some? ==> r.value in ts && r.value.kind == kind
    ensures r.None? ==> forall t :: t in ts ==> t.kind != kind
  {
    if ts == [] then None else if ts[0].kind == kind then Some(ts[0]) else Find(ts[1..], kind)
  }

  lemma {:induction false} WalkFinds(flash: Flash, kind: u32, addr: nat, ts: seq<Tree>, n: nat)
    requires StoredAll(flash, addr, ts) && addr > 0 && n >= |EncodeAll(ts)|
    ensures var end := addr + |EncodeAll(ts)|;
            match Find(ts, kind)
            case None => Walk(flash, kind, addr, end, n) == Some(0)
            case Some(t) => var found := Walk(flash, kind, addr, end, n);
                            found.Some? && addr <= found.value && found.value + |Encode(t)| <= end &&
                            Stored(flash, found.value, t)
    decreases |ts|
  {
    hide Encode, Body, WordAt, Stored, StoredAll;
    if ts != [] {
      StoredSplit(flash, addr, ts);
      StoredHead(flash, addr, ts[0]);
      assert |EncodeAll(ts)| == |Encode(ts[0])| + |EncodeAll(ts[1..])|;
      hide EncodeAll;
      if ts[0].kind != kind {
        assert Next(flash, addr) == addr + |Encode(ts[0])|;
        WalkFinds(flash, kind, addr + |Encode(ts[0])|, ts[1..], n - 1);
      }
    }
  }

  /** The search in a stored class, whatever its children: it ends, and returns the address, inside the class, of the
      first child of the type, or 0 when there is none. */
  lemma SearchFinds(flash: Flash, kind: u32, start: nat, t: Tree)
    requires Stored(flash, start, t) && t.Dir?
    ensures match Find(t.children, kind)
            case None => Search(flash, kind, start) == Some(0)
            case Some(c) =>
              var found := Search(flash, kind, start);
              found.Some? && start + HEAD <= found.value && found.value + |Encode(c)| <= start + |Encode(t)| &&
              Stored(flash, found.value, c)
  {
    hide EncodeAll, Encode, WordAt, StoredAll;
    StoredHead(flash, start, t);
    WalkFinds(flash, kind, start + HEAD, t.children, start + HEAD + |EncodeAll(t.children)|);
  }

  /** Erased flash is harmless: where the class head is erased the search returns 0 at once, ... */
  lemma Erased(flash: Flash, kind: u32, start: nat)
    requires start + HEAD < U32 && forall i :: start <= i < start + HEAD ==> flash(i) == 0xFF
    ensures Search(flash, kind, start) == Some(0)
  {
  }

  /** ... and where a class is erased behind its head, the search for any type but the erased one creeps to its end. */
  lemma ErasedClass(flash: Flash, kind: u32, start: nat)
    requires kind != 0xFFFF_FFFF && start + HEAD + WordAt(flash, start + 4) + HEAD < U32
    requires forall i :: start + HEAD <= i < start + HEAD + WordAt(flash, start + 4) + HEAD ==> flash(i) == 0xFF
    ensures Search(flash, kind, start) == Some(0)
  {
    var end := start + HEAD + WordAt(flash, start + 4);
    ErasedWalk(flash, kind, start + HEAD, end, end);
  }

  lemma {:induction false} ErasedWalk(flash: Flash, kind: u32, addr: nat, end: nat, n: nat)
    requires kind != 0xFFFF_FFFF && end + HEAD < U32 && addr + n >= end
    requires forall i :: addr <= i < end + HEAD ==> flash(i) == 0xFF
    ensures Walk(flash, kind, addr, end, n) == Some(0)
    decreases n
  {
    if addr < end {
      assert WordAt(flash, addr) == WordAt(flash, addr + 4) == 0xFFFF_FFFF;
      hide Word;
      assert Next(flash, addr) == addr + 7;
      ErasedWalk(flash, kind, addr + 7, end, n - 1);
    }
  }

  /** When no type occurs twice, the order of the children does not matter. */
  lemma AnyOrder(ts: seq<Tree>, us: seq<Tree>, kind: u32)
    requires multiset(ts) == multiset(us)
    requires forall x, y :: x in ts && y in ts && x.kind == y.kind ==> x == y
    ensures Find(ts, kind) == Find(us, kind)
  {
    assert forall t :: t in us <==> t in multiset(us);
    assert forall t :: t in ts <==> t in multiset(ts);
  }

  // ----- The two parameter getters -----

  const ARCH_CONFIG_GENERAL: u32 := 0
  const ARCH_CONFIG_AP: u32 := 1
  const GENERAL_TYPE_ROLE: u32 := 0
  const GENERAL_TYPE_DHCP: u32 := 1
  const GENERAL_TYPE_IP: u32 := 2
  const GENERAL_TYPE_MASK: u32 := 3
  const GENERAL_TYPE_GW: u32 := 4
  const AP_TYPE_BSSID: u32 := 0
  const AP_TYPE_SSID: u32 := 1
  const AP_TYPE_CHANNEL: u32 := 2
  const AP_TYPE_MODE: u32 := 3
  const AP_TYPE_PASSWD: u32 := 4

  datatype General = General(role: seq<byte>, dhcp: seq<byte>, ip: seq<byte>, mask: seq<byte>, gw: seq<byte>)

  // key is None when the call succeeds without having found one.
  datatype Ap = Ap(bssid: seq<byte>, ssid: seq<byte>, channel: seq<byte>, mode: seq<byte>, key: Option<seq<byte>>)

  // The bytes of an item of a class.
  function Item(class_: Option<Tree>, kind: u32): Option<seq<byte>> {
    if class_.None? || class_.value.Leaf? then None
    else match Find(class_.value.children, kind) case None => None case Some(t) => Some(Body(t))
  }

  lemma NoClass(kind: u32)
    ensures Item(None, kind).None?
  {
  }

  // The general parameters of a class that has all five items.
  function GeneralOf(c: Option<Tree>): Option<General> {
    var role, dhcp := Item(c, GENERAL_TYPE_ROLE), Item(c, GENERAL_TYPE_DHCP);
    var ip, mask, gw := Item(c, GENERAL_TYPE_IP), Item(c, GENERAL_TYPE_MASK), Item(c, GENERAL_TYPE_GW);
    if role.None? || dhcp.None? || ip.None? || mask.None? || gw.None? then None
    else Some(General(role.value, dhcp.value, ip.value, mask.value, gw.value))
  }

  // The access point's parameters of a class that has the first four items.
  function ApOf(c: Option<Tree>): Option<Ap> {
    var bssid, ssid := Item(c, AP_TYPE_BSSID), Item(c, AP_TYPE_SSID);
    var channel, mode := Item(c, AP_TYPE_CHANNEL), Item(c, AP_TYPE_MODE);
    if bssid.None? || ssid.None? || channel.None? || mode.None? then None
    else Some(Ap(bssid.value, ssid.value, channel.value, mode.value, Item(c, AP_TYPE_PASSWD)))
  }

  ghost predicate OneEach(ts: seq<Tree>) {
    forall x, y :: x in ts && y in ts && x.kind == y.kind ==> x == y
  }

  lemma FindIn(ts: seq<Tree>, t: Tree)
    requires t in ts && OneEach(ts)
    ensures Find(ts, t.kind) == Some(t)
  {
    hide Find;
  }

  /** Which item is which field: class 0 has role, DHCP flag, address, mask and gateway as items 0 to 4. */
  lemma GeneralRead(root: seq<Tree>, items: seq<Tree>, role: seq<byte>, dhcp: seq<byte>, ip: seq<byte>,
                    mask: seq<byte>, gw: seq<byte>)
    requires Dir(0, items) in root && OneEach(root) && OneEach(items)
    requires Leaf(0, role) in items && Leaf(1, dhcp) in items && Leaf(2, ip) in items
    requires Leaf(3, mask) in items && Leaf(4, gw) in items
    ensures GeneralOf(Find(root, ARCH_CONFIG_GENERAL)) == Some(General(role, dhcp, ip, mask, gw))
  {
    hide Find, OneEach;
    FindIn(root, Dir(0, items));
    FindIn(items, Leaf(0, role));
    FindIn(items, Leaf(1, dhcp));
    FindIn(items, Leaf(2, ip));
    FindIn(items, Leaf(3, mask));
    FindIn(items, Leaf(4, gw));
  }

  /** Class 1, with BSSID, SSID, channel, mode and, if there is one, the password as items 0 to 4. */
  lemma ApRead(root: seq<Tree>, items: seq<Tree>, bssid: seq<byte>, ssid: seq<byte>, channel: seq<byte>,
               mode: seq<byte>, key: Option<seq<byte>>)
    requires Dir(1, items) in root && OneEach(root) && OneEach(items)
    requires Leaf(0, bssid) in items && Leaf(1, ssid) in items && Leaf(2, channel) in items && Leaf(3, mode) in items
    requires match key case Some(k) => Leaf(4, k) in items case None => forall t :: t in items ==> t.kind != 4
    ensures ApOf(Find(root, ARCH_CONFIG_AP)) == Some(Ap(bssid, ssid, channel, mode, key))
  {
    hide Find, OneEach;
    FindIn(root, Dir(1, items));
    FindIn(items, Leaf(0, bssid));
    FindIn(items, Leaf(1, ssid));
    FindIn(items, Leaf(2, channel));
    FindIn(items, Leaf(3, mode));
    if key.Some? {
      FindIn(items, Leaf(4, key.value));
    }
  }

  /** Without one of the items, the password apart, there are no parameters. */
  lemma MissingItem(items: seq<Tree>, kind: u32)
    requires forall t :: t in items ==> t.kind != kind
    ensures kind <= 4 ==> GeneralOf(Some(Dir(0, items))) == None
    ensures kind <= 3 ==> ApOf(Some(Dir(1, items))) == None
  {
    hide Find;
  }

  /** The configuration is a stored tree whose class of the type, if it has one, is a class. */
  ghost predicate Configured(flash: Flash, root: Tree, kind: u32) {
    Stored(flash, CONFIG_ADDR_START, root) && root.Dir? &&
    (Find(root.children, kind).Some? ==> Find(root.children, kind).value.Dir?)
  }

  // One search and the two reads that follow it.
  method ReadItem(flash: Flash, kind: u32, addrStart: nat, ghost t: Tree) returns (r: Option<seq<byte>>)
    requires Stored(flash, addrStart, t) && t.Dir?
    ensures r == Item(Some(t), kind)
  {
    hide Encode, EncodeAll, WordAt, Stored, Find, Walk;
    SearchFinds(flash, kind, addrStart, t);
    var addr := SearchByType(flash, kind, addrStart);
    if addr == 0 {
      return None;
    }
    StoredHead(flash, addr, Find(t.children, kind).value);
    var len := WordAt(flash, addr + 4);
    r := Some(Slice(flash, addr + HEAD, len));
  }

  method FindClass(flash: Flash, kind: u32, ghost root: Tree) returns (addr: nat, ghost class_: Option<Tree>)
    requires Configured(flash, root, kind)
    ensures class_ == Find(root.children, kind) && (addr == 0 <==> class_.None?)
    ensures class_.Some? ==> Stored(flash, addr, class_.value) && class_.value.Dir?
  {
    hide Encode, EncodeAll, WordAt, Stored, Find, Walk;
    SearchFinds(flash, kind, CONFIG_ADDR_START, root);
    addr := SearchByType(flash, kind, CONFIG_ADDR_START);
    class_ := Find(root.children, kind);
  }

  /** Succeeds exactly when the class and all five of its items are there, with the bytes that were encoded. */
  method GetGeneralParameters(flash: Flash, ghost root: Tree) returns (r: Option<General>)
    requires Configured(flash, root, ARCH_CONFIG_GENERAL)
    ensures r == GeneralOf(Find(root.children, ARCH_CONFIG_GENERAL))
  {
    hide Stored, Find, Item;
    var addrStart, c := FindClass(flash, ARCH_CONFIG_GENERAL, root);
    if addrStart == 0 {
      NoClass(GENERAL_TYPE_ROLE);
      return None;
    }
    var role := ReadItem(flash, GENERAL_TYPE_ROLE, addrStart, c.value);
    if role.None? {
      return None;
    }
    var dhcp := ReadItem(flash, GENERAL_TYPE_DHCP, addrStart, c.value);
    if dhcp.None? {
      return None;
    }
    var ip := ReadItem(flash, GENERAL_TYPE_IP, addrStart, c.value);
    if ip.None? {
      return None;
    }
    var mask := ReadItem(flash, GENERAL_TYPE_MASK, addrStart, c.value);
    if mask.None? {
      return None;
    }
    var gw := ReadItem(flash, GENERAL_TYPE_GW, addrStart, c.value);
    if gw.None? {
      return None;
    }
    r := Some(General(role.value, dhcp.value, ip.value, mask.value, gw.value));
  }

  /** The same for the access point, except that a missing password is a success without a key. */
  method GetApParameters(flash: Flash, ghost root: Tree) returns (r: Option<Ap>)
    requires Configured(flash, root, ARCH_CONFIG_AP)
    ensures r == ApOf(Find(root.children, ARCH_CONFIG_AP))
  {
    hide Stored, Find, Item;
    var addrStart, c := FindClass(flash, ARCH_CONFIG_AP, root);
    if addrStart == 0 {
      NoClass(AP_TYPE_BSSID);
      return None;
    }
    var bssid := ReadItem(flash, AP_TYPE_BSSID, addrStart, c.value);
    if bssid.None? {
      return None;
    }
    var ssid := ReadItem(flash, AP_TYPE_SSID, addrStart, c.value);
    if ssid.None? {
      return None;
    }
    var channel := ReadItem(flash, AP_TYPE_CHANNEL, addrStart, c.value);
    if channel.None? {
      return None;
    }
    var mode := ReadItem(flash, AP_TYPE_MODE, addrStart, c.value);
    if mode.None? {
      return None;
    }
    var key := ReadItem(flash, AP_TYPE_PASSWD, addrStart, c.value);
    r := Some(Ap(bssid.value, ssid.value, channel.value, mode.value, key));
  }
}
