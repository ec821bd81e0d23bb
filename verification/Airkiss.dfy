/** AirKiss channel selection: a sorted list of busy channels grows inside the very array still being scanned. */
module Airkiss {

  const MAX_CHANNELS := 14
  const ALL_CHANNELS := 13
  const MIN_VALID_DATACNT := 4
  const MIN_VALID_BCNCNT := 1
  const SWITCH_TIMER := 50
  const MIN_SEL_TIMER := 1000
  const MAX_SEL_TIMER := 5000

  datatype ChanParam = ChanParam(bcnCnt: nat, dataCnt: nat, channel: nat)
  datatype Entry = Entry(channel: nat, count: nat)
  datatype Packet = Beacon | DataFrame | OtherFrame

  // ----- What is selected, and in which order -----

  predicate Qualifies(c: ChanParam) {
    c.dataCnt >= MIN_VALID_DATACNT && c.bcnCnt >= MIN_VALID_BCNCNT
  }

  /** Index of the first entry with a smaller count, or the length. */
  function Place(list: seq<Entry>, count: nat): (r: nat)
    ensures r <= |list| && (r < |list| ==> list[r].count < count)
    ensures forall i :: 0 <= i < r ==> list[i].count >= count
  {
    if list == [] then 0
    else if list[0].count < count then 0
    else 1 + Place(list[1..], count)
  }

  function Insert(list: seq<Entry>, e: Entry): seq<Entry> {
    var p := Place(list, e.count);
    list[..p] + [e] + list[p..]
  }

  /** airkiss_add_channel on the selected list, for a channel that meets the thresholds. */
  function Add(list: seq<Entry>, e: Entry): seq<Entry> {
    var p := Place(list, e.count);
    if p < |list| && list[p].channel == e.channel then list[p := e] else Insert(list, e)
  }

  /** The selection after these channels were scanned, in scanning order. */
  function Selected(seen: seq<ChanParam>): (r: seq<Entry>)
    ensures |r| <= |seen|
  {
    if seen == [] then []
    else
      var last := seen[|seen| - 1];
      if Qualifies(last) then Insert(Selected(seen[..|seen| - 1]), Entry(last.channel, last.dataCnt))
      else Selected(seen[..|seen| - 1])
  }

  /** Busier first; equally busy channels in scanning order. A list in this order has no two equal entries. */
  predicate Before(a: Entry, b: Entry) {
    a.count > b.count || (a.count == b.count && a.channel < b.channel)
  }

  ghost predicate Ordered(list: seq<Entry>) {
    forall i, j :: 0 <= i < j < |list| ==> Before(list[i], list[j])
  }

  /** Channels are scanned in ascending order. */
  ghost predicate InScanOrder(seen: seq<ChanParam>) {
    forall i, j :: 0 <= i < j < |seen| ==> seen[i].channel < seen[j].channel
  }

  ghost predicate Listed(seen: seq<ChanParam>, e: Entry) {
    exists i :: 0 <= i < |seen| && Qualifies(seen[i]) && e == Entry(seen[i].channel, seen[i].dataCnt)
  }

  lemma InsertMembers(list: seq<Entry>, e: Entry, x: Entry)
    ensures x in Insert(list, e) <==> x == e || x in list
  {
    var p := Place(list, e.count);
    assert list == list[..p] + list[p..];
  }

  lemma InsertOrdered(list: seq<Entry>, e: Entry)
    requires Ordered(list) && forall x :: x in list ==> x.channel < e.channel
    ensures Ordered(Insert(list, e))
  {
    var p := Place(list, e.count);
    forall i | p <= i < |list|
      ensures Before(e, list[i])
    {
      assert i > p ==> Before(list[p], list[i]);
    }
    forall i | 0 <= i < p
      ensures Before(list[i], e)
    {
      assert list[i] in list;
    }
  }

  /**
   * The selection is exactly the channels that meet both thresholds, busiest first and ties in scanning order;
   * that order is strict, so the list is determined by it and free of duplicates.
   */
  lemma {:induction false} SelectedIs(seen: seq<ChanParam>)
    requires InScanOrder(seen)
    ensures Ordered(Selected(seen))
    ensures forall x :: x in Selected(seen) <==> Listed(seen, x)
  {
    if seen != [] {
      var front, last := seen[..|seen| - 1], seen[|seen| - 1];
      SelectedIs(front);
      hide Ordered;
      var e := Entry(last.channel, last.dataCnt);
      forall x
        ensures x in Selected(seen) <==> Listed(seen, x)
      {
        ListedSnoc(seen, x);
        InsertMembers(Selected(front), e, x);
      }
      if Qualifies(last) {
        forall x | x in Selected(front)
          ensures x.channel < last.channel
        {
          var i :| 0 <= i < |front| && Qualifies(front[i]) && x == Entry(front[i].channel, front[i].dataCnt);
          assert front[i] == seen[i];
        }
        InsertOrdered(Selected(front), e);
      }
    }
  }

  lemma ListedSnoc(seen: seq<ChanParam>, x: Entry)
    requires seen != []
    ensures var front, last := seen[..|seen| - 1], seen[|seen| - 1];
            Listed(seen, x) <==> Listed(front, x) || (Qualifies(last) && x == Entry(last.channel, last.dataCnt))
  {
    var front := seen[..|seen| - 1];
    if Listed(front, x) {
      var i :| 0 <= i < |front| && Qualifies(front[i]) && x == Entry(front[i].channel, front[i].dataCnt);
      assert seen[i] == front[i];
    }
    if Listed(seen, x) {
      var i :| 0 <= i < |seen| && Qualifies(seen[i]) && x == Entry(seen[i].channel, seen[i].dataCnt);
      assert i < |front| ==> front[i] == seen[i];
    }
  }

  // ----- Dwell times -----

  /** airkiss_calc_time_for_selected_channel. */
  function DwellTime(count: nat): nat {
    var t := count / MIN_VALID_DATACNT * MIN_SEL_TIMER;
    if t < MIN_SEL_TIMER then MIN_SEL_TIMER else if t > MAX_SEL_TIMER then MAX_SEL_TIMER else t
  }

  lemma DwellBounds(a: nat, b: nat)
    ensures MIN_SEL_TIMER <= DwellTime(a) <= MAX_SEL_TIMER
    ensures a <= b ==> DwellTime(a) <= DwellTime(b)
  {
  }

  /** A second for every four frames, from one second to five. */
  lemma DwellIs(frames: nat)
    ensures DwellTime(frames) == if frames < 8 then 1000 else if frames < 12 then 2000
                                 else if frames < 16 then 3000 else if frames < 20 then 4000 else 5000
  {
  }

  // ----- The code -----

  datatype Mode = ScanAll | ScanSelected

  function Pairs(chan: seq<ChanParam>, n: nat): (r: seq<Entry>)
    requires n <= |chan|
    ensures |r| == n
    ensures forall i :: 0 <= i < n ==> r[i] == Entry(chan[i].channel, chan[i].dataCnt)
  {
    seq(n, i requires 0 <= i < n => Entry(chan[i].channel, chan[i].dataCnt))
  }

  /** airkiss_count_usefull_packet on the current entry; the counters are bytes. */
  function Count(c: ChanParam, packet: Packet): ChanParam {
    match packet
    case Beacon => c.(bcnCnt := (c.bcnCnt + 1) % 0x100)
    case DataFrame => c.(dataCnt := (c.dataCnt + 1) % 0x100)
    case OtherFrame => c
  }

  function CountAll(c: ChanParam, packets: seq<Packet>): (r: ChanParam)
    ensures r.channel == c.channel
  {
    if packets == [] then c else Count(CountAll(c, packets[..|packets| - 1]), packets[|packets| - 1])
  }

  /** The counters are the numbers of beacons and of data frames, in 8 bits. */
  lemma {:induction false} CountsAre(channel: nat, packets: seq<Packet>)
    ensures CountAll(ChanParam(0, 0, channel), packets) ==
            ChanParam(multiset(packets)[Beacon] % 0x100, multiset(packets)[DataFrame] % 0x100, channel)
  {
    if packets != [] {
      var front, last := packets[..|packets| - 1], packets[|packets| - 1];
      CountsAre(channel, front);
      OneMore(front, last, Beacon);
      OneMore(front, last, DataFrame);
      assert packets == front + [last];
      ByteStep(multiset(front)[Beacon]);
      ByteStep(multiset(front)[DataFrame]);
    }
  }

  lemma OneMore(front: seq<Packet>, last: Packet, p: Packet)
    ensures multiset(front + [last])[p] == multiset(front)[p] + if last == p then 1 else 0
  {
  }

  lemma ByteStep(n: nat)
    ensures (n % 0x100 + 1) % 0x100 == (n + 1) % 0x100
  {
  }

  class Scanner {
    const chan: array<ChanParam>
    var curChanIdx: nat
    var allChanNums: nat
    var selectedChanNums: nat
    var mode: Mode
    // The entries as they stood when their dwell ended; in selected mode, the whole scan.
    ghost var seen: seq<ChanParam>

    /** Full scan: a selected prefix, leftovers, the entry being counted, and untouched entries behind it. */
    ghost predicate Scanning()
      reads this, chan
    {
      chan.Length == MAX_CHANNELS && mode == ScanAll && allChanNums == ALL_CHANNELS && curChanIdx < ALL_CHANNELS &&
      |seen| == curChanIdx && (forall i :: 0 <= i < |seen| ==> seen[i].channel == i + 1) &&
      selectedChanNums <= curChanIdx && Pairs(chan[..], selectedChanNums) == Selected(seen) &&
      chan[curChanIdx].channel == curChanIdx + 1 &&
      forall i :: curChanIdx < i < ALL_CHANNELS ==> chan[i] == ChanParam(0, 0, i + 1)
    }

    /** Selected scan: the entries ahead are the selection; those behind may have gone on counting. */
    ghost predicate Visiting()
      reads this, chan
    {
      chan.Length == MAX_CHANNELS && mode == ScanSelected && allChanNums == ALL_CHANNELS &&
      |seen| == ALL_CHANNELS && (forall i :: 0 <= i < |seen| ==> seen[i].channel == i + 1) &&
      curChanIdx < selectedChanNums == |Selected(seen)| <= ALL_CHANNELS &&
      (forall i :: curChanIdx < i < selectedChanNums ==>
                     chan[i].channel == Selected(seen)[i].channel && chan[i].dataCnt == Selected(seen)[i].count) &&
      chan[curChanIdx].channel == Selected(seen)[curChanIdx].channel
    }

    /** At the start of a dwell in a full scan the entry has not been counted yet. */
    ghost predicate Fresh()
      requires chan.Length == MAX_CHANNELS
      reads this, chan
    {
      curChanIdx < MAX_CHANNELS && chan[curChanIdx] == ChanParam(0, 0, curChanIdx + 1)
    }

    constructor ()
      ensures Scanning() && Fresh() && seen == [] && fresh(chan)
    {
      chan := new ChanParam[MAX_CHANNELS](i => ChanParam(0, 0, 0));
      curChanIdx, allChanNums, selectedChanNums, mode, seen := 0, 0, 0, ScanAll, [];
      new;
      SetScanAllChannel();
    }

    /** airkiss_set_scan_all_channel. */
    method SetScanAllChannel()
      requires chan.Length == MAX_CHANNELS
      modifies this, chan
      ensures Scanning() && Fresh() && seen == []
    {
      forall i | 0 <= i < chan.Length {
        chan[i] := ChanParam(0, 0, 0);
      }
      selectedChanNums := 0;
      allChanNums := MAX_CHANNELS - 1;
      for i := 0 to allChanNums
        invariant allChanNums == ALL_CHANNELS && selectedChanNums == 0
        invariant forall k :: 0 <= k < chan.Length ==> chan[k] == ChanParam(0, 0, if k < i then k + 1 else 0)
      {
        chan[i] := chan[i].(channel := i + 1);
      }
      mode := ScanAll;
      curChanIdx := 0;
      seen := [];
    }

    /** airkiss_count_usefull_packet. */
    method CountPacket(packet: Packet)
      requires chan.Length == MAX_CHANNELS && curChanIdx < MAX_CHANNELS
      modifies chan
      ensures chan[..] == old(chan[..])[curChanIdx := Count(old(chan[curChanIdx]), packet)]
    {
      match packet
      case Beacon => chan[curChanIdx] := chan[curChanIdx].(bcnCnt := (chan[curChanIdx].bcnCnt + 1) % 0x100);
      case DataFrame => chan[curChanIdx] := chan[curChanIdx].(dataCnt := (chan[curChanIdx].dataCnt + 1) % 0x100);
      case OtherFrame =>
    }

    /** The memmove of airkiss_add_channel. */
    method MoveUp(i: nat)
      requires i <= selectedChanNums < chan.Length
      modifies chan
      ensures forall k :: 0 <= k < chan.Length ==>
                chan[k] == if i < k <= selectedChanNums then old(chan[k - 1]) else old(chan[k])
    {
      forall k | i < k <= selectedChanNums {
        chan[k] := chan[k - 1];
      }
    }

    /** The channel takes entry i; another channel's entry moves up first. */
    method PlaceAt(i: nat, curChan: nat, channel: nat, dataCnt: nat)
      requires chan.Length == MAX_CHANNELS && i < selectedChanNums < MAX_CHANNELS && curChan == chan[i].channel
      requires i == Place(Pairs(chan[..], selectedChanNums), dataCnt)
      modifies this`selectedChanNums, chan
      ensures selectedChanNums <= old(selectedChanNums) + 1
      ensures Pairs(chan[..], selectedChanNums) ==
              Add(Pairs(old(chan[..]), old(selectedChanNums)), Entry(channel, dataCnt))
      ensures forall k :: old(selectedChanNums) < k < MAX_CHANNELS ==> chan[k] == old(chan[k])
    {
      hide Pairs, Place, Add;
      if curChan != channel {
        MoveUp(i);
        selectedChanNums := selectedChanNums + 1;
      }
      chan[i] := chan[i].(channel := channel, dataCnt := dataCnt);
      AddedAt(old(chan[..]), chan[..], old(selectedChanNums), i, Entry(channel, dataCnt));
    }

    /** airkiss_add_channel: the sorted prefix takes the channel in, and nothing behind the prefix's new end moves. */
    method AddChannel(channel: nat, bcnCnt: nat, dataCnt: nat)
      requires chan.Length == MAX_CHANNELS && selectedChanNums < MAX_CHANNELS
      modifies this`selectedChanNums, chan
      ensures selectedChanNums <= old(selectedChanNums) + 1
      ensures Pairs(chan[..], selectedChanNums)
           == if Qualifies(ChanParam(bcnCnt, dataCnt, channel))
              then Add(Pairs(old(chan[..]), old(selectedChanNums)), Entry(channel, dataCnt))
              else Pairs(old(chan[..]), old(selectedChanNums))
      ensures forall k :: old(selectedChanNums) < k < MAX_CHANNELS ==> chan[k] == old(chan[k])
    {
      if dataCnt < MIN_VALID_DATACNT {
        return;
      }
      if bcnCnt < MIN_VALID_BCNCNT {
        return;
      }
      ghost var list, e := Pairs(chan[..], selectedChanNums), Entry(channel, dataCnt);
      hide Pairs;
      var i := 0;
      while i < selectedChanNums
        invariant i <= selectedChanNums == old(selectedChanNums) && chan[..] == old(chan[..])
        invariant i <= Place(list, dataCnt)
      {
        var curCnt, curChan := chan[i].dataCnt, chan[i].channel;
        if curCnt < dataCnt {
          PlaceIs(list, dataCnt, i);
          PlaceAt(i, curChan, channel, dataCnt);
          return;
        }
        PlacePast(list, dataCnt, i);
        i := i + 1;
      }
      selectedChanNums := selectedChanNums + 1;
      chan[i] := chan[i].(channel := channel, dataCnt := dataCnt);
      assert Pairs(chan[..], selectedChanNums) == Add(list, e);
    }

    /** The scan-all branch of airkiss_switch_channel_callback. */
    method ScanStep() returns (timer: nat)
      requires Scanning()
      modifies this, chan
      ensures if old(curChanIdx) + 1 < ALL_CHANNELS then
                Scanning() && Fresh() && seen == old(seen) + [old(chan[curChanIdx])] && timer == SWITCH_TIMER
              else if Selected(old(seen) + [old(chan[curChanIdx])]) == [] then
                Scanning() && Fresh() && seen == [] && timer == SWITCH_TIMER
              else
                Visiting() && curChanIdx == 0 && seen == old(seen) + [old(chan[curChanIdx])] &&
                timer == DwellTime(Selected(seen)[0].count)
    {
      hide Pairs, Selected, Insert, Add;
      var cur := chan[curChanIdx];
      ghost var list, seen' := Selected(seen), seen + [cur];
      SelectedSnoc(seen, cur);
      AddChannel(cur.channel, cur.bcnCnt, cur.dataCnt);
      seen := seen';
      curChanIdx := curChanIdx + 1;
      timer := SWITCH_TIMER;
      assert Pairs(chan[..], selectedChanNums) == Selected(seen);
      if curChanIdx >= allChanNums {
        curChanIdx := 0;
        if selectedChanNums != 0 {
          mode := ScanSelected;
          timer := DwellTime(chan[curChanIdx].dataCnt);
        } else {
          SetScanAllChannel();
        }
      }
    }

    /** Its selected branch. */
    method VisitStep() returns (timer: nat)
      requires Visiting()
      modifies this, chan
      ensures if old(curChanIdx) + 1 < |Selected(old(seen))| then
                Visiting() && seen == old(seen) && curChanIdx == old(curChanIdx) + 1 &&
                timer == DwellTime(Selected(seen)[curChanIdx].count)
              else
                Scanning() && Fresh() && seen == [] && timer == SWITCH_TIMER
    {
      hide Pairs, Selected;
      curChanIdx := curChanIdx + 1;
      timer := DwellTime(chan[curChanIdx].dataCnt);
      if curChanIdx >= selectedChanNums {
        curChanIdx := 0;
        SetScanAllChannel();
        mode := ScanAll;
        timer := SWITCH_TIMER;
      }
    }

    /** airkiss_switch_channel_callback: the dwell just ended; the result is the channel to tune to and for how long. */
    method SwitchChannel() returns (channel: nat, timer: nat)
      requires Scanning() || Visiting()
      modifies this, chan
      ensures Scanning() || Visiting()
      ensures Visiting() ==>
                channel == Selected(seen)[curChanIdx].channel && timer == DwellTime(Selected(seen)[curChanIdx].count)
      ensures Scanning() ==> Fresh() && channel == curChanIdx + 1 && timer == SWITCH_TIMER
      ensures old(Scanning()) && old(curChanIdx) + 1 < ALL_CHANNELS ==>
                Scanning() && seen == old(seen) + [old(chan[curChanIdx])]
      ensures old(Scanning()) && old(curChanIdx) + 1 == ALL_CHANNELS ==>
                if Selected(old(seen) + [old(chan[curChanIdx])]) == [] then Scanning() && seen == []
                else Visiting() && seen == old(seen) + [old(chan[curChanIdx])] && curChanIdx == 0
      ensures old(Visiting()) ==>
                if old(curChanIdx) + 1 < |Selected(old(seen))|
                then Visiting() && seen == old(seen) && curChanIdx == old(curChanIdx) + 1
                else Scanning() && seen == []
    {
      hide Pairs, Selected;
      match mode {
        case ScanAll => timer := ScanStep();
        case ScanSelected => timer := VisitStep();
      }
      channel := chan[curChanIdx].channel;
    }
  }

  /** A channel not met before is inserted, never overwritten. */
  lemma {:induction false} SelectedSnoc(seen: seq<ChanParam>, cur: ChanParam)
    requires forall i :: 0 <= i < |seen| ==> seen[i].channel < cur.channel
    requires InScanOrder(seen)
    ensures Selected(seen + [cur])
         == if Qualifies(cur) then Add(Selected(seen), Entry(cur.channel, cur.dataCnt)) else Selected(seen)
  {
    assert (seen + [cur])[..|seen|] == seen;
    SelectedIs(seen);
    forall x | x in Selected(seen)
      ensures x.channel < cur.channel
    {
      var i :| 0 <= i < |seen| && Qualifies(seen[i]) && x == Entry(seen[i].channel, seen[i].dataCnt);
    }
  }

  // What the entries hold once the channel has its place.
  lemma AddedAt(before: seq<ChanParam>, after: seq<ChanParam>, n: nat, i: nat, e: Entry)
    requires i < n < |before| == |after|
    requires i == Place(Pairs(before, n), e.count) && after[i].channel == e.channel && after[i].dataCnt == e.count
    requires forall k :: 0 <= k < i ==> after[k] == before[k]
    requires before[i].channel != e.channel ==> forall k :: i < k <= n ==> after[k] == before[k - 1]
    requires before[i].channel == e.channel ==> forall k :: i < k <= n ==> after[k] == before[k]
    ensures Pairs(after, if before[i].channel != e.channel then n + 1 else n) == Add(Pairs(before, n), e)
  {
    hide Place;
    var list := Pairs(before, n);
    if before[i].channel != e.channel {
      var added := list[..i] + [e] + list[i..];
      forall k | 0 <= k < n + 1
        ensures Pairs(after, n + 1)[k] == added[k]
      {
        if k > i {
          assert after[k] == before[k - 1] && added[k] == list[k - 1];
        }
      }
      assert Pairs(after, n + 1) == added;
    } else {
      var added := list[i := e];
      forall k | 0 <= k < n
        ensures Pairs(after, n)[k] == added[k]
      {
        if k > i {
          assert after[k] == before[k] && added[k] == list[k];
        }
      }
      assert Pairs(after, n) == added;
    }
  }

  lemma PlaceIs(list: seq<Entry>, count: nat, i: nat)
    requires i <= Place(list, count) && i < |list| && list[i].count < count
    ensures Place(list, count) == i
  {
  }

  lemma PlacePast(list: seq<Entry>, count: nat, i: nat)
    requires i <= Place(list, count) && i < |list| && list[i].count >= count
    ensures i < Place(list, count)
  {
  }

  // ----- A whole cycle -----

  /** What a full scan sees, given the packets met on each channel. */
  function Scanned(traffic: seq<seq<Packet>>): (r: seq<ChanParam>)
    ensures |r| == |traffic| && forall i :: 0 <= i < |r| ==> r[i].channel == i + 1
  {
    seq(|traffic|, i requires 0 <= i < |traffic| => CountAll(ChanParam(0, 0, i + 1), traffic[i]))
  }

  /** The channels to visit, each with its dwell time. */
  function Plan(list: seq<Entry>): (r: seq<(nat, nat)>)
    ensures |r| == |list|
  {
    seq(|list|, i requires 0 <= i < |list| => (list[i].channel, DwellTime(list[i].count)))
  }

  /** The busiest channels are visited first and longest, every dwell within its limits, no channel twice. */
  lemma PlanShape(seen: seq<ChanParam>)
    requires InScanOrder(seen)
    ensures var plan := Plan(Selected(seen));
            (forall i :: 0 <= i < |plan| ==> MIN_SEL_TIMER <= plan[i].1 <= MAX_SEL_TIMER) &&
            (forall i, j :: 0 <= i < j < |plan| ==> plan[i].1 >= plan[j].1 && plan[i].0 != plan[j].0)
  {
    SelectedIs(seen);
    hide DwellTime, Selected;
    var list := Selected(seen);
    forall i | 0 <= i < |list|
      ensures MIN_SEL_TIMER <= DwellTime(list[i].count) <= MAX_SEL_TIMER
    {
      DwellBounds(list[i].count, list[i].count);
    }
    forall i, j | 0 <= i < j < |list|
      ensures DwellTime(list[i].count) >= DwellTime(list[j].count) && list[i].channel != list[j].channel
    {
      assert Before(list[i], list[j]);
      DwellBounds(list[j].count, list[i].count);
      SameChannel(seen, list[i], list[j]);
    }
  }

  /** A channel is scanned once, so two entries with the same channel are the same entry. */
  lemma SameChannel(seen: seq<ChanParam>, a: Entry, b: Entry)
    requires InScanOrder(seen) && Listed(seen, a) && Listed(seen, b)
    ensures a.channel == b.channel ==> a == b
  {
  }

  // The packets met on a channel, as the 8-bit counters count them.
  function Frames(traffic: seq<seq<Packet>>, channel: nat): nat {
    if 1 <= channel <= |traffic| then multiset(traffic[channel - 1])[DataFrame] % 0x100 else 0
  }

  function Beacons(traffic: seq<seq<Packet>>, channel: nat): nat {
    if 1 <= channel <= |traffic| then multiset(traffic[channel - 1])[Beacon] % 0x100 else 0
  }

  ghost predicate Visited(visits: seq<(nat, nat)>, channel: nat) {
    exists i :: 0 <= i < |visits| && visits[i].0 == channel
  }

  /**
   * The visits in terms of the packets met during the scan: exactly the channels with at least four data frames and a
   * beacon, those with more data frames first, each for a second per four of them, five at most.
   */
  ghost predicate VisitsOf(visits: seq<(nat, nat)>, traffic: seq<seq<Packet>>) {
    (forall c :: Visited(visits, c) <==> Frames(traffic, c) >= 4 && Beacons(traffic, c) >= 1) &&
    (forall i :: 0 <= i < |visits| ==>
                   var f := Frames(traffic, visits[i].0);
                   visits[i].1 == if f < 8 then 1000 else if f < 12 then 2000 else if f < 16 then 3000
                                  else if f < 20 then 4000 else 5000) &&
    forall i, j :: 0 <= i < j < |visits| ==>
                     var a, b := visits[i].0, visits[j].0;
                     Frames(traffic, a) > Frames(traffic, b) || (Frames(traffic, a) == Frames(traffic, b) && a < b)
  }

  lemma SelectedOf(traffic: seq<seq<Packet>>, x: Entry)
    ensures x in Selected(Scanned(traffic)) <==>
            x.count == Frames(traffic, x.channel) && x.count >= 4 && Beacons(traffic, x.channel) >= 1
  {
    hide Selected, CountAll;
    var seen := Scanned(traffic);
    SelectedIs(seen);
    if 1 <= x.channel <= |traffic| {
      CountsAre(x.channel, traffic[x.channel - 1]);
      assert seen[x.channel - 1] == ChanParam(Beacons(traffic, x.channel), Frames(traffic, x.channel), x.channel);
    }
  }

  lemma VisitsAre(traffic: seq<seq<Packet>>)
    ensures VisitsOf(Plan(Selected(Scanned(traffic))), traffic)
  {
    hide Selected, Scanned, DwellTime, Frames, Beacons;
    var list, plan := Selected(Scanned(traffic)), Plan(Selected(Scanned(traffic)));
    SelectedIs(Scanned(traffic));
    forall c
      ensures Visited(plan, c) <==> Frames(traffic, c) >= 4 && Beacons(traffic, c) >= 1
    {
      VisitedIff(traffic, c);
    }
    forall i | 0 <= i < |list|
      ensures list[i].count == Frames(traffic, list[i].channel)
      ensures var f := list[i].count;
              plan[i].1 == if f < 8 then 1000 else if f < 12 then 2000 else if f < 16 then 3000
                           else if f < 20 then 4000 else 5000
    {
      SelectedOf(traffic, list[i]);
      DwellIs(list[i].count);
    }
    forall i, j | 0 <= i < j < |list|
      ensures Before(list[i], list[j])
    {
    }
  }

  lemma VisitedIff(traffic: seq<seq<Packet>>, c: nat)
    ensures Visited(Plan(Selected(Scanned(traffic))), c) <==> Frames(traffic, c) >= 4 && Beacons(traffic, c) >= 1
  {
    hide Selected, Scanned, DwellTime, Frames, Beacons;
    var list, plan, x := Selected(Scanned(traffic)), Plan(Selected(Scanned(traffic))), Entry(c, Frames(traffic, c));
    SelectedOf(traffic, x);
    if x in list {
      var i :| 0 <= i < |list| && list[i] == x;
      assert plan[i].0 == c;
    }
    if Visited(plan, c) {
      var i :| 0 <= i < |plan| && plan[i].0 == c;
      SelectedOf(traffic, list[i]);
    }
  }

  /** A dwell: any packets, then nothing but the current entry's counters differ. */
  method Dwell(s: Scanner, packets: seq<Packet>)
    requires s.chan.Length == MAX_CHANNELS && s.curChanIdx < MAX_CHANNELS
    modifies s.chan
    ensures s.chan[..] == old(s.chan[..])[s.curChanIdx := CountAll(old(s.chan[s.curChanIdx]), packets)]
  {
    for k := 0 to |packets|
      invariant s.chan[..] == old(s.chan[..])[s.curChanIdx := CountAll(old(s.chan[s.curChanIdx]), packets[..k])]
    {
      assert packets[..k + 1][..k] == packets[..k];
      assert s.chan[..][s.curChanIdx] == s.chan[s.curChanIdx];
      s.CountPacket(packets[k]);
    }
    assert packets[..|packets|] == packets;
  }

  /** The visits, from the first selected channel on. */
  method VisitAll(s: Scanner, firstChannel: nat, firstTimer: nat, later: seq<seq<Packet>>)
    returns (visits: seq<(nat, nat)>)
    requires s.Visiting() && s.curChanIdx == 0 && |later| == ALL_CHANNELS
    requires Selected(s.seen) != [] && (firstChannel, firstTimer) == Plan(Selected(s.seen))[0]
    modifies s, s.chan
    ensures s.Scanning() && s.Fresh() && s.seen == []
    ensures visits == Plan(Selected(old(s.seen)))
  {
    hide Selected, DwellTime, Pairs, CountAll;
    ghost var seen, plan := s.seen, Plan(Selected(s.seen));
    var channel, timer := firstChannel, firstTimer;
    visits := [];
    while s.mode == ScanSelected
      invariant s.Visiting() ==> s.seen == seen && visits == plan[..s.curChanIdx]
      invariant s.Visiting() ==> (channel, timer) == plan[s.curChanIdx]
      invariant s.Visiting() || (s.Scanning() && s.Fresh() && s.seen == [] && visits == plan)
      decreases if s.mode == ScanSelected then ALL_CHANNELS - s.curChanIdx else 0
    {
      visits := visits + [(channel, timer)];
      Dwell(s, later[s.curChanIdx]);
      channel, timer := s.SwitchChannel();
    }
  }

  /**
   * From one full scan to the next: whatever packets arrive during the scan and during the visits, the channels
   * visited are the selection of what the scan saw, in order, each for the time its count earned.
   */
  method FullCycle(s: Scanner, traffic: seq<seq<Packet>>, later: seq<seq<Packet>>) returns (visits: seq<(nat, nat)>)
    requires s.Scanning() && s.Fresh() && s.seen == [] && |traffic| == ALL_CHANNELS && |later| == ALL_CHANNELS
    modifies s, s.chan
    ensures s.Scanning() && s.Fresh() && s.seen == []
    ensures visits == Plan(Selected(Scanned(traffic))) && VisitsOf(visits, traffic)
  {
    hide Selected, DwellTime, Pairs, CountAll, VisitsOf;
    VisitsAre(traffic);
    for c := 0 to ALL_CHANNELS - 1
      invariant s.Scanning() && s.Fresh() && s.seen == Scanned(traffic)[..c]
    {
      Dwell(s, traffic[c]);
      assert s.chan[c] == s.chan[..][c];
      var _, _ := s.SwitchChannel();
    }
    Dwell(s, traffic[ALL_CHANNELS - 1]);
    assert s.chan[ALL_CHANNELS - 1] == s.chan[..][ALL_CHANNELS - 1];
    ghost var seen := Scanned(traffic);
    assert s.seen + [s.chan[s.curChanIdx]] == seen;
    var channel, timer := s.SwitchChannel();
    if s.mode == ScanSelected {
      visits := VisitAll(s, channel, timer, later);
    } else {
      visits := [];
    }
  }
}
