/** The intrusive circular doubly linked list: every operation against the sequence of nodes on the ring. */
module DoublyList {
  import opened Bits

  class Node {
    var next: Node
    var prev: Node

    // The static initialiser of a list head: both links point at itself.
    constructor ()
      ensures Ring([this])
    {
      next, prev := this, this;
    }
  }

  ghost predicate Distinct(s: seq<Node>) {
    forall i, j :: 0 <= i < j < |s| ==> s[i] != s[j]
  }

  ghost predicate Linked(a: Node, b: Node)
    reads a, b
  {
    a.next == b && b.prev == a
  }

  // Each node of s is linked to the one after it.
  ghost predicate Chain(s: seq<Node>)
    reads s
  {
    forall i, j :: 0 <= i && i + 1 == j && j < |s| ==> Linked(s[i], s[j])
  }

  /** The nodes of s, in this order, form one closed ring. By convention s[0] is the list head and s[1..] the list. */
  ghost predicate Ring(s: seq<Node>)
    reads s
  {
    |s| > 0 && Distinct(s) && Chain(s) && Linked(s[|s| - 1], s[0])
  }

  // ----- What a ring is -----

  // The links of a ring's node name the nodes on both sides of it.
  lemma Neighbours(s: seq<Node>, i: nat)
    requires Ring(s) && i < |s|
    ensures s[i].next == (if i + 1 < |s| then s[i + 1] else s[0]) && Linked(s[i], s[i].next) && s[i].next in s
    ensures s[i].prev == (if i > 0 then s[i - 1] else s[|s| - 1]) && Linked(s[i].prev, s[i]) && s[i].prev in s
  {
    assert i + 1 < |s| ==> Linked(s[i], s[i + 1]);
    assert i > 0 ==> Linked(s[i - 1], s[i]);
  }

  /** A ring may be read from any of its nodes. */
  lemma RingTurns(s: seq<Node>, k: nat)
    requires Ring(s) && k < |s|
    ensures Ring(s[k..] + s[..k])
  {
    var t := s[k..] + s[..k];
    forall i, j | 0 <= i < j < |t| ensures t[i] != t[j] {
      var a := if i < |s| - k then i + k else i + k - |s|;
      var b := if j < |s| - k then j + k else j + k - |s|;
      assert t[i] == s[a] && t[j] == s[b] && a != b;
    }
  }

  /** The memory decides the list: two rings read from the same head are the same sequence. */
  lemma {:induction false} RingUnique(s: seq<Node>, t: seq<Node>)
    requires Ring(s) && Ring(t) && s[0] == t[0]
    ensures s == t
  {
    if |s| <= |t| {
      RingsAgree(s, t, |s|);
      RingCloses(s, t);
    } else {
      RingsAgree(t, s, |t|);
      RingCloses(t, s);
    }
  }

  lemma {:induction false} RingsAgree(s: seq<Node>, t: seq<Node>, n: nat)
    requires Ring(s) && Ring(t) && s[0] == t[0] && n <= |s| && n <= |t|
    ensures forall i :: 0 <= i < n ==> s[i] == t[i]
  {
    if n > 1 {
      RingsAgree(s, t, n - 1);
      assert s[n - 2] == t[n - 2];
      assert Linked(s[n - 2], s[n - 1]) && Linked(t[n - 2], t[n - 1]);
    }
  }

  lemma RingCloses(s: seq<Node>, t: seq<Node>)
    requires Ring(s) && Ring(t) && |s| <= |t| && forall i :: 0 <= i < |s| ==> s[i] == t[i]
    ensures |s| == |t|
  {
    Neighbours(t, |s| - 1);
  }

  /** Rings that share one node share them all: lists on distinct heads never overlap by accident. */
  lemma {:induction false} RingsApart(s: seq<Node>, t: seq<Node>, i: nat, j: nat)
    requires Ring(s) && Ring(t) && i < |s| && j < |t| && s[i] == t[j]
    ensures s[i..] + s[..i] == t[j..] + t[..j]
  {
    RingTurns(s, i);
    RingTurns(t, j);
    RingUnique(s[i..] + s[..i], t[j..] + t[..j]);
  }

  // ... and, the other way round, the list decides the links.
  twostate lemma SameLinks(s: seq<Node>)
    requires old(Ring(s)) && Ring(s)
    ensures forall n :: n in s ==> n.next == old(n.next) && n.prev == old(n.prev)
  {
    forall i | 0 <= i < |s| ensures s[i].next == old(s[i].next) && s[i].prev == old(s[i].prev) {
      Neighbours(s, i);
      assert old(i + 1 < |s| ==> Linked(s[i], s[i + 1])) && old(i > 0 ==> Linked(s[i - 1], s[i]));
    }
  }

  // ----- Insertion -----

  // __list_add: between two neighbours.
  method Insert(node: Node, prev: Node, next: Node, ghost s: seq<Node>, ghost i: nat)
    requires Ring(s) && i < |s| && node !in s
    requires prev == s[i] && next == if i + 1 < |s| then s[i + 1] else s[0]
    modifies node, prev, next
    ensures Ring(s[..i + 1] + [node] + s[i + 1..])
  {
    next.prev := node;
    node.next := next;
    node.prev := prev;
    prev.next := node;
  }

  method ListAddHead(node: Node, head: Node, ghost s: seq<Node>)
    requires Ring(s) && s[0] == head && node !in s
    modifies node, head, head.next
    ensures Ring([head, node] + s[1..])
  {
    Insert(node, head, head.next, s, 0);
    assert s[..1] + [node] + s[1..] == [head, node] + s[1..];
  }

  method ListAddTail(node: Node, head: Node, ghost s: seq<Node>)
    requires Ring(s) && s[0] == head && node !in s
    modifies node, head, head.prev
    ensures Ring(s + [node])
  {
    Insert(node, head.prev, head, s, |s| - 1);
    assert s[..|s|] + [node] + s[|s|..] == s + [node];
  }

  // ----- Removal -----

  // What is left of a ring when its i-th node goes.
  ghost function Without(s: seq<Node>, i: nat): (r: seq<Node>)
    requires i < |s|
    ensures |r| == |s| - 1 && s[i..] + s[..i] == [s[i]] + (s[i + 1..] + s[..i])
  {
    s[..i] + s[i + 1..]
  }

  lemma WithoutLeaves(s: seq<Node>, i: nat)
    requires Distinct(s) && i < |s|
    ensures s[i] !in Without(s, i) && forall n :: n in Without(s, i) ==> n in s
  {
  }

  // __list_del on the neighbours of the i-th node: the rest closes up; the node's own links are left dangling.
  method Unlink(prev: Node, next: Node, ghost s: seq<Node>, ghost i: nat)
    requires Ring(s) && i < |s| && prev == s[i].prev && next == s[i].next
    modifies prev, next
    ensures |s| > 1 ==> Ring(Without(s, i)) && s[i].next == old(s[i].next) && s[i].prev == old(s[i].prev)
    ensures |s| == 1 ==> Ring(s)
    ensures prev.next == next && next.prev == prev
    ensures prev != next ==> prev.prev == old(prev.prev) && next.next == old(next.next)
  {
    assert Linked(prev, s[i]) && Linked(s[i], next) by { Neighbours(s, i); }
    next.prev := prev;
    prev.next := next;
  }

  method ListDel(entry: Node, ghost s: seq<Node>, ghost i: nat)
    requires Ring(s) && i < |s| && entry == s[i]
    modifies entry.prev, entry.next
    ensures |s| > 1 ==> Ring(Without(s, i)) && entry.next == old(entry.next) && entry.prev == old(entry.prev)
    ensures |s| == 1 ==> Ring(s)
  {
    Unlink(entry.prev, entry.next, s, i);
  }

  method ListDelInit(entry: Node, ghost s: seq<Node>, ghost i: nat)
    requires Ring(s) && i < |s| && entry == s[i]
    modifies entry, entry.prev, entry.next
    ensures Ring([entry])
    ensures |s| > 1 ==> Ring(Without(s, i))
  {
    Unlink(entry.prev, entry.next, s, i);
    entry.next := entry;
    entry.prev := entry;
  }

  /** Deleting undoes adding, link by link; a ring the two calls were not given is as it was. */
  method AddThenDelete(node: Node, head: Node, ghost s: seq<Node>, ghost other: seq<Node>)
    requires Ring(s) && s[0] == head && node !in s
    requires Ring(other) && node !in other && forall n :: n in s ==> n !in other
    modifies node, head, head.prev
    ensures Ring(s) && Ring(other)
    ensures forall n :: n in s + other ==> n.next == old(n.next) && n.prev == old(n.prev)
  {
    hide Distinct, Chain, Linked;
    Neighbours(s, |s| - 1);
    Neighbours(s, 0);
    assert head.prev in s;
    ListAddTail(node, head, s);
    Neighbours(s + [node], |s|);
    assert Without(s + [node], |s|) == s;
    ListDel(node, s + [node], |s|);
    SameLinks(s);
  }

  // ----- Moves -----

  // The destination of a move: another ring, or what is left of the same one.
  ghost predicate Destination(s: seq<Node>, i: nat, t: seq<Node>, head: Node)
    reads s, t
    requires i < |s|
  {
    Ring(s) && Ring(t) && t[0] == head && if s == t then i > 0 else forall n :: n in s ==> n !in t
  }

  // The first half of a move, with what the second half needs: the destination is a ring apart from the entry,
  // and its end links reach no node left behind in another ring.
  method Unhook(entry: Node, head: Node, ghost s: seq<Node>, ghost i: nat, ghost t: seq<Node>)
    returns (ghost dest: seq<Node>)
    requires i < |s| && entry == s[i] && Destination(s, i, t, head)
    modifies entry.prev, entry.next
    ensures dest == if s == t then Without(s, i) else t
    ensures Ring(dest) && dest[0] == head && entry !in dest
    ensures head.next in {old(head.next), old(entry.next)} && head.prev in {old(head.prev), old(entry.prev)}
    ensures s != t && |s| > 1 ==> Ring(Without(s, i)) && entry !in Without(s, i)
    ensures s != t ==> forall n :: n in Without(s, i) ==> n != head && n != head.next && n != head.prev
  {
    hide Ring, Without, Destination, Linked;
    dest := if s == t then Without(s, i) else t;
    UnhookApart(entry, head, s, i, t);
    Unlink(entry.prev, entry.next, s, i);
  }

  // The same, as seen before the links change.
  lemma UnhookApart(entry: Node, head: Node, s: seq<Node>, i: nat, t: seq<Node>)
    requires i < |s| && entry == s[i] && Destination(s, i, t, head)
    ensures Ring(s) && entry !in Without(s, i)
    ensures s == t ==> |s| > 1 && Without(s, i)[0] == head
    ensures s != t ==> Ring(t) && |t| > 0 && t[0] == head && entry !in t && entry.prev !in t && entry.next !in t
    ensures s != t ==> forall n :: n in Without(s, i) ==> n != head && n != head.next && n != head.prev
  {
    hide Distinct, Chain;
    Neighbours(s, i);
    Neighbours(t, 0);
    WithoutLeaves(s, i);
  }

  method ListMove(entry: Node, head: Node, ghost s: seq<Node>, ghost i: nat, ghost t: seq<Node>)
    requires i < |s| && entry == s[i] && Destination(s, i, t, head)
    modifies entry, entry.prev, entry.next, head, head.next
    ensures s == t ==> Ring([head, entry] + Without(s, i)[1..])
    ensures s != t ==> Ring([head, entry] + t[1..])
    ensures s != t && |s| > 1 ==> Ring(Without(s, i))
  {
    hide Distinct, Without;
    ghost var dest := Unhook(entry, head, s, i, t);
    ghost var rest := Without(s, i);
    assert s != t ==> entry !in rest && head !in rest && head.next !in rest && head.prev !in rest;
    assert s != t && |s| > 1 ==> Ring(rest);
    label L:
    ListAddHead(entry, head, dest);
    assert s != t ==> forall n :: n in rest ==> n.next == old@L(n.next) && n.prev == old@L(n.prev);
  }

  method ListMoveTail(entry: Node, head: Node, ghost s: seq<Node>, ghost i: nat, ghost t: seq<Node>)
    requires i < |s| && entry == s[i] && Destination(s, i, t, head)
    modifies entry, entry.prev, entry.next, head, head.prev
    ensures s == t ==> Ring(Without(s, i) + [entry])
    ensures s != t ==> Ring(t + [entry])
    ensures s != t && |s| > 1 ==> Ring(Without(s, i))
  {
    hide Distinct, Without;
    ghost var dest := Unhook(entry, head, s, i, t);
    ghost var rest := Without(s, i);
    assert s != t ==> entry !in rest && head !in rest && head.next !in rest && head.prev !in rest;
    assert s != t && |s| > 1 ==> Ring(rest);
    label L:
    ListAddTail(entry, head, dest);
    assert s != t ==> forall n :: n in rest ==> n.next == old@L(n.next) && n.prev == old@L(n.prev);
  }

  // ----- Splicing -----

  method ListEmpty(head: Node, ghost s: seq<Node>) returns (empty: bool)
    requires Ring(s) && s[0] == head
    ensures empty <==> s == [head]
  {
    Neighbours(s, 0);
    empty := head.next == head;
  }

  lemma DistinctJoined(s: seq<Node>, t: seq<Node>)
    requires Distinct(s) && Distinct(t) && |s| > 0 && |t| > 0 && forall n :: n in s ==> n !in t
    ensures var u := [t[0]] + s[1..] + t[1..]; Distinct(u) && s[0] !in u
  {
    var u := [t[0]] + s[1..] + t[1..];
    forall i | 0 <= i < |u| ensures u[i] != s[0] {
      assert 0 < i < |s| ==> u[i] == s[i];
      assert i >= |s| ==> u[i] == t[i - |s| + 1] && u[i] in t;
      assert s[0] in s && t[0] in t;
    }
    forall i, j | 0 <= i < j < |u| ensures u[i] != u[j] {
      assert 0 < i < |s| ==> u[i] == s[i] && u[i] in s;
      assert 0 < j < |s| ==> u[j] == s[j] && u[j] in s;
      assert i >= |s| ==> u[i] == t[i - |s| + 1] && u[i] in t;
      assert j >= |s| ==> u[j] == t[j - |s| + 1] && u[j] in t;
    }
  }

  // __list_splice, for a list that is not empty.
  method Splice(list: Node, head: Node, ghost s: seq<Node>, ghost t: seq<Node>)
    requires Ring(s) && s[0] == list && |s| > 1
    requires Ring(t) && t[0] == head && forall n :: n in s ==> n !in t
    modifies list.next, list.prev, head, head.next
    ensures Ring([head] + s[1..] + t[1..])
  {
    var first, last, at := list.next, list.prev, head.next;
    Neighbours(s, 0);
    Neighbours(t, 0);
    first.prev := head;
    head.next := first;
    last.next := at;
    at.prev := last;
    ghost var u := [head] + s[1..] + t[1..];
    DistinctJoined(s, t);
    forall i, j | 0 <= i && i + 1 == j && j < |u| ensures Linked(u[i], u[j]) {
      assert 0 < i < |s| ==> u[i] == s[i];
      assert j < |s| ==> u[j] == s[j];
      if j < |s| {
        assert old(Linked(s[i], s[j]));
      } else if j == |s| {
        assert u[i] == last && u[j] == t[1] == at;
      } else {
        assert u[i] == t[i - |s| + 1] && u[j] == t[j - |s| + 1] && old(Linked(t[i - |s| + 1], t[j - |s| + 1]));
      }
    }
  }

  method ListSplice(list: Node, head: Node, ghost s: seq<Node>, ghost t: seq<Node>)
    requires Ring(s) && s[0] == list
    requires Ring(t) && t[0] == head && forall n :: n in s ==> n !in t
    modifies list.next, list.prev, head, head.next
    ensures Ring([head] + s[1..] + t[1..])
    ensures list.next == old(list.next) && list.prev == old(list.prev)
  {
    Neighbours(s, 0);
    Neighbours(t, 0);
    var empty := ListEmpty(list, s);
    if !empty {
      Splice(list, head, s, t);
    } else {
      assert [head] + s[1..] + t[1..] == t;
    }
  }

  method ListSpliceInit(list: Node, head: Node, ghost s: seq<Node>, ghost t: seq<Node>)
    requires Ring(s) && s[0] == list
    requires Ring(t) && t[0] == head && forall n :: n in s ==> n !in t
    modifies list, list.next, list.prev, head, head.next
    ensures Ring([head] + s[1..] + t[1..])
    ensures Ring([list])
  {
    hide Distinct, Chain, Linked;
    ghost var u := [head] + s[1..] + t[1..];
    Neighbours(s, 0);
    var empty := ListEmpty(list, s);
    if !empty {
      DistinctJoined(s, t);
      Splice(list, head, s, t);
      list.next := list;
      list.prev := list;
      Alone(list);
    } else {
      assert u == t;
      assert s == [list];
    }
  }

  lemma Alone(node: Node)
    requires node.next == node && node.prev == node
    ensures Ring([node])
  {
  }

  // ----- Walking a list -----

  method ListSize(list: Node, ghost s: seq<Node>) returns (num: nat)
    requires Ring(s) && s[0] == list
    ensures num == Wrap32(|s| - 1)
  {
    hide Wrap32;
    num := 0;
    Neighbours(s, 0);
    ghost var k := 1;
    var pos := list.next;
    var n := pos.next;
    while pos != list
      invariant 1 <= k <= |s| && pos == if k < |s| then s[k] else s[0]
      invariant n == pos.next && num == Wrap32(k - 1)
      decreases |s| - k
    {
      Neighbours(s, k);
      WrapStep(k - 1);
      num := Wrap32(num + 1);
      pos, n := n, n.next;
      k := k + 1;
    }
    InRing(s, k);
  }

  // Only index 0 holds the head.
  lemma InRing(s: seq<Node>, k: nat)
    requires Distinct(s) && 1 <= k <= |s| && s[0] == if k < |s| then s[k] else s[0]
    ensures k == |s|
  {
  }

  // The nodes of s that are not to be deleted, in their order.
  ghost function Kept(s: seq<Node>, doomed: set<Node>): (r: seq<Node>) {
    if s == [] then []
    else if s[|s| - 1] in doomed then Kept(s[..|s| - 1], doomed)
    else Kept(s[..|s| - 1], doomed) + [s[|s| - 1]]
  }

  // The ring after the first k - 1 entries were visited.
  ghost function Visited(s: seq<Node>, k: nat, doomed: set<Node>): (r: seq<Node>)
    requires 1 <= k <= |s|
    ensures |r| > 0 && r[0] == s[0]
  {
    [s[0]] + Kept(s[1..k], doomed) + s[k..]
  }

  lemma {:induction false} KeptIn(s: seq<Node>, doomed: set<Node>, n: Node)
    ensures n in Kept(s, doomed) <==> n in s && n !in doomed
  {
    if s != [] {
      KeptIn(s[..|s| - 1], doomed, n);
      assert s == s[..|s| - 1] + [s[|s| - 1]];
    }
  }

  lemma VisitedStep(s: seq<Node>, k: nat, doomed: set<Node>)
    requires 1 <= k < |s|
    ensures var cur, i := Visited(s, k, doomed), 1 + |Kept(s[1..k], doomed)|;
            i < |cur| && cur[i] == s[k] && (if i + 1 < |cur| then cur[i + 1] else cur[0]) == After(s, k) &&
            Visited(s, k + 1, doomed) == (if s[k] in doomed then Without(cur, i) else cur)
  {
    hide Without;
    var kept, x, rest := Kept(s[1..k], doomed), s[k], s[k + 1..];
    assert Kept(s[1..k + 1], doomed) == (if x in doomed then kept else kept + [x]) by {
      assert s[1..k + 1][..k - 1] == s[1..k];
    }
    hide Kept;
    assert s[k..] == [x] + rest;
    assert [s[0]] + (kept + [x]) == ([s[0]] + kept) + [x];
    WithoutMiddle([s[0]] + kept, x, rest);
  }

  lemma WithoutMiddle(a: seq<Node>, x: Node, b: seq<Node>)
    ensures a + ([x] + b) == (a + [x]) + b && (a + ([x] + b))[|a|] == x
    ensures |b| > 0 ==> (a + ([x] + b))[|a| + 1] == b[0]
    ensures Without(a + ([x] + b), |a|) == a + b
  {
  }

  ghost function After(s: seq<Node>, k: nat): Node
    requires k < |s|
  {
    if k + 1 < |s| then s[k + 1] else s[0]
  }

  // The current ring has left the deleted entries behind, and nothing else has come in.
  lemma VisitedIn(s: seq<Node>, k: nat, doomed: set<Node>)
    requires 1 <= k <= |s| && Distinct(s)
    ensures forall n :: n in Visited(s, k, doomed) ==> n in s
    ensures forall i :: 1 <= i < k && s[i] in doomed ==> s[i] !in Visited(s, k, doomed)
  {
    hide Kept;
    forall n | n in Visited(s, k, doomed) ensures n in s {
      KeptIn(s[1..k], doomed, n);
      assert n in [s[0]] || n in Kept(s[1..k], doomed) || n in s[k..];
      assert n in s[1..k] || n in s[k..] ==> n in s;
    }
    forall i | 1 <= i < k && s[i] in doomed ensures s[i] !in Visited(s, k, doomed) {
      KeptIn(s[1..k], doomed, s[i]);
      assert s[i] !in [s[0]] && s[i] !in Kept(s[1..k], doomed) && s[i] !in s[k..];
    }
  }

  // One pass of the body: delete the entry under the cursor.
  method DeleteVisited(pos: Node, doomed: set<Node>, ghost s: seq<Node>, ghost k: nat)
    requires 1 <= k < |s| && Distinct(s) && Ring(Visited(s, k, doomed)) && pos == s[k] && pos in doomed
    modifies s
    ensures Ring(Visited(s, k + 1, doomed)) && Ring([pos])
    ensures forall i :: 1 <= i < k && s[i] in doomed ==> s[i].next == old(s[i].next) && s[i].prev == old(s[i].prev)
  {
    hide Visited, Kept, Without, Distinct, Chain;
    ghost var cur, i := Visited(s, k, doomed), 1 + |Kept(s[1..k], doomed)|;
    VisitedStep(s, k, doomed);
    VisitedIn(s, k, doomed);
    Neighbours(cur, i);
    assert pos in s && pos.next in s && pos.prev in s;
    ListDelInit(pos, cur, i);
  }

  /** The safe walk, with a body that deletes what it likes: it still visits every node once, in list order. */
  method WalkAndDelete(head: Node, doomed: set<Node>, ghost s: seq<Node>) returns (seen: seq<Node>)
    requires Ring(s) && s[0] == head
    modifies s
    ensures seen == s[1..]
    ensures Ring([head] + Kept(s[1..], doomed))
    ensures forall i :: 1 <= i < |s| && s[i] in doomed ==> s[i].next == s[i] == s[i].prev
  {
    hide Visited, Kept, Without, Distinct, Chain;
    seen := [];
    ghost var k := 1;
    Neighbours(s, 0);
    assert Visited(s, 1, doomed) == s by { VisitedEnds(s, doomed); }
    var pos := head.next;
    var n := pos.next;
    while pos != head
      invariant 1 <= k <= |s| && pos == (if k < |s| then s[k] else head) && n == pos.next
      invariant seen == s[1..k] && Ring(Visited(s, k, doomed))
      invariant forall i :: 1 <= i < k && s[i] in doomed ==> s[i].next == s[i] == s[i].prev
      decreases |s| - k
    {
      VisitedStep(s, k, doomed);
      Neighbours(Visited(s, k, doomed), 1 + |Kept(s[1..k], doomed)|);
      seen := seen + [pos];
      if pos in doomed {
        DeleteVisited(pos, doomed, s, k);
      }
      pos := n;
      n := pos.next;
      k := k + 1;
    }
    InRing(s, k);
    VisitedEnds(s, doomed);
  }

  lemma VisitedEnds(s: seq<Node>, doomed: set<Node>)
    requires |s| > 0
    ensures Visited(s, 1, doomed) == s && Visited(s, |s|, doomed) == [s[0]] + Kept(s[1..], doomed)
  {
    assert s[1..1] == [] && s[1..|s|] == s[1..];
  }
}
