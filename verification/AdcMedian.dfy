/** Single-shot ADC readings: the median of a burst, found with a min-heap, and the mean of what lies near it. */
module AdcMedian {

  // heap[ADC_BUF_SIZE_MAX / 2]
  const HEAP_SIZE := 127

  // Samples further than this from the median do not enter the mean.
  const TOLERANCE := 5

  // ----- Heaps with a hole -----

  function Parent(j: int): (r: int)
    requires 1 <= j
    ensures 0 <= r < j
  {
    (j - 1) / 2
  }

  ghost predicate MinHeap(h: seq<int>) {
    forall j :: 1 <= j < |h| ==> h[Parent(j)] <= h[j]
  }

  /** Order everywhere but at the hole p, where x is to go; the hole's parent is not above its children. */
  ghost predicate HeapAround(h: seq<int>, p: nat) {
    p < |h| &&
    (forall j :: 1 <= j < |h| && j != p && Parent(j) != p ==> h[Parent(j)] <= h[j]) &&
    (forall j :: 1 <= j < |h| && Parent(j) == p && 1 <= p ==> h[Parent(p)] <= h[j])
  }

  /** A hole on its way up fits x above its children, one on its way down fits x below its parent. */
  ghost predicate Rising(h: seq<int>, p: nat, x: int) {
    HeapAround(h, p) && forall j :: 1 <= j < |h| && Parent(j) == p ==> x <= h[j]
  }

  ghost predicate Sinking(h: seq<int>, p: nat, x: int) {
    HeapAround(h, p) && (1 <= p ==> h[Parent(p)] <= x)
  }

  /** The loop invariants: filling the hole with x gives the samples wanted. */
  ghost predicate RiseInv(h: seq<int>, p: nat, x: int, target: multiset<int>) {
    Rising(h, p, x) && multiset(h[p := x]) == target
  }

  ghost predicate SinkInv(h: seq<int>, p: nat, x: int, target: multiset<int>) {
    Sinking(h, p, x) && multiset(h[p := x]) == target
  }

  lemma RiseStep(h: seq<int>, p: nat, x: int, target: multiset<int>)
    requires RiseInv(h, p, x, target) && p < |h| && 1 <= p && h[Parent(p)] > x
    ensures RiseInv(h[p := h[Parent(p)]], Parent(p), x, target)
  {
    SwapKeepsMultiset(h, p, Parent(p), x);
    RiseOrder(h, p, x);
  }

  lemma RiseOrder(h: seq<int>, p: nat, x: int)
    requires Rising(h, p, x) && 1 <= p && h[Parent(p)] > x
    ensures Rising(h[p := h[Parent(p)]], Parent(p), x)
  {
    hide Parent;
    var q := Parent(p);
    var g := h[p := h[q]];
    forall j | 1 <= j < |g| && j != q && Parent(j) != q ensures g[Parent(j)] <= g[j] {
    }
    forall j | 1 <= j < |g| && Parent(j) == q ensures x <= g[j] && (1 <= q ==> g[Parent(q)] <= g[j]) {
    }
  }

  lemma RiseDone(h: seq<int>, p: nat, x: int, target: multiset<int>)
    requires RiseInv(h, p, x, target) && p < |h| && (1 <= p ==> h[Parent(p)] <= x)
    ensures MinHeap(h[p := x]) && multiset(h[p := x]) == target
  {
  }

  /** The child MinHeapReplace moves up: the smaller one, of those below x. */
  function Smaller(h: seq<int>, p: nat, x: int): (r: nat)
    requires p < |h|
    ensures r < |h| && (r == p || (1 <= r && Parent(r) == p))
  {
    var left, right := 2 * p + 1, 2 * p + 2;
    if left < |h| && x > h[left] then if right < |h| && h[left] > h[right] then right else left
    else if right < |h| && x > h[right] then right
    else p
  }

  lemma SinkStep(h: seq<int>, p: nat, x: int, target: multiset<int>)
    requires SinkInv(h, p, x, target) && p < |h| && Smaller(h, p, x) != p
    ensures var c := Smaller(h, p, x);
            SinkInv(h[p := h[c]], c, x, target)
  {
    SwapKeepsMultiset(h, p, Smaller(h, p, x), x);
    ChildIs(p);
  }

  lemma SinkDone(h: seq<int>, p: nat, x: int, target: multiset<int>)
    requires SinkInv(h, p, x, target) && p < |h| && Smaller(h, p, x) == p
    ensures MinHeap(h[p := x]) && multiset(h[p := x]) == target
  {
    ChildIs(p);
  }

  lemma ChildIs(p: nat)
    ensures forall j :: 1 <= j ==> (Parent(j) == p <==> j == 2 * p + 1 || j == 2 * p + 2)
  {
  }

  lemma SwapKeepsMultiset(h: seq<int>, p: nat, q: nat, x: int)
    requires p < |h| && q < |h| && p != q
    ensures multiset(h[p := h[q]][q := x]) == multiset(h[p := x])
  {
    var a := h[p := x];
    var b := a[p := a[q]];
    assert h[p := h[q]][q := x] == b[q := x];
    ReplaceMultiset(a, p, a[q]);
    ReplaceMultiset(b, q, x);
  }

  lemma AppendMultiset(h: seq<int>, size: nat, x: int)
    requires size < |h|
    ensures multiset(h[..size + 1][size := x]) == multiset(h[..size]) + multiset{x}
  {
    assert h[..size + 1][size := x] == h[..size] + [x];
  }

  lemma ReplaceMultiset(h: seq<int>, p: nat, x: int)
    requires p < |h|
    ensures multiset(h[p := x]) == multiset(h) - multiset{h[p]} + multiset{x}
  {
  }

  lemma {:induction false} RootIsLeast(h: seq<int>, j: nat)
    requires MinHeap(h) && j < |h|
    ensures h[0] <= h[j]
    decreases j
  {
    if j != 0 {
      RootIsLeast(h, Parent(j));
    }
  }

  /** MinHeapInsert: the new sample joins, nothing else changes, and the order holds. */
  method Insert(heap: array<int>, heapSize: nat, x: int) returns (newSize: nat)
    requires heapSize < heap.Length && MinHeap(heap[..heapSize])
    modifies heap
    ensures newSize == heapSize + 1 && MinHeap(heap[..newSize])
    ensures multiset(heap[..newSize]) == multiset(old(heap[..heapSize])) + multiset{x}
    ensures forall i :: newSize <= i < heap.Length ==> heap[i] == old(heap[i])
  {
    hide MinHeap, RiseInv;
    newSize := heapSize + 1;
    assert heap[..newSize][..heapSize] == heap[..heapSize];
    InsertStart(heap[..newSize], x);
    RiseToPlace(heap, heapSize, x, multiset(heap[..heapSize]) + multiset{x});
  }

  lemma InsertStart(h: seq<int>, x: int)
    requires |h| >= 1 && MinHeap(h[..|h| - 1])
    ensures RiseInv(h, |h| - 1, x, multiset(h[..|h| - 1]) + multiset{x})
  {
    AppendMultiset(h, |h| - 1, x);
    assert h[..|h| - 1 + 1] == h;
    forall j | 1 <= j < |h| && j != |h| - 1
      ensures h[Parent(j)] <= h[j]
    {
      assert h[..|h| - 1][Parent(j)] <= h[..|h| - 1][j];
    }
  }

  /** The loop of MinHeapInsert: parents above x move down into the hole. */
  method RiseToPlace(heap: array<int>, heapSize: nat, x: int, ghost target: multiset<int>)
    requires heapSize < heap.Length && RiseInv(heap[..heapSize + 1], heapSize, x, target)
    modifies heap
    ensures MinHeap(heap[..heapSize + 1]) && multiset(heap[..heapSize + 1]) == target
    ensures forall i :: heapSize < i < heap.Length ==> heap[i] == old(heap[i])
  {
    hide RiseInv, MinHeap, Parent;
    var p: nat := heapSize;
    ghost var h := heap[..heapSize + 1];
    while p != 0 && heap[Parent(p)] > x
      invariant p <= heapSize && h == heap[..heapSize + 1] && RiseInv(h, p, x, target)
      invariant forall i :: heapSize < i < heap.Length ==> heap[i] == old(heap[i])
    {
      RiseStep(h, p, x, target);
      h := h[p := h[Parent(p)]];
      heap[p] := heap[Parent(p)];
      p := Parent(p);
    }
    RiseDone(h, p, x, target);
    h := h[p := x];
    heap[p] := x;
    assert h == heap[..heapSize + 1];
  }

  /** MinHeapReplace: the root leaves, the new sample takes a place, and the order holds. */
  method Replace(heap: array<int>, heapSize: nat, x: int) returns (top: int)
    requires 0 < heapSize <= heap.Length && MinHeap(heap[..heapSize])
    modifies heap
    ensures top == old(heap[0]) && MinHeap(heap[..heapSize])
    ensures multiset(heap[..heapSize]) == multiset(old(heap[..heapSize])) - multiset{top} + multiset{x}
    ensures forall i :: heapSize <= i < heap.Length ==> heap[i] == old(heap[i])
  {
    hide MinHeap, SinkInv;
    top := heap[0];
    ReplaceStart(heap[..heapSize], x);
    SinkToPlace(heap, heapSize, x, multiset(heap[..heapSize]) - multiset{top} + multiset{x});
  }

  lemma ReplaceStart(h: seq<int>, x: int)
    requires |h| >= 1 && MinHeap(h)
    ensures SinkInv(h, 0, x, multiset(h) - multiset{h[0]} + multiset{x})
  {
    ReplaceMultiset(h, 0, x);
  }

  /** The loop of MinHeapReplace: the smaller child below x moves up into the hole. */
  method SinkToPlace(heap: array<int>, heapSize: nat, x: int, ghost target: multiset<int>)
    requires 0 < heapSize <= heap.Length && SinkInv(heap[..heapSize], 0, x, target)
    modifies heap
    ensures MinHeap(heap[..heapSize]) && multiset(heap[..heapSize]) == target
    ensures forall i :: heapSize <= i < heap.Length ==> heap[i] == old(heap[i])
  {
    hide SinkInv, MinHeap;
    var p := 0;
    ghost var h := heap[..heapSize];
    while p < heapSize
      invariant p < heapSize && h == heap[..heapSize] && SinkInv(h, p, x, target)
      invariant forall i :: heapSize <= i < heap.Length ==> heap[i] == old(heap[i])
      decreases heapSize - p
    {
      var child := p;
      if 2 * p + 1 < heapSize && x > heap[2 * p + 1] {
        if 2 * p + 2 < heapSize && heap[2 * p + 1] > heap[2 * p + 2] {
          child := 2 * p + 2;
        } else {
          child := 2 * p + 1;
        }
      } else if 2 * p + 2 < heapSize && x > heap[2 * p + 2] {
        child := 2 * p + 2;
      } else {
        assert Smaller(h, p, x) == p;
        break;
      }
      assert child == Smaller(h, p, x);
      SinkStep(h, p, x, target);
      h := h[p := h[child]];
      heap[p] := heap[child];
      p := child;
    }
    SinkDone(h, p, x, target);
    h := h[p := x];
    heap[p] := x;
    assert h == heap[..heapSize];
  }

  // ----- The larger half -----

  /** h holds the largest of `all`: what was left out is in `rest`, none of it above anything kept. */
  ghost predicate KeepsLargest(h: seq<int>, rest: multiset<int>, all: multiset<int>) {
    multiset(h) + rest == all && forall v, w :: v in rest && w in multiset(h) ==> v <= w
  }

  lemma RootBelow(h: seq<int>, w: int)
    requires MinHeap(h) && w in multiset(h)
    ensures h[0] <= w
  {
    var j :| 0 <= j < |h| && h[j] == w;
    RootIsLeast(h, j);
  }

  /** A sample no larger than the root may be left out. */
  lemma KeepSame(h: seq<int>, rest: multiset<int>, all: multiset<int>, x: int)
    requires h != [] && MinHeap(h) && KeepsLargest(h, rest, all) && x <= h[0]
    ensures KeepsLargest(h, rest + multiset{x}, all + multiset{x})
  {
    hide MinHeap;
    forall w | w in multiset(h)
      ensures x <= w
    {
      RootBelow(h, w);
    }
  }

  /** A larger one takes the root's place. */
  lemma KeepReplaced(h: seq<int>, rest: multiset<int>, all: multiset<int>, x: int, h': seq<int>)
    requires h != [] && MinHeap(h) && KeepsLargest(h, rest, all) && h[0] < x
    requires multiset(h') == multiset(h) - multiset{h[0]} + multiset{x}
    ensures KeepsLargest(h', rest + multiset{h[0]}, all + multiset{x})
  {
    hide MinHeap;
    forall v, w | v in rest + multiset{h[0]} && w in multiset(h')
      ensures v <= w
    {
      if w in multiset(h) {
        RootBelow(h, w);
      }
      assert h[0] in multiset(h);
    }
    assert multiset(h) == multiset(h) - multiset{h[0]} + multiset{h[0]};
  }

  lemma Subset(m: multiset<int>, h: multiset<int>, rest: multiset<int>)
    requires m <= h + rest && m !! h
    ensures m <= rest && |m| <= |rest|
  {
    forall v | v in m
      ensures m[v] <= rest[v]
    {
      assert v !in h;
    }
    assert rest == m + (rest - m);
  }

  ghost predicate Ascending(s: seq<int>) {
    forall i, j :: 0 <= i < j < |s| ==> s[i] <= s[j]
  }

  /** Too many samples below the root would have to be among the ones left out. */
  lemma NotBelow(h: seq<int>, rest: multiset<int>, sorted: seq<int>)
    requires h != [] && MinHeap(h) && KeepsLargest(h, rest, multiset(sorted)) && |h| <= |sorted| && Ascending(sorted)
    ensures h[0] <= sorted[|sorted| - |h|]
  {
    hide MinHeap;
    Sizes(h, rest, sorted);
    var m := |sorted| - |h|;
    if sorted[m] < h[0] {
      var low := multiset(sorted[..m + 1]);
      Split(sorted, m + 1);
      forall v | v in low
        ensures v !in multiset(h)
      {
        var i :| 0 <= i < m + 1 && sorted[..m + 1][i] == v;
        if v in multiset(h) {
          RootBelow(h, v);
        }
      }
      Subset(low, multiset(h), rest);
    }
  }

  /** Too many samples above the root would have to be among the other ones kept. */
  lemma NotAbove(h: seq<int>, rest: multiset<int>, sorted: seq<int>)
    requires h != [] && MinHeap(h) && KeepsLargest(h, rest, multiset(sorted)) && |h| <= |sorted| && Ascending(sorted)
    ensures sorted[|sorted| - |h|] <= h[0]
  {
    hide MinHeap;
    Sizes(h, rest, sorted);
    var m, root := |sorted| - |h|, h[0];
    assert root in multiset(h);
    if root < sorted[m] {
      var high, kept := multiset(sorted[m..]), multiset(h) - multiset{root};
      Split(sorted, m);
      assert multiset(h) == kept + multiset{root};
      assert multiset(sorted) == (rest + multiset{root}) + kept;
      forall v | v in high
        ensures v !in rest + multiset{root}
      {
        var i :| 0 <= i < |sorted| - m && sorted[m..][i] == v;
      }
      Subset(high, rest + multiset{root}, kept);
    }
  }

  lemma Sizes(h: seq<int>, rest: multiset<int>, sorted: seq<int>)
    requires multiset(h) + rest == multiset(sorted)
    ensures |rest| == |sorted| - |h|
  {
    assert |multiset(h) + rest| == |multiset(h)| + |rest|;
  }

  lemma Split(s: seq<int>, m: nat)
    requires m <= |s|
    ensures multiset(s) == multiset(s[..m]) + multiset(s[m..])
  {
    assert s == s[..m] + s[m..];
  }

  /**
   * The root is an order statistic: in any ascending arrangement of the samples it stands k places from the end,
   * which for an odd number of samples is the middle.
   */
  lemma RootIsMedian(h: seq<int>, rest: multiset<int>, samples: seq<int>, sorted: seq<int>)
    requires h != [] && MinHeap(h) && KeepsLargest(h, rest, multiset(samples))
    requires |h| == (|samples| + 1) / 2
    requires multiset(sorted) == multiset(samples) && Ascending(sorted)
    ensures |sorted| == |samples| && h[0] == sorted[|samples| - |h|]
    ensures |samples| % 2 == 1 ==> h[0] == sorted[|samples| / 2]
  {
    hide MinHeap, Ascending, KeepsLargest;
    assert |multiset(sorted)| == |sorted| && |multiset(samples)| == |samples|;
    NotBelow(h, rest, sorted);
    NotAbove(h, rest, sorted);
  }

  /** The two loops: the first k samples fill the heap, the others replace the root when they exceed it. */
  method Select(samples: seq<int>, heap: array<int>) returns (ghost rest: multiset<int>)
    requires 1 <= |samples| && (|samples| + 1) / 2 <= heap.Length
    modifies heap
    ensures var k := (|samples| + 1) / 2;
            MinHeap(heap[..k]) && KeepsLargest(heap[..k], rest, multiset(samples))
  {
    hide MinHeap;
    var k := (|samples| + 1) / 2;
    assert MinHeap(heap[..0]) by { EmptyHeap(heap[..0]); }
    for index := 0 to k
      invariant MinHeap(heap[..index]) && multiset(heap[..index]) == multiset(samples[..index])
    {
      assert samples[..index + 1] == samples[..index] + [samples[index]];
      var _ := Insert(heap, index, samples[index]);
    }
    rest := multiset{};
    for index := k to |samples|
      invariant MinHeap(heap[..k]) && KeepsLargest(heap[..k], rest, multiset(samples[..index]))
    {
      assert samples[..index + 1] == samples[..index] + [samples[index]];
      rest := Consider(heap, k, samples[index], rest, multiset(samples[..index]));
    }
    assert samples[..|samples|] == samples;
  }

  lemma EmptyHeap(h: seq<int>)
    requires h == []
    ensures MinHeap(h)
  {
  }

  method Consider(heap: array<int>, k: nat, x: int, ghost rest: multiset<int>, ghost all: multiset<int>)
    returns (ghost rest': multiset<int>)
    requires 0 < k <= heap.Length && MinHeap(heap[..k]) && KeepsLargest(heap[..k], rest, all)
    modifies heap
    ensures MinHeap(heap[..k]) && KeepsLargest(heap[..k], rest', all + multiset{x})
  {
    hide MinHeap, KeepsLargest;
    ghost var h := heap[..k];
    if heap[0] < x {
      var top := Replace(heap, k, x);
      KeepReplaced(h, rest, all, x, heap[..k]);
      rest' := rest + multiset{top};
    } else {
      KeepSame(h, rest, all, x);
      rest' := rest + multiset{x};
    }
  }

  // ----- The mean of what lies near -----

  function Sum(s: seq<int>): int {
    if s == [] then 0 else Sum(s[..|s| - 1]) + s[|s| - 1]
  }

  lemma {:induction false} SumAppend(s: seq<int>, t: seq<int>)
    ensures Sum(s + t) == Sum(s) + Sum(t)
  {
    if t == [] {
      assert s + t == s;
    } else {
      SumAppend(s, t[..|t| - 1]);
      assert (s + t)[..|s + t| - 1] == s + t[..|t| - 1];
    }
  }

  lemma SumOne(x: int)
    ensures Sum([]) == 0 && Sum([x]) == x
  {
    assert [x][..0] == [];
  }

  // The samples between two bounds, in order.
  function Within(samples: seq<int>, low: int, high: int): (r: seq<int>)
    ensures |r| <= |samples| && forall i :: 0 <= i < |r| ==> low <= r[i] <= high
  {
    if samples == [] then []
    else
      var front, last := samples[..|samples| - 1], samples[|samples| - 1];
      Within(front, low, high) + if low <= last <= high then [last] else []
  }

  /** They are all of them: each value between the bounds as often as among the samples. */
  lemma {:induction false} WithinIs(samples: seq<int>, low: int, high: int)
    ensures forall x :: multiset(Within(samples, low, high))[x] == if low <= x <= high then multiset(samples)[x] else 0
  {
    if samples != [] {
      var front, last := samples[..|samples| - 1], samples[|samples| - 1];
      WithinIs(front, low, high);
      assert samples == front + [last];
    }
  }

  lemma {:induction false} SumBounds(s: seq<int>, low: int, high: int)
    requires forall i :: 0 <= i < |s| ==> low <= s[i] <= high
    ensures low * |s| <= Sum(s) <= high * |s|
  {
    if s != [] {
      var front, last := s[..|s| - 1], s[|s| - 1];
      SumBounds(front, low, high);
      OneMore(low, |front|);
      OneMore(high, |front|);
    }
  }

  lemma OneMore(a: int, c: nat)
    ensures a * (c + 1) == a * c + a
  {
  }

  lemma QuotientBounds(sum: int, count: nat, low: int, high: int)
    requires 0 < count && low * count <= sum <= high * count
    ensures low <= sum / count <= high
  {
    var q := sum / count;
    assert sum == q * count + sum % count;
    MulOrder(low, q + 1, count);
    MulOrder(q, high + 1, count);
    assert (q + 1) * count == q * count + count && (high + 1) * count == high * count + count;
  }

  lemma MulOrder(a: int, b: int, c: nat)
    ensures a >= b ==> a * c >= b * c
  {
    if a >= b {
      assert a * c == b * c + (a - b) * c;
    }
  }

  // One more sample.
  lemma WithinNext(samples: seq<int>, index: nat, low: int, high: int)
    requires index < |samples|
    ensures var near, x := Within(samples[..index], low, high), samples[index];
            var after, taken := Within(samples[..index + 1], low, high), low <= x <= high;
            |after| == |near| + (if taken then 1 else 0) && Sum(after) == Sum(near) + if taken then x else 0
  {
    assert samples[..index + 1][..index] == samples[..index];
    var near := Within(samples[..index], low, high);
    SumAppend(near, [samples[index]]);
    SumOne(samples[index]);
    assert near + [] == near;
  }

  /** The last loop: the mean of the samples within 5 of one of them, so there is always something to divide by. */
  method MeanNear(samples: seq<int>, root: int) returns (result: int)
    requires root in samples
    ensures var near := Within(samples, root - 5, root + 5);
            near != [] && result == Sum(near) / |near| && root - 5 <= result <= root + 5
  {
    hide Within, Sum;
    ghost var low, high := root - TOLERANCE, root + TOLERANCE;
    var sum, count := 0, 0;
    assert samples[..0] == [];
    NoneWithin(low, high);
    for index := 0 to |samples|
      invariant count == |Within(samples[..index], low, high)| && sum == Sum(Within(samples[..index], low, high))
    {
      WithinNext(samples, index, low, high);
      if samples[index] > root + TOLERANCE || root > samples[index] + TOLERANCE {
        continue;
      }
      count := count + 1;
      sum := sum + samples[index];
    }
    assert samples[..|samples|] == samples;
    WithinIs(samples, low, high);
    assert multiset(Within(samples, low, high))[root] > 0;
    SumBounds(Within(samples, low, high), low, high);
    QuotientBounds(sum, count, low, high);
    result := sum / count;
  }

  lemma NoneWithin(low: int, high: int)
    ensures Within([], low, high) == [] && Sum([]) == 0
  {
  }

  /**
   * The single-sample branch of tkl_adc_read_single_channel: the mean of the samples within 5 of the median, and so
   * within 5 of it too.
   */
  method Filter(samples: seq<int>, heap: array<int>, ghost sorted: seq<int>) returns (result: int)
    requires 1 <= |samples| && (|samples| + 1) / 2 <= HEAP_SIZE == heap.Length
    requires forall i :: 0 <= i < |samples| ==> 0 <= samples[i] < 0x1_0000
    requires multiset(sorted) == multiset(samples) && Ascending(sorted)
    modifies heap
    ensures |sorted| == |samples|
    ensures var median := sorted[|samples| - (|samples| + 1) / 2];
            var near := Within(samples, median - 5, median + 5);
            near != [] && result == Sum(near) / |near| && median - 5 <= result <= median + 5
  {
    hide MinHeap, Within, Sum;
    var k := (|samples| + 1) / 2;
    var rest := Select(samples, heap);
    RootIsMedian(heap[..k], rest, samples, sorted);
    var root := heap[0];
    assert root in samples by {
      assert heap[..k][0] in multiset(heap[..k]);
      assert root in multiset(samples);
    }
    result := MeanNear(samples, root);
  }
}
