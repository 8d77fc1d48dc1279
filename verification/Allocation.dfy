/** Reserving and releasing an element: src/pumalloc.c:13-40 and 84-88, src/internal/pumanode.c:94-232. */
module Allocation {
  import opened Bits
  import opened ListModel
  import opened Compaction

  /** A new block: every slot free, its bytes whatever the memory held. */
  function FreshNode(garbage: seq<Element>, index: int): NodeState {
    NodeState(seq(|garbage|, _ => true), garbage, 0, 0, false, true, index)
  }

  predicate TailInRange(l: ListState) {
    -1 <= l.tail < |l.nodes| && (l.tail == -1 ==> l.nodes == [])
  }

  /** _appendPumaNode: wake the inactive tail, reuse the node after the tail, or link a new one. */
  function AppendNode(l: ListState, garbage: seq<Element>): ListState
    requires TailInRange(l)
  {
    if l.tail < 0 then
      l.(nodes := [FreshNode(garbage, 0)], tail := 0, numNodes := 1)
    else
      var old' := l.nodes[l.tail];
      if !old'.active then
        l.(nodes := l.nodes[l.tail := old'.(active := true)], numNodes := old'.index + 1)
      else if l.tail + 1 < |l.nodes| then
        l.(nodes := l.nodes[l.tail + 1 := l.nodes[l.tail + 1].(active := true, index := old'.index + 1)],
           tail := l.tail + 1, numNodes := old'.index + 2)
      else
        l.(nodes := l.nodes + [FreshNode(garbage, old'.index + 1)], tail := l.tail + 1, numNodes := old'.index + 2)
  }

  function SetFirstKnownFree(l: ListState, k: int, f: int): ListState
    requires InRange(l, k)
  {
    l.(nodes := l.nodes[k := l.nodes[k].(firstKnownFree := f)])
  }

  /** The three assignments that make node k the active tail again. */
  function MakeTail(l: ListState, k: int): ListState
    requires InRange(l, k)
  {
    l.(nodes := l.nodes[k := l.nodes[k].(active := true)], tail := k,
       numNodes := if l.nodes[k].active then l.numNodes else l.numNodes + 1)
  }

  /** The node to allocate from. */
  function WithRoom(l: ListState, garbage: seq<Element>): ListState
    requires TailInRange(l)
  {
    if l.tail < 0 || l.nodes[l.tail].numElements == Capacity(l.nodes[l.tail]) then AppendNode(l, garbage) else l
  }

  /** The list after _cleanupNode(tail), called with the watermark already bumped. */
  function CompactedTail(a: ListState): ListState
    requires W(a) && a.tail >= 0
  {
    BumpIsCleanable(a);
    CleanupNode(SetFirstKnownFree(a, a.tail, a.nodes[a.tail].firstKnownFree + 1), a.tail)
  }

  /** Choosing the slot: bump the watermark, or compact when it has reached the end. */
  function Reserve(a: ListState): (r: (ListState, int))
    requires W(a) && a.tail >= 0
    ensures InRange(r.0, a.tail)
  {
    var k := a.tail;
    var f := a.nodes[k].firstKnownFree;
    if f < Capacity(a.nodes[k]) then (SetFirstKnownFree(a, k, f + 1), f)
    else
      CompactedTailFacts(a);
      var c := CompactedTail(a);
      (SetFirstKnownFree(c, k, c.nodes[k].numElements + 1), c.nodes[k].numElements)
  }

  /** _pumallocOnThreadList: the list afterwards and the slot returned. garbage is the content of the
      block that a fresh node would get. */
  function Pumalloc(l: ListState, garbage: seq<Element>): (r: (ListState, Found))
    requires W(l) && |garbage| > 0
    ensures r.1.At? && SlotInRange(r.0, r.1.node, r.1.slot)
  {
    WithRoomFacts(l, garbage);
    var a := WithRoom(l, garbage);
    var (d, i) := Reserve(a);
    ReserveFacts(a);
    (AllocAt(MakeTail(d, a.tail), a.tail, i), At(a.tail, i))
  }

  /** The tail is active and empty with its watermark at the end, and so is its predecessor empty:
      compaction then switches both off and only the tail is switched on again. */
  predicate Stranded(l: ListState) {
    && 0 < l.tail < |l.nodes|
    && l.nodes[l.tail].numElements == 0
    && l.nodes[l.tail].firstKnownFree == Capacity(l.nodes[l.tail])
    && l.nodes[l.tail - 1].numElements == 0
  }

  // ----- A node with room -----

  lemma WokenFits(n: NodeState, k: int, m: int)
    requires Fits(n, k, m, -1) && m <= k
    ensures Fits(n.(active := true, index := k), k, k + 1, -1)
  {}

  lemma FreshFits(garbage: seq<Element>, k: int)
    requires |garbage| > 0
    ensures Fits(FreshNode(garbage, k), k, k + 1, -1)
  {
    CountExtremes(FreshNode(garbage, k).free, false);
  }

  /** The old tail is full, so it may become an inner node. */
  lemma GrownFits(n: NodeState, i: int, m: int)
    requires Fits(n, i, m, -1) && i != m && (i == m - 1 ==> Full(n))
    ensures Fits(n, i, m + 1, -1)
  {}

  lemma AppendFits(l: ListState, garbage: seq<Element>)
    requires W(l) && |garbage| > 0 && (l.tail >= 0 ==> Full(l.nodes[l.tail]))
    ensures TailInRange(l) && AppendNode(l, garbage).numNodes == l.numNodes + 1
    ensures AllFit(AppendNode(l, garbage).nodes, l.numNodes + 1, -1)
  {
    var m := AppendNode(l, garbage);
    if l.tail >= 0 { FullTailIsActive(l); }
    FreshFits(garbage, l.numNodes);
    forall i | 0 <= i < |m.nodes| ensures Fits(m.nodes[i], i, l.numNodes + 1, -1) {
      if i == l.numNodes {
        if i < |l.nodes| { WokenFits(l.nodes[i], i, l.numNodes); }
      } else {
        GrownFits(l.nodes[i], i, l.numNodes);
      }
    }
  }

  lemma FullTailIsActive(l: ListState)
    requires W(l) && l.tail >= 0 && Full(l.nodes[l.tail])
    ensures l.numNodes > 0 && l.nodes[l.tail].active && l.nodes[l.tail].index == l.tail
  {
    assert Fits(l.nodes[l.tail], l.tail, l.numNodes, -1);
  }

  lemma AppendContents(l: ListState, garbage: seq<Element>)
    requires TailInRange(l) && AllSized(l.nodes)
    ensures AllSized(AppendNode(l, garbage).nodes) && Bag(AppendNode(l, garbage)) == Bag(l)
    ensures Total(AppendNode(l, garbage).nodes) == Total(l.nodes)
  {
    var m := AppendNode(l, garbage);
    if |m.nodes| == |l.nodes| {
      ContentsOfSame(l.nodes, m.nodes);
    } else {
      var n := m.nodes[|l.nodes|];
      assert m.nodes == l.nodes + [n];
      assert |Live(n.free, n.slots)| == 0 by { CountExtremes(n.free, false); }
      ContentsOfOne(n);
      TotalOfOne(n);
      ContentsOfConcat(l.nodes, [n]);
      TotalOfConcat(l.nodes, [n]);
    }
  }

  /** After the first step there is a tail that is not full; nothing was lost. */
  lemma WithRoomFacts(l: ListState, garbage: seq<Element>)
    requires W(l) && |garbage| > 0
    ensures TailInRange(l) && W(WithRoom(l, garbage))
    ensures var a := WithRoom(l, garbage); 0 <= a.tail && a.nodes[a.tail].numElements < Capacity(a.nodes[a.tail])
    ensures AllSized(l.nodes) && AllSized(WithRoom(l, garbage).nodes) && Bag(WithRoom(l, garbage)) == Bag(l)
    ensures WithRoom(l, garbage).numElements == l.numElements
    ensures Stranded(WithRoom(l, garbage)) <==> Stranded(l)
  {
    hide Fits, AllFit, Contents, Live, Total;
    WSized(l, -1);
    RoomAtTail(l, garbage);
    if WithRoom(l, garbage) != l {
      AppendFits(l, garbage);
      AppendContents(l, garbage);
      if l.tail >= 0 { FullTailIsActive(l); }
    }
  }

  lemma RoomAtTail(l: ListState, garbage: seq<Element>)
    requires W(l) && |garbage| > 0
    ensures TailInRange(l)
    ensures var a := WithRoom(l, garbage);
      && 0 <= a.tail < |a.nodes| && a.nodes[a.tail].numElements < Capacity(a.nodes[a.tail])
      && (Stranded(a) <==> Stranded(l))
  {
    hide AllFit, Total;
    if l.tail >= 0 {
      FitsAt(l, -1, l.tail);
      if l.tail + 1 < |l.nodes| { FitsAt(l, -1, l.tail + 1); }
    }
  }

  // ----- A free slot -----

  lemma BumpIsCleanable(a: ListState)
    requires W(a) && a.tail >= 0
    ensures Cleanable(SetFirstKnownFree(a, a.tail, a.nodes[a.tail].firstKnownFree + 1), a.tail)
    ensures var b := SetFirstKnownFree(a, a.tail, a.nodes[a.tail].firstKnownFree + 1);
      AllSized(a.nodes) && AllSized(b.nodes) && Bag(b) == Bag(a)
  {
    var k := a.tail;
    var f := a.nodes[k].firstKnownFree + 1;
    var b := SetFirstKnownFree(a, k, f);
    WSized(a, -1);
    TailIndex(a);
    BumpFits(a, k, f);
    BumpKeepsContents(a, k, f);
    hide Fits, AllFit, Contents;
  }

  lemma BumpKeepsContents(l: ListState, k: int, f: int)
    requires InRange(l, k) && AllSized(l.nodes)
    ensures var m := SetFirstKnownFree(l, k, f);
      AllSized(m.nodes) && Bag(m) == Bag(l) && Total(m.nodes) == Total(l.nodes)
  {
    ContentsOfSame(l.nodes, SetFirstKnownFree(l, k, f).nodes);
  }

  lemma TailIndex(a: ListState)
    requires W(a) && a.tail >= 0
    ensures a.nodes[a.tail].index == a.tail
  {
    assert Fits(a.nodes[a.tail], a.tail, a.numNodes, -1);
  }

  lemma BumpFits(a: ListState, k: int, f: int)
    requires W(a) && InRange(a, k)
    ensures AllFit(SetFirstKnownFree(a, k, f).nodes, a.numNodes, k)
  {
    var b := SetFirstKnownFree(a, k, f);
    forall i | 0 <= i < |a.nodes| ensures Fits(b.nodes[i], i, a.numNodes, k) {
      assert Fits(a.nodes[i], i, a.numNodes, -1);
    }
  }

  /** The state just before node k is made the tail: a with node k bumped or compacted. */
  predicate Reserved(d: ListState, a: ListState, k: int) {
    && InRange(d, k) && EarlierKept(d, a, k) && 0 <= d.numNodes <= k + 1
    && AllFit(d.nodes, d.numNodes, k) && d.nodes[k].index == k
    && d.numElements == Total(d.nodes) == a.numElements
  }

  /** Slot i of the node is free, the watermark stands just above it, and taking it leaves no new hole. */
  predicate Takeable(n: NodeState, i: int) {
    && 0 <= i < |n.free| && n.firstKnownFree == i + 1
    && (forall j :: i <= j < |n.free| ==> n.free[j])
    && (!n.dirty ==> n.numElements == i && UsedPrefix(n, i))
  }

  lemma BumpedIsTakeable(n: NodeState)
    requires Sized(n) && Tidy(n) && n.firstKnownFree < Capacity(n)
    ensures Takeable(n.(firstKnownFree := n.firstKnownFree + 1), n.firstKnownFree)
  {}

  lemma PackedIsTakeable(n: NodeState)
    requires NodeOk(n) && UsedPrefix(n, n.numElements) && !Full(n)
    ensures Takeable(n.(firstKnownFree := n.numElements + 1), n.numElements)
  {}

  lemma BumpReserves(a: ListState)
    requires W(a) && a.tail >= 0
    ensures Reserved(SetFirstKnownFree(a, a.tail, a.nodes[a.tail].firstKnownFree + 1), a, a.tail)
  {
    BumpIsCleanable(a);
    AllActive(a, -1);
    hide Fits, Contents, Bag;
  }

  lemma TotalSplit(nodes: seq<NodeState>, k: nat)
    requires k < |nodes|
    ensures Total(nodes) == Total(nodes[..k]) + nodes[k].numElements + Total(nodes[k + 1..])
  {
    assert nodes == nodes[..k] + [nodes[k]] + nodes[k + 1..];
    TotalOfConcat(nodes[..k], [nodes[k]]);
    TotalOfConcat(nodes[..k] + [nodes[k]], nodes[k + 1..]);
    TotalOfOne(nodes[k]);
  }

  /** Nothing follows the tail, so its count decides the total. */
  lemma TotalUpToTail(l: ListState, k: int)
    requires W(l) && InRange(l, k) && l.numNodes <= k + 1
    ensures l.numElements == Total(l.nodes[..k]) + l.nodes[k].numElements
  {
    InactiveAreEmpty(l, -1);
    TotalSplit(l.nodes, k);
    var rest := l.nodes[k + 1..];
    assert forall i :: 0 <= i < |rest| ==> rest[i] == l.nodes[k + 1 + i];
    ContentsOfEmpty(rest);
  }

  /** Compacting the tail moves elements within it only: its count stays. */
  lemma CountOfTail(a: ListState, k: int, c: ListState)
    requires W(a) && W(c) && k == a.tail >= 0 && InRange(c, k) && EarlierKept(c, a, k)
    requires AllSized(a.nodes) && AllSized(c.nodes) && Bag(c) == Bag(a)
    ensures c.nodes[k].numElements == a.nodes[k].numElements && c.numElements == a.numElements
  {
    SameBagSameCount(a, c);
    hide Fits, AllFit;
    TotalUpToTail(a, k);
    TotalUpToTail(c, k);
    TotalOfSame(a.nodes[..k], c.nodes[..k]);
  }

  lemma CompactedTailFacts(a: ListState)
    requires W(a) && a.tail >= 0
    ensures var c := CompactedTail(a);
      && W(c) && InRange(c, a.tail) && EarlierKept(c, a, a.tail) && c.nodes[a.tail].index == a.tail
      && c.nodes[a.tail].numElements == a.nodes[a.tail].numElements && c.numElements == a.numElements
  {
    hide CleanupNode, Fits, AllFit, Contents;
    var k := a.tail;
    var b := SetFirstKnownFree(a, k, a.nodes[k].firstKnownFree + 1);
    BumpIsCleanable(a);
    CleanupFacts(b, k);
    CleanupKeepsIndex(b, k);
    EarlierOfBump(a, b, CompactedTail(a), k);
    hide Bag, Packed;
    CountOfTail(a, k, CompactedTail(a));
  }

  lemma CompactedTailPacked(a: ListState)
    requires W(a) && a.tail >= 0
    ensures Packed(CompactedTail(a), a.tail) && |CompactedTail(a).nodes[a.tail].free| == |a.nodes[a.tail].free|
  {
    hide CleanupNode, Fits, AllFit, Contents;
    BumpIsCleanable(a);
    CleanupFacts(SetFirstKnownFree(a, a.tail, a.nodes[a.tail].firstKnownFree + 1), a.tail);
  }

  /** How many nodes are still active once an empty tail has been compacted. */
  lemma EmptyCompactedTail(a: ListState)
    requires W(a) && a.tail >= 0 && a.nodes[a.tail].numElements == 0
    ensures var q := CompactedTail(a).numNodes;
      && 0 <= q <= a.tail && (q > 0 ==> a.nodes[q - 1].numElements > 0)
      && (a.tail > 0 && a.nodes[a.tail - 1].numElements > 0 ==> q == a.tail)
  {
    hide CleanupNode, AllFit, AllSized, Contents;
    BumpIsCleanable(a);
    EmptyTail(SetFirstKnownFree(a, a.tail, a.nodes[a.tail].firstKnownFree + 1), a.tail);
  }

  lemma PackedTailIsTakeable(a: ListState, c: ListState, k: int)
    requires W(c) && InRange(a, k) && Packed(c, k) && a.nodes[k].numElements < Capacity(a.nodes[k])
    requires c.nodes[k].numElements == a.nodes[k].numElements && |c.nodes[k].free| == |a.nodes[k].free|
    ensures Takeable(SetFirstKnownFree(c, k, c.nodes[k].numElements + 1).nodes[k], c.nodes[k].numElements)
  {
    AllNodesOk(c, -1);
    PackedIsTakeable(c.nodes[k]);
  }

  lemma CompactedReserved(a: ListState, c: ListState, k: int)
    requires W(a) && W(c) && k == a.tail && InRange(c, k) && EarlierKept(c, a, k) && c.nodes[k].index == k
    requires c.numElements == a.numElements
    ensures Reserved(SetFirstKnownFree(c, k, c.nodes[k].numElements + 1), a, k)
  {
    FitsAfterBump(c, SetFirstKnownFree(c, k, c.nodes[k].numElements + 1), k);
    WSized(c, -1);
    BumpKeepsContents(c, k, c.nodes[k].numElements + 1);
    WithinTail(a, c);
    hide Fits, AllFit, Contents, Bag;
  }

  lemma CompactionReserves(a: ListState)
    requires W(a) && a.tail >= 0
    ensures InRange(CompactedTail(a), a.tail)
    ensures var c, k := CompactedTail(a), a.tail;
      Reserved(SetFirstKnownFree(c, k, c.nodes[k].numElements + 1), a, k)
  {
    CompactedTailFacts(a);
    hide CompactedTail, AllFit, Packed, UsedPrefix, Reserved, AllSized, EarlierKept;
    CompactedReserved(a, CompactedTail(a), a.tail);
  }

  lemma CompactionFreesSlot(a: ListState)
    requires W(a) && a.tail >= 0 && a.nodes[a.tail].numElements < Capacity(a.nodes[a.tail])
    ensures InRange(CompactedTail(a), a.tail)
    ensures var n := CompactedTail(a).nodes[a.tail];
      Takeable(n.(firstKnownFree := n.numElements + 1), n.numElements)
  {
    CompactedTailFacts(a);
    CompactedTailPacked(a);
    hide CompactedTail, AllFit, AllSized, EarlierKept, Takeable;
    PackedTailIsTakeable(a, CompactedTail(a), a.tail);
  }

  lemma WithinTail(a: ListState, c: ListState)
    requires W(a) && a.tail >= 0 && W(c) && c.numNodes <= a.numNodes
    ensures 0 <= c.numNodes <= a.tail + 1
  {}

  lemma FitsAfterBump(c: ListState, d: ListState, k: int)
    requires W(c) && InRange(c, k) && d == SetFirstKnownFree(c, k, c.nodes[k].numElements + 1)
    ensures AllFit(d.nodes, c.numNodes, k)
  {
    forall i | 0 <= i < |d.nodes| ensures Fits(d.nodes[i], i, c.numNodes, k) {
      assert Fits(c.nodes[i], i, c.numNodes, -1);
    }
  }

  lemma EarlierOfBump(a: ListState, b: ListState, c: ListState, k: int)
    requires InRange(a, k) && b == SetFirstKnownFree(a, k, a.nodes[k].firstKnownFree + 1) && EarlierKept(c, b, k)
    ensures EarlierKept(c, a, k)
  {}

  lemma {:induction false} CleanupKeepsIndex(l: ListState, k: int)
    requires Cleanable(l, k)
    ensures InRange(CleanupNode(l, k), k) && CleanupNode(l, k).nodes[k].index == k
    decreases |l.nodes[k].free| - FirstIndex(l.nodes[k].free, true)
  {
    hide WExcept;
    CleanupFacts(l, k);
    if l.nodes[k].numElements < Capacity(l.nodes[k]) {
      var f := FirstIndex(l.nodes[k].free, true);
      TrimFacts(l, k);
      var (t, last) := GetLastElement(l);
      if !NothingToMove(t, k, f, last) {
        LastIsLater(t, k, f, last);
        MoveKeeps(t, k, f, last.node, last.slot);
        MoveShape(t, k, f, last.node, last.slot);
        CleanupKeepsIndex(Move(t, k, f, last.node, last.slot), k);
      }
    }
  }

  /** After compacting an empty tail the active nodes end with the last non-empty node before it. */
  lemma EmptyTail(b: ListState, k: int)
    requires Cleanable(b, k) && k == b.tail && b.nodes[k].numElements == 0
    ensures InRange(CleanupNode(b, k), k)
    ensures var q := CleanupNode(b, k).numNodes; 0 <= q <= k && (q > 0 ==> b.nodes[q - 1].numElements > 0)
    ensures k > 0 && b.nodes[k - 1].numElements > 0 ==> CleanupNode(b, k).numNodes == k
  {
    hide WExcept, Contents, Bag;
    CleanupFacts(b, k);
    TrimFacts(b, k);
    EmptyTailStops(b, k);
    EmptyFits(b, k, k);
    assert CleanupNode(b, k) == Finish(GetLastElement(b).0, k);
  }

  /** Trimming already reaches that node, and there is nothing to move. */
  lemma EmptyTailStops(b: ListState, k: int)
    requires Cleanable(b, k) && k == b.tail && b.nodes[k].numElements == 0
    ensures var (t, last) := GetLastElement(b);
      && InRange(t, k) && |t.nodes| == |b.nodes| && t.nodes[k].free == b.nodes[k].free
      && (last.At? ==> InRange(t, last.node)) && NothingToMove(t, k, FirstIndex(b.nodes[k].free, true), last)
      && 0 <= t.numNodes <= k && (t.numNodes > 0 ==> t.nodes[t.numNodes - 1].numElements > 0)
      && (k > 0 && b.nodes[k - 1].numElements > 0 ==> t.numNodes == k)
  {
    hide Contents, Bag, AllFit, Live, Fits, GetLastElement;
    TrimFacts(b, k);
    var (t, last) := GetLastElement(b);
    EmptyFits(b, k, k);
    EmptyFits(t, k, k);
    if t.numNodes > 0 {
      LastIsUsed(b, k);
      EmptyFits(t, k, t.numNodes - 1);
    }
    if k > 0 { EmptyFits(t, k, k - 1); }
  }

  lemma EmptyFits(l: ListState, x: int, i: int)
    requires WExcept(l, x) && 0 <= i < |l.nodes|
    ensures NodeOk(l.nodes[i]) && (if i < l.numNodes then l.nodes[i].index == i else l.nodes[i].numElements == 0)
  {
    FitsAt(l, x, i);
  }

  lemma FitsAt(l: ListState, x: int, i: int)
    requires WExcept(l, x) && 0 <= i < |l.nodes|
    ensures Fits(l.nodes[i], i, l.numNodes, x)
  {}

  /** The node that trimming stops at holds an element. */
  lemma LastIsUsed(b: ListState, x: int)
    requires WExcept(b, x)
    ensures -1 <= b.tail < |b.nodes|
    ensures var t := GetLastElement(b).0;
      0 < t.numNodes <= |b.nodes| ==> b.nodes[t.numNodes - 1].numElements > 0
  {
    hide AllFit;
    TrimFacts(b, x);
    var (t, last) := GetLastElement(b);
    if last.At? {
      FitsAt(t, x, last.node);
      CountExtremes(t.nodes[last.node].free, false);
    }
  }

  /** The slot is found in every case; the list is in order for it unless it was stranded. */
  lemma ReserveFacts(a: ListState)
    requires W(a) && a.tail >= 0 && a.nodes[a.tail].numElements < Capacity(a.nodes[a.tail])
    ensures Reserved(Reserve(a).0, a, a.tail) && Takeable(Reserve(a).0.nodes[a.tail], Reserve(a).1)
    ensures Reserve(a).0.numNodes >= a.tail <==> !Stranded(a)
  {
    assert Fits(a.nodes[a.tail], a.tail, a.numNodes, -1);
    hide AllFit, AllSized, Fits, CompactedTail, Reserved, Takeable, Tidy, NodeOk;
    if a.nodes[a.tail].firstKnownFree < Capacity(a.nodes[a.tail]) {
      BumpReserves(a);
      BumpedIsTakeable(a.nodes[a.tail]) by { assert Fits(a.nodes[a.tail], a.tail, a.numNodes, -1); }
    } else {
      CompactionReserves(a);
      CompactionFreesSlot(a);
      CompactionStrands(a);
    }
  }

  lemma ReserveKeepsBag(a: ListState)
    requires W(a) && a.tail >= 0
    ensures AllSized(a.nodes) && AllSized(Reserve(a).0.nodes) && Bag(Reserve(a).0) == Bag(a)
  {
    hide WExcept, CompactedTail, Contents;
    WSized(a, -1);
    CompactedTailBag(a);
    if a.nodes[a.tail].firstKnownFree < Capacity(a.nodes[a.tail]) {
      BumpKeepsContents(a, a.tail, a.nodes[a.tail].firstKnownFree + 1);
    } else {
      BumpKeepsContents(CompactedTail(a), a.tail, CompactedTail(a).nodes[a.tail].numElements + 1);
    }
  }

  lemma CompactedTailBag(a: ListState)
    requires W(a) && a.tail >= 0
    ensures InRange(a, a.tail) && InRange(CompactedTail(a), a.tail)
    ensures AllSized(a.nodes) && AllSized(CompactedTail(a).nodes) && Bag(CompactedTail(a)) == Bag(a)
  {
    hide CleanupNode, Fits, AllFit, Contents;
    BumpIsCleanable(a);
    CleanupFacts(SetFirstKnownFree(a, a.tail, a.nodes[a.tail].firstKnownFree + 1), a.tail);
  }

  /** How many nodes are still active once the tail has been compacted. */
  lemma CompactionStrands(a: ListState)
    requires W(a) && a.tail >= 0
    requires a.nodes[a.tail].numElements < Capacity(a.nodes[a.tail]) <= a.nodes[a.tail].firstKnownFree
    ensures CompactedTail(a).numNodes >= a.tail <==> !Stranded(a)
  {
    CompactedTailFacts(a);
    var c := CompactedTail(a);
    assert Fits(a.nodes[a.tail], a.tail, a.numNodes, -1);
    if a.nodes[a.tail].numElements == 0 {
      EmptyCompactedTail(a);
    } else {
      InactiveAreEmpty(c, -1);
    }
  }

  lemma MakeTailFacts(d: ListState, a: ListState, k: int)
    requires W(a) && k == a.tail >= 0 && Reserved(d, a, k) && d.numNodes >= k
    ensures WExcept(MakeTail(d, k), k) && MakeTail(d, k).numNodes == k + 1
  {
    var m := MakeTail(d, k);
    forall i | 0 <= i < |m.nodes| ensures Fits(m.nodes[i], i, k + 1, k) {
      assert Fits(d.nodes[i], i, d.numNodes, k);
      if i < k { assert Fits(a.nodes[i], i, a.numNodes, -1); }
    }
    assert Fits(d.nodes[k], k, d.numNodes, k);
    hide Fits;
    TotalOfUpdate(d.nodes, k, m.nodes[k]);
  }

  lemma TakenIsTidy(n: NodeState, i: int)
    requires Takeable(n, i)
    ensures Tidy(Allocated(n, i))
  {}

  /** The list when the slot has been chosen and, if need be, its node compacted. */
  function RoomMade(l: ListState, garbage: seq<Element>): ListState
    requires W(l) && |garbage| > 0
  {
    WithRoomFacts(l, garbage);
    Reserve(WithRoom(l, garbage)).0
  }

  /** Making room loses nothing, and the slot returned is free then. */
  lemma PumallocTakesFreeSlot(l: ListState, garbage: seq<Element>)
    requires W(l) && |garbage| > 0
    ensures var r, at := RoomMade(l, garbage), Pumalloc(l, garbage).1;
      && SlotInRange(r, at.node, at.slot) && r.nodes[at.node].free[at.slot]
      && AllSized(l.nodes) && AllSized(r.nodes) && Bag(r) == Bag(l)
  {
    hide Reserve, WithRoom, Bag, Reserved;
    WithRoomFacts(l, garbage);
    ReserveFacts(WithRoom(l, garbage));
    ReserveKeepsBag(WithRoom(l, garbage));
  }

  /** pumalloc returns a slot inside its node that was free, and adds exactly that one element. */
  lemma PumallocAddsOne(l: ListState, garbage: seq<Element>)
    requires W(l) && |garbage| > 0
    ensures var (m, at) := Pumalloc(l, garbage);
      && SlotInRange(m, at.node, at.slot) && !m.nodes[at.node].free[at.slot]
      && SlotInRange(RoomMade(l, garbage), at.node, at.slot) && RoomMade(l, garbage).nodes[at.node].free[at.slot]
      && m.numElements == l.numElements + 1 && m.nodes[at.node].active && m.tail == at.node
      && AllSized(l.nodes) && AllSized(m.nodes)
      && Bag(m) == Bag(l) + multiset{m.nodes[at.node].slots[at.slot]}
  {
    hide Reserve, WithRoom, Reserved, Contents, Live, Total;
    PumallocTakesFreeSlot(l, garbage);
    WithRoomFacts(l, garbage);
    var a := WithRoom(l, garbage);
    ReserveFacts(a);
    var (d, i) := Reserve(a);
    MadeTailBag(d, a.tail, i);
    ReservedCount(d, a, a.tail);
  }

  lemma ReservedCount(d: ListState, a: ListState, k: int)
    requires Reserved(d, a, k)
    ensures d.numElements == a.numElements
  {}

  lemma MadeTailBag(d: ListState, k: int, i: int)
    requires AllSized(d.nodes) && SlotInRange(d, k, i) && d.nodes[k].free[i]
    ensures var m := AllocAt(MakeTail(d, k), k, i);
      AllSized(m.nodes) && Bag(m) == Bag(d) + multiset{m.nodes[k].slots[i]}
  {
    ContentsOfSame(d.nodes, MakeTail(d, k).nodes);
    AllocBag(MakeTail(d, k), k, i);
  }

  /** pumalloc keeps the list invariant exactly when the list is not stranded. */
  lemma PumallocKeepsW(l: ListState, garbage: seq<Element>)
    requires W(l) && |garbage| > 0
    ensures W(Pumalloc(l, garbage).0) <==> !Stranded(l)
  {
    WithRoomFacts(l, garbage);
    var a := WithRoom(l, garbage);
    ReserveFacts(a);
    var (d, i) := Reserve(a);
    var k := a.tail;
    var e := MakeTail(d, k);
    var m := AllocAt(e, k, i);
    assert m == Pumalloc(l, garbage).0;
    hide Reserve, Pumalloc, WithRoom, Bag;
    if !Stranded(l) {
      MakeTailFacts(d, a, k);
      TakenFacts(e, k, i);
    } else {
      assert Fits(d.nodes[k], k, d.numNodes, k);
      assert !Fits(m.nodes[k], k, m.numNodes, -1);
    }
  }

  lemma TakenFacts(e: ListState, k: int, i: int)
    requires WExcept(e, k) && 0 <= k < e.numNodes && SlotInRange(e, k, i) && Takeable(e.nodes[k], i)
    ensures W(AllocAt(e, k, i))
  {
    var m := AllocAt(e, k, i);
    AllocFacts(e, k, i);
    TakenIsTidy(e.nodes[k], i);
    assert forall j :: 0 <= j < |m.nodes| ==> Fits(m.nodes[j], j, m.numNodes, k) && Fits(m.nodes[j], j, m.numNodes, -1);
  }

  /** The leading active nodes: those that a traversal of the list can come to. */
  function LeadingActive(nodes: seq<NodeState>): (r: nat)
    ensures r <= |nodes| && (r < |nodes| ==> !nodes[r].active)
    ensures forall i :: 0 <= i < r ==> nodes[i].active
  {
    if nodes == [] || !nodes[0].active then 0 else 1 + LeadingActive(nodes[1..])
  }

  /** What goes wrong otherwise: the new element sits behind a node that is switched off, after the last node
      that a traversal can come to. */
  lemma StrandedHidesElement(l: ListState, garbage: seq<Element>)
    requires W(l) && |garbage| > 0 && Stranded(l)
    ensures var (m, at) := Pumalloc(l, garbage);
      LeadingActive(m.nodes) < at.node && m.nodes[at.node].active && !m.nodes[at.node].free[at.slot]
  {
    PumallocAddsOne(l, garbage);
    WithRoomFacts(l, garbage);
    var a := WithRoom(l, garbage);
    ReserveFacts(a);
    var (d, i) := Reserve(a);
    assert Fits(d.nodes[a.tail - 1], a.tail - 1, d.numNodes, a.tail);
    assert !Pumalloc(l, garbage).0.nodes[a.tail - 1].active;
  }
}
