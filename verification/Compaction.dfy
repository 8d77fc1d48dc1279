/** Allocation and freeing of one slot, trimming of trailing empty nodes and compaction:
    src/internal/alloc.c, src/internal/free.c, src/internal/pumautil.c:7-39, src/internal/pumanode.c:19-54. */
module Compaction {
  import opened Bits
  import opened ListModel

  /** What _getLastElement returns: NULL, or a slot of a node. */
  datatype Found = NoElement | At(node: int, slot: int)

  predicate InRange(l: ListState, k: int) { 0 <= k < |l.nodes| }

  predicate SlotInRange(l: ListState, k: int, i: int) {
    InRange(l, k) && Sized(l.nodes[k]) && 0 <= i < |l.nodes[k].free|
  }

  // ----- Operations -----

  /** _allocElementOnNode */
  function AllocAt(l: ListState, k: int, i: int): ListState
    requires SlotInRange(l, k, i)
  {
    var n := l.nodes[k];
    l.(nodes := l.nodes[k := n.(free := n.free[i := false], numElements := n.numElements + 1)],
       numElements := l.numElements + 1)
  }

  /** Writing the bytes of a slot: memcpy in _cleanupNode, or the owner of the element. */
  function WriteAt(l: ListState, k: int, i: int, x: Element): ListState
    requires SlotInRange(l, k, i)
  {
    l.(nodes := l.nodes[k := l.nodes[k].(slots := l.nodes[k].slots[i := x])])
  }

  /** The bit, the counters and the dirty flag of _freeElementOnNode. */
  function ClearAt(l: ListState, k: int, i: int): ListState
    requires SlotInRange(l, k, i)
  {
    var n := l.nodes[k];
    l.(nodes := l.nodes[k := n.(free := n.free[i := true], numElements := n.numElements - 1, dirty := true)],
       numElements := l.numElements - 1)
  }

  /** The unlinking at the end of _freeElementOnNode: everything after node k goes. */
  function DropNext(l: ListState, k: int): ListState
    requires InRange(l, k)
  {
    if l.nodes[k].numElements < Capacity(l.nodes[k]) / 2 && k + 1 < |l.nodes| && !l.nodes[k + 1].active then
      l.(nodes := l.nodes[..k + 1], tail := if l.tail == k + 1 then k else l.tail)
    else l
  }

  /** _freeElementOnNode */
  function FreeAt(l: ListState, k: int, i: int): ListState
    requires SlotInRange(l, k, i)
  {
    DropNext(ClearAt(l, k, i), k)
  }

  /** One turn of the trimming loop. */
  function Deactivate(l: ListState): ListState
    requires InRange(l, l.tail)
  {
    l.(nodes := l.nodes[l.tail := l.nodes[l.tail].(active := false)],
       numNodes := if l.numNodes > 0 then l.numNodes - 1 else l.numNodes,
       tail := if l.tail > 0 then l.tail - 1 else l.tail)
  }

  /** _getLastElement: the last used slot of the list, after deactivating trailing empty nodes. */
  function GetLastElement(l: ListState): (ListState, Found)
    requires -1 <= l.tail < |l.nodes|
    decreases l.tail
  {
    if l.tail < 0 || !l.nodes[l.tail].active then (l, NoElement)
    else
      var slot := LastIndex(l.nodes[l.tail].free, false);
      if slot >= 0 then (l, At(l.tail, slot))
      else if l.tail == 0 then (Deactivate(l), NoElement)
      else GetLastElement(Deactivate(l))
  }

  /** The break test of _cleanupNode, for the hole at slot f of node k. Addresses on one node compare
      as slots do (Layout.AddressOrder). */
  predicate NothingToMove(l: ListState, k: int, f: int, last: Found)
    requires InRange(l, k) && (last.At? ==> InRange(l, last.node))
  {
    || last.NoElement?
    || f >= Capacity(l.nodes[k])
    || l.nodes[last.node].index < l.nodes[k].index
    || (l.nodes[last.node].index == l.nodes[k].index && f >= last.slot)
  }

  /** Move the element at (p, j) into the hole (k, f). */
  function Move(l: ListState, k: int, f: int, p: int, j: int): ListState
    requires SlotInRange(l, k, f) && SlotInRange(l, p, j)
  {
    var a := AllocAt(l, k, f);
    FreeAt(WriteAt(a, k, f, a.nodes[p].slots[j]), p, j)
  }

  function Finish(l: ListState, k: int): ListState
    requires InRange(l, k)
  {
    l.(nodes := l.nodes[k := l.nodes[k].(dirty := false, firstKnownFree := l.nodes[k].numElements)])
  }

  /** The list satisfies W but for node k, which is active or the tail: what _cleanupNode is called on. */
  predicate Cleanable(l: ListState, k: int) {
    WExcept(l, k) && InRange(l, k) && l.nodes[k].index == k
  }

  /** _cleanupNode. The measure is the first hole, which each move pushes up. */
  function CleanupNode(l: ListState, k: int): ListState
    requires Cleanable(l, k)
    decreases if InRange(l, k) then |l.nodes[k].free| - FirstIndex(l.nodes[k].free, true) else 0
  {
    if l.nodes[k].numElements >= Capacity(l.nodes[k]) then Finish(l, k)
    else
      var f := FirstIndex(l.nodes[k].free, true);
      TrimFacts(l, k);
      var (t, last) := GetLastElement(l);
      if NothingToMove(t, k, f, last) then Finish(t, k)
      else
        MoveKeeps(t, k, f, last.node, last.slot);
        MoveShape(t, k, f, last.node, last.slot);
        CleanupNode(Move(t, k, f, last.node, last.slot), k)
  }

  // ----- One slot at a time -----

  /** Replacing one node's mask and slots changes the bag by that node's part only. */
  lemma BagOfUpdate(l: ListState, k: int, n: NodeState, m: ListState)
    requires AllSized(l.nodes) && InRange(l, k) && Sized(n) && m.nodes == l.nodes[k := n]
    ensures AllSized(m.nodes)
    ensures Bag(m) + multiset(Live(l.nodes[k].free, l.nodes[k].slots)) == Bag(l) + multiset(Live(n.free, n.slots))
  {
    ContentsOfUpdate(l.nodes, k, n);
  }

  lemma Cancel(a: multiset<Element>, b: multiset<Element>, c: multiset<Element>, d: multiset<Element>)
    requires a + b == c + (b + d)
    ensures a == c + d
  {
    forall e ensures a[e] == (c + d)[e] {
      assert (a + b)[e] == (c + (b + d))[e];
    }
  }

  lemma Swap(a: multiset<Element>, b: multiset<Element>, r: multiset<Element>, c: multiset<Element>,
             d: multiset<Element>)
    requires a + (r + c) == b + (r + d)
    ensures a + c == b + d
  {
    forall e ensures (a + c)[e] == (b + d)[e] {
      assert (a + (r + c))[e] == (b + (r + d))[e];
    }
  }

  /** Replacing one active node by a fitting one, and counting the difference, keeps the invariant. */
  lemma ReplaceNode(l: ListState, x: int, k: int, n: NodeState)
    requires WExcept(l, x) && 0 <= k < l.numNodes && Fits(n, k, l.numNodes, x)
    ensures var count := l.numElements - l.nodes[k].numElements + n.numElements;
      WExcept(l.(nodes := l.nodes[k := n], numElements := count), x)
  {
    hide Fits;
    TotalOfUpdate(l.nodes, k, n);
  }

  function Allocated(n: NodeState, i: int): NodeState
    requires 0 <= i < |n.free|
  {
    n.(free := n.free[i := false], numElements := n.numElements + 1)
  }

  function Cleared(n: NodeState, i: int): NodeState
    requires 0 <= i < |n.free|
  {
    n.(free := n.free[i := true], numElements := n.numElements - 1, dirty := true)
  }

  lemma AllocatedFits(n: NodeState, i: int, k: int, m: int)
    requires Fits(n, k, m, k) && 0 <= i < |n.free| && n.free[i] && k < m
    ensures Fits(Allocated(n, i), k, m, k)
  {
    CountUpdate(n.free, i, false);
    CountExtremes(n.free, false);
  }

  lemma ClearedFits(n: NodeState, i: int, k: int, m: int, x: int)
    requires Fits(n, k, m, x) && 0 <= i < |n.free| && !n.free[i] && k < m
    ensures Fits(Cleared(n, i), k, m, x)
  {
    CountUpdate(n.free, i, true);
  }

  /** _allocElementOnNode on a free slot of an active node. */
  lemma AllocFacts(l: ListState, k: int, i: int)
    requires WExcept(l, k) && 0 <= k < l.numNodes && SlotInRange(l, k, i) && l.nodes[k].free[i]
    ensures WExcept(AllocAt(l, k, i), k)
  {
    assert Fits(l.nodes[k], k, l.numNodes, k);
    hide Fits, AllFit;
    AllocatedFits(l.nodes[k], i, k, l.numNodes);
    ReplaceNode(l, k, k, Allocated(l.nodes[k], i));
  }

  lemma AllocBag(l: ListState, k: int, i: int)
    requires AllSized(l.nodes) && SlotInRange(l, k, i) && l.nodes[k].free[i]
    ensures AllSized(AllocAt(l, k, i).nodes)
    ensures Bag(AllocAt(l, k, i)) == Bag(l) + multiset{l.nodes[k].slots[i]}
  {
    hide Live, Contents, Bag;
    var n := l.nodes[k];
    BagOfUpdate(l, k, Allocated(n, i), AllocAt(l, k, i));
    LiveAlloc(n.free, n.slots, i, n.slots[i]);
    assert n.slots[i := n.slots[i]] == n.slots;
    Cancel(Bag(AllocAt(l, k, i)), multiset(Live(n.free, n.slots)), Bag(l), multiset{n.slots[i]});
  }

  lemma WrittenFits(n: NodeState, i: int, y: Element, k: int, m: int, x: int)
    requires Fits(n, k, m, x) && 0 <= i < |n.slots|
    ensures Fits(n.(slots := n.slots[i := y]), k, m, x)
  {}

  /** Overwriting a live element swaps it for the new bytes. */
  lemma WriteFacts(l: ListState, x: int, k: int, i: int, y: Element)
    requires WExcept(l, x) && 0 <= k < l.numNodes && SlotInRange(l, k, i)
    ensures WExcept(WriteAt(l, k, i, y), x)
  {
    var n := l.nodes[k];
    assert Fits(n, k, l.numNodes, x);
    hide Fits, AllFit;
    WrittenFits(n, i, y, k, l.numNodes, x);
    ReplaceNode(l, x, k, n.(slots := n.slots[i := y]));
  }

  lemma WriteBag(l: ListState, k: int, i: int, y: Element)
    requires AllSized(l.nodes) && SlotInRange(l, k, i) && !l.nodes[k].free[i]
    ensures AllSized(WriteAt(l, k, i, y).nodes)
    ensures Bag(WriteAt(l, k, i, y)) + multiset{l.nodes[k].slots[i]} == Bag(l) + multiset{y}
  {
    var n := l.nodes[k];
    var m := WriteAt(l, k, i, y);
    var n' := n.(slots := n.slots[i := y]);
    BagOfUpdate(l, k, n', m);
    LiveFree(n.free, n.slots, i);
    LiveAlloc(n.free[i := true], n.slots, i, y);
    assert n.free[i := true][i := false] == n.free;
    Swap(Bag(m), Bag(l), multiset(Live(n.free[i := true], n.slots)), multiset{n.slots[i]}, multiset{y});
  }

  /** The bit and the counters of _freeElementOnNode. */
  lemma ClearFacts(l: ListState, x: int, k: int, i: int)
    requires WExcept(l, x) && 0 <= k < l.numNodes && SlotInRange(l, k, i) && !l.nodes[k].free[i]
    ensures WExcept(ClearAt(l, k, i), x)
  {
    assert Fits(l.nodes[k], k, l.numNodes, x);
    hide Fits, AllFit;
    ClearedFits(l.nodes[k], i, k, l.numNodes, x);
    ReplaceNode(l, x, k, Cleared(l.nodes[k], i));
  }

  lemma ClearBag(l: ListState, k: int, i: int)
    requires AllSized(l.nodes) && SlotInRange(l, k, i) && !l.nodes[k].free[i]
    ensures AllSized(ClearAt(l, k, i).nodes)
    ensures Bag(l) == Bag(ClearAt(l, k, i)) + multiset{l.nodes[k].slots[i]}
  {
    var n := l.nodes[k];
    BagOfUpdate(l, k, Cleared(n, i), ClearAt(l, k, i));
    LiveFree(n.free, n.slots, i);
    var rest := multiset(Live(n.free[i := true], n.slots));
    Cancel(Bag(l), rest, Bag(ClearAt(l, k, i)), multiset{n.slots[i]});
  }

  /** A run of nodes loses nothing with its empty suffix. */
  lemma TruncateFacts(nodes: seq<NodeState>, m: nat)
    requires AllSized(nodes) && m <= |nodes|
    requires forall i :: m <= i < |nodes| ==> NodeOk(nodes[i]) && nodes[i].numElements == 0
    ensures AllSized(nodes[..m]) && Contents(nodes[..m]) == Contents(nodes) && Total(nodes[..m]) == Total(nodes)
  {
    hide NodeOk, Contents, Total, Live;
    var a, b := nodes[..m], nodes[m..];
    assert nodes == a + b;
    assert forall i :: 0 <= i < |b| ==> b[i] == nodes[m + i];
    ContentsOfEmpty(b);
    assert Contents(a) + [] == Contents(a);
    ContentsOfConcat(a, b);
    TotalOfConcat(a, b);
  }

  lemma InactiveAreEmpty(l: ListState, x: int)
    requires WExcept(l, x)
    ensures forall i :: l.numNodes <= i < |l.nodes| ==> NodeOk(l.nodes[i]) && l.nodes[i].numElements == 0
  {
    assert forall i :: 0 <= i < |l.nodes| ==> Fits(l.nodes[i], i, l.numNodes, x);
  }

  lemma FitPrefix(nodes: seq<NodeState>, n: nat, m: int, x: int)
    requires AllFit(nodes, m, x) && n <= |nodes|
    ensures AllFit(nodes[..n], m, x)
  {}

  /** Unlinking the inactive nodes after an active one loses no element. */
  lemma DropFacts(l: ListState, x: int, k: int)
    requires WExcept(l, x) && 0 <= k < l.numNodes
    ensures WExcept(DropNext(l, k), x) && DropNext(l, k).numNodes == l.numNodes <= |DropNext(l, k).nodes|
    ensures DropNext(l, k).nodes == l.nodes[..|DropNext(l, k).nodes|]
    ensures AllSized(l.nodes) && AllSized(DropNext(l, k).nodes) && Bag(DropNext(l, k)) == Bag(l)
  {
    hide Fits, AllFit, AllSized, NodeOk, Contents, Total;
    WSized(l, x);
    InactiveAreEmpty(l, x);
    if k + 1 < |l.nodes| { ActiveMeansCounted(l, x, k + 1); }
    FitPrefix(l.nodes, k + 1, l.numNodes, x);
    if DropNext(l, k) != l {
      TruncateFacts(l.nodes, k + 1);
    }
  }

  lemma ActiveMeansCounted(l: ListState, x: int, i: int)
    requires WExcept(l, x) && InRange(l, i)
    ensures l.nodes[i].active <==> i < l.numNodes
  {
    assert Fits(l.nodes[i], i, l.numNodes, x);
  }

  /** _freeElementOnNode on a used slot of an active node. */
  lemma FreeFacts(l: ListState, x: int, k: int, i: int)
    requires WExcept(l, x) && 0 <= k < l.numNodes && SlotInRange(l, k, i) && !l.nodes[k].free[i]
    ensures WExcept(FreeAt(l, k, i), x) && FreeAt(l, k, i).numNodes == l.numNodes
    ensures AllSized(l.nodes) && AllSized(FreeAt(l, k, i).nodes)
    ensures Bag(l) == Bag(FreeAt(l, k, i)) + multiset{l.nodes[k].slots[i]}
  {
    hide WExcept;
    WSized(l, x);
    ClearFacts(l, x, k, i);
    ClearBag(l, k, i);
    DropFacts(ClearAt(l, k, i), x, k);
  }

  // ----- Trimming -----

  /** t is l with trailing empty nodes switched off. */
  predicate TrimmedFrom(t: ListState, l: ListState) {
    && t.numNodes <= l.numNodes && t.numElements == l.numElements && |t.nodes| == |l.nodes|
    && forall i :: 0 <= i < |l.nodes| ==> t.nodes[i] == l.nodes[i].(active := i < t.numNodes)
  }

  /** (p, j) is the last used slot, and its node is the tail. */
  predicate IsLast(t: ListState, p: int, j: int) {
    p == t.tail == t.numNodes - 1 && SlotInRange(t, p, j) && j == LastIndex(t.nodes[p].free, false)
  }

  lemma FitsShrink(n: NodeState, i: int, m: int, x: int)
    requires Fits(n, i, m, x) && i != m - 1
    ensures Fits(n, i, m - 1, x)
  {}

  lemma DeactivatedFits(n: NodeState, m: int, x: int)
    requires Fits(n, m - 1, m, x) && LastIndex(n.free, false) < 0
    ensures n.numElements == 0 && Fits(n.(active := false), m - 1, m - 1, x)
  {
    CountExtremes(n.free, false);
  }

  /** One turn of the trimming loop. */
  lemma DeactivateFacts(l: ListState, x: int)
    requires WExcept(l, x) && l.numNodes > 0 && LastIndex(l.nodes[l.tail].free, false) < 0
    ensures WExcept(Deactivate(l), x) && TrimmedFrom(Deactivate(l), l) && Deactivate(l).numNodes == l.numNodes - 1
  {
    var n, m := l.nodes[l.tail], Deactivate(l);
    TrimmedBySwitching(l, x);
    DeactivatedFits(n, l.numNodes, x);
    assert l.numNodes == 1 ==> n.index == 0;
    forall i | 0 <= i < |l.nodes| ensures Fits(m.nodes[i], i, m.numNodes, x) {
      if i != l.tail { FitsShrink(l.nodes[i], i, l.numNodes, x); }
    }
    hide Fits;
    TotalOfUpdate(l.nodes, l.tail, n.(active := false));
  }

  lemma TrimmedBySwitching(l: ListState, x: int)
    requires WExcept(l, x) && l.numNodes > 0
    ensures TrimmedFrom(Deactivate(l), l)
  {
    AllActive(l, x);
  }

  /** Trimming only switches off trailing empty nodes; what it finds is the list's last used slot. */
  lemma {:induction false} TrimFacts(l: ListState, x: int)
    requires WExcept(l, x)
    ensures -1 <= l.tail < |l.nodes|
    ensures WExcept(GetLastElement(l).0, x) && TrimmedFrom(GetLastElement(l).0, l)
    ensures var (t, last) := GetLastElement(l);
      (last.NoElement? ==> t.numNodes == 0) && (last.At? ==> IsLast(t, last.node, last.slot))
    decreases l.tail
  {
    hide Fits, AllFit;
    WSized(l, x);
    if l.tail >= 0 && l.nodes[l.tail].active {
      assert l.numNodes > 0 by { ActiveMeansCounted(l, x, l.tail); }
      if LastIndex(l.nodes[l.tail].free, false) < 0 {
        DeactivateFacts(l, x);
        if l.tail > 0 { TrimFacts(Deactivate(l), x); }
      }
    }
    AllActive(l, x);
  }

  lemma AllActive(l: ListState, x: int)
    requires WExcept(l, x)
    ensures TrimmedFrom(l, l)
  {
    assert forall i :: 0 <= i < |l.nodes| ==> Fits(l.nodes[i], i, l.numNodes, x);
  }

  /** Trimming does not change the contents. */
  lemma TrimKeepsBag(l: ListState, x: int)
    requires WExcept(l, x)
    ensures -1 <= l.tail < |l.nodes|
    ensures AllSized(l.nodes) && AllSized(GetLastElement(l).0.nodes)
    ensures Contents(GetLastElement(l).0.nodes) == Contents(l.nodes)
  {
    TrimFacts(l, x);
    WSized(l, x);
    ContentsOfSame(l.nodes, GetLastElement(l).0.nodes);
  }

  // ----- Compaction -----

  /** One move keeps everything but the Tidy clause of node k. */
  lemma MoveKeeps(l: ListState, k: int, f: int, p: int, j: int)
    requires WExcept(l, k) && 0 <= k <= p == l.numNodes - 1
    requires SlotInRange(l, k, f) && l.nodes[k].free[f]
    requires SlotInRange(l, p, j) && !l.nodes[p].free[j]
    ensures WExcept(Move(l, k, f, p, j), k) && Move(l, k, f, p, j).numNodes == l.numNodes
    ensures AllSized(l.nodes) && AllSized(Move(l, k, f, p, j).nodes) && Bag(Move(l, k, f, p, j)) == Bag(l)
  {
    hide WExcept, Bag;
    WSized(l, k);
    var x := l.nodes[p].slots[j];
    AllocFacts(l, k, f);
    AllocBag(l, k, f);
    var a := AllocAt(l, k, f);
    WriteFacts(a, k, k, f, x);
    WriteBag(a, k, f, x);
    var b := WriteAt(a, k, f, x);
    FreeFacts(b, k, p, j);
    assert Move(l, k, f, p, j) == FreeAt(b, p, j) by { hide FreeAt; }
    Exchange(Bag(l), Bag(a), Bag(b), Bag(FreeAt(b, p, j)), multiset{l.nodes[k].slots[f]}, multiset{x});
  }

  lemma Exchange(l: multiset<Element>, a: multiset<Element>, b: multiset<Element>, m: multiset<Element>,
                 old': multiset<Element>, new': multiset<Element>)
    requires a == l + old' && b + old' == a + new' && b == m + new'
    ensures m == l
  {
    forall e ensures m[e] == l[e] {
      assert (b + old')[e] == (a + new')[e];
    }
  }

  /** What a move leaves in node k and before it. */
  lemma MoveShape(l: ListState, k: int, f: int, p: int, j: int)
    requires SlotInRange(l, k, f) && SlotInRange(l, p, j) && k <= p && f == FirstIndex(l.nodes[k].free, true)
    requires p == k ==> f < j
    ensures var m := Move(l, k, f, p, j);
      && k < |m.nodes| <= |l.nodes| && m.nodes[..k] == l.nodes[..k] && m.nodes[k].index == l.nodes[k].index
      && |m.nodes[k].free| == |l.nodes[k].free| && FirstIndex(m.nodes[k].free, true) > f
  {
    var m := Move(l, k, f, p, j);
    assert forall i :: 0 <= i <= f ==> !m.nodes[k].free[i];
  }

  /** Node k is packed, and whatever could still fill it is gone. */
  predicate Packed(m: ListState, k: int) {
    && InRange(m, k)
    && !m.nodes[k].dirty && m.nodes[k].firstKnownFree == m.nodes[k].numElements
    && UsedPrefix(m.nodes[k], m.nodes[k].numElements)
    && (Full(m.nodes[k]) || forall i :: k < i < |m.nodes| ==> m.nodes[i].numElements == 0)
  }

  /** The nodes before k are those of l, but for trailing empty ones switched off. */
  predicate EarlierKept(m: ListState, l: ListState, k: int) {
    && k <= |m.nodes| <= |l.nodes| && m.numNodes <= l.numNodes
    && forall i :: 0 <= i < k ==> m.nodes[i] == l.nodes[i].(active := i < m.numNodes)
  }

  /** Why the loop stops: node k is full, or its used slots are a prefix and nothing follows. */
  predicate ReadyToFinish(t: ListState, k: int) {
    && WExcept(t, k) && InRange(t, k) && UsedPrefix(t.nodes[k], t.nodes[k].numElements)
    && (Full(t.nodes[k]) || k >= t.numNodes - 1)
  }

  lemma FullIsReady(t: ListState, k: int)
    requires WExcept(t, k) && InRange(t, k) && t.nodes[k].numElements >= Capacity(t.nodes[k])
    ensures ReadyToFinish(t, k)
  {
    assert Fits(t.nodes[k], k, t.numNodes, k);
    CountExtremes(t.nodes[k].free, false);
  }

  lemma NothingToMoveIsReady(t: ListState, k: int, f: int, last: Found)
    requires Cleanable(t, k) && f == FirstIndex(t.nodes[k].free, true) && t.nodes[k].numElements < Capacity(t.nodes[k])
    requires (last.NoElement? ==> t.numNodes == 0) && (last.At? ==> IsLast(t, last.node, last.slot))
    requires NothingToMove(t, k, f, last)
    ensures ReadyToFinish(t, k)
  {
    var n := t.nodes[k];
    assert Fits(n, k, t.numNodes, k);
    CountExtremes(n.free, false);
    if last.At? && last.node >= k {
      assert Fits(t.nodes[last.node], last.node, t.numNodes, k);
      assert last.node == k && f > last.slot;
      CountPrefix(n.free, f, false);
    } else {
      assert k >= t.numNodes;
    }
  }

  lemma FinishFacts(t: ListState, k: int)
    requires ReadyToFinish(t, k)
    ensures W(Finish(t, k)) && Packed(Finish(t, k), k)
    ensures AllSized(t.nodes) && AllSized(Finish(t, k).nodes) && Bag(Finish(t, k)) == Bag(t)
  {
    hide Fits, AllFit, Contents, Live, Total, AllSized;
    WSized(t, k);
    InactiveAreEmpty(t, k);
    FinishFits(t, k);
    FinishContents(t, k);
  }

  lemma FinishContents(t: ListState, k: int)
    requires InRange(t, k) && AllSized(t.nodes)
    ensures AllSized(Finish(t, k).nodes) && Contents(Finish(t, k).nodes) == Contents(t.nodes)
    ensures Total(Finish(t, k).nodes) == Total(t.nodes)
  {
    ContentsOfSame(t.nodes, Finish(t, k).nodes);
  }

  lemma FinishFits(t: ListState, k: int)
    requires ReadyToFinish(t, k)
    ensures AllFit(Finish(t, k).nodes, t.numNodes, -1)
  {
    var m := Finish(t, k);
    forall i | 0 <= i < |t.nodes| ensures Fits(m.nodes[i], i, m.numNodes, -1) {
      assert Fits(t.nodes[i], i, t.numNodes, k);
    }
  }

  /** _cleanupNode restores W, loses and invents no element, packs node k and leaves the nodes before
      it alone. */
  lemma {:induction false} CleanupFacts(l: ListState, k: int)
    requires Cleanable(l, k)
    ensures W(CleanupNode(l, k)) && Packed(CleanupNode(l, k), k) && EarlierKept(CleanupNode(l, k), l, k)
    ensures AllSized(l.nodes) && AllSized(CleanupNode(l, k).nodes) && Bag(CleanupNode(l, k)) == Bag(l)
    ensures |CleanupNode(l, k).nodes[k].free| == |l.nodes[k].free|
    decreases |l.nodes[k].free| - FirstIndex(l.nodes[k].free, true)
  {
    hide WExcept, Bag, Packed;
    WSized(l, k);
    if l.nodes[k].numElements >= Capacity(l.nodes[k]) {
      FullIsReady(l, k);
      FinishFacts(l, k);
      EarlierActive(l, k);
    } else {
      var f := FirstIndex(l.nodes[k].free, true);
      TrimFacts(l, k);
      TrimBag(l, k);
      var (t, last) := GetLastElement(l);
      if NothingToMove(t, k, f, last) {
        NothingToMoveIsReady(t, k, f, last);
        FinishFacts(t, k);
      } else {
        LastIsLater(t, k, f, last);
        MoveKeeps(t, k, f, last.node, last.slot);
        MoveShape(t, k, f, last.node, last.slot);
        CleanupFacts(Move(t, k, f, last.node, last.slot), k);
        EarlierThrough(CleanupNode(Move(t, k, f, last.node, last.slot), k), Move(t, k, f, last.node, last.slot), t, l,
                       k);
      }
    }
  }

  lemma EarlierActive(l: ListState, k: int)
    requires WExcept(l, k) && InRange(l, k)
    ensures EarlierKept(Finish(l, k), l, k)
  {
    assert forall i :: 0 <= i < |l.nodes| ==> Fits(l.nodes[i], i, l.numNodes, k);
  }

  lemma TrimBag(l: ListState, x: int)
    requires WExcept(l, x)
    ensures -1 <= l.tail < |l.nodes|
    ensures AllSized(l.nodes) && AllSized(GetLastElement(l).0.nodes) && Bag(GetLastElement(l).0) == Bag(l)
  {
    TrimKeepsBag(l, x);
  }

  lemma LastIsLater(t: ListState, k: int, f: int, last: Found)
    requires Cleanable(t, k) && f == FirstIndex(t.nodes[k].free, true)
    requires last.At? && IsLast(t, last.node, last.slot) && !NothingToMove(t, k, f, last)
    ensures k <= last.node && (last.node == k ==> f < last.slot) && SlotInRange(t, k, f)
  {
    assert Fits(t.nodes[k], k, t.numNodes, k) && Fits(t.nodes[last.node], last.node, t.numNodes, k);
  }

  lemma EarlierThrough(m: ListState, v: ListState, t: ListState, l: ListState, k: int)
    requires InRange(l, k) && EarlierKept(m, v, k) && k < |v.nodes| <= |t.nodes| && v.nodes[..k] == t.nodes[..k]
    requires v.numNodes == t.numNodes
    requires TrimmedFrom(t, l)
    ensures EarlierKept(m, l, k)
  {
    forall i | 0 <= i < k ensures m.nodes[i] == l.nodes[i].(active := i < m.numNodes) {
      assert v.nodes[i] == v.nodes[..k][i] == t.nodes[i];
    }
  }

  lemma {:induction false} TotalNonNegative(nodes: seq<NodeState>)
    requires forall i :: 0 <= i < |nodes| ==> NodeOk(nodes[i])
    ensures Total(nodes) >= 0 && forall i :: 0 <= i < |nodes| ==> nodes[i].numElements <= Total(nodes)
  {
    if nodes != [] {
      TotalNonNegative(nodes[..|nodes| - 1]);
      assert forall i :: 0 <= i < |nodes| - 1 ==> nodes[..|nodes| - 1][i] == nodes[i];
    }
  }

  /** A used slot is counted, so neither counter can wrap when it is freed. */
  lemma UsedSlotCounts(l: ListState, x: int, k: int, i: int)
    requires WExcept(l, x) && SlotInRange(l, k, i) && !l.nodes[k].free[i]
    ensures l.nodes[k].numElements > 0 && l.numElements > 0 && k < l.numNodes
  {
    AllNodesOk(l, x);
    InactiveAreEmpty(l, x);
    CountExtremes(l.nodes[k].free, false);
    TotalNonNegative(l.nodes);
  }
}
