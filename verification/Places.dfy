/** Which elements keep their place: their owners hold addresses. src/internal/pumanode.c:19-54,
    src/pumalloc.c:13-40 and src/pumakernel.c:39-64. */
module Places {
  import opened Bits
  import opened ListModel
  import opened Compaction
  import opened Allocation
  import opened KernelWalk

  predicate LiveAt(l: ListState, p: int, j: int) { SlotInRange(l, p, j) && !l.nodes[p].free[j] }

  /** In list order, slot j of node p is slot i of node q or comes before it. */
  predicate NotAfter(p: int, j: int, q: int, i: int) { p < q || (p == q && j <= i) }

  /** The element is where it was, with its bytes. */
  predicate Stays(l: ListState, m: ListState, p: int, j: int)
    requires LiveAt(l, p, j)
  {
    LiveAt(m, p, j) && m.nodes[p].slots[j] == l.nodes[p].slots[j]
  }

  ghost predicate Covered(l: ListState, q: int, i: int) {
    exists p, j :: LiveAt(l, p, j) && NotAfter(q, i, p, j)
  }

  /** The elements that have left their places are the last ones of the list: up to the last slot now in use
      everything else is where it was. And the list has not grown. */
  ghost predicate Shifted(l: ListState, m: ListState) {
    && (forall p, j, q, i :: LiveAt(l, p, j) && LiveAt(m, q, i) && NotAfter(p, j, q, i) ==> Stays(l, m, p, j))
    && (forall q, i :: LiveAt(m, q, i) ==> Covered(l, q, i))
  }

  /** Only slots of node k have come into use. */
  ghost predicate OnlyInto(l: ListState, m: ListState, k: int) {
    forall q, i :: LiveAt(m, q, i) && q != k ==> LiveAt(l, q, i)
  }

  lemma ShiftedThrough(l: ListState, m: ListState, n: ListState)
    requires Shifted(l, m) && Shifted(m, n)
    ensures Shifted(l, n)
  {
    hide LiveAt;
    forall q, i | LiveAt(n, q, i) ensures Covered(l, q, i) {
      var p, j :| LiveAt(m, p, j) && NotAfter(q, i, p, j);
      var p', j' :| LiveAt(l, p', j') && NotAfter(p, j, p', j');
    }
    forall p, j, q, i | LiveAt(l, p, j) && LiveAt(n, q, i) && NotAfter(p, j, q, i) ensures Stays(l, n, p, j) {
      var q', i' :| LiveAt(m, q', i') && NotAfter(q, i, q', i');
      assert NotAfter(p, j, q', i') && Stays(l, m, p, j);
      assert Stays(m, n, p, j);
    }
  }

  /** The same masks and bytes, whatever the counters and flags. */
  predicate SameSlots(l: ListState, m: ListState) {
    |l.nodes| == |m.nodes| && forall i :: 0 <= i < |l.nodes| ==>
      l.nodes[i].free == m.nodes[i].free && l.nodes[i].slots == m.nodes[i].slots
  }

  lemma SameIsShifted(l: ListState, m: ListState)
    requires SameSlots(l, m)
    ensures Shifted(l, m) && forall q, i :: LiveAt(m, q, i) <==> LiveAt(l, q, i)
  {
    forall q, i | LiveAt(m, q, i) ensures Covered(l, q, i) {
      assert LiveAt(l, q, i) && NotAfter(q, i, q, i);
    }
  }

  // ----- Compaction -----

  /** Nothing is in use after slot j of node p. */
  ghost predicate NoneAfter(l: ListState, p: int, j: int) {
    forall q, i :: LiveAt(l, q, i) ==> NotAfter(q, i, p, j)
  }

  lemma LastHasNoneAfter(t: ListState, x: int, p: int, j: int)
    requires WExcept(t, x) && IsLast(t, p, j)
    ensures LiveAt(t, p, j) && NoneAfter(t, p, j)
  {
    hide Total;
    assert Fits(t.nodes[p], p, t.numNodes, x);
    forall q, i | LiveAt(t, q, i) ensures NotAfter(q, i, p, j) {
      assert Fits(t.nodes[q], q, t.numNodes, x);
      CountExtremes(t.nodes[q].free, false);
    }
  }

  /** A move frees the one slot and uses the other. */
  lemma MovePlaces(t: ListState, k: int, f: int, p: int, j: int)
    requires AllSized(t.nodes) && SlotInRange(t, k, f) && t.nodes[k].free[f]
    requires LiveAt(t, p, j) && NoneAfter(t, p, j) && NotAfter(k, f, p, j)
    ensures Shifted(t, Move(t, k, f, p, j)) && OnlyInto(t, Move(t, k, f, p, j), k)
  {
    var m := Move(t, k, f, p, j);
    forall q, i | LiveAt(m, q, i) ensures (q, i) != (p, j) && (LiveAt(t, q, i) || (q, i) == (k, f)) {
    }
    forall q, i | LiveAt(t, q, i) && (q, i) != (p, j) ensures Stays(t, m, q, i) {
    }
    forall q, i | LiveAt(m, q, i) ensures Covered(t, q, i) {
      assert NotAfter(q, i, p, j);
    }
  }

  /** _cleanupNode takes elements from the end of the list only and puts them into node k only. */
  lemma {:induction false} CleanupPlaces(l: ListState, k: int)
    requires Cleanable(l, k)
    ensures Shifted(l, CleanupNode(l, k)) && OnlyInto(l, CleanupNode(l, k), k)
    decreases |l.nodes[k].free| - FirstIndex(l.nodes[k].free, true)
  {
    hide WExcept, Shifted, LiveAt, NoneAfter;
    if l.nodes[k].numElements >= Capacity(l.nodes[k]) {
      SameIsShifted(l, Finish(l, k));
    } else {
      var f := FirstIndex(l.nodes[k].free, true);
      TrimFacts(l, k);
      var (t, last) := GetLastElement(l);
      if NothingToMove(t, k, f, last) {
        SameIsShifted(l, Finish(t, k));
      } else {
        SameIsShifted(l, t);
        LastIsLater(t, k, f, last);
        LastHasNoneAfter(t, k, last.node, last.slot);
        HoleIsFree(t, k);
        MoveKeeps(t, k, f, last.node, last.slot);
        MoveShape(t, k, f, last.node, last.slot);
        MovePlaces(t, k, f, last.node, last.slot);
        var v := Move(t, k, f, last.node, last.slot);
        CleanupPlaces(v, k);
        ShiftedThrough(l, t, v);
        ShiftedThrough(l, v, CleanupNode(v, k));
      }
    }
  }

  lemma HoleIsFree(t: ListState, k: int)
    requires Cleanable(t, k) && FirstIndex(t.nodes[k].free, true) < |t.nodes[k].free|
    ensures t.nodes[k].free[FirstIndex(t.nodes[k].free, true)]
  {}

  // ----- Allocation -----

  /** The tail has room but its watermark has reached the end. */
  predicate Compacts(l: ListState) {
    && 0 <= l.tail < |l.nodes| && !Full(l.nodes[l.tail])
    && l.nodes[l.tail].firstKnownFree == Capacity(l.nodes[l.tail])
  }

  /** Making room for an element in a list adds no element and moves none. */
  lemma RoomPlaces(l: ListState, garbage: seq<Element>)
    requires W(l) && |garbage| > 0
    ensures TailInRange(l)
    ensures var a := WithRoom(l, garbage);
      && (forall p, j :: LiveAt(l, p, j) ==> Stays(l, a, p, j))
      && (forall p, j :: LiveAt(a, p, j) ==> LiveAt(l, p, j))
  {}

  /** The returned slot. With a full tail it is on the node after the tail, which is empty. */
  lemma RoomWhere(l: ListState, garbage: seq<Element>)
    requires W(l) && |garbage| > 0
    ensures TailInRange(l)
    ensures var a, k := WithRoom(l, garbage), l.tail;
      && 0 <= a.tail < |a.nodes|
      && a.nodes[a.tail].numElements < Capacity(a.nodes[a.tail])
      && 0 <= a.nodes[a.tail].firstKnownFree <= Capacity(a.nodes[a.tail])
      && if k < 0 then |a.nodes| == 1 && a.nodes[0].firstKnownFree == 0 && a.nodes[0].numElements == 0
      else if !Full(l.nodes[k]) then a == l
      else
        && a.tail == k + 1 < |a.nodes| && a.nodes[k + 1].numElements == 0
        && |a.nodes| == (if k + 1 < |l.nodes| then |l.nodes| else k + 2)
        && a.nodes[k + 1].firstKnownFree == (if k + 1 < |l.nodes| then l.nodes[k + 1].firstKnownFree else 0)
        && Capacity(a.nodes[k + 1]) == (if k + 1 < |l.nodes| then Capacity(l.nodes[k + 1]) else |garbage|)
  {
    hide Total;
    if l.tail >= 0 {
      FitsAt(l, -1, l.tail);
      if l.tail + 1 < |l.nodes| { FitsAt(l, -1, l.tail + 1); }
    }
  }

  lemma NoneBehindTail(a: ListState, p: int, j: int)
    requires W(a) && LiveAt(a, p, j)
    ensures p <= a.tail
  {
    UsedSlotCounts(a, -1, p, j);
  }

  /** Compacting the tail leaves every other node alone, and on the tail what lies below its count. */
  lemma CompactedPlaces(a: ListState)
    requires W(a) && a.tail >= 0
    ensures var c, k := CompactedTail(a), a.tail;
      && InRange(c, k) && c.nodes[k].numElements == a.nodes[k].numElements
      && (forall p, j :: LiveAt(a, p, j) && (p == k ==> j < a.nodes[k].numElements) ==> Stays(a, c, p, j))
      && (forall p, j :: LiveAt(c, p, j) && (p == k ==> j >= a.nodes[k].numElements) ==> LiveAt(a, p, j))
  {
    hide Shifted, CleanupNode, AllFit, Contents, Total, CompactedTail;
    var k := a.tail;
    var b, c := SetFirstKnownFree(a, k, a.nodes[k].firstKnownFree + 1), CompactedTail(a);
    BumpIsCleanable(a);
    IsCompacted(a);
    SameIsShifted(a, b);
    CleanupPlaces(b, k);
    ShiftedThrough(a, b, c);
    CompactedTailFacts(a);
    CompactedTailPacked(a);
    forall p, j | LiveAt(a, p, j) && (p == k ==> j < a.nodes[k].numElements) ensures Stays(a, c, p, j) {
      NoneBehindTail(a, p, j);
      if p == k {
        StaysBelow(a, c, k, j);
      } else {
        assert c.nodes[p] == a.nodes[p].(active := p < c.numNodes);
      }
    }
  }

  lemma IsCompacted(a: ListState)
    requires W(a) && a.tail >= 0
    ensures Cleanable(SetFirstKnownFree(a, a.tail, a.nodes[a.tail].firstKnownFree + 1), a.tail)
    ensures CompactedTail(a) == CleanupNode(SetFirstKnownFree(a, a.tail, a.nodes[a.tail].firstKnownFree + 1), a.tail)
  {
    hide CleanupNode, AllFit, AllSized, Contents, Total;
    BumpIsCleanable(a);
  }

  /** In a node that is packed afterwards everything below its count has stayed. */
  lemma StaysBelow(a: ListState, c: ListState, k: int, j: int)
    requires Shifted(a, c) && W(c) && InRange(c, k) && UsedPrefix(c.nodes[k], c.nodes[k].numElements)
    requires LiveAt(a, k, j) && j < c.nodes[k].numElements
    ensures Stays(a, c, k, j)
  {
    hide Total;
    FitsAt(c, -1, k);
    CountExtremes(c.nodes[k].free, false);
    assert LiveAt(c, k, j) && NotAfter(k, j, k, j);
  }

  lemma ReservePlaces(a: ListState)
    requires W(a) && a.tail >= 0 && a.nodes[a.tail].numElements < Capacity(a.nodes[a.tail])
    ensures var (d, i) := Reserve(a); var k := a.tail;
      && i == (if Compacts(a) then a.nodes[k].numElements else a.nodes[k].firstKnownFree)
      && (forall p, j :: LiveAt(a, p, j) && (Compacts(a) && p == k ==> j < i) ==> Stays(a, d, p, j))
      && (forall p, j :: LiveAt(d, p, j) && (Compacts(a) && p == k ==> j >= i) ==> LiveAt(a, p, j))
  {
    hide CompactedTail, AllFit, Total, Shifted;
    CompactedPlaces(a);
    FitsAt(a, -1, a.tail);
  }

  /** Where pumalloc puts the new element: on the tail at its watermark, or at its count when the watermark has
      reached the end; on the next node, reused or fresh, when the tail is full. */
  ghost function NewPlace(l: ListState): (int, int)
    requires TailInRange(l)
  {
    var k := l.tail;
    if k < 0 then (0, 0)
    else if Compacts(l) then (k, l.nodes[k].numElements)
    else if !Full(l.nodes[k]) then (k, l.nodes[k].firstKnownFree)
    else if k + 1 == |l.nodes| then (k + 1, 0)
    else if l.nodes[k + 1].firstKnownFree < Capacity(l.nodes[k + 1]) then (k + 1, l.nodes[k + 1].firstKnownFree)
    else (k + 1, 0)
  }

  /** What pumalloc does to the places of a list: m is the list afterwards and (q, i) the returned slot. Live
      elements move only when the tail has room but its watermark has reached the end, and then only those of
      the tail that lie at or above its count, into holes below. */
  ghost predicate Placed(l: ListState, m: ListState, q: int, i: int)
    requires TailInRange(l)
  {
    && (q, i) == NewPlace(l) && LiveAt(m, q, i) && (LiveAt(l, q, i) ==> Compacts(l))
    && (forall p, j :: LiveAt(l, p, j) && (Compacts(l) && p == q ==> j < i) ==> Stays(l, m, p, j))
    && (forall p, j :: LiveAt(m, p, j) && (p, j) != (q, i) && (Compacts(l) && p == q ==> j > i) ==> LiveAt(l, p, j))
  }

  lemma NewPlaceIs(l: ListState, garbage: seq<Element>)
    requires W(l) && |garbage| > 0
    ensures TailInRange(l)
    ensures var a := WithRoom(l, garbage);
      && 0 <= a.tail < |a.nodes|
      && NewPlace(l)
        == (a.tail, if Compacts(a) then a.nodes[a.tail].numElements else a.nodes[a.tail].firstKnownFree)
      && (Compacts(l) ==> a == l) && (Compacts(a) && !Compacts(l) ==> a.nodes[a.tail].numElements == 0)
  {
    hide WithRoom, WExcept;
    WithRoomFacts(l, garbage);
    RoomWhere(l, garbage);
  }

  /** Taking the slot. */
  lemma TakenPlaces(d: ListState, k: int, i: int)
    requires SlotInRange(d, k, i)
    ensures SlotInRange(MakeTail(d, k), k, i)
    ensures var m := AllocAt(MakeTail(d, k), k, i);
      && LiveAt(m, k, i) && (forall p, j :: LiveAt(d, p, j) ==> Stays(d, m, p, j))
      && (forall p, j :: LiveAt(m, p, j) && (p, j) != (k, i) ==> LiveAt(d, p, j))
  {}

  lemma PumallocPlaces(l: ListState, garbage: seq<Element>)
    requires W(l) && |garbage| > 0
    ensures TailInRange(l)
    ensures var (m, at) := Pumalloc(l, garbage); Placed(l, m, at.node, at.slot)
  {
    hide WExcept, Reserve, WithRoom, NewPlace, Compacts, LiveAt, AllocAt, MakeTail;
    WithRoomFacts(l, garbage);
    RoomPlaces(l, garbage);
    NewPlaceIs(l, garbage);
    var a := WithRoom(l, garbage);
    ReservePlaces(a);
    ReserveFacts(a);
    var (d, i) := Reserve(a);
    TakenPlaces(d, a.tail, i);
    NotYetLive(l, garbage);
    NoSlotBelow();
    if a.nodes[a.tail].numElements == 0 { NoneInEmpty(a, a.tail); }
  }

  lemma NoneInEmpty(a: ListState, k: int)
    requires W(a) && InRange(a, k) && a.nodes[k].numElements == 0
    ensures forall j :: !LiveAt(a, k, j)
  {
    FitsAt(a, -1, k);
    CountExtremes(a.nodes[k].free, false);
  }

  lemma NoSlotBelow()
    ensures forall m, p, j :: LiveAt(m, p, j) ==> j >= 0
  {}

  lemma NotYetLive(l: ListState, garbage: seq<Element>)
    requires W(l) && |garbage| > 0
    ensures TailInRange(l) && (LiveAt(l, NewPlace(l).0, NewPlace(l).1) ==> Compacts(l))
  {
    hide Total;
    if l.tail >= 0 {
      FitsAt(l, -1, l.tail);
      if l.tail + 1 < |l.nodes| {
        FitsAt(l, -1, l.tail + 1);
        CountExtremes(l.nodes[l.tail + 1].free, false);
      }
    }
  }

  /** A block is linked exactly when the tail is full and nothing follows it, or when there is no node at all; an
      inactive node is reused otherwise. */
  lemma PumallocGrows(l: ListState, garbage: seq<Element>)
    requires W(l) && |garbage| > 0
    ensures TailInRange(l)
    ensures var m, grows := Pumalloc(l, garbage).0, l.nodes == [] || (Full(l.nodes[l.tail]) && l.tail + 1 == |l.nodes|);
      if grows then |m.nodes| == |l.nodes| + 1 else |m.nodes| <= |l.nodes|
  {
    hide WExcept, WithRoom, CompactedTail, Full;
    WithRoomFacts(l, garbage);
    RoomWhere(l, garbage);
    var a := WithRoom(l, garbage);
    ReserveFacts(a);
  }

  // ----- Release -----

  /** What pufree does to the places of a list: exactly slot i of node k goes out of use and nothing moves; the
      node becomes the last one exactly when it was or its successor is inactive and it is less than half full
      now, and otherwise no node goes. */
  ghost predicate Released(l: ListState, m: ListState, k: int, i: int)
    requires LiveAt(l, k, i)
  {
    && (forall p, j :: LiveAt(m, p, j) <==> LiveAt(l, p, j) && (p, j) != (k, i))
    && (forall p, j :: LiveAt(l, p, j) && (p, j) != (k, i) ==> Stays(l, m, p, j))
    && k < |m.nodes| && m.nodes[k].numElements == l.nodes[k].numElements - 1 && m.nodes[k].dirty
    && (|m.nodes| == k + 1 <==>
          |l.nodes| == k + 1 || (m.nodes[k].numElements < Capacity(l.nodes[k]) / 2 && !l.nodes[k + 1].active))
    && (|m.nodes| == k + 1 || |m.nodes| == |l.nodes|)
  }

  lemma FreePlaces(l: ListState, k: int, i: int)
    requires W(l) && LiveAt(l, k, i)
    ensures Released(l, FreeAt(l, k, i), k, i)
  {
    hide WExcept;
    ActiveBefore(l, k);
    ClearedPlaces(l, k, i);
    hide LiveAt;
    DroppedPlaces(ClearAt(l, k, i), k);
  }

  lemma ClearedPlaces(l: ListState, k: int, i: int)
    requires LiveAt(l, k, i)
    ensures var m := ClearAt(l, k, i);
      && |m.nodes| == |l.nodes| && (forall p :: 0 <= p < |l.nodes| ==> m.nodes[p].active == l.nodes[p].active)
      && (forall p, j :: LiveAt(m, p, j) <==> LiveAt(l, p, j) && (p, j) != (k, i))
      && (forall p, j :: LiveAt(l, p, j) && (p, j) != (k, i) ==> Stays(l, m, p, j))
  {}

  lemma ActiveBefore(l: ListState, k: int)
    requires W(l) && InRange(l, k)
    ensures forall p, j :: LiveAt(l, p, j) && k < p ==> l.nodes[k + 1].active
  {
    hide Total;
    forall p, j | LiveAt(l, p, j) && k < p ensures l.nodes[k + 1].active {
      UsedSlotCounts(l, -1, p, j);
      FitsAt(l, -1, k + 1);
    }
  }

  lemma DroppedPlaces(l: ListState, k: int)
    requires InRange(l, k) && forall p, j :: LiveAt(l, p, j) && k < p ==> l.nodes[k + 1].active
    ensures var m := DropNext(l, k);
      && (forall p, j :: LiveAt(m, p, j) <==> LiveAt(l, p, j))
      && (forall p, j :: LiveAt(l, p, j) ==> Stays(l, m, p, j))
  {}

  // ----- A pass -----

  /** m is c but for the bytes of the slots in nodes k and later. */
  predicate SameButBytes(c: ListState, m: ListState, k: int) {
    && |m.nodes| == |c.nodes| && m == c.(nodes := m.nodes)
    && forall i :: 0 <= i < |c.nodes| ==>
         && |m.nodes[i].slots| == |c.nodes[i].slots| && m.nodes[i] == c.nodes[i].(slots := m.nodes[i].slots)
         && (i < k ==> m.nodes[i] == c.nodes[i])
  }

  /** No node that comes before the last element has holes. */
  predicate CleanUpTo(l: ListState, p: int) {
    && 0 <= p <= |l.nodes| && (forall i :: 0 <= i < p ==> !l.nodes[i].dirty)
    && forall i :: p <= i < |l.nodes| ==> l.nodes[i].numElements == 0
  }

  lemma CleanedPlaces(l: ListState, k: int)
    requires W(l) && 0 <= k < l.numNodes
    ensures Shifted(l, Cleaned(l, k)) && (!l.nodes[k].dirty ==> Cleaned(l, k) == l)
  {
    hide Shifted, AllFit, CleanupNode;
    if l.nodes[k].dirty {
      IsCleanable(l, k);
      CleanupPlaces(l, k);
    } else {
      SameIsShifted(l, l);
    }
  }

  /** Other bytes on one node that no element leaves do not matter. */
  lemma ShiftedUnder(l: ListState, d: ListState, k: int, m: ListState, c: ListState)
    requires InRange(l, k) && InRange(c, k) && InRange(d, k) && InRange(m, k)
    requires d == l.(nodes := l.nodes[k := d.nodes[k]]) && d.nodes[k] == l.nodes[k].(slots := d.nodes[k].slots)
    requires |d.nodes[k].slots| == |l.nodes[k].slots| && |m.nodes[k].slots| == |c.nodes[k].slots|
    requires m == c.(nodes := c.nodes[k := m.nodes[k]]) && m.nodes[k] == c.nodes[k].(slots := m.nodes[k].slots)
    requires c.nodes[k].free == l.nodes[k].free && c.nodes[k].slots == l.nodes[k].slots
    requires Shifted(d, m)
    ensures Shifted(l, c)
  {
    assert forall p, j :: LiveAt(l, p, j) <==> LiveAt(d, p, j);
    assert forall p, j :: LiveAt(c, p, j) <==> LiveAt(m, p, j);
    forall q, i | LiveAt(c, q, i) ensures Covered(l, q, i) {
      assert Covered(d, q, i);
    }
    forall p, j, q, i | LiveAt(l, p, j) && LiveAt(c, q, i) && NotAfter(p, j, q, i) ensures Stays(l, c, p, j) {
      assert Stays(d, m, p, j);
    }
  }

  /** c is what the compactions of the walk alone would have made of the list. */
  ghost predicate PassedAs(l: ListState, k: int, c: ListState, r: WalkResult) {
    && AllSized(c.nodes) && 0 <= k <= |c.nodes| && EarlierKept(c, l, k) && Shifted(l, c)
    && SameButBytes(c, r.list, k) && AllSized(c.nodes[k..]) && r.visited == Contents(c.nodes[k..])
    && ((exists p :: CleanUpTo(l, p)) ==> c == l)
  }

  lemma PassEnds(l: ListState, k: int, done: int, e: Extra)
    requires WalkedTo(l, k, done) && (k == |l.nodes| || !l.nodes[k].active || done >= l.numElements)
    ensures PassedAs(l, k, l, WalkResult(l, e, []))
  {
    hide Shifted, AllFit, Contents;
    SplitAt(l, k);
    WalkEnds(l, k, done);
    SameIsShifted(l, l);
    AllActive(l, -1);
  }

  /** Node k with the bytes it had. */
  function Restored(m: ListState, k: int, slots: seq<Element>): ListState
    requires InRange(m, k)
  {
    m.(nodes := m.nodes[k := m.nodes[k].(slots := slots)])
  }

  /** One node of the walk and the rest of it. */
  lemma PassStep(l: ListState, k: int, kernel: Kernel, e: Extra, m: ListState, rest: WalkResult)
    requires W(l) && 0 <= k < l.numNodes && (forall i :: 0 <= i < k ==> Full(l.nodes[i]))
    requires InRange(Cleaned(l, k), k) && Sized(Cleaned(l, k).nodes[k])
    requires PassedAs(RunOnNode(Cleaned(l, k), k, kernel, e), k + 1, m, rest)
    requires (exists p :: CleanUpTo(l, p)) ==> !l.nodes[k].dirty
    ensures InRange(m, k)
    ensures var n := Cleaned(l, k).nodes[k];
      PassedAs(l, k, Restored(m, k, n.slots),
               WalkResult(rest.list, rest.extra, n.slots[..LeadingRun(n)] + rest.visited))
  {
    hide Shifted, WExcept, Cleaned, CleanupNode, Contents, Live, Apply, UsedPrefix;
    var cl := Cleaned(l, k);
    var d := RunOnNode(cl, k, kernel, e);
    var c := Restored(m, k, cl.nodes[k].slots);
    CleanedFacts(l, k);
    CleanedPlaces(l, k);
    RunLive(cl, k, kernel, e);
    ShiftedUnder(cl, d, k, m, c);
    ShiftedThrough(l, cl, c);
    HeadAndRest(c.nodes, k);
    assert c.nodes[k + 1..] == m.nodes[k + 1..];
    if p :| CleanUpTo(l, p) {
      assert CleanUpTo(d, p);
      assert c.nodes == l.nodes;
    }
  }

  lemma {:induction false} WalkPlaces(l: ListState, k: int, done: int, kernel: Kernel, e: Extra) returns (c: ListState)
    requires WalkedTo(l, k, done)
    ensures PassedAs(l, k, c, Walk(l, k, done, l.numElements, kernel, e))
    decreases |l.nodes| - k
  {
    hide Cleaned, RunOnNode, AllFit, Contents, Apply, PassedAs;
    if k == |l.nodes| || !l.nodes[k].active || done >= l.numElements {
      c := l;
      PassEnds(l, k, done, e);
    } else {
      ActiveMeansCounted(l, -1, k);
      CleanedFacts(l, k);
      StepFacts(l, k, kernel, e);
      var n := Cleaned(l, k).nodes[k];
      var xs := n.slots[..LeadingRun(n)];
      var d := RunOnNode(Cleaned(l, k), k, kernel, e);
      RunFacts(Cleaned(l, k), k, kernel, e);
      var m := WalkPlaces(d, k + 1, done + |xs|, kernel, Apply(kernel, xs, e).1);
      StillClean(l, k, done);
      PassStep(l, k, kernel, e, m, Walk(d, k + 1, done + |xs|, l.numElements, kernel, Apply(kernel, xs, e).1));
      c := Restored(m, k, n.slots);
    }
  }

  /** While there is something to come, the node at hand comes before the last element. */
  lemma StillClean(l: ListState, k: int, done: int)
    requires WalkedTo(l, k, done) && k < |l.nodes| && done < l.numElements
    ensures (exists p :: CleanUpTo(l, p)) ==> !l.nodes[k].dirty
  {
    hide WExcept;
    if p :| CleanUpTo(l, p) && p <= k {
      RestIsEmpty(l, k);
    }
  }

  /** A pass moves elements only by compacting: taking them from the end of the list. It hands the elements to the
      kernel in list order, as they then stand, and changes nothing but bytes besides. When no node has holes up to
      the last element it moves none and changes no count, flag or link, whatever empty nodes follow. */
  lemma PassPlaces(l: ListState, kernel: Kernel, e: Extra) returns (c: ListState)
    requires W(l)
    ensures var r := RunKernel(l, kernel, e);
      && Shifted(l, c) && SameButBytes(c, r.list, 0) && AllSized(c.nodes) && r.visited == Contents(c.nodes)
    ensures (exists p :: CleanUpTo(l, p)) ==> c == l
  {
    hide WExcept, Shifted, Contents, CleanUpTo;
    assert l.nodes[..0] == [];
    c := WalkPlaces(l, 0, 0, kernel, e);
    assert c.nodes[0..] == c.nodes;
  }
}
