/** src/internal/pumabalance.c:51-173 on the linked structure. */
module TransferNodes {
  import opened ListModel
  import opened ThreadLists
  import Transfer

  /** The links of node i of a run that stands between p and q. */
  ghost predicate SegmentAt(ns: seq<Node>, i: int, p: Node?, q: Node?)
    requires 0 <= i < |ns|
    reads ns[i]
  {
    && ns[i].prev == (if i == 0 then p else ns[i - 1])
    && ns[i].next == (if i + 1 < |ns| then ns[i + 1] else q)
  }

  ghost predicate Segment(ns: seq<Node>, p: Node?, q: Node?)
    reads ns
  {
    forall i :: 0 <= i < |ns| ==> SegmentAt(ns, i, p, q)
  }

  ghost predicate Distinct(ns: seq<Node>) {
    forall i, j :: 0 <= i < j < |ns| ==> ns[i] != ns[j]
  }

  ghost predicate Disjoint(a: seq<Node>, b: seq<Node>) {
    forall i, j :: 0 <= i < |a| && 0 <= j < |b| ==> a[i] != b[j]
  }

  ghost function First(ns: seq<Node>, q: Node?): Node? { if ns == [] then q else ns[0] }

  ghost function Last(ns: seq<Node>, p: Node?): Node? { if ns == [] then p else ns[|ns| - 1] }

  lemma JoinSegments(a: seq<Node>, b: seq<Node>, p: Node?, q: Node?)
    requires Segment(a, p, First(b, q)) && Segment(b, Last(a, p), q)
    ensures Segment(a + b, p, q)
  {
    forall i | 0 <= i < |a + b| ensures SegmentAt(a + b, i, p, q) {
      if i < |a| { assert SegmentAt(a, i, p, First(b, q)); } else { assert SegmentAt(b, i - |a|, Last(a, p), q); }
    }
  }

  lemma SplitSegment(a: seq<Node>, b: seq<Node>, p: Node?, q: Node?)
    requires Segment(a + b, p, q)
    ensures Segment(a, p, First(b, q)) && Segment(b, Last(a, p), q)
  {
    forall i | 0 <= i < |a| ensures SegmentAt(a, i, p, First(b, q)) {
      assert SegmentAt(a + b, i, p, q);
    }
    forall i | 0 <= i < |b| ensures SegmentAt(b, i, Last(a, p), q) {
      assert SegmentAt(a + b, |a| + i, p, q);
    }
  }

  /** node.next := q at the end of a run. */
  method LinkNext(node: Node, q: Node?, ghost ns: seq<Node>, ghost p: Node?, ghost was: Node?)
    requires |ns| > 0 && node == ns[|ns| - 1] && Distinct(ns) && Segment(ns, p, was)
    modifies node`next
    ensures node.next == q && Segment(ns, p, q)
  {
    node.next := q;
    forall i | 0 <= i < |ns| ensures SegmentAt(ns, i, p, q) {
      assert old(SegmentAt(ns, i, p, was));
    }
  }

  /** node.prev := p at the start of a run. */
  method LinkPrev(node: Node, p: Node?, ghost ns: seq<Node>, ghost was: Node?, ghost q: Node?)
    requires |ns| > 0 && node == ns[0] && Distinct(ns) && Segment(ns, was, q)
    modifies node`prev
    ensures node.prev == p && Segment(ns, p, q)
  {
    node.prev := p;
    forall i | 0 <= i < |ns| ensures SegmentAt(ns, i, p, q) {
      assert old(SegmentAt(ns, i, was, q));
    }
  }

  /** Writing a node's index or dirty flag leaves the links of a run alone. */
  method SetIndex(node: Node, index: nat, ghost ns: seq<Node>, ghost p: Node?, ghost q: Node?)
    requires Segment(ns, p, q)
    modifies node`index
    ensures node.index == index && Segment(ns, p, q)
  {
    node.index := index;
    forall i | 0 <= i < |ns| ensures SegmentAt(ns, i, p, q) {
      assert old(SegmentAt(ns, i, p, q));
    }
  }

  method SetDirty(node: Node, ghost ns: seq<Node>, ghost p: Node?, ghost q: Node?)
    requires Segment(ns, p, q)
    modifies node`dirty
    ensures node.dirty && Segment(ns, p, q)
  {
    node.dirty := true;
    forall i | 0 <= i < |ns| ensures SegmentAt(ns, i, p, q) {
      assert old(SegmentAt(ns, i, p, q));
    }
  }

  /** start..end is the run of nodes rs. */
  ghost predicate Run(start: Node, end: Node, rs: seq<Node>)
    reads rs
  {
    && |rs| > 0 && start == rs[0] && end == rs[|rs| - 1]
    && (forall i :: 0 <= i < |rs| - 1 ==> rs[i].next == rs[i + 1])
    && (forall i, j :: 0 <= i < j < |rs| ==> rs[i] != rs[j])
  }

  /** _indexNodes */
  method IndexNodes(start: Node, end: Node, ghost rs: seq<Node>)
    requires Run(start, end, rs) && (start.prev != null ==> start.prev !in rs)
    modifies rs`index
    ensures var base := if start.prev == null then 0 else start.prev.index + 1;
      forall i :: 0 <= i < |rs| ==> rs[i].index == base + i
  {
    var done := false;
    var index := if start.prev == null then 0 else start.prev.index + 1;
    ghost var base, k := index, 0;
    var node: Node? := start;
    while !done
      invariant 0 <= k <= |rs| && (done <==> k == |rs|) && index == base + k
      invariant !done ==> node == rs[k]
      invariant forall i :: 0 <= i < k ==> rs[i].index == base + i
      decreases |rs| - k
    {
      done := node == end;
      node.index := index;
      index := index + 1;
      node := node.next;
      k := k + 1;
    }
  }

  /** _moveNodeThreadLists */
  method MoveNodeThreadLists(start: Node, end: Node, tl: ThreadList, ghost rs: seq<Node>)
    requires Run(start, end, rs)
    modifies rs`threadList
    ensures forall i :: 0 <= i < |rs| ==> rs[i].threadList == tl
  {
    var done := false;
    ghost var k := 0;
    var node: Node? := start;
    while !done
      invariant 0 <= k <= |rs| && (done <==> k == |rs|)
      invariant !done ==> node == rs[k]
      invariant forall i :: 0 <= i < k ==> rs[i].threadList == tl
      decreases |rs| - k
    {
      done := node == end;
      node.threadList := tl;
      node := node.next;
      k := k + 1;
    }
  }

  /** _updatenumElements */
  method UpdateNumElements(start: Node, end: Node, from: ThreadList, to: ThreadList,
                           ghost rs: seq<Node>, ghost moved: seq<NodeState>)
    requires Run(start, end, rs) && from != to
    requires |moved| == |rs| && forall i :: 0 <= i < |rs| ==> rs[i].numElements == moved[i].numElements
    requires Total(moved) <= from.numElements
    modifies from`numElements, to`numElements
    ensures from.numElements == old(from.numElements) - Total(moved)
    ensures to.numElements == old(to.numElements) + Total(moved)
  {
    var done := false;
    ghost var k := 0;
    var node: Node? := start;
    while !done
      invariant 0 <= k <= |rs| && (done <==> k == |rs|)
      invariant !done ==> node == rs[k]
      invariant from.numElements == old(from.numElements) - Total(moved[..k])
      invariant to.numElements == old(to.numElements) + Total(moved[..k])
      decreases |rs| - k
    {
      PartialTotal(rs, moved, k);
      done := node == end;
      from.numElements := from.numElements - node.numElements;
      to.numElements := to.numElements + node.numElements;
      node := node.next;
      k := k + 1;
    }
    assert moved[..|moved|] == moved;
  }

  lemma PartialTotal(rs: seq<Node>, moved: seq<NodeState>, k: nat)
    requires k < |rs| == |moved| && forall i :: 0 <= i < |rs| ==> rs[i].numElements == moved[i].numElements
    ensures Total(moved[..k + 1]) == Total(moved[..k]) + moved[k].numElements <= Total(moved)
  {
    assert moved[..k + 1][..k] == moved[..k] && moved[..k + 1][k] == moved[k];
    assert moved == moved[..k + 1] + moved[k + 1..];
    TotalOfConcat(moved[..k + 1], moved[k + 1..]);
    NonNegative(rs[k + 1..], moved[k + 1..]);
  }

  lemma {:induction false} NonNegative(rs: seq<Node>, moved: seq<NodeState>)
    requires |rs| == |moved| && forall i :: 0 <= i < |rs| ==> rs[i].numElements == moved[i].numElements
    ensures Total(moved) >= 0
  {
    if rs != [] {
      NonNegative(rs[..|rs| - 1], moved[..|rs| - 1]);
      assert moved[|rs| - 1].numElements == rs[|rs| - 1].numElements;
    }
  }

  /** _countNodes, whose assert says that the k-th active node has index k. */
  method CountNodes(tl: ThreadList) returns (n: nat)
    requires tl.Valid() && W(tl.st)
    ensures n == tl.numNodes
  {
    hide Node.Is, WExcept;
    tl.SameLength();
    n := 0;
    var c := tl.head;
    ActivePrefix(tl);
    while c != null && c.active
      invariant n <= tl.numNodes <= |tl.spine|
      invariant c == (if n < |tl.spine| then tl.spine[n] else null)
      decreases |tl.spine| - n
    {
      PrefixAt(tl, n);
      assert c.index == n;
      n := n + 1;
      c := c.next;
    }
    if n < |tl.spine| { PrefixAt(tl, n); }
  }

  lemma ActivePrefix(tl: ThreadList)
    requires tl.Valid() && W(tl.st)
    ensures tl.numNodes <= |tl.spine|
  {}

  lemma PrefixAt(tl: ThreadList, i: nat)
    requires tl.Valid() && W(tl.st) && i < |tl.spine|
    ensures tl.spine[i].active <==> i < tl.numNodes
    ensures i < tl.numNodes ==> tl.spine[i].index == i
    ensures tl.spine[i].next == (if i + 1 < |tl.spine| then tl.spine[i + 1] else null)
  {
    tl.PlaceAt(i);
    assert Fits(tl.st.nodes[i], i, tl.st.numNodes, -1);
  }

  /** Lines 122-130: the run rs = start..end goes between the active nodes t1 and the inactive ones t3. */
  method InsertAfterTail(to: ThreadList, start: Node, end: Node, ghost rs: seq<Node>, ghost t1: seq<Node>,
                         ghost t3: seq<Node>,
                         ghost before: Node?, ghost after: Node?)
    requires |rs| > 0 && start == rs[0] && end == rs[|rs| - 1] && |t1| > 0 && to.tail == t1[|t1| - 1]
    requires Distinct(rs) && Distinct(t1) && Distinct(t3) && Disjoint(rs, t1) && Disjoint(rs, t3) && Disjoint(t1, t3)
    requires Segment(rs, before, after) && Segment(t1, null, First(t3, null)) && Segment(t3, to.tail, null)
    modifies start`prev, end`next, to.tail`next, to.tail`dirty, Present(First(t3, null))`prev
    ensures Segment(rs, to.tail, First(t3, null)) && Segment(t1, null, start) && Segment(t3, end, null)
    ensures to.tail.dirty
  {
    assert SegmentAt(t1, |t1| - 1, null, First(t3, null));
    assert to.tail.next == First(t3, null) && to.tail != end;
    LinkNext(end, to.tail.next, rs, before, after);
    if end.next != null {
      LinkPrev(end.next, end, t3, to.tail, null);
    }
    LinkNext(to.tail, start, t1, null, First(t3, null));
    SetDirty(to.tail, t1, null, start);
    LinkPrev(start, to.tail, rs, before, First(t3, null));
  }

  /** Lines 131-141: the list has no active node; its inactive ones t3 come after the run. */
  method InsertBeforeTail(to: ThreadList, start: Node, end: Node, ghost rs: seq<Node>, ghost t3: seq<Node>,
                          ghost before: Node?, ghost after: Node?)
    requires |rs| > 0 && start == rs[0] && end == rs[|rs| - 1] && to.tail == First(t3, null)
    requires Distinct(rs) && Distinct(t3) && Disjoint(rs, t3)
    requires Segment(rs, before, after) && Segment(t3, null, null)
    modifies to`head, start`prev, end`next, Present(to.tail)`prev, Present(to.tail)`index
    ensures Segment(rs, null, First(t3, null)) && Segment(t3, end, null) && to.head == start
    ensures to.tail != null ==> to.tail.index == end.index + 1
  {
    to.head := start;
    LinkNext(end, to.tail, rs, before, after);
    if to.tail != null {
      LinkPrev(to.tail, end, t3, null, null);
      SetIndex(to.tail, end.index + 1, t3, end, null);
    }
    LinkPrev(start, null, rs, before, First(t3, null));
  }

  /** Putting the run rs = start..end behind the active nodes t1 of a list and before its inactive ones t3:
      lines 122-143. */
  method InsertRun(to: ThreadList, start: Node, end: Node, ghost rs: seq<Node>, ghost t1: seq<Node>,
                   ghost t3: seq<Node>,
                   ghost before: Node?, ghost after: Node?)
    requires |rs| > 0 && start == rs[0] && end == rs[|rs| - 1]
    requires Distinct(rs) && Distinct(t1) && Distinct(t3) && Disjoint(rs, t1) && Disjoint(rs, t3) && Disjoint(t1, t3)
    requires Segment(rs, before, after) && Segment(t1, null, First(t3, null)) && Segment(t3, Last(t1, null), null)
    requires to.head == First(t1, First(t3, null)) && to.tail == Last(t1, First(t3, null))
    requires (to.tail != null && to.tail.active) <==> t1 != []
    modifies to`head, to`tail, start`prev, end`next
    modifies Present(Last(t1, null))`next, Present(Last(t1, null))`dirty
    modifies Present(First(t3, null))`prev, (if t1 == [] then Present(First(t3, null)) else {})`index
    ensures Segment(rs, Last(t1, null), First(t3, null)) && Segment(t1, null, start) && Segment(t3, end, null)
    ensures to.head == First(t1, start) && to.tail == end
    ensures t1 != [] ==> t1[|t1| - 1].dirty
    ensures t1 == [] && t3 != [] ==> t3[0].index == end.index + 1
  {
    hide Segment, Distinct, Disjoint;
    if to.tail != null && to.tail.active {
      InsertAfterTail(to, start, end, rs, t1, t3, before, after);
    } else {
      InsertBeforeTail(to, start, end, rs, t3, before, after);
      EmptySegment(t1, start);
    }
    to.tail := end;
  }

  lemma EmptySegment(ns: seq<Node>, q: Node?)
    requires ns == []
    ensures Segment(ns, null, q)
  {}

  /** Closing the gap between the remaining active nodes f1 and the inactive ones f3: lines 145-159.
      from.tail has already been set to the last of f1. */
  method CloseGap(from: ThreadList, fromTailNext: Node?, ghost f1: seq<Node>, ghost f3: seq<Node>, ghost after: Node?,
                  ghost before: Node?)
    requires fromTailNext == First(f3, null) && from.tail == Last(f1, null)
    requires Distinct(f1) && Distinct(f3) && Disjoint(f1, f3)
    requires Segment(f1, null, after) && Segment(f3, before, null) && (f1 != [] ==> from.head == f1[0])
    modifies from`head, from`tail, Present(Last(f1, null))`next, Present(First(f3, null))`prev
    modifies (if f1 == [] then Present(First(f3, null)) else {})`index
    ensures Segment(f1, null, First(f3, null)) && Segment(f3, Last(f1, null), null)
    ensures from.head == First(f1, First(f3, null)) && from.tail == Last(f1, First(f3, null))
    ensures f1 == [] && f3 != [] ==> f3[0].index == 0
  {
    if from.tail == null {
      from.head, from.tail := fromTailNext, fromTailNext;
      if from.head != null {
        LinkPrev(from.head, null, f3, before, null);
        SetIndex(from.head, 0, f3, null, null);
      }
    } else {
      LinkNext(from.tail, fromTailNext, f1, null, after);
      if fromTailNext != null {
        LinkPrev(fromTailNext, from.tail, f3, before, null);
      }
    }
  }

  /** The two lists cut up: f1 + rs + f3 and t1 + t3, where rs is the run to move. */
  ghost predicate CutUp(from: ThreadList, to: ThreadList, f1: seq<Node>, rs: seq<Node>, f3: seq<Node>, t1: seq<Node>,
                        t3: seq<Node>)
    reads from, to, f1, rs, f3, t1, t3
  {
    && |rs| > 0
    && Distinct(f1) && Distinct(rs) && Distinct(f3) && Distinct(t1) && Distinct(t3)
    && Disjoint(f1, rs) && Disjoint(f1, f3) && Disjoint(f1, t1) && Disjoint(f1, t3) && Disjoint(rs, f3)
    && Disjoint(rs, t1) && Disjoint(rs, t3) && Disjoint(f3, t1) && Disjoint(f3, t3) && Disjoint(t1, t3)
    && Segment(f1, null, rs[0]) && Segment(rs, Last(f1, null), First(f3, null)) && Segment(f3, rs[|rs| - 1], null)
    && Segment(t1, null, First(t3, null)) && Segment(t3, Last(t1, null), null)
    && from.head == First(f1, rs[0]) && from.tail == rs[|rs| - 1]
    && to.head == First(t1, First(t3, null)) && to.tail == Last(t1, First(t3, null))
    && ((to.tail != null && to.tail.active) <==> t1 != [])
  }

  /** The two lists as _transferNNodes leaves them: f1 + f3 and t1 + rs + t3. */
  ghost predicate Spliced(from: ThreadList, to: ThreadList, f1: seq<Node>, rs: seq<Node>, f3: seq<Node>,
                          t1: seq<Node>, t3: seq<Node>)
    requires |rs| > 0
    reads from, to, f1, rs, f3, t1, t3
  {
    && Segment(f1, null, First(f3, null)) && Segment(f3, Last(f1, null), null)
    && Segment(t1, null, rs[0]) && Segment(rs, Last(t1, null), First(t3, null)) && Segment(t3, rs[|rs| - 1], null)
    && from.head == First(f1, First(f3, null)) && from.tail == Last(f1, First(f3, null))
    && to.head == First(t1, rs[0]) && to.tail == rs[|rs| - 1]
  }

  /** InsertRun, which leaves the links of the other list's remaining nodes alone. */
  method InsertApart(from: ThreadList, to: ThreadList, start: Node, end: Node,
                     ghost f1: seq<Node>, ghost rs: seq<Node>, ghost f3: seq<Node>, ghost t1: seq<Node>,
                     ghost t3: seq<Node>)
    requires from != to && |rs| > 0 && start == rs[0] && end == rs[|rs| - 1]
    requires Distinct(rs) && Distinct(t1) && Distinct(t3) && Disjoint(rs, t1) && Disjoint(rs, t3) && Disjoint(t1, t3)
    requires Disjoint(f1, rs) && Disjoint(f1, t1) && Disjoint(f1, t3) && Disjoint(rs, f3) && Disjoint(f3, t1)
    requires Disjoint(f3, t3)
    requires Segment(f1, null, start) && Segment(rs, Last(f1, null), First(f3, null)) && Segment(f3, end, null)
    requires Segment(t1, null, First(t3, null)) && Segment(t3, Last(t1, null), null)
    requires to.head == First(t1, First(t3, null)) && to.tail == Last(t1, First(t3, null))
    requires (to.tail != null && to.tail.active) <==> t1 != []
    modifies to`head, to`tail, start`prev, end`next, Present(Last(t1, null))`next, Present(Last(t1, null))`dirty
    modifies Present(First(t3, null))`prev, (if t1 == [] then Present(First(t3, null)) else {})`index
    ensures Segment(f1, null, start) && Segment(f3, end, null)
    ensures Segment(rs, Last(t1, null), First(t3, null)) && Segment(t1, null, start) && Segment(t3, end, null)
    ensures to.head == First(t1, start) && to.tail == end
    ensures t1 != [] ==> t1[|t1| - 1].dirty
    ensures t1 == [] && t3 != [] ==> t3[0].index == end.index + 1
  {
    InsertRun(to, start, end, rs, t1, t3, Last(f1, null), First(f3, null));
  }

  /** CloseGap, which leaves the links of the longer list alone. */
  method CloseApart(from: ThreadList, fromTailNext: Node?, start: Node, end: Node,
                    ghost f1: seq<Node>, ghost rs: seq<Node>, ghost f3: seq<Node>, ghost t1: seq<Node>,
                    ghost t3: seq<Node>)
    requires |rs| > 0 && start == rs[0] && end == rs[|rs| - 1]
    requires Disjoint(f1, rs) && Disjoint(f1, t1) && Disjoint(f1, t3) && Disjoint(rs, f3) && Disjoint(f3, t1)
    requires Disjoint(f3, t3)
    requires Distinct(f1) && Distinct(f3) && Disjoint(f1, f3)
    requires Segment(f1, null, start) && Segment(f3, end, null) && (f1 != [] ==> from.head == f1[0])
    requires fromTailNext == First(f3, null) && from.tail == Last(f1, null)
    requires Segment(rs, Last(t1, null), First(t3, null)) && Segment(t1, null, start) && Segment(t3, end, null)
    modifies from`head, from`tail, Present(Last(f1, null))`next, Present(First(f3, null))`prev
    modifies (if f1 == [] then Present(First(f3, null)) else {})`index
    ensures Segment(f1, null, First(f3, null)) && Segment(f3, Last(f1, null), null)
    ensures Segment(rs, Last(t1, null), First(t3, null)) && Segment(t1, null, start) && Segment(t3, end, null)
    ensures from.head == First(f1, First(f3, null)) && from.tail == Last(f1, First(f3, null))
    ensures f1 == [] && f3 != [] ==> f3[0].index == 0
    ensures t3 != [] ==> t3[0].index == old(t3[0].index)
  {
    CloseGap(from, fromTailNext, f1, f3, start, end);
  }

  lemma RunEnds(rs: seq<Node>, p: Node?, q: Node?)
    requires |rs| > 0 && Segment(rs, p, q)
    ensures rs[0].prev == p && rs[|rs| - 1].next == q
  {
    assert SegmentAt(rs, 0, p, q);
    assert SegmentAt(rs, |rs| - 1, p, q);
  }

  /** The writes to links, lines 115-159. */
  method Splice(from: ThreadList, to: ThreadList, start: Node, end: Node,
                ghost f1: seq<Node>, ghost rs: seq<Node>, ghost f3: seq<Node>, ghost t1: seq<Node>, ghost t3: seq<Node>)
    requires from != to && CutUp(from, to, f1, rs, f3, t1, t3) && start == rs[0] && end == rs[|rs| - 1]
    modifies from`head, from`tail, to`head, to`tail
    modifies Present(Last(f1, null))`next, start`prev, end`next
    modifies Present(Last(t1, null))`next, Present(Last(t1, null))`dirty
    modifies Present(First(f3, null))`prev, (if f1 == [] then Present(First(f3, null)) else {})`index
    modifies Present(First(t3, null))`prev, (if t1 == [] then Present(First(t3, null)) else {})`index
    ensures Spliced(from, to, f1, rs, f3, t1, t3)
    ensures f1 == [] && f3 != [] ==> f3[0].index == 0
    ensures t1 != [] ==> t1[|t1| - 1].dirty
    ensures t1 == [] && t3 != [] ==> t3[0].index == old(end.index) + 1
  {
    hide Distinct, Disjoint, Segment, SegmentAt;
    RunEnds(rs, Last(f1, null), First(f3, null));
    var fromTailNext := end.next;
    from.tail := start.prev;
    InsertApart(from, to, start, end, f1, rs, f3, t1, t3);
    CloseApart(from, fromTailNext, start, end, f1, rs, f3, t1, t3);
  }

  // ----- Cutting up -----

  lemma LinkedIsSegment(l: ThreadList)
    requires l.Valid()
    ensures Segment(l.spine, null, null) && Distinct(l.spine)
    ensures forall i :: 0 <= i < |l.spine| ==> l.spine[i].threadList == l
  {
    forall i | 0 <= i < |l.spine| ensures SegmentAt(l.spine, i, null, null) && l.spine[i].threadList == l {
      assert l.LinkedAt(i);
    }
    forall i, j | 0 <= i < j < |l.spine| ensures l.spine[i] != l.spine[j] {
      assert Apart(l.spine[i], l.spine[j]);
    }
  }

  lemma ListsApart(a: ThreadList, b: ThreadList)
    requires a.Memory() !! b.Memory()
    ensures Disjoint(a.spine, b.spine)
  {
    a.InMemory();
    b.InMemory();
    hide MemoryOf;
    forall i, j | 0 <= i < |a.spine| && 0 <= j < |b.spine| ensures a.spine[i] != b.spine[j] {
      assert a.spine[i] in a.Memory() && b.spine[j] in b.Memory();
    }
  }

  lemma DistinctParts(ns: seq<Node>, i: nat, j: nat)
    requires Distinct(ns) && i <= j <= |ns|
    ensures Distinct(ns[..i]) && Distinct(ns[i..j]) && Distinct(ns[j..])
    ensures Disjoint(ns[..i], ns[i..j]) && Disjoint(ns[..i], ns[j..]) && Disjoint(ns[i..j], ns[j..])
  {}

  lemma DisjointParts(a: seq<Node>, b: seq<Node>, i: nat, j: nat, m: nat)
    requires Disjoint(a, b) && i <= j <= |a| && m <= |b|
    ensures Disjoint(a[..i], b[..m]) && Disjoint(a[..i], b[m..])
    ensures Disjoint(a[i..j], b[..m]) && Disjoint(a[i..j], b[m..])
    ensures Disjoint(a[j..], b[..m]) && Disjoint(a[j..], b[m..])
  {}

  lemma SegmentParts(ns: seq<Node>, i: nat, j: nat)
    requires Segment(ns, null, null) && i < j <= |ns|
    ensures Segment(ns[..i], null, ns[i]) && Segment(ns[i..j], Last(ns[..i], null), First(ns[j..], null))
    ensures Segment(ns[j..], ns[j - 1], null)
  {
    assert ns == ns[..j] + ns[j..] && ns[..j] == ns[..i] + ns[i..j];
    SplitSegment(ns[..j], ns[j..], null, null);
    SplitSegment(ns[..i], ns[i..j], null, First(ns[j..], null));
  }

  lemma Ends(l: ThreadList)
    requires l.Valid() && W(l.st)
    ensures l.numNodes <= |l.spine| && |l.st.nodes| == |l.spine|
    ensures l.head == First(l.spine, null)
    ensures l.tail == (if l.numNodes > 0 then l.spine[l.numNodes - 1] else First(l.spine, null))
    ensures (l.tail != null && l.tail.active) <==> l.numNodes > 0
    ensures l.numNodes > 0 ==> l.tail.index == l.numNodes - 1
  {
    if l.spine != [] { PrefixAt(l, if l.numNodes > 0 then l.numNodes - 1 else 0); }
  }

  lemma Cut(n: nat, from: ThreadList, to: ThreadList)
    requires from.Valid() && to.Valid() && W(from.st) && W(to.st) && from.Memory() !! to.Memory()
    requires 0 < n <= from.numNodes
    ensures from.numNodes <= |from.spine| && to.numNodes <= |to.spine|
    ensures var s, a, m := from.numNodes - n, from.numNodes, to.numNodes;
      CutUp(from, to, from.spine[..s], from.spine[s..a], from.spine[a..], to.spine[..m], to.spine[m..])
  {
    hide WExcept, Node.Is, Segment, Distinct, Disjoint, MemoryOf, ThreadList.Valid;
    var s, a, m := from.numNodes - n, from.numNodes, to.numNodes;
    Ends(from);
    Ends(to);
    LinkedIsSegment(from);
    LinkedIsSegment(to);
    ListsApart(from, to);
    SegmentParts(from.spine, s, a);
    DistinctParts(from.spine, s, a);
    DistinctParts(to.spine, m, m);
    DisjointParts(from.spine, to.spine, s, a, m);
    assert to.spine == to.spine[..m] + to.spine[m..];
    SplitSegment(to.spine[..m], to.spine[m..], null, null);
  }

  // ----- Relabelling -----

  lemma SegmentIsRun(rs: seq<Node>, p: Node?, q: Node?)
    requires |rs| > 0 && Segment(rs, p, q) && Distinct(rs)
    ensures Run(rs[0], rs[|rs| - 1], rs) && rs[0].prev == p
  {
    assert SegmentAt(rs, 0, p, q);
    forall i | 0 <= i < |rs| - 1 ensures rs[i].next == rs[i + 1] {
      assert SegmentAt(rs, i, p, q);
    }
  }

  /** Lines 164 and 165. */
  method LabelRun(start: Node, end: Node, to: ThreadList, ghost rs: seq<Node>, ghost base: nat, ghost p: Node?,
                  ghost q: Node?)
    requires |rs| > 0 && start == rs[0] && end == rs[|rs| - 1] && Distinct(rs) && Segment(rs, p, q)
    requires p !in rs && base == (if p == null then 0 else p.index + 1)
    modifies rs`index, rs`threadList
    ensures Segment(rs, p, q)
    ensures forall i :: 0 <= i < |rs| ==> rs[i].index == base + i
    ensures forall i :: 0 <= i < |rs| ==> rs[i].threadList == to
  {
    SegmentIsRun(rs, p, q);
    IndexNodes(start, end, rs);
    MoveNodeThreadLists(start, end, to, rs);
    forall i | 0 <= i < |rs| ensures SegmentAt(rs, i, p, q) {
      assert old(SegmentAt(rs, i, p, q));
    }
  }

  /** LabelRun, which leaves everything else as it was spliced. */
  method LabelSpliced(from: ThreadList, to: ThreadList, start: Node, end: Node,
                      ghost f1: seq<Node>, ghost rs: seq<Node>, ghost f3: seq<Node>, ghost t1: seq<Node>,
                      ghost t3: seq<Node>)
    requires |rs| > 0 && start == rs[0] && end == rs[|rs| - 1] && Distinct(rs) && Spliced(from, to, f1, rs, f3, t1, t3)
    requires Disjoint(f1, rs) && Disjoint(rs, f3) && Disjoint(rs, t1) && Disjoint(rs, t3)
    requires t1 != [] ==> t1[|t1| - 1].index == |t1| - 1
    modifies rs`index, rs`threadList
    ensures Spliced(from, to, f1, rs, f3, t1, t3)
    ensures forall i :: 0 <= i < |rs| ==> rs[i].index == |t1| + i
    ensures forall i :: 0 <= i < |rs| ==> rs[i].threadList == to
  {
    LabelRun(start, end, to, rs, |t1|, Last(t1, null), First(t3, null));
  }

  /** Lines 113-118: the first of the last n active nodes. */
  method FindRun(n: nat, from: ThreadList, ghost rs: seq<Node>, ghost p: Node?, ghost q: Node?) returns (start: Node)
    requires n == |rs| > 0 && Segment(rs, p, q) && from.tail == rs[n - 1]
    ensures start == rs[0]
  {
    start := from.tail;
    var i := 1;
    while i < n
      invariant 1 <= i <= n && start == rs[n - i]
    {
      assert SegmentAt(rs, n - i, p, q);
      start := start.prev;
      i := i + 1;
    }
  }

  /** Lines 113-159: find the run and splice it; what that does to index and dirty flag. */
  method SpliceRun(n: nat, from: ThreadList, to: ThreadList,
                   ghost f1: seq<Node>, ghost rs: seq<Node>, ghost f3: seq<Node>, ghost t1: seq<Node>,
                   ghost t3: seq<Node>)
    returns (start: Node, end: Node)
    requires from != to && CutUp(from, to, f1, rs, f3, t1, t3) && n == |rs|
    modifies from`head, from`tail, to`head, to`tail, f1`next, rs`next, rs`prev
    modifies f3`prev, f3`index, t1`next, t1`dirty, t3`prev, t3`index
    ensures start == rs[0] && end == rs[n - 1]
    ensures Spliced(from, to, f1, rs, f3, t1, t3)
    ensures forall i :: 0 <= i < |f3| ==> f3[i].index == (if f1 == [] && i == 0 then 0 else old(f3[i].index))
    ensures forall i :: 0 <= i < |t3| ==>
      t3[i].index == (if t1 == [] && i == 0 then old(rs[n - 1].index) + 1 else old(t3[i].index))
    ensures forall i :: 0 <= i < |t1| ==> t1[i].dirty == (i == |t1| - 1 || old(t1[i].dirty))
    ensures forall i :: 0 <= i < |t1| ==> t1[i].index == old(t1[i].index)
    ensures forall i :: 0 <= i < |f1| ==> f1[i].index == old(f1[i].index)
  {
    hide Segment, SegmentAt, Spliced;
    end := from.tail;
    start := FindRun(n, from, rs, Last(f1, null), First(f3, null));
    Splice(from, to, start, end, f1, rs, f3, t1, t3);
  }

  /** Lines 113-165: find the run and move it. Index, dirty flag and back pointer change as stated. */
  method Relink(n: nat, from: ThreadList, to: ThreadList,
                ghost f1: seq<Node>, ghost rs: seq<Node>, ghost f3: seq<Node>, ghost t1: seq<Node>, ghost t3: seq<Node>)
    returns (start: Node, end: Node)
    requires from != to && CutUp(from, to, f1, rs, f3, t1, t3) && n == |rs|
    requires t1 != [] ==> t1[|t1| - 1].index == |t1| - 1
    modifies from`head, from`tail, to`head, to`tail, f1`next, rs`next, rs`prev, rs`index, rs`threadList
    modifies f3`prev, f3`index, t1`next, t1`dirty, t3`prev, t3`index
    ensures start == rs[0] && end == rs[n - 1]
    ensures Spliced(from, to, f1, rs, f3, t1, t3)
    ensures forall i :: 0 <= i < n ==> rs[i].index == |t1| + i
    ensures forall i :: 0 <= i < n ==> rs[i].threadList == to
    ensures forall i :: 0 <= i < |f1| ==> f1[i].index == old(f1[i].index)
    ensures forall i :: 0 <= i < |f3| ==> f3[i].index == (if f1 == [] && i == 0 then 0 else old(f3[i].index))
    ensures forall i :: 0 <= i < |t3| ==>
      t3[i].index == (if t1 == [] && i == 0 then old(rs[n - 1].index) + 1 else old(t3[i].index))
    ensures forall i :: 0 <= i < |t1| ==> t1[i].dirty == (i == |t1| - 1 || old(t1[i].dirty))
  {
    hide Segment, SegmentAt, Spliced;
    start, end := SpliceRun(n, from, to, f1, rs, f3, t1, t3);
    LabelSpliced(from, to, start, end, f1, rs, f3, t1, t3);
  }

  // ----- The two lists afterwards -----

  /** What becomes of node i of `from`: the last n active ones are numbered on after the m active nodes of `to`. */
  ghost function Left(f: ListState, n: int, m: int, i: int): NodeState
    requires 0 <= i < |f.nodes|
  {
    var s, a := f.numNodes - n, f.numNodes;
    f.nodes[i].(index := if s <= i < a then m + i - s else if s == 0 && i == a then 0 else f.nodes[i].index)
  }

  /** What becomes of node i of `to`. */
  ghost function Joined(f: ListState, t: ListState, i: int): NodeState
    requires 0 <= i < |t.nodes| && 0 < f.numNodes <= |f.nodes|
  {
    t.nodes[i].(dirty := t.nodes[i].dirty || i == t.numNodes - 1,
                index := if t.numNodes == 0 && i == 0 then f.nodes[f.numNodes - 1].index + 1 else t.nodes[i].index)
  }

  ghost predicate AllLeft(ns: seq<Node>, f: ListState, n: int, m: int)
    reads ns, MemoryOf(ns)
  {
    |ns| == |f.nodes| && forall i :: 0 <= i < |ns| ==> ns[i].Is(Left(f, n, m, i))
  }

  ghost predicate AllJoined(ns: seq<Node>, f: ListState, t: ListState)
    reads ns, MemoryOf(ns)
  {
    |ns| == |t.nodes| && 0 < f.numNodes <= |f.nodes| && forall i :: 0 <= i < |ns| ==> ns[i].Is(Joined(f, t, i))
  }

  lemma FromAbstracted(n: nat, from: ThreadList, f: ListState, ns: seq<Node>, m: int)
    requires W(f) && 0 < n <= f.numNodes && AllLeft(ns, f, n, m)
    requires from.spine == ns[..f.numNodes - n] + ns[f.numNodes..]
    requires Transfer.CanTransfer(n, f) && from.st == Transfer.TransferFrom(n, f)
    ensures from.Abstracted()
  {
    hide Transfer.TransferFrom, Node.Is, WExcept;
    Transfer.TailCloses(f);
    Transfer.TransferFromShape(n, f);
    forall i | 0 <= i < |from.spine| ensures from.spine[i].Is(from.st.nodes[i]) {
      Transfer.TransferFromPlaces(n, f, i);
      var j := if i < f.numNodes - n then i else i + n;
      assert from.spine[i] == ns[j] && from.st.nodes[i] == Left(f, n, m, j);
    }
  }

  lemma ToAbstracted(n: nat, to: ThreadList, f: ListState, t: ListState, fs: seq<Node>, ts: seq<Node>)
    requires W(f) && W(t) && 0 < n <= f.numNodes && t.numNodes <= |ts| && AllLeft(fs, f, n, t.numNodes)
    requires AllJoined(ts, f, t)
    requires to.spine == ts[..t.numNodes] + fs[f.numNodes - n..f.numNodes] + ts[t.numNodes..]
    requires Transfer.CanTransfer(n, f) && -1 <= t.tail < |t.nodes| && to.st == Transfer.TransferTo(n, f, t)
    ensures to.Abstracted()
  {
    hide Transfer.TransferTo, Node.Is, WExcept, Left, Joined;
    Transfer.TailCloses(f);
    Transfer.TailCloses(t);
    ToPlace(n, f, t, 0);
    assert |to.spine| == |t.nodes| + n == |to.st.nodes|;
    forall i | 0 <= i < |to.spine| ensures to.spine[i].Is(to.st.nodes[i]) {
      ToPlace(n, f, t, i);
      var m, s := t.numNodes, f.numNodes - n;
      if m <= i < m + n {
        assert to.spine[i] == fs[s + i - m];
      } else {
        assert to.spine[i] == ts[if i < m then i else i - n];
      }
    }
  }

  /** Where each node of the longer list comes from. */
  lemma ToPlace(n: nat, f: ListState, t: ListState, i: nat)
    requires W(f) && W(t) && 0 < n <= f.numNodes && i < |t.nodes| + n
    ensures Transfer.CanTransfer(n, f) && f.numNodes <= |f.nodes| && -1 <= t.tail < |t.nodes|
    ensures |Transfer.TransferTo(n, f, t).nodes| == |t.nodes| + n
    ensures var m, s := t.numNodes, f.numNodes - n;
      && 0 <= m <= |t.nodes|
      && Transfer.TransferTo(n, f, t).nodes[i]
        == if m <= i < m + n then Left(f, n, m, s + i - m) else Joined(f, t, if i < m then i else i - n)
  {
    hide Transfer.TransferTo, WExcept;
    Transfer.TailCloses(f);
    Transfer.TailCloses(t);
    Transfer.TransferToPlaces(n, f, t, i);
  }

  lemma SplicedRun(from: ThreadList, to: ThreadList, f1: seq<Node>, rs: seq<Node>, f3: seq<Node>, t1: seq<Node>,
                   t3: seq<Node>)
    requires |rs| > 0 && Distinct(rs) && Spliced(from, to, f1, rs, f3, t1, t3)
    ensures Run(rs[0], rs[|rs| - 1], rs)
  {
    SegmentIsRun(rs, Last(t1, null), First(t3, null));
  }

  /** Lines 166-169: the counters. */
  method UpdateCounters(n: nat, from: ThreadList, to: ThreadList, start: Node, end: Node,
                        ghost f1: seq<Node>, ghost rs: seq<Node>, ghost f3: seq<Node>, ghost t1: seq<Node>,
                        ghost t3: seq<Node>,
                        ghost moved: seq<NodeState>)
    requires from != to && |rs| == n > 0 && Distinct(rs) && start == rs[0] && end == rs[n - 1]
    requires Spliced(from, to, f1, rs, f3, t1, t3)
    requires |moved| == n && forall i :: 0 <= i < n ==> rs[i].numElements == moved[i].numElements
    requires Total(moved) <= from.numElements && n <= from.numNodes
    modifies from`numNodes, from`numElements, to`numNodes, to`numElements
    ensures Spliced(from, to, f1, rs, f3, t1, t3)
    ensures from.numNodes == old(from.numNodes) - n && to.numNodes == old(to.numNodes) + n
    ensures from.numElements == old(from.numElements) - Total(moved)
    ensures to.numElements == old(to.numElements) + Total(moved)
  {
    SplicedRun(from, to, f1, rs, f3, t1, t3);
    hide Distinct;
    UpdateNumElements(start, end, from, to, rs, moved);
    from.numNodes := from.numNodes - n;
    to.numNodes := to.numNodes + n;
  }

  lemma InParts(ns: seq<Node>, i: nat, j: nat)
    requires i <= j <= |ns|
    ensures forall x :: x in ns[..i] || x in ns[i..j] || x in ns[j..] ==> x in ns
  {}

  /** Lines 113-165 again, node by node of `from`: positions s..s+n of fs are the run, and `to` has the nodes
      t1 + t3. */
  method RelinkAt(n: nat, from: ThreadList, to: ThreadList, ghost fs: seq<Node>, ghost t1: seq<Node>,
                  ghost t3: seq<Node>,
                  ghost s: nat)
    returns (start: Node, end: Node)
    requires from != to && 0 < n && s + n <= |fs| && Distinct(fs)
    requires CutUp(from, to, fs[..s], fs[s..s + n], fs[s + n..], t1, t3)
    requires t1 != [] ==> t1[|t1| - 1].index == |t1| - 1
    modifies from`head, from`tail, to`head, to`tail
    modifies fs`next, fs`prev, fs`index, fs`threadList, t1`next, t1`dirty, t3`prev, t3`index
    ensures start == fs[s] && end == fs[s + n - 1]
    ensures Spliced(from, to, fs[..s], fs[s..s + n], fs[s + n..], t1, t3)
    ensures forall i :: 0 <= i < |fs| ==> fs[i].threadList == if s <= i < s + n then to else old(fs[i].threadList)
    ensures forall i :: 0 <= i < |fs| ==>
      fs[i].index == if s <= i < s + n then |t1| + i - s else if s == 0 && i == n then 0 else old(fs[i].index)
    ensures forall i :: 0 <= i < |t3| ==>
      t3[i].index == (if t1 == [] && i == 0 then old(fs[s + n - 1].index) + 1 else old(t3[i].index))
    ensures forall i :: 0 <= i < |t1| ==> t1[i].dirty == (i == |t1| - 1 || old(t1[i].dirty))
  {
    hide CutUp, Segment, Spliced;
    ghost var f1, rs, f3 := fs[..s], fs[s..s + n], fs[s + n..];
    assert rs[n - 1] == fs[s + n - 1];
    InParts(fs, s, s + n);
    start, end := Relink(n, from, to, f1, rs, f3, t1, t3);
    forall i | 0 <= i < |fs|
      ensures fs[i].threadList == if s <= i < s + n then to else old(fs[i].threadList)
      ensures fs[i].index == if s <= i < s + n then |t1| + i - s else if s == 0 && i == n then 0 else old(fs[i].index)
    {
      if i < s {
        assert fs[i] == f1[i];
      } else if i < s + n {
        assert fs[i] == rs[i - s];
      } else {
        assert fs[i] == f3[i - s - n];
      }
    }
  }

  /** And node by node of `to`, where ts has m active nodes. */
  method MoveRun(n: nat, from: ThreadList, to: ThreadList, ghost fs: seq<Node>, ghost ts: seq<Node>, ghost s: nat,
                 ghost m: nat)
    returns (start: Node, end: Node)
    requires from != to && 0 < n && s + n <= |fs| && m <= |ts| && Distinct(fs) && Distinct(ts) && Disjoint(fs, ts)
    requires CutUp(from, to, fs[..s], fs[s..s + n], fs[s + n..], ts[..m], ts[m..])
    requires m > 0 ==> ts[m - 1].index == m - 1
    modifies from`head, from`tail, to`head, to`tail
    modifies fs`next, fs`prev, fs`index, fs`threadList, ts`next, ts`prev, ts`index, ts`dirty
    ensures start == fs[s] && end == fs[s + n - 1]
    ensures Spliced(from, to, fs[..s], fs[s..s + n], fs[s + n..], ts[..m], ts[m..])
    ensures forall i :: 0 <= i < |fs| ==> fs[i].threadList == if s <= i < s + n then to else old(fs[i].threadList)
    ensures forall i :: 0 <= i < |fs| ==>
      fs[i].index == if s <= i < s + n then m + i - s else if s == 0 && i == n then 0 else old(fs[i].index)
    ensures forall i :: 0 <= i < |ts| ==>
      ts[i].index == if m == 0 && i == 0 then old(fs[s + n - 1].index) + 1 else old(ts[i].index)
    ensures forall i :: 0 <= i < |ts| ==> ts[i].dirty == (i == m - 1 || old(ts[i].dirty))
    ensures forall i :: 0 <= i < |fs| ==> fs[i].dirty == old(fs[i].dirty)
  {
    hide CutUp, Segment, Spliced;
    ghost var t1, t3 := ts[..m], ts[m..];
    start, end := RelinkAt(n, from, to, fs, t1, t3, s);
    forall i | 0 <= i < |ts|
      ensures ts[i].index == if m == 0 && i == 0 then old(fs[s + n - 1].index) + 1 else old(ts[i].index)
      ensures ts[i].dirty == (i == m - 1 || old(ts[i].dirty))
    {
      if i < m { assert ts[i] == t1[i]; } else { assert ts[i] == t3[i - m]; }
    }
  }

  /** Lines 113-169: the counters too. */
  method MoveCounted(n: nat, from: ThreadList, to: ThreadList, ghost fs: seq<Node>, ghost ts: seq<Node>, ghost s: nat,
                     ghost m: nat,
                     ghost moved: seq<NodeState>)
    requires from != to && 0 < n && s + n <= |fs| && m <= |ts| && Distinct(fs) && Distinct(ts) && Disjoint(fs, ts)
    requires CutUp(from, to, fs[..s], fs[s..s + n], fs[s + n..], ts[..m], ts[m..])
    requires m > 0 ==> ts[m - 1].index == m - 1
    requires |moved| == n && forall i :: 0 <= i < n ==> fs[s + i].numElements == moved[i].numElements
    requires Total(moved) <= from.numElements && n <= from.numNodes
    modifies from`head, from`tail, to`head, to`tail, from`numNodes, from`numElements, to`numNodes, to`numElements
    modifies fs`next, fs`prev, fs`index, fs`threadList, ts`next, ts`prev, ts`index, ts`dirty
    ensures from.numNodes == old(from.numNodes) - n && to.numNodes == old(to.numNodes) + n
    ensures from.numElements == old(from.numElements) - Total(moved)
    ensures to.numElements == old(to.numElements) + Total(moved)
    ensures Spliced(from, to, fs[..s], fs[s..s + n], fs[s + n..], ts[..m], ts[m..])
    ensures forall i :: 0 <= i < |fs| ==> fs[i].threadList == if s <= i < s + n then to else old(fs[i].threadList)
    ensures forall i :: 0 <= i < |fs| ==>
      fs[i].index == if s <= i < s + n then m + i - s else if s == 0 && i == n then 0 else old(fs[i].index)
    ensures forall i :: 0 <= i < |ts| ==>
      ts[i].index == if m == 0 && i == 0 then old(fs[s + n - 1].index) + 1 else old(ts[i].index)
    ensures forall i :: 0 <= i < |ts| ==> ts[i].dirty == (i == m - 1 || old(ts[i].dirty))
    ensures forall i :: 0 <= i < |ts| ==> ts[i].threadList == old(ts[i].threadList)
    ensures forall i :: 0 <= i < |fs| ==> fs[i].dirty == old(fs[i].dirty)
  {
    hide CutUp, Segment, Spliced, Total;
    var start, end := MoveRun(n, from, to, fs, ts, s, m);
    UpdateCounters(n, from, to, start, end, fs[..s], fs[s..s + n], fs[s + n..], ts[..m], ts[m..], moved);
  }

  // ----- Memory -----

  ghost predicate AllApart(ns: seq<Node>) {
    forall i, j :: 0 <= i < |ns| && 0 <= j < |ns| && i != j ==> Apart(ns[i], ns[j])
  }

  ghost predicate CrossApart(a: seq<Node>, b: seq<Node>) {
    forall i, j :: 0 <= i < |a| && 0 <= j < |b| ==> Apart(a[i], b[j])
  }

  lemma ApartWhenDisjoint(a: seq<Node>, b: seq<Node>)
    requires MemoryOf(a) !! MemoryOf(b)
    ensures CrossApart(a, b)
  {
    forall i, j | 0 <= i < |a| && 0 <= j < |b| ensures Apart(a[i], b[j]) {
      assert a[i] in MemoryOf(a) && a[i].freeMask.buckets in MemoryOf(a) && a[i].elementArray in MemoryOf(a);
      assert b[j] in MemoryOf(b) && b[j].freeMask.buckets in MemoryOf(b) && b[j].elementArray in MemoryOf(b);
    }
  }

  lemma DisjointWhenApart(a: seq<Node>, b: seq<Node>)
    requires CrossApart(a, b)
    ensures MemoryOf(a) !! MemoryOf(b)
  {
    forall x | x in MemoryOf(a) ensures x !in MemoryOf(b) {
      var i :| 0 <= i < |a| && (x == a[i] || x == a[i].freeMask.buckets || x == a[i].elementArray);
      assert forall j :: 0 <= j < |b| ==> Apart(a[i], b[j]);
    }
  }

  lemma MemoryOfConcat(a: seq<Node>, b: seq<Node>)
    ensures MemoryOf(a + b) == MemoryOf(a) + MemoryOf(b)
  {
    if b == [] {
      assert a + b == a;
    } else {
      var c, x := b[..|b| - 1], b[|b| - 1];
      assert b == c + [x] && a + b == (a + c) + [x];
      MemoryOfConcat(a, c);
      MemoryOfSnoc(c, x);
      MemoryOfSnoc(a + c, x);
    }
  }

  /** Taking the run out of fs and into ts: memory is neither shared nor lost. */
  lemma MemoryMoves(fs: seq<Node>, ts: seq<Node>, s: nat, a: nat, m: nat)
    requires s <= a <= |fs| && m <= |ts| && AllApart(fs) && AllApart(ts) && CrossApart(fs, ts)
    ensures var fs', ts' := fs[..s] + fs[a..], ts[..m] + fs[s..a] + ts[m..];
      && AllApart(fs') && AllApart(ts') && MemoryOf(fs') !! MemoryOf(ts')
      && MemoryOf(fs') + MemoryOf(ts') == MemoryOf(fs) + MemoryOf(ts)
  {
    var f1, rs, f3, t1, t3 := fs[..s], fs[s..a], fs[a..], ts[..m], ts[m..];
    MovedApart(fs, ts, s, a, m);
    hide Apart, AllApart, CrossApart;
    DisjointWhenApart(f1 + f3, t1 + rs + t3);
    assert fs == f1 + rs + f3 && ts == t1 + t3;
    MemoryOfConcat(f1, rs);
    MemoryOfConcat(f1 + rs, f3);
    MemoryOfConcat(f1, f3);
    MemoryOfConcat(t1, t3);
    MemoryOfConcat(t1, rs);
    MemoryOfConcat(t1 + rs, t3);
  }

  lemma MovedApart(fs: seq<Node>, ts: seq<Node>, s: nat, a: nat, m: nat)
    requires s <= a <= |fs| && m <= |ts| && AllApart(fs) && AllApart(ts) && CrossApart(fs, ts)
    ensures var fs', ts' := fs[..s] + fs[a..], ts[..m] + fs[s..a] + ts[m..];
      AllApart(fs') && AllApart(ts') && CrossApart(fs', ts')
  {
    BothWays(fs, ts);
    hide Apart;
  }

  lemma BothWays(a: seq<Node>, b: seq<Node>)
    requires CrossApart(a, b)
    ensures CrossApart(b, a)
  {}

  lemma Parts(l: ThreadList)
    requires l.Valid()
    ensures |l.spine| == |l.st.nodes| && forall i :: 0 <= i < |l.spine| ==> l.spine[i].Is(l.st.nodes[i])
    ensures AllApart(l.spine)
  {}

  /** The same with the values of the nodes of `from`. */
  method MoveLeaving(n: nat, from: ThreadList, to: ThreadList, ghost fs: seq<Node>, ghost ts: seq<Node>, ghost s: nat,
                     ghost m: nat,
                    ghost f: ListState)
    requires from != to && 0 < n && s + n <= |fs| && m <= |ts| && Distinct(fs) && Distinct(ts) && Disjoint(fs, ts)
    requires CutUp(from, to, fs[..s], fs[s..s + n], fs[s + n..], ts[..m], ts[m..])
    requires m > 0 ==> ts[m - 1].index == m - 1
    requires |fs| == |f.nodes| && forall i :: 0 <= i < |fs| ==> fs[i].Is(f.nodes[i])
    requires f.numNodes == s + n == from.numNodes && Total(f.nodes[s..s + n]) <= from.numElements
    modifies from`head, from`tail, to`head, to`tail, from`numNodes, from`numElements, to`numNodes, to`numElements
    modifies fs`next, fs`prev, fs`index, fs`threadList, ts`next, ts`prev, ts`index, ts`dirty
    ensures from.numNodes == old(from.numNodes) - n && to.numNodes == old(to.numNodes) + n
    ensures from.numElements == old(from.numElements) - Total(f.nodes[s..s + n])
    ensures to.numElements == old(to.numElements) + Total(f.nodes[s..s + n])
    ensures Spliced(from, to, fs[..s], fs[s..s + n], fs[s + n..], ts[..m], ts[m..])
    ensures forall i :: 0 <= i < |fs| ==> fs[i].threadList == if s <= i < s + n then to else old(fs[i].threadList)
    ensures forall i :: 0 <= i < |ts| ==> ts[i].threadList == old(ts[i].threadList)
    ensures forall i :: 0 <= i < |ts| ==>
      ts[i].index == if m == 0 && i == 0 then f.nodes[s + n - 1].index + 1 else old(ts[i].index)
    ensures forall i :: 0 <= i < |ts| ==> ts[i].dirty == (i == m - 1 || old(ts[i].dirty))
    ensures AllLeft(fs, f, n, m)
  {
    hide CutUp, Segment, Spliced, Node.Is, Total, Distinct, Disjoint;
    ghost var moved := f.nodes[s..s + n];
    SameCounts(fs, f, s, moved);
    MoveCounted(n, from, to, fs, ts, s, m, moved);
    forall i | 0 <= i < |fs| ensures fs[i].Is(Left(f, n, m, i)) {
      fs[i].Relabelled(f.nodes[i]);
    }
    fs[s + n - 1].Relabelled(f.nodes[s + n - 1]);
  }

  /** And of the nodes of `to`. */
  method MoveValues(n: nat, from: ThreadList, to: ThreadList, ghost fs: seq<Node>, ghost ts: seq<Node>, ghost s: nat,
                    ghost m: nat,
                    ghost f: ListState, ghost t: ListState)
    requires from != to && 0 < n && s + n <= |fs| && m <= |ts| && Distinct(fs) && Distinct(ts) && Disjoint(fs, ts)
    requires CutUp(from, to, fs[..s], fs[s..s + n], fs[s + n..], ts[..m], ts[m..])
    requires m > 0 ==> ts[m - 1].index == m - 1
    requires |fs| == |f.nodes| && forall i :: 0 <= i < |fs| ==> fs[i].Is(f.nodes[i])
    requires |ts| == |t.nodes| && forall i :: 0 <= i < |ts| ==> ts[i].Is(t.nodes[i])
    requires f.numNodes == s + n == from.numNodes && t.numNodes == m && Total(f.nodes[s..s + n]) <= from.numElements
    modifies from`head, from`tail, to`head, to`tail, from`numNodes, from`numElements, to`numNodes, to`numElements
    modifies fs`next, fs`prev, fs`index, fs`threadList, ts`next, ts`prev, ts`index, ts`dirty
    ensures from.numNodes == old(from.numNodes) - n && to.numNodes == old(to.numNodes) + n
    ensures from.numElements == old(from.numElements) - Total(f.nodes[s..s + n])
    ensures to.numElements == old(to.numElements) + Total(f.nodes[s..s + n])
    ensures Spliced(from, to, fs[..s], fs[s..s + n], fs[s + n..], ts[..m], ts[m..])
    ensures forall i :: 0 <= i < |fs| ==> fs[i].threadList == if s <= i < s + n then to else old(fs[i].threadList)
    ensures forall i :: 0 <= i < |ts| ==> ts[i].threadList == old(ts[i].threadList)
    ensures AllLeft(fs, f, n, m) && AllJoined(ts, f, t)
  {
    hide CutUp, Segment, Spliced, Node.Is, Total, AllLeft, Distinct, Disjoint;
    MoveLeaving(n, from, to, fs, ts, s, m, f);
    forall i | 0 <= i < |ts| ensures ts[i].Is(Joined(f, t, i)) {
      assert old(ts[i].Is(t.nodes[i]));
      ts[i].Relabelled(t.nodes[i]);
    }
  }

  lemma SameCounts(fs: seq<Node>, f: ListState, s: nat, moved: seq<NodeState>)
    requires s + |moved| <= |fs| == |f.nodes| && moved == f.nodes[s..s + |moved|]
    requires forall i :: 0 <= i < |fs| ==> fs[i].Is(f.nodes[i])
    ensures forall i :: 0 <= i < |moved| ==> fs[s + i].numElements == moved[i].numElements
  {
    hide Node.Is;
    forall i | 0 <= i < |moved| ensures fs[s + i].numElements == moved[i].numElements {
      SameCount(fs[s + i], f.nodes[s + i]);
    }
  }

  lemma SameCount(x: Node, s: NodeState)
    requires x.Is(s)
    ensures x.numElements == s.numElements
  {}

  // ----- _transferNNodes -----

  lemma FromValid(n: nat, from: ThreadList, to: ThreadList, fs: seq<Node>, ts: seq<Node>, f: ListState, s: nat, m: nat)
    requires W(f) && 0 < n && f.numNodes == s + n <= |fs| && m <= |ts|
    requires Spliced(from, to, fs[..s], fs[s..s + n], fs[s + n..], ts[..m], ts[m..]) && AllLeft(fs, f, n, m)
    requires forall i :: 0 <= i < |fs| ==> fs[i].threadList == if s <= i < s + n then to else from
    requires from.spine == fs[..s] + fs[s + n..] && AllApart(from.spine)
    requires Transfer.CanTransfer(n, f) && from.st == Transfer.TransferFrom(n, f)
    requires from.numNodes == f.numNodes - n && from.numElements == f.numElements - Total(Transfer.Moved(n, f))
    ensures from.Valid()
  {
    hide Transfer.Moved, Total, WExcept, Apart, Node.Is, Segment, Left, AllLeft;
    hide ThreadList.Abstracted, ThreadList.Linked, ThreadList.LinkedAt;
    Transfer.TailCloses(f);
    FromLength(n, f);
    FromAbstracted(n, from, f, fs, m);
    Transfer.ZeroIndex(n, f);
    JoinSegments(fs[..s], fs[s + n..], null, null);
    SegmentIsLinked(from);
    SameNodes(from);
    assert fs[..s] == [] || fs[..s][s - 1] == from.spine[s - 1];
  }

  lemma SegmentIsLinked(l: ThreadList)
    requires Segment(l.spine, null, null) && forall i :: 0 <= i < |l.spine| ==> l.spine[i].threadList == l
    ensures l.Linked()
  {
    forall i | 0 <= i < |l.spine| ensures l.LinkedAt(i) {
      assert SegmentAt(l.spine, i, null, null);
    }
  }

  lemma SameNodes(l: ThreadList)
    requires l.Abstracted()
    ensures |l.spine| == |l.st.nodes|
  {}

  lemma FromLength(n: nat, l: ListState)
    requires W(l) && 0 < n <= l.numNodes
    ensures Transfer.CanTransfer(n, l) && |Transfer.TransferFrom(n, l).nodes| == |l.nodes| - n
    ensures Transfer.TransferFrom(n, l).numNodes == l.numNodes - n
    ensures Transfer.TransferFrom(n, l).numElements == l.numElements - Total(Transfer.Moved(n, l))
  {
    Transfer.TailCloses(l);
    Transfer.TransferFromShape(n, l);
  }

  lemma ToLength(n: nat, l: ListState, to: ListState)
    requires W(l) && W(to) && 0 < n <= l.numNodes
    ensures Transfer.CanTransfer(n, l) && -1 <= to.tail < |to.nodes|
    ensures var t := Transfer.TransferTo(n, l, to);
      && t.tail == to.numNodes + n - 1 && t.numNodes == to.numNodes + n
      && t.numElements == to.numElements + Total(Transfer.Moved(n, l))
  {
    Transfer.TailCloses(l);
    Transfer.TransferToShape(n, l, to);
  }

  lemma ToValid(n: nat, from: ThreadList, to: ThreadList, fs: seq<Node>, ts: seq<Node>, f: ListState, t: ListState,
                s: nat, m: nat)
    requires W(f) && W(t) && 0 < n && f.numNodes == s + n <= |fs| && t.numNodes == m <= |ts|
    requires Spliced(from, to, fs[..s], fs[s..s + n], fs[s + n..], ts[..m], ts[m..]) && AllLeft(fs, f, n, m)
    requires AllJoined(ts, f, t)
    requires forall i :: s <= i < s + n ==> fs[i].threadList == to
    requires forall i :: 0 <= i < |ts| ==> ts[i].threadList == to
    requires to.spine == ts[..m] + fs[s..s + n] + ts[m..] && AllApart(to.spine)
    requires Transfer.CanTransfer(n, f) && -1 <= t.tail < |t.nodes| && to.st == Transfer.TransferTo(n, f, t)
    requires to.numNodes == m + n && to.numElements == t.numElements + Total(Transfer.Moved(n, f))
    ensures to.Valid()
  {
    hide Transfer.Moved, Total, WExcept, Apart, Node.Is, Segment, Left, AllLeft, Joined, AllJoined;
    hide ThreadList.Abstracted, ThreadList.Linked, ThreadList.LinkedAt, Transfer.TransferTo;
    ToLength(n, f, t);
    ToAbstracted(n, to, f, t, fs, ts);
    var rs := fs[s..s + n];
    JoinSegments(rs, ts[m..], Last(ts[..m], null), null);
    JoinSegments(ts[..m], rs + ts[m..], null, null);
    assert to.spine == ts[..m] + (rs + ts[m..]);
    SegmentIsLinked(to);
    SameNodes(to);
  }

  lemma MovedCounts(n: nat, f: ListState)
    requires W(f) && 0 < n <= f.numNodes
    ensures Transfer.CanTransfer(n, f) && Transfer.Moved(n, f) == f.nodes[f.numNodes - n..f.numNodes]
    ensures Total(Transfer.Moved(n, f)) <= f.numElements
  {
    hide WExcept, Transfer.TransferFrom, Total, AllSized, Bag, Contents;
    Transfer.TransferFromFacts(n, f);
    Transfer.TailCloses(f);
    CountOfList(Transfer.TransferFrom(n, f));
  }

  lemma CountOfList(l: ListState)
    requires W(l)
    ensures l.numElements >= 0
  {
    AllNodesOk(l, -1);
    TotalIsLength(l.nodes);
  }

  lemma Counters(l: ThreadList)
    requires l.Valid()
    ensures l.numNodes == l.st.numNodes && l.numElements == l.st.numElements
    ensures l.Memory() == MemoryOf(l.spine)
  {}

  /** What MoveValues needs to know about the links. */
  lemma Prepared(n: nat, from: ThreadList, to: ThreadList)
    requires from.Valid() && to.Valid() && W(from.st) && W(to.st) && from.Memory() !! to.Memory()
    requires 0 < n <= from.numNodes
    ensures from.numNodes <= |from.spine| == |from.st.nodes| && to.numNodes <= |to.spine| == |to.st.nodes|
    ensures var s, a, m := from.numNodes - n, from.numNodes, to.numNodes;
      && CutUp(from, to, from.spine[..s], from.spine[s..a], from.spine[a..], to.spine[..m], to.spine[m..])
      && (m > 0 ==> to.spine[m - 1].index == m - 1)
    ensures Distinct(from.spine) && Distinct(to.spine) && Disjoint(from.spine, to.spine)
    ensures forall i :: 0 <= i < |from.spine| ==> from.spine[i].threadList == from
    ensures forall i :: 0 <= i < |to.spine| ==> to.spine[i].threadList == to
  {
    hide WExcept, Segment, CutUp, Distinct, Disjoint, ThreadList.Valid, MemoryOf;
    Cut(n, from, to);
    Ends(from);
    Ends(to);
    LinkedIsSegment(from);
    LinkedIsSegment(to);
    ListsApart(from, to);
  }

  /** The nodes and the abstract values of the two lists from now on. */
  ghost method Settle(from: ThreadList, to: ThreadList, f1: seq<Node>, rs: seq<Node>, f3: seq<Node>, t1: seq<Node>,
                      t3: seq<Node>,
                      f': ListState, t': ListState)
    requires from != to && |rs| > 0 && Spliced(from, to, f1, rs, f3, t1, t3)
    modifies from`spine, from`st, to`spine, to`st
    ensures Spliced(from, to, f1, rs, f3, t1, t3)
    ensures from.spine == f1 + f3 && to.spine == t1 + rs + t3 && from.st == f' && to.st == t'
  {
    from.spine, from.st := f1 + f3, f';
    to.spine, to.st := t1 + rs + t3, t';
  }

  /** Settling keeps the values of the nodes. */
  ghost method SettleValues(n: nat, from: ThreadList, to: ThreadList, fs: seq<Node>, ts: seq<Node>, s: nat, m: nat,
                            f: ListState, t: ListState)
    requires from != to && 0 < n && s + n <= |fs| && m <= |ts|
    requires Transfer.CanTransfer(n, f) && -1 <= t.tail < |t.nodes|
    requires Spliced(from, to, fs[..s], fs[s..s + n], fs[s + n..], ts[..m], ts[m..]) && AllLeft(fs, f, n, m)
    requires AllJoined(ts, f, t)
    modifies from`spine, from`st, to`spine, to`st
    ensures Spliced(from, to, fs[..s], fs[s..s + n], fs[s + n..], ts[..m], ts[m..]) && AllLeft(fs, f, n, m)
    ensures AllJoined(ts, f, t)
    ensures from.spine == fs[..s] + fs[s + n..] && to.spine == ts[..m] + fs[s..s + n] + ts[m..]
    ensures from.st == Transfer.TransferFrom(n, f) && to.st == Transfer.TransferTo(n, f, t)
  {
    hide Spliced, Left, Joined, Transfer.TransferFrom, Transfer.TransferTo;
    Settle(from, to, fs[..s], fs[s..s + n], fs[s + n..], ts[..m], ts[m..], Transfer.TransferFrom(n, f),
           Transfer.TransferTo(n, f, t));
  }

  /** _transferNNodes: n nodes leave the end of from's active nodes and follow the active ones of `to`. */
  method TransferNNodes(n: nat, from: ThreadList, to: ThreadList)
    requires from != to && from.Valid() && to.Valid() && W(from.st) && W(to.st) && from.Memory() !! to.Memory()
    requires 0 < n <= from.numNodes
    modifies from`head, from`tail, from`numNodes, from`numElements, from`spine, from`st
    modifies to`head, to`tail, to`numNodes, to`numElements, to`spine, to`st, from.spine, to.spine
    ensures from.Valid() && to.Valid()
    ensures Transfer.CanTransfer(n, old(from.st)) && -1 <= old(to.st).tail < |old(to.st).nodes|
    ensures from.st == Transfer.TransferFrom(n, old(from.st))
    ensures to.st == Transfer.TransferTo(n, old(from.st), old(to.st))
    ensures W(from.st) && W(to.st)
    ensures from.numNodes == old(from.numNodes) - n && to.numNodes == old(to.numNodes) + n
    ensures from.Memory() !! to.Memory() && from.Memory() + to.Memory() == old(from.Memory() + to.Memory())
  {
    hide AllSized, Bag, WExcept, Apart, Node.Is, Segment, Spliced, CutUp, Left, AllLeft, Joined;
    hide AllJoined, AllApart, CrossApart, Distinct, Disjoint;
    hide ThreadList.Valid, MemoryOf, Transfer.TransferTo, Transfer.TransferFrom, Transfer.Moved, Total;
    ghost var fs, ts, f, t := from.spine, to.spine, from.st, to.st;
    ghost var s, m := from.numNodes - n, to.numNodes;
    Prepared(n, from, to);
    ApartWhenDisjoint(fs, ts);
    Parts(from);
    Parts(to);
    Counters(from);
    Counters(to);
    MemoryMoves(fs, ts, s, s + n, m);
    FromLength(n, f);
    ToLength(n, f, t);
    MovedCounts(n, f);
    Transfer.TransferKeepsW(n, f, t);
    MoveValues(n, from, to, fs, ts, s, m, f, t);
    SettleValues(n, from, to, fs, ts, s, m, f, t);
    FromValid(n, from, to, fs, ts, f, s, m);
    ToValid(n, from, to, fs, ts, f, t, s, m);
  }
}
