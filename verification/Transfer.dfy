/** Moving nodes between lists: src/internal/pumabalance.c:51-173. */
module Transfer {
  import opened ListModel
  import opened Compaction

  /** _indexNodes on a run whose first node gets the given index. */
  function Reindex(nodes: seq<NodeState>, base: int): (r: seq<NodeState>)
    ensures |r| == |nodes|
  {
    seq(|nodes|, i requires 0 <= i < |nodes| => nodes[i].(index := base + i))
  }

  function SetIndex(nodes: seq<NodeState>, index: int): (r: seq<NodeState>)
    ensures |r| == |nodes|
  {
    if nodes == [] then [] else nodes[0 := nodes[0].(index := index)]
  }

  predicate CanTransfer(n: int, from: ListState) {
    0 < n <= from.tail + 1 <= |from.nodes|
  }

  /** The run start..end that leaves from. */
  function Moved(n: int, from: ListState): seq<NodeState>
    requires CanTransfer(n, from)
  {
    from.nodes[from.tail + 1 - n..from.tail + 1]
  }

  function TransferFrom(n: int, from: ListState): ListState
    requires CanTransfer(n, from)
  {
    var start := from.tail + 1 - n;
    var rest := from.nodes[from.tail + 1..];
    ListState(
      if start == 0 then SetIndex(rest, 0) else from.nodes[..start] + rest,
      if start > 0 then start - 1 else if rest == [] then -1 else 0,
      from.numNodes - n,
      from.numElements - Total(Moved(n, from)))
  }

  function TransferTo(n: int, from: ListState, to: ListState): ListState
    requires CanTransfer(n, from) && -1 <= to.tail < |to.nodes|
  {
    var moved := Moved(n, from);
    var numElements := to.numElements + Total(moved);
    if to.tail >= 0 && to.nodes[to.tail].active then
      var b := to.tail;
      ListState(to.nodes[..b] + [to.nodes[b].(dirty := true)]
                + Reindex(moved, to.nodes[b].index + 1) + to.nodes[b + 1..],
                b + n, to.numNodes + n, numElements)
    else
      var rest := if to.tail < 0 then [] else to.nodes[to.tail..];
      ListState(Reindex(moved, 0) + SetIndex(rest, moved[n - 1].index + 1), n - 1, to.numNodes + n, numElements)
  }

  // ----- Shapes -----

  /** What `to` becomes: its active nodes with the last marked dirty, the moved nodes in order under
      their new indices, then its inactive nodes. */
  function Joined(active: seq<NodeState>, moved: seq<NodeState>, inactive: seq<NodeState>): seq<NodeState> {
    MarkLast(active) + Reindex(moved, |active|) + inactive
  }

  function MarkLast(nodes: seq<NodeState>): (r: seq<NodeState>)
    ensures |r| == |nodes|
  {
    if nodes == [] then [] else nodes[|nodes| - 1 := nodes[|nodes| - 1].(dirty := true)]
  }

  /** Equal but for the index fields. */
  predicate SameButIndex(a: seq<NodeState>, b: seq<NodeState>) {
    |a| == |b| && forall i :: 0 <= i < |a| ==> a[i] == b[i].(index := a[i].index)
  }

  lemma SetIndexChangesIndex(nodes: seq<NodeState>, index: int)
    ensures SameButIndex(SetIndex(nodes, index), nodes) && SameButIndex(nodes, nodes)
  {}

  /** The inactive nodes of `to` as the splice leaves them. */
  function ToRest(n: int, from: ListState, to: ListState): seq<NodeState>
    requires CanTransfer(n, from) && 0 <= to.numNodes <= |to.nodes|
  {
    if to.numNodes > 0 then to.nodes[to.numNodes..] else SetIndex(to.nodes, Moved(n, from)[n - 1].index + 1)
  }

  /** The inactive nodes of `from` as the splice leaves them. */
  function FromRest(n: int, from: ListState): seq<NodeState>
    requires CanTransfer(n, from)
  {
    var rest := from.nodes[from.tail + 1..];
    if n == from.tail + 1 then SetIndex(rest, 0) else rest
  }

  lemma TransferToShape(n: int, from: ListState, to: ListState)
    requires W(to) && CanTransfer(n, from)
    ensures TransferTo(n, from, to).nodes == Joined(to.nodes[..to.numNodes], Moved(n, from), ToRest(n, from, to))
    ensures TransferTo(n, from, to).tail == to.numNodes + n - 1 && TransferTo(n, from, to).numNodes == to.numNodes + n
    ensures TransferTo(n, from, to).numElements == to.numElements + Total(Moved(n, from))
    ensures SameButIndex(ToRest(n, from, to), to.nodes[to.numNodes..])
  {
    if to.tail >= 0 { ActiveMeansCounted(to, -1, to.tail); }
    TailFits(to);
    hide WExcept;
    if to.numNodes > 0 { JoinActive(n, from, to); } else { JoinInactive(n, from, to); }
  }

  lemma JoinActive(n: int, from: ListState, to: ListState)
    requires CanTransfer(n, from) && 0 < to.numNodes <= |to.nodes| && to.tail == to.numNodes - 1
    requires to.nodes[to.tail].active && to.nodes[to.tail].index == to.tail
    ensures TransferTo(n, from, to).nodes == Joined(to.nodes[..to.numNodes], Moved(n, from), ToRest(n, from, to))
    ensures SameButIndex(ToRest(n, from, to), to.nodes[to.numNodes..])
  {
    var b := to.tail;
    assert MarkLast(to.nodes[..to.numNodes]) == to.nodes[..b] + [to.nodes[b].(dirty := true)];
  }

  lemma JoinInactive(n: int, from: ListState, to: ListState)
    requires CanTransfer(n, from) && to.numNodes == 0
    requires to.tail == (if to.nodes == [] then -1 else 0) && (to.tail == 0 ==> !to.nodes[0].active)
    ensures TransferTo(n, from, to).nodes == Joined(to.nodes[..0], Moved(n, from), ToRest(n, from, to))
    ensures SameButIndex(ToRest(n, from, to), to.nodes[0..])
  {
    assert to.nodes[0..] == to.nodes && to.nodes[..0] == [];
    SetIndexChangesIndex(to.nodes, Moved(n, from)[n - 1].index + 1);
    assert MarkLast(to.nodes[..0]) + Reindex(Moved(n, from), 0) == Reindex(Moved(n, from), 0);
  }

  lemma TailFits(to: ListState)
    requires W(to)
    ensures to.numNodes > 0 ==> to.tail == to.numNodes - 1 && to.nodes[to.tail].index == to.tail
    ensures to.numNodes == 0 ==> to.tail == if to.nodes == [] then -1 else 0
  {
    if to.numNodes > 0 { assert Fits(to.nodes[to.tail], to.tail, to.numNodes, -1); }
  }

  lemma TransferFromShape(n: int, from: ListState)
    requires CanTransfer(n, from) && from.numNodes == from.tail + 1
    ensures TransferFrom(n, from).nodes == from.nodes[..from.numNodes - n] + FromRest(n, from)
    ensures TransferFrom(n, from).numNodes == from.numNodes - n
    ensures TransferFrom(n, from).numElements == from.numElements - Total(Moved(n, from))
    ensures Moved(n, from) == from.nodes[from.numNodes - n..from.numNodes]
    ensures SameButIndex(FromRest(n, from), from.nodes[from.numNodes..])
  {
    SetIndexChangesIndex(from.nodes[from.numNodes..], 0);
  }

  // ----- The invariant -----

  lemma ActiveFits(n: NodeState, i: int, m: int, j: int, m': int)
    requires Fits(n, i, m, -1) && 0 <= i < m && 0 <= j < m' && (j < m' - 1 ==> i < m - 1)
    ensures Fits(n.(index := j), j, m', -1)
  {}

  /** Marking the old tail dirty lets it become an inner node. */
  lemma MarkedFits(n: NodeState, i: int, m: int, m': int, dirty: bool)
    requires Fits(n, i, m, -1) && 0 <= i < m <= m' && dirty == (n.dirty || i == m - 1)
    ensures Fits(n.(dirty := dirty), i, m', -1)
  {}

  lemma InactiveFits(n: NodeState, i: int, m: int, j: int, m': int, index: int)
    requires Fits(n, i, m, -1) && i >= m >= 0 && j >= m' >= 0
    ensures Fits(n.(index := index), j, m', -1)
  {}

  /** The node at position i of a joined list. */
  lemma JoinedAt(active: seq<NodeState>, moved: seq<NodeState>, rest: seq<NodeState>, i: int)
    requires 0 <= i < |active| + |moved| + |rest|
    ensures |Joined(active, moved, rest)| == |active| + |moved| + |rest|
    ensures var m, node := |active|, Joined(active, moved, rest)[i];
      node == if i < m then active[i].(dirty := active[i].dirty || i == m - 1)
              else if i < m + |moved| then moved[i - m].(index := i)
              else rest[i - m - |moved|]
  {}

  lemma JoinedLength(active: seq<NodeState>, moved: seq<NodeState>, rest: seq<NodeState>)
    ensures |Joined(active, moved, rest)| == |active| + |moved| + |rest|
  {}

  /** The same, in terms of the two lists it was joined from. */
  lemma JoinedPlace(a: seq<NodeState>, m: int, b: seq<NodeState>, s: int, n: int, rest: seq<NodeState>, i: int)
    requires 0 <= m <= |a| && 0 <= s <= s + n <= |b| && SameButIndex(rest, a[m..]) && 0 <= i < |a| + n
    ensures |Joined(a[..m], b[s..s + n], rest)| == |a| + n
    ensures var node := Joined(a[..m], b[s..s + n], rest)[i];
      node == if i < m then a[i].(dirty := a[i].dirty || i == m - 1)
              else if i < m + n then b[s + (i - m)].(index := i)
              else a[i - n].(index := node.index)
  {
    JoinedAt(a[..m], b[s..s + n], rest, i);
    hide Joined;
    if i >= m + n {
      assert rest[i - m - n] == a[m..][i - m - n].(index := rest[i - m - n].index);
    }
  }

  lemma JoinedFits(from: ListState, n: int, to: ListState, rest: seq<NodeState>)
    requires W(from) && W(to) && 0 < n <= from.numNodes
    requires SameButIndex(rest, to.nodes[to.numNodes..])
    ensures var moved := from.nodes[from.numNodes - n..from.numNodes];
      AllFit(Joined(to.nodes[..to.numNodes], moved, rest), to.numNodes + n, -1)
  {
    hide Joined, Fits, WExcept;
    TailCloses(from);
    TailCloses(to);
    var nodes := Joined(to.nodes[..to.numNodes], from.nodes[from.numNodes - n..from.numNodes], rest);
    JoinedLength(to.nodes[..to.numNodes], from.nodes[from.numNodes - n..from.numNodes], rest);
    forall i | 0 <= i < |nodes| ensures Fits(nodes[i], i, to.numNodes + n, -1) {
      JoinedPlace(to.nodes, to.numNodes, from.nodes, from.numNodes - n, n, rest, i);
      PlacedFits(from, n, to, i, nodes[i]);
    }
  }

  lemma PlacedFits(from: ListState, n: int, to: ListState, i: int, node: NodeState)
    requires W(from) && W(to) && 0 < n <= from.numNodes && 0 <= i < |to.nodes| + n
    requires node == if i < to.numNodes then to.nodes[i].(dirty := to.nodes[i].dirty || i == to.numNodes - 1)
      else if i < to.numNodes + n then from.nodes[from.numNodes - n + (i - to.numNodes)].(index := i)
      else to.nodes[i - n].(index := node.index)
    ensures Fits(node, i, to.numNodes + n, -1)
  {
    hide Fits;
    var m := to.numNodes;
    if i < m {
      MarkedFits(to.nodes[i], i, m, m + n, node.dirty);
    } else if i < m + n {
      var k := from.numNodes - n + (i - m);
      ActiveFits(from.nodes[k], k, from.numNodes, i, m + n);
    } else {
      InactiveFits(to.nodes[i - n], i - n, m, i, m + n, node.index);
    }
  }

  lemma LeftFits(from: ListState, n: int, rest: seq<NodeState>)
    requires W(from) && 0 < n <= from.numNodes && SameButIndex(rest, from.nodes[from.numNodes..])
    ensures AllFit(from.nodes[..from.numNodes - n] + rest, from.numNodes - n, -1)
  {
    var left := from.numNodes - n;
    var nodes := from.nodes[..left] + rest;
    forall i | 0 <= i < |nodes| ensures Fits(nodes[i], i, left, -1) {
      if i < left {
        assert Fits(from.nodes[i], i, from.numNodes, -1);
      } else {
        InactiveFits(from.nodes[i + n], i + n, from.numNodes, i, left, nodes[i].index);
        assert nodes[i] == rest[i - left] == from.nodes[from.numNodes..][i - left].(index := nodes[i].index);
      }
    }
  }

  // ----- Contents -----

  lemma LeftContents(from: ListState, n: int, rest: seq<NodeState>)
    requires AllSized(from.nodes) && 0 < n <= from.numNodes <= |from.nodes|
    requires SameButIndex(rest, from.nodes[from.numNodes..])
    ensures var s, m := from.numNodes - n, from.numNodes;
      var left, moved := from.nodes[..s] + rest, from.nodes[s..m];
      && AllSized(left) && AllSized(moved)
      && multiset(Contents(from.nodes)) == multiset(Contents(left)) + multiset(Contents(moved))
      && Total(from.nodes) == Total(left) + Total(moved)
  {
    var s, m := from.numNodes - n, from.numNodes;
    var a, moved, b := from.nodes[..s], from.nodes[s..m], from.nodes[m..];
    assert from.nodes == a + moved + b;
    ContentsOfSame(b, rest);
    hide AllSized;
    SizedParts(from.nodes, s, m);
    ContentsOfConcat(a, moved);
    ContentsOfConcat(a + moved, b);
    ContentsOfConcat(a, rest);
    TotalOfConcat(a, moved);
    TotalOfConcat(a + moved, b);
    TotalOfConcat(a, rest);
  }

  lemma SizedParts(nodes: seq<NodeState>, i: int, j: int)
    requires AllSized(nodes) && 0 <= i <= j <= |nodes|
    ensures AllSized(nodes[..i]) && AllSized(nodes[i..j]) && AllSized(nodes[j..])
  {}

  lemma JoinedContents(active: seq<NodeState>, moved: seq<NodeState>, inactive: seq<NodeState>, rest: seq<NodeState>)
    requires AllSized(active) && AllSized(moved) && AllSized(inactive) && SameButIndex(rest, inactive)
    ensures AllSized(active + inactive) && AllSized(Joined(active, moved, rest))
    ensures multiset(Contents(Joined(active, moved, rest)))
      == multiset(Contents(active + inactive)) + multiset(Contents(moved))
    ensures Total(Joined(active, moved, rest)) == Total(active + inactive) + Total(moved)
  {
    var a, m := MarkLast(active), Reindex(moved, |active|);
    SameParts(active, moved, inactive, rest);
    hide AllSized, Contents, Total, MarkLast, Reindex, SameButIndex;
    ContentsOfConcat(a, m);
    ContentsOfConcat(a + m, rest);
    ContentsOfConcat(active, inactive);
    TotalOfConcat(a, m);
    TotalOfConcat(a + m, rest);
    TotalOfConcat(active, inactive);
  }

  lemma SameParts(active: seq<NodeState>, moved: seq<NodeState>, inactive: seq<NodeState>, rest: seq<NodeState>)
    requires AllSized(active) && AllSized(moved) && AllSized(inactive) && SameButIndex(rest, inactive)
    ensures var a, m := MarkLast(active), Reindex(moved, |active|);
      && AllSized(a) && AllSized(m) && AllSized(rest)
      && Contents(a) == Contents(active) && Contents(m) == Contents(moved) && Contents(rest) == Contents(inactive)
      && Total(a) == Total(active) && Total(m) == Total(moved) && Total(rest) == Total(inactive)
  {
    var a, m := MarkLast(active), Reindex(moved, |active|);
    ContentsOfSame(active, a);
    ContentsOfSame(moved, m);
    ContentsOfSame(inactive, rest);
  }

  lemma TransferFromFacts(n: int, from: ListState)
    requires W(from) && 0 < n <= from.numNodes
    ensures CanTransfer(n, from) && W(TransferFrom(n, from))
    ensures AllSized(from.nodes) && AllSized(TransferFrom(n, from).nodes) && AllSized(Moved(n, from))
    ensures Bag(from) == Bag(TransferFrom(n, from)) + multiset(Contents(Moved(n, from)))
    ensures TransferFrom(n, from).numElements == from.numElements - Total(Moved(n, from))
  {
    hide AllFit, AllSized, FromRest, TransferFrom, Moved, SameButIndex, Contents, Total;
    WSized(from, -1);
    TailCloses(from);
    ZeroIndex(n, from);
    TransferFromShape(n, from);
    LeftFits(from, n, FromRest(n, from));
    LeftContents(from, n, FromRest(n, from));
  }

  lemma TransferToFacts(n: int, from: ListState, to: ListState)
    requires W(from) && W(to) && 0 < n <= from.numNodes
    ensures CanTransfer(n, from) && -1 <= to.tail < |to.nodes| && W(TransferTo(n, from, to))
    ensures AllSized(to.nodes) && AllSized(TransferTo(n, from, to).nodes) && AllSized(Moved(n, from))
    ensures Bag(TransferTo(n, from, to)) == Bag(to) + multiset(Contents(Moved(n, from)))
  {
    hide AllFit, AllSized, Joined, ToRest, TransferTo, TransferFrom, Moved, SameButIndex, Contents, Total;
    var m, rest := to.numNodes, ToRest(n, from, to);
    WSized(from, -1);
    WSized(to, -1);
    TailCloses(from);
    ZeroIndex(n, from);
    TransferFromShape(n, from);
    TransferToShape(n, from, to);
    JoinedFits(from, n, to, rest);
    SizedParts(from.nodes, from.numNodes - n, from.numNodes);
    SizedParts(to.nodes, m, m);
    assert to.nodes == to.nodes[..m] + to.nodes[m..];
    JoinedLength(to.nodes[..m], Moved(n, from), rest);
    JoinedContents(to.nodes[..m], Moved(n, from), to.nodes[m..], rest);
  }

  /** _transferNNodes keeps W on both lists, and moves exactly the contents of the last n active nodes
      of `from`: no node and no element is lost or duplicated. */
  lemma TransferKeepsW(n: int, from: ListState, to: ListState)
    requires W(from) && W(to) && 0 < n <= from.numNodes
    ensures W(TransferFrom(n, from)) && W(TransferTo(n, from, to))
    ensures var f, t := TransferFrom(n, from), TransferTo(n, from, to);
      && AllSized(from.nodes) && AllSized(to.nodes) && AllSized(f.nodes) && AllSized(t.nodes)
      && Bag(f) + Bag(t) == Bag(from) + Bag(to)
      && |f.nodes| + |t.nodes| == |from.nodes| + |to.nodes|
      && f.numNodes == from.numNodes - n && t.numNodes == to.numNodes + n
      && f.numElements + t.numElements == from.numElements + to.numElements
  {
    TransferFromFacts(n, from);
    TransferToFacts(n, from, to);
    TransferFromShape(n, from);
    TransferToShape(n, from, to);
    hide AllFit, AllSized, Contents, Bag;
    MoveParts(Bag(from), Bag(TransferFrom(n, from)), Bag(to), Bag(TransferTo(n, from, to)),
              multiset(Contents(Moved(n, from))));
  }

  /** `from` keeps its other active nodes; its inactive ones follow them, the first under index 0 when it
      becomes the head. */
  lemma TransferFromPlaces(n: int, from: ListState, i: int)
    requires W(from) && 0 < n <= from.numNodes && 0 <= i < |from.nodes| - n
    ensures CanTransfer(n, from) && |TransferFrom(n, from).nodes| == |from.nodes| - n
    ensures var left := from.numNodes - n;
      TransferFrom(n, from).nodes[i]
        == if i < left then from.nodes[i]
           else from.nodes[i + n].(index := if left == 0 && i == 0 then 0 else from.nodes[i + n].index)
  {
    hide WExcept, TransferFrom, Moved;
    TailCloses(from);
    TransferFromShape(n, from);
    assert i + n >= from.numNodes ==> from.nodes[from.numNodes..][i + n - from.numNodes] == from.nodes[i + n];
  }

  /** `to` keeps its active nodes with the last marked dirty, the moved ones follow in order under their
      new indices, then its inactive ones. */
  lemma TransferToPlaces(n: int, from: ListState, to: ListState, i: int)
    requires W(from) && W(to) && 0 < n <= from.numNodes && 0 <= i < |to.nodes| + n
    ensures CanTransfer(n, from) && -1 <= to.tail < |to.nodes| && |TransferTo(n, from, to).nodes| == |to.nodes| + n
    ensures var m := to.numNodes;
      TransferTo(n, from, to).nodes[i]
        == if i < m then to.nodes[i].(dirty := to.nodes[i].dirty || i == m - 1)
           else if i < m + n then from.nodes[from.numNodes - n + (i - m)].(index := i)
           else
             var first := m == 0 && i == n;
             to.nodes[i - n].(index := if first then from.nodes[from.numNodes - 1].index + 1 else to.nodes[i - n].index)
  {
    hide WExcept, Joined, TransferTo, TransferFrom, FromRest, SameButIndex;
    TailCloses(from);
    TailCloses(to);
    TransferFromShape(n, from);
    TransferToShape(n, from, to);
    JoinedPlace(to.nodes, to.numNodes, from.nodes, from.numNodes - n, n, ToRest(n, from, to), i);
    if i >= to.numNodes + n {
      ToRestAt(n, from, to, i - to.numNodes - n);
      JoinedAt(to.nodes[..to.numNodes], Moved(n, from), ToRest(n, from, to), i);
    }
  }

  lemma ToRestAt(n: int, from: ListState, to: ListState, j: int)
    requires CanTransfer(n, from) && from.numNodes == from.tail + 1 && 0 <= to.numNodes <= |to.nodes|
    requires 0 <= j < |to.nodes| - to.numNodes
    ensures |ToRest(n, from, to)| == |to.nodes| - to.numNodes
    ensures ToRest(n, from, to)[j] == to.nodes[to.numNodes + j].(index :=
      if to.numNodes == 0 && j == 0 then from.nodes[from.numNodes - 1].index + 1 else to.nodes[to.numNodes + j].index)
  {
    assert Moved(n, from)[n - 1] == from.nodes[from.tail];
  }

  lemma MoveParts(a: multiset<Element>, a': multiset<Element>, b: multiset<Element>, b': multiset<Element>,
                  m: multiset<Element>)
    requires a == a' + m && b' == b + m
    ensures a' + b' == a + b
  {}

  lemma TailCloses(from: ListState)
    requires W(from)
    ensures 0 <= from.numNodes <= |from.nodes| && -1 <= from.tail < |from.nodes|
    ensures from.numNodes > 0 ==> from.numNodes == from.tail + 1
  {}

  lemma ZeroIndex(n: int, from: ListState)
    requires 0 < n <= from.numNodes == from.tail + 1 <= |from.nodes|
    ensures var f := TransferFrom(n, from);
      f.tail == (if f.numNodes > 0 then f.numNodes - 1 else if f.nodes == [] then -1 else 0)
      && (f.numNodes == 0 && f.nodes != [] ==> f.nodes[0].index == 0)
  {
    hide Total, Moved;
    var rest := from.nodes[from.numNodes..];
    if n == from.numNodes {
      assert TransferFrom(n, from).nodes == SetIndex(rest, 0);
    }
  }
}
