/** The abstract value of a thread list (include/internal/pumanode.h, include/internal/pumathreadlist.h)
    and the invariant W that its operations rely on. Positions count nodes from the head. */
module ListModel {
  import opened Bits

  /** The bytes of one element. */
  type Element = seq<bv8>

  /** free mirrors freeMask: true where the slot is free. */
  datatype NodeState = NodeState(
    free: seq<bool>, slots: seq<Element>,
    numElements: int, firstKnownFree: int,
    dirty: bool, active: bool, index: int)

  /** tail is a position, -1 for NULL. */
  datatype ListState = ListState(nodes: seq<NodeState>, tail: int, numNodes: int, numElements: int)

  function Capacity(n: NodeState): nat { |n.free| }

  /** The live contents of one node, in slot order. */
  function Live(free: seq<bool>, slots: seq<Element>): (r: seq<Element>)
    requires |free| == |slots|
    ensures |r| == Count(free, false)
  {
    if free == [] then []
    else
      var n := |free| - 1;
      Live(free[..n], slots[..n]) + if free[n] then [] else [slots[n]]
  }

  /** The mask and the slots agree in length. */
  predicate Sized(n: NodeState) { |n.free| == |n.slots| }

  predicate AllSized(nodes: seq<NodeState>) { forall i :: 0 <= i < |nodes| ==> Sized(nodes[i]) }

  /** The live contents of a run of nodes, in list order. */
  function Contents(nodes: seq<NodeState>): seq<Element>
    requires AllSized(nodes)
  {
    if nodes == [] then []
    else
      var n := |nodes| - 1;
      Contents(nodes[..n]) + Live(nodes[n].free, nodes[n].slots)
  }

  function Total(nodes: seq<NodeState>): int {
    if nodes == [] then 0 else Total(nodes[..|nodes| - 1]) + nodes[|nodes| - 1].numElements
  }

  // ----- The invariant -----

  predicate NodeOk(n: NodeState) {
    Capacity(n) > 0 && Sized(n) && n.numElements == Count(n.free, false)
  }

  predicate UsedPrefix(n: NodeState, m: int) {
    forall j :: 0 <= j < |n.free| ==> (n.free[j] <==> m <= j)
  }

  /** Nothing is used at or above firstKnownFree, and a node that is not dirty has no holes. */
  predicate Tidy(n: NodeState) {
    && 0 <= n.firstKnownFree <= |n.free|
    && (forall j :: n.firstKnownFree <= j < |n.free| ==> n.free[j])
    && (!n.dirty ==> n.firstKnownFree == n.numElements && UsedPrefix(n, n.numElements))
  }

  predicate Full(n: NodeState) { n.numElements == Capacity(n) }

  /** What node i of a list with m active nodes satisfies; x is the one node not asked to be Tidy. */
  predicate Fits(n: NodeState, i: int, m: int, x: int) {
    && NodeOk(n)
    && (i != x ==> Tidy(n))
    && (n.active <==> i < m)
    && (i < m ==> n.index == i)
    && (i >= m ==> n.numElements == 0)
    && (i < m - 1 ==> Full(n) || n.dirty)
  }

  predicate AllFit(nodes: seq<NodeState>, m: int, x: int) {
    forall i :: 0 <= i < |nodes| ==> Fits(nodes[i], i, m, x)
  }

  /** The list invariant, not asking position x to be Tidy: the node that _cleanupNode is working on.
      Active nodes are the first numNodes ones, inactive ones are empty, tail is the last active node or,
      when there is none, the inactive head, and every active node before the tail is full or dirty. */
  predicate WExcept(l: ListState, x: int) {
    && 0 <= l.numNodes <= |l.nodes|
    && AllFit(l.nodes, l.numNodes, x)
    && l.tail == (if l.numNodes > 0 then l.numNodes - 1 else if l.nodes == [] then -1 else 0)
    && (l.numNodes == 0 && l.nodes != [] ==> l.nodes[0].index == 0)
    && l.numElements == Total(l.nodes)
  }

  predicate W(l: ListState) { WExcept(l, -1) }

  /** A zeroed list. */
  const EMPTY := ListState([], -1, 0, 0)

  /** The live contents of a list as a multiset: what moving elements must not change. */
  function Bag(l: ListState): multiset<Element>
    requires AllSized(l.nodes)
  {
    multiset(Contents(l.nodes))
  }

  // ----- Facts about contents -----

  lemma {:induction false} LiveAlloc(free: seq<bool>, slots: seq<Element>, i: nat, x: Element)
    requires |free| == |slots| && i < |free| && free[i]
    ensures multiset(Live(free[i := false], slots[i := x])) == multiset(Live(free, slots)) + multiset{x}
  {
    var n := |free| - 1;
    if i == n {
      assert free[i := false][..n] == free[..n] && slots[i := x][..n] == slots[..n];
    } else {
      assert free[i := false][..n] == free[..n][i := false] && slots[i := x][..n] == slots[..n][i := x];
      LiveAlloc(free[..n], slots[..n], i, x);
    }
  }

  lemma LiveFree(free: seq<bool>, slots: seq<Element>, i: nat)
    requires |free| == |slots| && i < |free| && !free[i]
    ensures multiset(Live(free, slots)) == multiset(Live(free[i := true], slots)) + multiset{slots[i]}
  {
    LiveAlloc(free[i := true], slots, i, slots[i]);
    assert free[i := true][i := false] == free && slots[i := slots[i]] == slots;
  }

  /** The first m slots are the live ones: they are read off in order. */
  lemma {:induction false} LiveOfPrefix(free: seq<bool>, slots: seq<Element>, m: nat)
    requires |free| == |slots| && m <= |free|
    requires forall j :: 0 <= j < |free| ==> (free[j] <==> m <= j)
    ensures Live(free, slots) == slots[..m]
  {
    if free != [] {
      var n := |free| - 1;
      LiveOfPrefix(free[..n], slots[..n], if m > n then n else m);
      assert m > n ==> slots[..m] == slots[..n] + [slots[n]];
      assert m <= n ==> slots[..n][..m] == slots[..m];
    }
  }

  lemma {:induction false} TotalOfConcat(a: seq<NodeState>, b: seq<NodeState>)
    ensures Total(a + b) == Total(a) + Total(b)
  {
    if b == [] {
      assert a + b == a;
    } else {
      TotalOfConcat(a, b[..|b| - 1]);
      assert (a + b)[..|a + b| - 1] == a + b[..|b| - 1];
    }
  }

  lemma SizedConcat(a: seq<NodeState>, b: seq<NodeState>)
    requires AllSized(a) && AllSized(b)
    ensures AllSized(a + b)
  {}

  lemma SizedPrefix(a: seq<NodeState>)
    requires AllSized(a) && a != []
    ensures AllSized(a[..|a| - 1]) && Sized(a[|a| - 1])
  {}

  lemma {:induction false} ContentsOfConcat(a: seq<NodeState>, b: seq<NodeState>)
    requires AllSized(a) && AllSized(b)
    ensures AllSized(a + b)
    ensures Contents(a + b) == Contents(a) + Contents(b)
  {
    hide Live, AllSized, Sized;
    SizedConcat(a, b);
    if b == [] {
      assert a + b == a;
    } else {
      var s, m := a + b, b[..|b| - 1];
      SizedPrefix(b);
      ContentsOfConcat(a, m);
      assert s[..|s| - 1] == a + m && s[|s| - 1] == b[|b| - 1];
      Associative(Contents(a), Contents(m), Live(b[|b| - 1].free, b[|b| - 1].slots));
    }
  }

  lemma Associative(a: seq<Element>, b: seq<Element>, c: seq<Element>)
    ensures (a + b) + c == a + (b + c)
  {}

  lemma ContentsOfOne(n: NodeState)
    requires Sized(n)
    ensures Contents([n]) == Live(n.free, n.slots)
  {
    assert [n][..0] == [];
  }

  /** Changing one node changes the total by its count. */
  lemma TotalOfUpdate(nodes: seq<NodeState>, k: nat, n: NodeState)
    requires k < |nodes|
    ensures Total(nodes[k := n]) == Total(nodes) - nodes[k].numElements + n.numElements
  {
    var a, b := nodes[..k], nodes[k + 1..];
    assert nodes == a + [nodes[k]] + b && nodes[k := n] == a + [n] + b;
    TotalOfOne(n);
    TotalOfOne(nodes[k]);
    TotalOfConcat(a, [n]);
    TotalOfConcat(a, [nodes[k]]);
    TotalOfConcat(a + [n], b);
    TotalOfConcat(a + [nodes[k]], b);
  }

  lemma TotalOfOne(n: NodeState)
    ensures Total([n]) == n.numElements
  {
    assert [n][..0] == [];
  }

  /** Changing one node changes the contents in its own place. */
  lemma ContentsOfUpdate(nodes: seq<NodeState>, k: nat, n: NodeState)
    requires AllSized(nodes) && k < |nodes| && Sized(n)
    ensures AllSized(nodes[k := n])
    ensures Contents(nodes) == Contents(nodes[..k]) + Live(nodes[k].free, nodes[k].slots) + Contents(nodes[k + 1..])
    ensures Contents(nodes[k := n]) == Contents(nodes[..k]) + Live(n.free, n.slots) + Contents(nodes[k + 1..])
  {
    var a, b := nodes[..k], nodes[k + 1..];
    assert nodes == a + [nodes[k]] + b && nodes[k := n] == a + [n] + b;
    ContentsOfOne(n);
    ContentsOfOne(nodes[k]);
    ContentsOfConcat(a, [n]);
    ContentsOfConcat(a, [nodes[k]]);
    ContentsOfConcat(a + [n], b);
    ContentsOfConcat(a + [nodes[k]], b);
  }

  /** Nodes that differ only in bookkeeping hold the same contents. */
  lemma {:induction false} ContentsOfSame(a: seq<NodeState>, b: seq<NodeState>)
    requires AllSized(a) && |a| == |b|
    requires forall i :: 0 <= i < |a| ==>
      a[i].free == b[i].free && a[i].slots == b[i].slots && a[i].numElements == b[i].numElements
    ensures AllSized(b) && Contents(a) == Contents(b) && Total(a) == Total(b)
  {
    assert forall i :: 0 <= i < |a| ==> Sized(a[i]) ==> Sized(b[i]);
    if a != [] {
      var n := |a| - 1;
      ContentsOfSame(a[..n], b[..n]);
    }
  }

  /** A run of empty nodes contributes nothing. */
  lemma {:induction false} ContentsOfEmpty(nodes: seq<NodeState>)
    requires forall i :: 0 <= i < |nodes| ==> NodeOk(nodes[i]) && nodes[i].numElements == 0
    ensures AllSized(nodes) && Contents(nodes) == [] && Total(nodes) == 0
  {
    if nodes != [] {
      var n := |nodes| - 1;
      ContentsOfEmpty(nodes[..n]);
      assert |Live(nodes[n].free, nodes[n].slots)| == 0;
    }
  }

  /** The counters of a list add up to the length of its contents. */
  lemma {:induction false} TotalIsLength(nodes: seq<NodeState>)
    requires forall i :: 0 <= i < |nodes| ==> NodeOk(nodes[i])
    ensures AllSized(nodes) && Total(nodes) == |Contents(nodes)|
  {
    if nodes != [] {
      TotalIsLength(nodes[..|nodes| - 1]);
    }
  }

  lemma WSized(l: ListState, x: int)
    requires WExcept(l, x)
    ensures AllSized(l.nodes)
  {
    assert forall i :: 0 <= i < |l.nodes| ==> Fits(l.nodes[i], i, l.numNodes, x) && Sized(l.nodes[i]);
  }

  lemma AllNodesOk(l: ListState, x: int)
    requires WExcept(l, x)
    ensures forall i :: 0 <= i < |l.nodes| ==> NodeOk(l.nodes[i])
  {
    assert forall i :: 0 <= i < |l.nodes| ==> Fits(l.nodes[i], i, l.numNodes, x);
  }

  lemma {:induction false} TotalOfSame(a: seq<NodeState>, b: seq<NodeState>)
    requires |a| == |b| && forall i :: 0 <= i < |a| ==> a[i].numElements == b[i].numElements
    ensures Total(a) == Total(b)
  {
    if a != [] { TotalOfSame(a[..|a| - 1], b[..|b| - 1]); }
  }

  lemma SameBagSameCount(l: ListState, m: ListState)
    requires W(l) && W(m) && AllSized(l.nodes) && AllSized(m.nodes) && Bag(l) == Bag(m)
    ensures l.numElements == m.numElements
  {
    AllNodesOk(l, -1);
    AllNodesOk(m, -1);
    TotalIsLength(l.nodes);
    TotalIsLength(m.nodes);
    assert |Contents(l.nodes)| == |Bag(l)| && |Contents(m.nodes)| == |Bag(m)|;
  }
}
