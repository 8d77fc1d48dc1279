/** One thread's pass over its list: src/pumakernel.c:14-64. */
module KernelWalk {
  import opened Bits
  import opened ListModel
  import opened Compaction

  /** The per-thread extra data, and a kernel as what it makes of an element and of that data. */
  type Extra = seq<bv8>
  type Kernel = (Element, Extra) -> (Element, Extra)

  /** Applying a kernel to elements one after the other. */
  function Apply(kernel: Kernel, xs: seq<Element>, e: Extra): (r: (seq<Element>, Extra))
    ensures |r.0| == |xs|
  {
    if xs == [] then ([], e)
    else
      var first := kernel(xs[0], e);
      var rest := Apply(kernel, xs[1..], first.1);
      ([first.0] + rest.0, rest.1)
  }

  lemma {:induction false} ApplyConcat(kernel: Kernel, a: seq<Element>, b: seq<Element>, e: Extra)
    ensures Apply(kernel, a + b, e).0 == Apply(kernel, a, e).0 + Apply(kernel, b, Apply(kernel, a, e).1).0
    ensures Apply(kernel, a + b, e).1 == Apply(kernel, b, Apply(kernel, a, e).1).1
  {
    if a == [] {
      assert a + b == b;
    } else {
      assert (a + b)[1..] == a[1..] + b;
      ApplyConcat(kernel, a[1..], b, kernel(a[0], e).1);
    }
  }

  /** How far _runKernelOnNode gets: to the first hole. */
  function LeadingRun(n: NodeState): (p: nat)
    ensures p <= |n.free|
  {
    FirstIndex(n.free, true)
  }

  /** Node k after the kernel has run over its leading used slots. */
  function RunOnNode(l: ListState, k: int, kernel: Kernel, e: Extra): ListState
    requires InRange(l, k) && Sized(l.nodes[k])
  {
    var n := l.nodes[k];
    var p := LeadingRun(n);
    l.(nodes := l.nodes[k := n.(slots := Apply(kernel, n.slots[..p], e).0 + n.slots[p..])])
  }

  datatype WalkResult = WalkResult(list: ListState, extra: Extra, visited: seq<Element>)

  /** The node to run on, compacted first when it is dirty. */
  function Cleaned(l: ListState, k: int): ListState
    requires W(l) && 0 <= k < l.numNodes
  {
    if l.nodes[k].dirty then IsCleanable(l, k); CleanupNode(l, k) else l
  }

  /** The loop of _runKernelThread from node k on, done elements into a budget of limit. visited lists
      the elements handed to the kernel, as they were, in order. */
  function Walk(l: ListState, k: int, done: int, limit: int, kernel: Kernel, e: Extra): WalkResult
    requires W(l) && 0 <= k <= |l.nodes|
    decreases |l.nodes| - k
  {
    if k == |l.nodes| || !l.nodes[k].active || done >= limit then WalkResult(l, e, [])
    else
      ActiveMeansCounted(l, -1, k);
      CleanedFacts(l, k);
      var c := Cleaned(l, k);
      var xs := c.nodes[k].slots[..LeadingRun(c.nodes[k])];
      RunFacts(c, k, kernel, e);
      var rest := Walk(RunOnNode(c, k, kernel, e), k + 1, done + |xs|, limit, kernel, Apply(kernel, xs, e).1);
      WalkResult(rest.list, rest.extra, xs + rest.visited)
  }

  /** _runKernelThread on a whole list. */
  function RunKernel(l: ListState, kernel: Kernel, e: Extra): WalkResult
    requires W(l)
  {
    Walk(l, 0, 0, l.numElements, kernel, e)
  }

  // ----- One node -----

  lemma IsCleanable(l: ListState, k: int)
    requires W(l) && 0 <= k < l.numNodes
    ensures Cleanable(l, k)
  {
    assert forall i :: 0 <= i < |l.nodes| ==> Fits(l.nodes[i], i, l.numNodes, -1) && Fits(l.nodes[i], i, l.numNodes, k);
  }

  /** The node about to be run on has no holes, and is full unless nothing follows it. */
  predicate Prepared(c: ListState, k: int) {
    && InRange(c, k) && Sized(c.nodes[k]) && UsedPrefix(c.nodes[k], c.nodes[k].numElements)
    && 0 <= c.nodes[k].numElements <= Capacity(c.nodes[k])
    && (Full(c.nodes[k]) || forall i :: k < i < |c.nodes| ==> c.nodes[i].numElements == 0)
  }

  lemma CleanedFacts(l: ListState, k: int)
    requires W(l) && 0 <= k < l.numNodes
    ensures W(Cleaned(l, k)) && Prepared(Cleaned(l, k), k) && EarlierKept(Cleaned(l, k), l, k)
    ensures k < |Cleaned(l, k).nodes| <= |l.nodes|
    ensures AllSized(l.nodes) && AllSized(Cleaned(l, k).nodes) && Bag(Cleaned(l, k)) == Bag(l)
  {
    hide CleanupNode, Contents;
    if l.nodes[k].dirty {
      IsCleanable(l, k);
      CleanupFacts(l, k);
      NodeAtOk(CleanupNode(l, k), k);
    } else {
      WSized(l, -1);
      NodeAtOk(l, k);
      AllActive(l, -1);
      assert Fits(l.nodes[k], k, l.numNodes, -1);
      InactiveAreEmpty(l, -1);
    }
  }

  lemma NodeAtOk(l: ListState, k: int)
    requires W(l) && InRange(l, k)
    ensures NodeOk(l.nodes[k])
  {
    assert Fits(l.nodes[k], k, l.numNodes, -1);
  }

  lemma RunFits(n: NodeState, slots: seq<Element>, i: int, m: int)
    requires Fits(n, i, m, -1) && |slots| == |n.slots|
    ensures Fits(n.(slots := slots), i, m, -1)
  {}

  /** Running a kernel on a node changes bytes only. */
  lemma RunFacts(c: ListState, k: int, kernel: Kernel, e: Extra)
    requires W(c) && InRange(c, k) && Sized(c.nodes[k])
    ensures W(RunOnNode(c, k, kernel, e)) && |RunOnNode(c, k, kernel, e).nodes| == |c.nodes|
  {
    var d := RunOnNode(c, k, kernel, e);
    RunFits(c.nodes[k], d.nodes[k].slots, k, c.numNodes);
    hide Fits;
    TotalOfUpdate(c.nodes, k, d.nodes[k]);
  }

  lemma RunLive(c: ListState, k: int, kernel: Kernel, e: Extra)
    requires Prepared(c, k)
    ensures LeadingRun(c.nodes[k]) == c.nodes[k].numElements
    ensures var n := c.nodes[k]; var n' := RunOnNode(c, k, kernel, e).nodes[k];
      && Live(n.free, n.slots) == n.slots[..n.numElements] && |n'.slots| == |n.slots|
      && Live(n'.free, n'.slots) == Apply(kernel, n.slots[..n.numElements], e).0
  {
    var n, n' := c.nodes[k], RunOnNode(c, k, kernel, e).nodes[k];
    assert n.numElements < |n.free| ==> n.free[n.numElements];
    assert LeadingRun(n) == n.numElements;
    LiveOfPrefix(n.free, n.slots, n.numElements);
    LiveOfPrefix(n'.free, n'.slots, n.numElements);
    assert n'.slots[..n.numElements] == Apply(kernel, n.slots[..n.numElements], e).0;
  }

  // ----- The whole walk -----

  /** Where the walk stands: everything before node k is full, or everything has been done. */
  predicate WalkedTo(l: ListState, k: int, done: int) {
    && W(l) && 0 <= k <= |l.nodes| && done == Total(l.nodes[..k])
    && (done == l.numElements || forall i :: 0 <= i < k ==> Full(l.nodes[i]))
  }

  lemma SplitAt(l: ListState, k: int)
    requires W(l) && 0 <= k <= |l.nodes|
    ensures AllSized(l.nodes) && AllSized(l.nodes[..k]) && AllSized(l.nodes[k..])
    ensures Contents(l.nodes) == Contents(l.nodes[..k]) + Contents(l.nodes[k..])
    ensures l.numElements == Total(l.nodes[..k]) + |Contents(l.nodes[k..])|
  {
    WSized(l, -1);
    AllNodesOk(l, -1);
    assert l.nodes == l.nodes[..k] + l.nodes[k..];
    ContentsOfConcat(l.nodes[..k], l.nodes[k..]);
    TotalOfConcat(l.nodes[..k], l.nodes[k..]);
    TotalIsLength(l.nodes[k..]);
  }

  /** Compacting node k leaves the nodes before it, all full, exactly as they were. */
  lemma CleanedPrefix(l: ListState, k: int)
    requires W(l) && 0 <= k < l.numNodes && forall i :: 0 <= i < k ==> Full(l.nodes[i])
    ensures InRange(Cleaned(l, k), k) && Cleaned(l, k).nodes[..k] == l.nodes[..k]
  {
    CleanedFacts(l, k);
    var c := Cleaned(l, k);
    hide Cleaned;
    AllActive(l, -1);
    AllNodesOk(l, -1);
    InactiveAreEmpty(c, -1);
  }

  /** So the elements still to come are the same ones, possibly in another order. */
  lemma CleanedSuffix(l: ListState, k: int)
    requires W(l) && 0 <= k < l.numNodes && forall i :: 0 <= i < k ==> Full(l.nodes[i])
    ensures InRange(Cleaned(l, k), k) && AllSized(l.nodes[k..]) && AllSized(Cleaned(l, k).nodes[k..])
    ensures multiset(Contents(Cleaned(l, k).nodes[k..])) == multiset(Contents(l.nodes[k..]))
  {
    CleanedFacts(l, k);
    CleanedPrefix(l, k);
    var c := Cleaned(l, k);
    hide Cleaned, AllFit;
    SplitAt(l, k);
    SplitAt(c, k);
    SameSuffix(multiset(Contents(l.nodes[..k])), multiset(Contents(c.nodes[k..])), multiset(Contents(l.nodes[k..])));
  }

  lemma SameSuffix(p: multiset<Element>, a: multiset<Element>, b: multiset<Element>)
    requires p + a == p + b
    ensures a == b
  {
    forall x ensures a[x] == b[x] {
      assert (p + a)[x] == (p + b)[x];
    }
  }

  lemma TotalOfPrefix(l: ListState, k: int)
    requires W(l) && 0 <= k < |l.nodes|
    ensures Total(l.nodes[..k + 1]) == Total(l.nodes[..k]) + l.nodes[k].numElements
  {
    assert l.nodes[..k + 1] == l.nodes[..k] + [l.nodes[k]];
    TotalOfOne(l.nodes[k]);
    TotalOfConcat(l.nodes[..k], [l.nodes[k]]);
  }

  lemma RestIsEmpty(l: ListState, k: int)
    requires W(l) && 0 <= k <= |l.nodes| && forall i :: k <= i < |l.nodes| ==> l.nodes[i].numElements == 0
    ensures Total(l.nodes[..k]) == l.numElements && AllSized(l.nodes[k..]) && Contents(l.nodes[k..]) == []
  {
    SplitAt(l, k);
    AllNodesOk(l, -1);
    var rest := l.nodes[k..];
    assert forall i :: 0 <= i < |rest| ==> rest[i] == l.nodes[k + i];
    ContentsOfEmpty(rest);
  }

  /** After node k has been prepared and run on, the walk stands at k + 1, and node k holds what the
      kernel made of its elements. */
  lemma StepFacts(l: ListState, k: int, kernel: Kernel, e: Extra)
    requires W(l) && 0 <= k < l.numNodes && forall i :: 0 <= i < k ==> Full(l.nodes[i])
    ensures InRange(Cleaned(l, k), k) && Sized(Cleaned(l, k).nodes[k])
    ensures var c := Cleaned(l, k); var n := c.nodes[k]; var d := RunOnNode(c, k, kernel, e);
      && LeadingRun(n) == n.numElements && d.numElements == c.numElements == l.numElements
      && WalkedTo(d, k + 1, Total(l.nodes[..k]) + n.numElements)
  {
    hide Cleaned, CleanupNode, AllFit, AllSized, Contents, UsedPrefix, EarlierKept, Live, Apply;
    CleanedFacts(l, k);
    CleanedPrefix(l, k);
    var c := Cleaned(l, k);
    SameBagSameCount(l, c);
    RunFacts(c, k, kernel, e);
    RunLive(c, k, kernel, e);
    var d := RunOnNode(c, k, kernel, e);
    assert forall i :: 0 <= i < k ==> c.nodes[i] == c.nodes[..k][i] == l.nodes[i];
    StandsAtNext(c, d, k);
  }

  lemma StandsAtNext(c: ListState, d: ListState, k: int)
    requires W(d) && Prepared(c, k) && |d.nodes| == |c.nodes| && forall i :: 0 <= i < k ==> Full(c.nodes[i])
    requires forall i :: 0 <= i < |c.nodes| ==>
      d.nodes[i].numElements == c.nodes[i].numElements && |d.nodes[i].free| == |c.nodes[i].free|
    ensures WalkedTo(d, k + 1, Total(c.nodes[..k]) + c.nodes[k].numElements)
  {
    TotalOfPrefix(d, k);
    TotalOfSame(d.nodes[..k], c.nodes[..k]);
    if !Full(c.nodes[k]) { RestIsEmpty(d, k + 1); }
  }

  /** The elements of node k and those after it, before and after the kernel has run on node k. */
  lemma StepContents(l: ListState, k: int, kernel: Kernel, e: Extra)
    requires W(l) && 0 <= k < l.numNodes && forall i :: 0 <= i < k ==> Full(l.nodes[i])
    ensures InRange(Cleaned(l, k), k) && Sized(Cleaned(l, k).nodes[k])
    ensures var c := Cleaned(l, k); var d := RunOnNode(c, k, kernel, e);
      var xs := c.nodes[k].slots[..LeadingRun(c.nodes[k])];
      && AllSized(l.nodes[..k]) && AllSized(l.nodes[k..]) && AllSized(d.nodes[..k + 1]) && AllSized(d.nodes[k + 1..])
      && Contents(d.nodes[..k + 1]) == Contents(l.nodes[..k]) + Apply(kernel, xs, e).0
      && multiset(Contents(l.nodes[k..])) == multiset(xs) + multiset(Contents(d.nodes[k + 1..]))
  {
    hide Cleaned, CleanupNode, AllFit, UsedPrefix, EarlierKept, Live, Contents;
    CleanedFacts(l, k);
    CleanedPrefix(l, k);
    CleanedSuffix(l, k);
    var c := Cleaned(l, k);
    RunFacts(c, k, kernel, e);
    RunLive(c, k, kernel, e);
    var d := RunOnNode(c, k, kernel, e);
    SplitAt(l, k);
    SplitAt(d, k + 1);
    SplitAt(c, k);
    HeadAndRest(c.nodes, k);
    LastOfPrefix(d.nodes, k);
    assert d.nodes[..k] == l.nodes[..k] && d.nodes[k + 1..] == c.nodes[k + 1..];
  }

  lemma HeadAndRest(nodes: seq<NodeState>, k: nat)
    requires AllSized(nodes) && k < |nodes|
    ensures AllSized(nodes[k..]) && AllSized(nodes[k + 1..])
    ensures Contents(nodes[k..]) == Live(nodes[k].free, nodes[k].slots) + Contents(nodes[k + 1..])
  {
    assert nodes[k..] == [nodes[k]] + nodes[k + 1..];
    ContentsOfOne(nodes[k]);
    ContentsOfConcat([nodes[k]], nodes[k + 1..]);
  }

  lemma LastOfPrefix(nodes: seq<NodeState>, k: nat)
    requires AllSized(nodes) && k < |nodes|
    ensures AllSized(nodes[..k]) && AllSized(nodes[..k + 1])
    ensures Contents(nodes[..k + 1]) == Contents(nodes[..k]) + Live(nodes[k].free, nodes[k].slots)
  {
    assert nodes[..k + 1] == nodes[..k] + [nodes[k]];
    ContentsOfOne(nodes[k]);
    ContentsOfConcat(nodes[..k], [nodes[k]]);
  }

  /** r is a walk over the nodes of l from k on that handed each of their elements to the kernel once, and
      whose list reads, in order, the elements before node k and what the kernel made of the others. */
  predicate WalkedAll(l: ListState, k: int, r: WalkResult, kernel: Kernel, e: Extra) {
    && 0 <= k <= |l.nodes| && W(r.list) && r.list.numElements == l.numElements
    && AllSized(l.nodes[..k]) && AllSized(l.nodes[k..]) && AllSized(r.list.nodes)
    && multiset(r.visited) == multiset(Contents(l.nodes[k..]))
    && Contents(r.list.nodes) == Contents(l.nodes[..k]) + Apply(kernel, r.visited, e).0
    && r.extra == Apply(kernel, r.visited, e).1
  }

  lemma NothingLeft(l: ListState, k: int, done: int, kernel: Kernel, e: Extra)
    requires WalkedTo(l, k, done) && (k == |l.nodes| || !l.nodes[k].active || done >= l.numElements)
    ensures WalkedAll(l, k, WalkResult(l, e, []), kernel, e)
  {
    hide AllFit, AllSized, Contents, Live;
    SplitAt(l, k);
    WalkEnds(l, k, done);
    WSized(l, -1);
    assert Apply(kernel, [], e) == ([], e);
  }

  lemma OneNodeMore(l: ListState, k: int, d: ListState, xs: seq<Element>, rest: WalkResult, kernel: Kernel, e: Extra)
    requires 0 <= k < |l.nodes| && d.numElements == l.numElements
    requires WalkedAll(d, k + 1, rest, kernel, Apply(kernel, xs, e).1) && AllSized(l.nodes[..k])
    requires AllSized(l.nodes[k..])
    requires Contents(d.nodes[..k + 1]) == Contents(l.nodes[..k]) + Apply(kernel, xs, e).0
    requires multiset(Contents(l.nodes[k..])) == multiset(xs) + multiset(Contents(d.nodes[k + 1..]))
    ensures WalkedAll(l, k, WalkResult(rest.list, rest.extra, xs + rest.visited), kernel, e)
  {
    hide WExcept, AllSized, Contents, Apply;
    Chain(kernel, Contents(l.nodes[..k]), xs, rest.visited, e, Contents(l.nodes[k..]), Contents(d.nodes[k + 1..]));
  }

  /** From node k on, the walk hands every element still to come to the kernel exactly once. */
  lemma {:induction false} WalkFacts(l: ListState, k: int, done: int, kernel: Kernel, e: Extra)
    requires WalkedTo(l, k, done)
    ensures WalkedAll(l, k, Walk(l, k, done, l.numElements, kernel, e), kernel, e)
    decreases |l.nodes| - k
  {
    hide Cleaned, RunOnNode, CleanupNode, AllFit, AllSized, Contents, Live, Prepared, EarlierKept, Apply, WalkedAll;
    if k == |l.nodes| || !l.nodes[k].active || done >= l.numElements {
      NothingLeft(l, k, done, kernel, e);
    } else {
      ActiveMeansCounted(l, -1, k);
      CleanedFacts(l, k);
      StepFacts(l, k, kernel, e);
      StepContents(l, k, kernel, e);
      var c := Cleaned(l, k);
      var xs := c.nodes[k].slots[..LeadingRun(c.nodes[k])];
      var d := RunOnNode(c, k, kernel, e);
      RunFacts(c, k, kernel, e);
      WalkFacts(d, k + 1, done + |xs|, kernel, Apply(kernel, xs, e).1);
      var rest := Walk(d, k + 1, done + |xs|, l.numElements, kernel, Apply(kernel, xs, e).1);
      OneNodeMore(l, k, d, xs, rest, kernel, e);
    }
  }

  /** One node's visits followed by the rest of the walk. */
  lemma Chain(kernel: Kernel, before: seq<Element>, xs: seq<Element>, vs: seq<Element>, e: Extra,
              pending: seq<Element>, later: seq<Element>)
    requires multiset(pending) == multiset(xs) + multiset(later) && multiset(vs) == multiset(later)
    ensures multiset(xs + vs) == multiset(pending)
    ensures (before + Apply(kernel, xs, e).0) + Apply(kernel, vs, Apply(kernel, xs, e).1).0
      == before + Apply(kernel, xs + vs, e).0
    ensures Apply(kernel, xs + vs, e).1 == Apply(kernel, vs, Apply(kernel, xs, e).1).1
  {
    ApplyConcat(kernel, xs, vs, e);
    Associative(before, Apply(kernel, xs, e).0, Apply(kernel, vs, Apply(kernel, xs, e).1).0);
  }

  /** When the loop stops, nothing is left in node k or after it. */
  lemma WalkEnds(l: ListState, k: int, done: int)
    requires WalkedTo(l, k, done)
    requires k == |l.nodes| || !l.nodes[k].active || done >= l.numElements
    ensures AllSized(l.nodes[k..]) && Contents(l.nodes[k..]) == []
  {
    SplitAt(l, k);
    if k < |l.nodes| && !l.nodes[k].active {
      ActiveMeansCounted(l, -1, k);
      InactiveAreEmpty(l, -1);
      RestIsEmpty(l, k);
    }
  }

  /** One pass of a kernel over a list: each live element is handed to it exactly once and nothing
      else is, W holds afterwards, and the list then reads what the kernel returned, call by call. */
  lemma RunKernelVisitsAll(l: ListState, kernel: Kernel, e: Extra)
    requires W(l)
    ensures var r := RunKernel(l, kernel, e);
      && W(r.list) && r.list.numElements == l.numElements
      && AllSized(l.nodes) && AllSized(r.list.nodes)
      && multiset(r.visited) == Bag(l)
      && Contents(r.list.nodes) == Apply(kernel, r.visited, e).0
      && r.extra == Apply(kernel, r.visited, e).1
  {
    WSized(l, -1);
    assert l.nodes[..0] == [] && l.nodes[0..] == l.nodes;
    WalkFacts(l, 0, 0, kernel, e);
    assert Contents(l.nodes[..0]) == [];
  }

  /** The loop of _runKernelOnNode stops at the first hole, so it reaches every live element of a node
      exactly when the node has no holes. */
  lemma ReachesAllIff(n: NodeState)
    requires NodeOk(n)
    ensures LeadingRun(n) <= n.numElements
    ensures LeadingRun(n) == n.numElements <==> UsedPrefix(n, n.numElements)
  {
    var p := LeadingRun(n);
    CountFromPrefix(n.free, p);
    if UsedPrefix(n, n.numElements) {
      assert n.numElements < |n.free| ==> n.free[n.numElements];
    }
  }

  /** At least p used slots, and no more exactly when nothing is used after them. */
  lemma {:induction false} CountFromPrefix(free: seq<bool>, p: nat)
    requires p <= |free| && forall j :: 0 <= j < p ==> !free[j]
    ensures Count(free, false) >= p
    ensures Count(free, false) == p <==> forall j :: p <= j < |free| ==> free[j]
  {
    if p < |free| {
      var n := |free| - 1;
      CountFromPrefix(free[..n], p);
      assert forall j :: p <= j < n ==> free[..n][j] == free[j];
    } else {
      CountExtremes(free, false);
    }
  }

  lemma ApplySnoc(kernel: Kernel, xs: seq<Element>, x: Element, e: Extra)
    ensures Apply(kernel, xs + [x], e).0 == Apply(kernel, xs, e).0 + [kernel(x, Apply(kernel, xs, e).1).0]
    ensures Apply(kernel, xs + [x], e).1 == kernel(x, Apply(kernel, xs, e).1).1
  {
    ApplyConcat(kernel, xs, [x], e);
    var e1 := Apply(kernel, xs, e).1;
    assert [x][1..] == [];
    assert Apply(kernel, [x], e1).0 == [kernel(x, e1).0] + Apply(kernel, [], kernel(x, e1).1).0;
  }

  /** One turn of the walk. */
  lemma WalkTurn(l: ListState, k: int, done: int, limit: int, kernel: Kernel, e: Extra)
    requires W(l) && 0 <= k < |l.nodes| && l.nodes[k].active && done < limit
    ensures k < l.numNodes && InRange(Cleaned(l, k), k) && NodeOk(Cleaned(l, k).nodes[k])
    ensures var c := Cleaned(l, k); var d := RunOnNode(c, k, kernel, e);
      var xs := c.nodes[k].slots[..LeadingRun(c.nodes[k])];
      && W(d) && |d.nodes| == |c.nodes| <= |l.nodes|
      && var rest := Walk(d, k + 1, done + |xs|, limit, kernel, Apply(kernel, xs, e).1);
         Walk(l, k, done, limit, kernel, e) == WalkResult(rest.list, rest.extra, xs + rest.visited)
  {
    hide WExcept, Prepared, EarlierKept, RunOnNode, CleanupNode, Contents;
    ActiveMeansCounted(l, -1, k);
    CleanedFacts(l, k);
    NodeAtOk(Cleaned(l, k), k);
    RunFacts(Cleaned(l, k), k, kernel, e);
  }
}
