/** The linked structure itself: nodes and thread lists as objects whose fields the operations update,
    each operation proved to do to the abstract list (ListModel) what its specification function says. */
module ThreadLists {
  import opened Bits
  import Layout
  import opened PackedMask
  import opened ListModel
  import opened Compaction
  import opened Allocation
  import Places
  import opened KernelWalk
  import Transfer

  const TWO_TO_THE_64: nat := 0x1_0000_0000_0000_0000

  /** Subtraction of size_t values. */
  function Minus(a: nat, b: nat): (r: nat)
    ensures b <= a < TWO_TO_THE_64 ==> r == a - b
    ensures b == a + 1 ==> r == TWO_TO_THE_64 - 1
  {
    (a - b) % TWO_TO_THE_64
  }

  class Node {
    const capacity: nat
    const freeMask: Bitmask
    const elementArray: array<Element>
    var numElements: nat
    var firstKnownFree: nat
    var next: Node?
    var prev: Node?
    var dirty: bool
    var active: bool
    var index: nat
    var threadList: ThreadList

    /** The block is laid out for its capacity. */
    ghost predicate Formed() {
      && freeMask.Valid() && capacity == freeMask.numElements == elementArray.Length && capacity > 0
      && freeMask.buckets as object != elementArray
    }

    /** The abstract value of this node is s. */
    ghost predicate Is(s: NodeState)
      reads this, freeMask.buckets, elementArray
    {
      && Formed()
      && freeMask.Bits() == s.free && elementArray[..] == s.slots
      && numElements == s.numElements && firstKnownFree == s.firstKnownFree
      && dirty == s.dirty && active == s.active && index == s.index
    }

    /** A node of which only links were written keeps its value. */
    twostate lemma Untouched(s: NodeState)
      requires old(Is(s)) && unchanged(freeMask.buckets) && unchanged(elementArray)
      requires numElements == old(numElements) && firstKnownFree == old(firstKnownFree)
        && dirty == old(dirty) && active == old(active) && index == old(index)
      ensures Is(s)
    {}

    /** A node of which only links, index and dirty flag were written. */
    twostate lemma Relabelled(s: NodeState)
      requires old(Is(s)) && unchanged(freeMask.buckets) && unchanged(elementArray)
      requires numElements == old(numElements) && firstKnownFree == old(firstKnownFree) && active == old(active)
      ensures Is(s.(dirty := dirty, index := index))
      ensures old(dirty) == s.dirty && old(index) == s.index
    {}

    /** A node of which only links and bookkeeping other than the count were written. */
    twostate lemma Rewritten(s: NodeState)
      requires old(Is(s)) && unchanged(freeMask.buckets) && unchanged(elementArray) && numElements == old(numElements)
      ensures Is(s.(firstKnownFree := firstKnownFree, dirty := dirty, active := active, index := index))
      ensures old(firstKnownFree) == s.firstKnownFree && old(dirty) == s.dirty
      ensures old(active) == s.active && old(index) == s.index
    {}

    /** src/pumakernel.c:14-37, with its size_t subtraction i - skippedElements that wraps below zero. */
    method RunKernelOnNode(kernel: Kernel, e: Extra, elementsDone: nat, numElementsLimit: nat, ghost n: NodeState)
      returns (e': Extra, elementsDone': nat)
      requires Is(n) && NodeOk(n) && elementsDone < numElementsLimit && capacity < TWO_TO_THE_64
      modifies elementArray
      ensures var xs := n.slots[..LeadingRun(n)];
        && elementArray[..] == Apply(kernel, xs, e).0 + n.slots[LeadingRun(n)..]
        && e' == Apply(kernel, xs, e).1 && elementsDone' == elementsDone + |xs|
    {
      hide Bitmask.Bits, Bitmask.Get, Minus;
      ReachesAllIff(n);
      ghost var p := LeadingRun(n);
      var skippedElements, originalElements, i := 0, numElements, 0;
      e' := e;
      assert n.slots[..0] == [] && Apply(kernel, [], e) == ([], e);
      while Minus(i, skippedElements) < originalElements && i < capacity && elementsDone < numElementsLimit
        invariant 0 <= i <= p && (i < p ==> skippedElements == 0) && 0 <= skippedElements <= i + 1
        invariant elementArray[..] == Apply(kernel, n.slots[..i], e).0 + n.slots[i..]
        invariant e' == Apply(kernel, n.slots[..i], e).1
        decreases capacity - i, i + 1 - skippedElements
      {
        if freeMask.Get(i) == MASK_FREE {
          skippedElements := skippedElements + 1;
          continue;
        }
        Advance(kernel, n.slots, i, e);
        var result := kernel(elementArray[i], e');
        elementArray[i] := result.0;
        e' := result.1;
        i := i + 1;
      }
      assert i == p;
      elementsDone' := elementsDone + i;
    }

    /** A block on which createPumaBitmaskForElemArray has laid out n elements; its memory is arbitrary. */
    constructor (n: nat, list: ThreadList, i: nat, before: Node?)
      requires n > 0
      ensures Formed() && capacity == n
      ensures fresh(freeMask.buckets) && fresh(elementArray)
      ensures Is(FreshNode(elementArray[..], i))
      ensures prev == before && next == null && threadList == list
    {
      capacity := n;
      var mask := new Bitmask(n, MASK_FREE);
      freeMask := mask;
      elementArray := new Element[n];
      numElements, firstKnownFree := 0, 0;
      prev, next := before, null;
      dirty, active := false, true;
      index := i;
      threadList := list;
      new;
    }
  }

  /** _appendPumaNode when the tail is active and has a successor. */
  lemma ReusedBy(l: ListState)
    requires 0 <= l.tail < |l.nodes| - 1 && l.nodes[l.tail].active
    ensures var k := l.tail + 1; var index := l.nodes[l.tail].index + 1;
      AppendNode(l, [])
        == l.(nodes := l.nodes[k := l.nodes[k].(active := true, index := index)], tail := k, numNodes := index + 1)
  {}

  lemma WalkDone(l: ListState, k: int, done: int, limit: int, kernel: Kernel, e: Extra)
    requires W(l) && 0 <= k <= |l.nodes| && (k == |l.nodes| || !l.nodes[k].active || done >= limit)
    ensures Walk(l, k, done, limit, kernel, e) == WalkResult(l, e, [])
  {}

  /** One more slot handed to the kernel. */
  lemma Advance(kernel: Kernel, slots: seq<Element>, i: nat, e: Extra)
    requires i < |slots|
    ensures var (ys, e1) := Apply(kernel, slots[..i], e);
      var (y, e2) := kernel(slots[i], e1);
      && (ys + slots[i..])[i] == slots[i]
      && Apply(kernel, slots[..i + 1], e) == (ys + [y], e2)
      && (ys + slots[i..])[i := y] == (ys + [y]) + slots[i + 1..]
  {
    assert slots[..i + 1] == slots[..i] + [slots[i]];
    ApplySnoc(kernel, slots[..i], slots[i], e);
  }

  /** The objects that a run of nodes is made of. */
  ghost function MemoryOf(ns: seq<Node>): set<object> {
    (set i | 0 <= i < |ns| :: ns[i] as object)
    + (set i | 0 <= i < |ns| :: ns[i].freeMask.buckets as object)
    + (set i | 0 <= i < |ns| :: ns[i].elementArray as object)
  }

  lemma MemoryOfPrefix(ns: seq<Node>, m: nat)
    requires m <= |ns|
    ensures MemoryOf(ns[..m]) <= MemoryOf(ns)
  {}

  lemma MemoryOfSnoc(ns: seq<Node>, n: Node)
    ensures MemoryOf(ns + [n]) == MemoryOf(ns) + {n, n.freeMask.buckets, n.elementArray}
  {
    var ms := ns + [n];
    assert ms[|ns|] == n && forall i :: 0 <= i < |ns| ==> ms[i] == ns[i];
    forall o | o in MemoryOf(ns) ensures o in MemoryOf(ms) {
      var i :| 0 <= i < |ns| && (o == ns[i] || o == ns[i].freeMask.buckets || o == ns[i].elementArray);
      assert ms[i] == ns[i];
    }
  }

  ghost function Present(n: Node?): set<Node> { if n == null then {} else {n} }

  /** Two nodes that share no memory. */
  ghost predicate Apart(a: Node, b: Node) {
    && a != b && a.freeMask.buckets != b.freeMask.buckets && a.elementArray != b.elementArray
    && a.freeMask.buckets as object != b.elementArray && a.elementArray as object != b.freeMask.buckets
  }

  class ThreadList {
    var head: Node?
    var tail: Node?
    var numElements: nat
    var numNodes: nat
    const nodeCapacity: nat      // elements a fresh node holds

    ghost var spine: seq<Node>   // the nodes from head along next
    ghost var st: ListState      // the abstract value

    ghost function Memory(): set<object>
      reads this
    {
      MemoryOf(spine)
    }

    /** No two nodes share memory. */
    ghost predicate Separate()
      reads this
    {
      forall i, j :: 0 <= i < |spine| && 0 <= j < |spine| && i != j ==> Apart(spine[i], spine[j])
    }

    /** The pointers of node i: next and prev are each other's inverse, and the node names its list. */
    ghost predicate LinkedAt(i: int)
      requires 0 <= i < |spine|
      reads this, spine[i]
    {
      && spine[i].threadList == this
      && spine[i].prev == (if i == 0 then null else spine[i - 1])
      && spine[i].next == (if i + 1 < |spine| then spine[i + 1] else null)
    }

    ghost predicate Linked()
      reads this, spine
    {
      forall i :: 0 <= i < |spine| ==> LinkedAt(i)
    }

    ghost predicate Abstracted()
      reads this, Memory()
    {
      |spine| == |st.nodes| && forall i :: 0 <= i < |spine| ==> spine[i].Is(st.nodes[i])
    }

    ghost predicate Valid()
      reads this, Memory()
    {
      && Separate() && Linked() && Abstracted()
      && -1 <= st.tail < |spine|
      && head == (if spine == [] then null else spine[0])
      && tail == (if st.tail < 0 then null else spine[st.tail])
      && numNodes == st.numNodes && numElements == st.numElements
    }

    /** A zeroed list for elements of elementSize bytes in blocks with arraySize bytes after the header. A block
        has room for an element exactly when the array is larger than one element and one mask word. */
    constructor (arraySize: nat, elementSize: nat)
      requires elementSize > 0
      ensures Valid() && st == EMPTY && spine == []
      ensures nodeCapacity == Layout.Capacity(arraySize, elementSize)
      ensures nodeCapacity > 0 <==> arraySize > elementSize + Layout.WORD
    {
      nodeCapacity := Layout.Capacity(arraySize, elementSize);
      head, tail := null, null;
      numElements, numNodes := 0, 0;
      spine, st := [], EMPTY;
      new;
      Layout.CapacityPositiveIff(arraySize, elementSize);
    }

    /** src/internal/alloc.c:11-32, its asserts being the preconditions. */
    method AllocElementOnNode(node: Node, i: nat, ghost k: nat)
      requires Valid() && k < |spine| && node == spine[k]
      requires node.active && i < node.capacity && node.freeMask.Get(i) == MASK_FREE
      modifies this`numElements, this`st, node`numElements, node.freeMask.buckets
      ensures Valid() && SlotInRange(old(st), k, i) && st == AllocAt(old(st), k, i)
    {
      hide Bitmask.Bits, Bitmask.Get;
      ghost var s := st.nodes[k];
      assert node.Is(s);
      node.freeMask.Set(i, MASK_NOT_FREE);
      assert node.freeMask.Bits() == s.free[i := false];
      node.numElements := node.numElements + 1;
      numElements := numElements + 1;
      st := AllocAt(st, k, i);
      OneNodeWritten(k);
    }

    /** Writing to node k and to the counters alone: the others keep their values and all links stand. */
    twostate lemma OneNodeWritten(k: nat)
      requires old(Valid()) && k < old(|spine|) && spine == old(spine) && head == old(head)
      requires forall j :: 0 <= j < |spine| && j != k ==>
        unchanged(spine[j], spine[j].freeMask.buckets, spine[j].elementArray)
      requires spine[k].next == old(spine[k].next) && spine[k].prev == old(spine[k].prev)
        && spine[k].threadList == old(spine[k].threadList)
      requires |st.nodes| == |old(st.nodes)| && spine[k].Is(st.nodes[k])
      requires forall j :: 0 <= j < |spine| && j != k ==> st.nodes[j] == old(st.nodes[j])
      requires -1 <= st.tail < |spine| && tail == (if st.tail < 0 then null else spine[st.tail])
      requires numNodes == st.numNodes && numElements == st.numElements
      ensures Valid()
    {
      hide Node.Is, Apart;
      OthersStand(k);
      LinksStand();
    }

    twostate lemma OthersStand(k: nat)
      requires k < old(|spine|) && spine == old(spine) && old(Abstracted())
      requires forall j :: 0 <= j < |spine| && j != k ==>
        unchanged(spine[j], spine[j].freeMask.buckets, spine[j].elementArray)
      requires |st.nodes| == |old(st.nodes)| && spine[k].Is(st.nodes[k])
      requires forall j :: 0 <= j < |spine| && j != k ==> st.nodes[j] == old(st.nodes[j])
      ensures Abstracted()
    {
      hide Node.Is;
      forall j | 0 <= j < |spine| ensures spine[j].Is(st.nodes[j]) {
        if j != k { spine[j].Untouched(st.nodes[j]); }
      }
    }

    twostate lemma LinksStand()
      requires spine == old(spine) && old(Linked())
      requires forall j :: 0 <= j < |spine| ==>
        && spine[j].next == old(spine[j].next) && spine[j].prev == old(spine[j].prev)
        && spine[j].threadList == old(spine[j].threadList)
      ensures Linked()
    {
      forall i | 0 <= i < |spine| ensures LinkedAt(i) {
        assert old(LinkedAt(i));
      }
    }

    /** Storing the bytes of an element: the memcpy of _cleanupNode, or the element's owner. */
    method WriteElement(node: Node, i: nat, x: Element, ghost k: nat)
      requires Valid() && k < |spine| && node == spine[k] && i < node.capacity
      modifies this`st, node.elementArray
      ensures Valid() && SlotInRange(old(st), k, i) && st == WriteAt(old(st), k, i, x)
    {
      hide Bitmask.Bits;
      ghost var s := st.nodes[k];
      assert node.Is(s);
      node.elementArray[i] := x;
      assert node.elementArray[..] == s.slots[i := x];
      st := WriteAt(st, k, i, x);
      OneNodeWritten(k);
    }

    /** The bit and the counters of src/internal/free.c:11-29. */
    method ClearElement(node: Node, i: nat, ghost k: nat)
      requires Valid() && k < |spine| && node == spine[k] && i < node.capacity
      requires node.freeMask.Get(i) == MASK_NOT_FREE && node.numElements > 0 && numElements > 0
      modifies this`numElements, this`st, node`numElements, node`dirty, node.freeMask.buckets
      ensures Valid() && SlotInRange(old(st), k, i) && st == ClearAt(old(st), k, i)
    {
      hide Bitmask.Bits, Bitmask.Get;
      ghost var s := st.nodes[k];
      assert node.Is(s);
      node.dirty := true;
      node.freeMask.Set(i, MASK_FREE);
      assert node.freeMask.Bits() == s.free[i := true];
      node.numElements := node.numElements - 1;
      numElements := numElements - 1;
      st := ClearAt(st, k, i);
      OneNodeWritten(k);
    }

    /** src/internal/pumanode.c:234-254: bypass a node of this list; its block is released afterwards. */
    method FreePumaNode(node: Node)
      requires node.prev != node && node.next != node && (node.prev == node.next ==> node.prev == null)
      modifies this`head, this`tail, Present(node.prev)`next, Present(node.next)`prev
      ensures node.prev == old(node.prev) && node.next == old(node.next)
      ensures tail == (if old(tail) == node then node.prev else old(tail))
      ensures head == (if old(head) == node then node.next else old(head))
      ensures node.prev != null ==> node.prev.next == node.next
      ensures node.next != null ==> node.next.prev == node.prev
    {
      if node == tail {
        tail := node.prev;
      }
      if node == head {
        head := node.next;
      }
      if node.prev != null {
        node.prev.next := node.next;
      }
      if node.next != null {
        node.next.prev := node.prev;
      }
    }

    /** The end of _freeElementOnNode: unlink the successor and forget what follows it. */
    method UnlinkNext(node: Node)
      requires node.next != null && node.next.prev == node && node.next != node
      requires node.next.next != node && node.next.next != node.next
      modifies this`head, this`tail, node`next, Present(node.next.next)`prev
      ensures node.next == null
      ensures tail == (if old(tail) == old(node.next) then node else old(tail))
      ensures head == (if old(head) == old(node.next) then old(node.next.next) else old(head))
    {
      FreePumaNode(node.next);
      node.next := null;
    }

    method DropSuccessor(node: Node, ghost k: nat)
      requires Valid() && k < |spine| && node == spine[k]
      requires node.next != null && !node.next.active && st.tail <= k + 1
      modifies this`head, this`tail, this`spine, this`st, spine`next, spine`prev
      ensures Valid() && spine == old(spine)[..k + 1]
      ensures st == old(st).(nodes := old(st.nodes)[..k + 1], tail := if old(st.tail) == k + 1 then k else old(st.tail))
    {
      hide Node.Is, LinkedAt, Linked, Abstracted, Separate, Apart;
      SuccessorFacts(k);
      spine := spine[..k + 1];
      st := st.(nodes := st.nodes[..k + 1], tail := if st.tail == k + 1 then k else st.tail);
      UnlinkNext(node);
      Truncated(k);
    }

    /** Around node k and its successor. */
    lemma SuccessorFacts(k: nat)
      requires Valid() && k < |spine| && spine[k].next != null
      ensures k + 1 < |spine| == |st.nodes|
      ensures var next := spine[k].next;
        && next == spine[k + 1] && next.prev == spine[k] && next != spine[k] && next != head
        && next.next == (if k + 2 < |spine| then spine[k + 2] else null)
        && next.next != spine[k] && next.next != next
        && (forall i :: 0 <= i < k ==> spine[i] != spine[k] && spine[i] != next.next)
        && (st.tail != k + 1 ==> tail != next)
    {
      assert LinkedAt(k) && LinkedAt(k + 1);
      assert k + 2 < |spine| ==> Apart(spine[k], spine[k + 2]) && Apart(spine[k + 1], spine[k + 2]);
      assert forall i :: 0 <= i < k ==>
        Apart(spine[i], spine[k]) && (k + 2 < |spine| ==> Apart(spine[i], spine[k + 2]));
      assert 0 <= st.tail && st.tail != k + 1 ==> Apart(spine[st.tail], spine[k + 1]);
    }

    /** Cutting the list after node k, of which only next was written, leaves a list. */
    twostate lemma Truncated(k: nat)
      requires old(Separate()) && old(Linked()) && old(Abstracted()) && k < old(|spine|)
      requires spine == old(spine)[..k + 1] && st.nodes == old(st.nodes)[..k + 1]
      requires forall i :: 0 <= i < k ==> unchanged(old(spine)[i])
      requires forall i :: 0 <= i <= k ==> unchanged(old(spine)[i].freeMask.buckets, old(spine)[i].elementArray)
      requires var n := old(spine)[k];
        && n.next == null && n.prev == old(spine[k].prev) && n.threadList == old(spine[k].threadList)
        && n.numElements == old(spine[k].numElements) && n.firstKnownFree == old(spine[k].firstKnownFree)
        && n.dirty == old(spine[k].dirty) && n.active == old(spine[k].active) && n.index == old(spine[k].index)
      ensures Separate() && Linked() && Abstracted()
    {
      hide Node.Is;
      forall i | 0 <= i < |spine| ensures spine[i].Is(st.nodes[i]) && LinkedAt(i) {
        assert old(LinkedAt(i)) && spine[i] == old(spine)[i];
        spine[i].Untouched(st.nodes[i]);
      }
    }

    /** src/internal/free.c:11-37, its asserts being the preconditions. */
    method FreeElementOnNode(node: Node, i: nat, ghost k: nat)
      requires Valid() && k < |spine| && node == spine[k] && i < node.capacity
      requires node.freeMask.Get(i) == MASK_NOT_FREE && node.numElements > 0 && numElements > 0
      requires k + 1 < |spine| && !spine[k + 1].active ==> st.tail <= k + 1
      modifies this`head, this`tail, this`spine, this`st, this`numElements
      modifies spine`next, spine`prev, node`numElements, node`dirty, node.freeMask.buckets
      ensures Valid() && SlotInRange(old(st), k, i) && st == FreeAt(old(st), k, i)
      ensures k < |spine| <= |old(spine)| && spine == old(spine)[..|spine|]
    {
      hide Node.Is, LinkedAt, Linked, Abstracted, Separate, Bitmask.Bits, Bitmask.Get;
      StateAt(k);
      ClearElement(node, i, k);
      StateAt(k);
      if node.numElements < node.capacity / 2 && node.next != null && !node.next.active {
        SuccessorFacts(k);
        DropSuccessor(node, k);
      }
    }

    /** What node k's fields say of the abstract list. */
    lemma StateAt(k: nat)
      requires Valid() && k < |spine|
      ensures |st.nodes| == |spine| && spine[k].Is(st.nodes[k]) && LinkedAt(k)
      ensures spine[k].capacity == |st.nodes[k].free| && Sized(st.nodes[k])
      ensures spine[k].numElements == st.nodes[k].numElements && spine[k].active == st.nodes[k].active
      ensures spine[k].index == st.nodes[k].index && spine[k].dirty == st.nodes[k].dirty
      ensures spine[k].firstKnownFree == st.nodes[k].firstKnownFree
      ensures spine[k].next == (if k + 1 < |spine| then spine[k + 1] else null)
      ensures spine[k].prev == (if k > 0 then spine[k - 1] else null)
      ensures spine[k].Formed() && spine[k].freeMask.Bits() == st.nodes[k].free
      ensures spine[k].elementArray[..] == st.nodes[k].slots
      ensures k + 1 < |spine| ==> spine[k + 1].active == st.nodes[k + 1].active
    {
      assert LinkedAt(k);
      assert k + 1 < |spine| ==> spine[k + 1].Is(st.nodes[k + 1]);
    }

    /** The fields that say where node k stands. */
    lemma PlaceAt(k: nat)
      requires Valid() && k < |spine|
      ensures |st.nodes| == |spine| && spine[k].index == st.nodes[k].index && spine[k].active == st.nodes[k].active
      ensures spine[k].next == (if k + 1 < |spine| then spine[k + 1] else null)
    {
      assert LinkedAt(k) && spine[k].Is(st.nodes[k]);
    }

    lemma OthersDiffer(k: nat)
      requires Valid() && k < |spine|
      ensures forall j :: 0 <= j < |spine| && j != k ==> spine[j] != spine[k]
    {
      OthersApart(k);
    }

    lemma OthersApart(k: nat)
      requires Valid() && k < |spine|
      ensures forall j :: 0 <= j < |spine| && j != k ==> Apart(spine[j], spine[k])
    {}

    /** The last used slot of node k. */
    method LastUsed(node: Node, ghost k: nat) returns (index: nat, found: bool)
      requires Valid() && k < |spine| && node == spine[k]
      ensures Valid() && k < |st.nodes|
      ensures LastIndex(st.nodes[k].free, false) == if found then index else -1
    {
      hide Separate, Linked, LinkedAt, Abstracted, Node.Is;
      StateAt(k);
      index, found := node.freeMask.LastIndexOfValue(MASK_NOT_FREE);
      assert node.freeMask.Bits() == st.nodes[k].free;
      LastIndexIs(st.nodes[k].free, false, if found then index else -1);
      Undisturbed();
    }

    /** The first hole of node k. */
    method FirstHole(node: Node, ghost k: nat) returns (index: nat, found: bool)
      requires Valid() && k < |spine| && node == spine[k]
      ensures Valid() && k < |st.nodes|
      ensures found <==> FirstIndex(st.nodes[k].free, true) < |st.nodes[k].free|
      ensures found ==> FirstIndex(st.nodes[k].free, true) == index
    {
      hide Separate, Linked, LinkedAt, Abstracted, Node.Is;
      StateAt(k);
      index, found := node.freeMask.FirstIndexOfValue(MASK_FREE);
      assert node.freeMask.Bits() == st.nodes[k].free;
      FirstIndexIs(st.nodes[k].free, true, if found then index else |st.nodes[k].free|);
      Undisturbed();
    }

    /** Nothing was written. */
    twostate lemma Undisturbed()
      requires old(Valid()) && unchanged(this)
      requires forall i :: 0 <= i < |spine| ==> unchanged(spine[i], spine[i].freeMask.buckets, spine[i].elementArray)
      ensures Valid()
    {
      hide Node.Is;
      forall i | 0 <= i < |spine| ensures spine[i].Is(st.nodes[i]) && LinkedAt(i) {
        assert old(LinkedAt(i));
        spine[i].Untouched(st.nodes[i]);
      }
    }

    /** One turn of the trimming loop, src/internal/pumautil.c:22-29; the predecessor is returned. */
    method DeactivateTail(t: Node) returns (before: Node?)
      requires Valid() && t == tail
      modifies this`tail, this`numNodes, this`st, t`active
      ensures Valid() && InRange(old(st), old(st.tail)) && st == Deactivate(old(st))
      ensures before == if old(st.tail) > 0 then tail else null
    {
      hide Apart, Node.Is, Bitmask.Bits, Linked, LinkedAt, Abstracted, Separate;
      ghost var k: nat := st.tail;
      StateAt(k);
      OthersDiffer(k);
      ghost var was := st.nodes[k];
      if numNodes > 0 {
        numNodes := numNodes - 1;
      }
      t.active := false;
      before := t.prev;
      if before != null {
        tail := before;
      }
      st := Deactivate(st);
      t.Rewritten(was);
      OneNodeWritten(k);
    }

    /** src/internal/pumautil.c:7-39 */
    method GetLastElement() returns (lastNode: Node?, lastIndex: nat)
      requires Valid()
      modifies this`tail, this`numNodes, this`st, spine`active
      ensures Valid() && -1 <= old(st.tail) < |old(st.nodes)|
      ensures st == Compaction.GetLastElement(old(st)).0
      ensures var last := Compaction.GetLastElement(old(st)).1;
        if last.NoElement? then lastNode == null
        else 0 <= last.node < |spine| && lastNode == spine[last.node] && lastIndex == last.slot
    {
      hide Node.Is, LinkedAt, Linked, Abstracted, Separate, Bitmask.Bits;
      SameLength();
      var t := tail;
      lastNode, lastIndex := null, 0;
      while t != null && t.active
        invariant Valid() && |st.nodes| == |spine|
        invariant t != null ==> t == tail && Compaction.GetLastElement(st) == Compaction.GetLastElement(old(st))
        invariant t == null ==> Compaction.GetLastElement(old(st)) == (st, NoElement)
        decreases if t == null then 0 else st.tail + 1
      {
        ghost var k: nat := st.tail;
        StateAt(k);
        var index, found := LastUsed(t, k);
        if !found {
          t := DeactivateTail(t);
        } else {
          lastNode, lastIndex := t, index;
          break;
        }
      }
      if t != null && lastNode == null { StateAt(st.tail); }
    }

    lemma SameLength()
      requires Valid()
      ensures |spine| == |st.nodes| && -1 <= st.tail < |st.nodes| && (st.tail == -1 <==> tail == null)
    {}

    /** The three calls that move the element at (p, j) into the hole (k, f). */
    method MoveElement(node: Node, f: nat, lastNode: Node, j: nat, ghost k: nat, ghost p: nat)
      requires Valid() && k < |spine| && node == spine[k] && p < |spine| && lastNode == spine[p]
      requires Cleanable(st, k) && SlotInRange(st, k, f) && st.nodes[k].free[f]
      requires k <= p == st.numNodes - 1 && SlotInRange(st, p, j) && !st.nodes[p].free[j] && (p == k ==> f < j)
      modifies this`head, this`tail, this`spine, this`st, this`numElements, Memory()
      ensures Valid() && st == Move(old(st), k, f, p, j)
      ensures k < |spine| <= |old(spine)| && spine == old(spine)[..|spine|]
    {
      hide Node.Is, LinkedAt, Linked, Abstracted, Separate, Bitmask.Bits, WExcept, MemoryOf;
      InMemory();
      MoveObligations(st, k, f, p, j);
      CopyElement(node, f, lastNode, j, k, p);
      StateAt(p);
      FreeElementOnNode(lastNode, j, p);
    }

    /** Its first two calls. */
    method CopyElement(node: Node, f: nat, lastNode: Node, j: nat, ghost k: nat, ghost p: nat)
      requires Valid() && k < |spine| && node == spine[k] && p < |spine| && lastNode == spine[p]
      requires Cleanable(st, k) && SlotInRange(st, k, f) && st.nodes[k].free[f]
      requires k <= p == st.numNodes - 1 && SlotInRange(st, p, j)
      modifies this`st, this`numElements, node`numElements, node.freeMask.buckets, node.elementArray
      ensures Valid() && SlotInRange(AllocAt(old(st), k, f), k, f)
      ensures st == WriteAt(AllocAt(old(st), k, f), k, f, old(st.nodes)[p].slots[j])
    {
      hide Node.Is, LinkedAt, Linked, Abstracted, Separate, Bitmask.Bits, WExcept;
      StateAt(k);
      ActiveMeansCounted(st, k, k);
      AllocElementOnNode(node, f, k);
      StateAt(p);
      var x := lastNode.elementArray[j];
      WriteElement(node, f, x, k);
    }

    /** One turn of the loop of _cleanupNode; false where the source leaves the loop. */
    method CompactOnce(node: Node, ghost k: nat) returns (moved: bool)
      requires Valid() && k < |spine| && node == spine[k] && Cleanable(st, k)
      requires st.nodes[k].numElements < |st.nodes[k].free|
      modifies this`head, this`tail, this`spine, this`st, this`numElements, this`numNodes, Memory()
      ensures Valid() && k < |spine| <= |old(spine)| && spine == old(spine)[..|spine|] && |st.nodes| == |spine|
      ensures !moved ==> Compaction.CleanupNode(old(st), k) == Finish(st, k)
      ensures moved ==> Cleanable(st, k) && Compaction.CleanupNode(old(st), k) == Compaction.CleanupNode(st, k)
      ensures |st.nodes[k].free| == |old(st.nodes[k].free)|
      ensures moved ==> FirstIndex(st.nodes[k].free, true) > old(FirstIndex(st.nodes[k].free, true))
    {
      hide Node.Is, LinkedAt, Linked, Abstracted, Separate, Bitmask.Bits, WExcept, Move, MemoryOf;
      hide Compaction.CleanupNode;
      InMemory();
      TurnFacts(st, k);
      ghost var last := Compaction.GetLastElement(st).1;
      var firstFree, found := FirstHole(node, k);
      var lastNode, lastIndex := GetLastElement();
      StateAt(k);
      if last.At? { StateAt(last.node); }
      if lastNode == null || !found || lastNode.index < node.index
        || (lastNode.index == node.index && firstFree >= lastIndex) {
        return false;
      }
      hide NothingToMove, Compaction.GetLastElement;
      MoveElement(node, firstFree, lastNode, lastIndex, k, last.node);
      SameLength();
      return true;
    }

    /** src/internal/pumanode.c:19-54 */
    method CleanupNode(node: Node, ghost k: nat)
      requires Valid() && k < |spine| && node == spine[k] && Cleanable(st, k)
      modifies this`head, this`tail, this`spine, this`st, this`numElements, this`numNodes, Memory()
      ensures Valid() && st == Compaction.CleanupNode(old(st), k)
      ensures k < |spine| <= |old(spine)| && spine == old(spine)[..|spine|]
    {
      hide Node.Is, LinkedAt, Linked, Abstracted, Separate, Bitmask.Bits, WExcept, MemoryOf, Compaction.CleanupNode;
      InMemory();
      StateAt(k);
      var moved := true;
      while moved && node.numElements < node.capacity
        invariant Valid() && k < |spine| <= |old(spine)| && spine == old(spine)[..|spine|] && |st.nodes| == |spine|
        invariant Memory() <= old(Memory())
        invariant moved ==> Cleanable(st, k) && Compaction.CleanupNode(st, k) == Compaction.CleanupNode(old(st), k)
        invariant !moved ==> Compaction.CleanupNode(old(st), k) == Finish(st, k)
        invariant node.numElements == st.nodes[k].numElements && node.capacity == |st.nodes[k].free|
        decreases moved, |st.nodes[k].free| - FirstIndex(st.nodes[k].free, true)
      {
        moved := CompactOnce(node, k);
        MemoryOfPrefix(old(spine), |spine|);
        StateAt(k);
      }
      if moved { FullTurn(st, k); }
      FinishNode(node, k);
    }

    /** The last two assignments of _cleanupNode. */
    method FinishNode(node: Node, ghost k: nat)
      requires Valid() && k < |spine| && node == spine[k]
      modifies this`st, node`dirty, node`firstKnownFree
      ensures Valid() && k < |old(st.nodes)| && st == Finish(old(st), k)
    {
      hide Apart, Node.Is, LinkedAt, Linked, Abstracted, Separate, Bitmask.Bits;
      StateAt(k);
      OthersDiffer(k);
      ghost var was := st.nodes[k];
      node.dirty := false;
      node.firstKnownFree := node.numElements;
      st := Finish(st, k);
      node.Rewritten(was);
      OneNodeWritten(k);
    }

    // ----- src/internal/pumanode.c:94-232 -----

    /** The tail is inactive: it is switched on again. */
    method WakeTail(node: Node)
      requires Valid() && node == tail && !node.active
      modifies this`st, this`numNodes, node`active
      ensures Valid() && TailInRange(old(st)) && st == AppendNode(old(st), [])
    {
      hide Apart, Node.Is, Bitmask.Bits, Linked, LinkedAt, Abstracted, Separate;
      ghost var k: nat := st.tail;
      StateAt(k);
      OthersDiffer(k);
      ghost var was := st.nodes[k];
      node.active := true;
      numNodes := node.index + 1;
      st := AppendNode(st, []);
      node.Rewritten(was);
      OneNodeWritten(k);
    }

    /** The node after the tail becomes the tail. */
    method ReuseNext(old': Node, node: Node)
      requires Valid() && old' == tail && old'.active && node == old'.next
      modifies this`st, this`numNodes, this`tail, node`active, node`index
      ensures Valid() && TailInRange(old(st)) && st == AppendNode(old(st), []) && tail == node
    {
      hide Apart, Node.Is, Bitmask.Bits, Linked, LinkedAt, Abstracted, Separate, AppendNode;
      ghost var k: nat := st.tail + 1;
      PlaceAt(st.tail);
      StateAt(k);
      ReusedBy(st);
      OthersDiffer(k);
      ghost var was := st.nodes[k];
      tail := node;
      node.active := true;
      node.index := old'.index + 1;
      numNodes := node.index + 1;
      st := AppendNode(st, []);
      node.Rewritten(was);
      OneNodeWritten(k);
    }

    /** A fresh block is linked after the tail, or becomes the list. */
    method LinkNew() returns (node: Node)
      requires Valid() && nodeCapacity > 0 && TailInRange(st) && (tail == null || (tail.active && tail.next == null))
      modifies this`head, this`tail, this`spine, this`st, this`numNodes, Present(tail)`next
      ensures Valid() && fresh(node) && fresh(node.freeMask.buckets) && fresh(node.elementArray)
      ensures spine == old(spine) + [node] && node == tail && |node.elementArray[..]| == nodeCapacity
      ensures st == AppendNode(old(st), node.elementArray[..])
    {
      hide Bitmask.Bits, LinkedAt, Linked, Abstracted, Separate, Node.Is;
      TailPlace();
      var nextIndex := if tail == null then 0 else tail.index + 1;
      node := new Node(nodeCapacity, this, nextIndex, tail);
      ghost var garbage := node.elementArray[..];
      if tail != null {
        tail.next := node;
      }
      if head == null {
        head := node;
      }
      tail := node;
      numNodes := nextIndex + 1;
      spine := spine + [node];
      st := AppendNode(st, garbage);
      Appended();
    }

    lemma TailPlace()
      requires Valid() && TailInRange(st)
      ensures |st.nodes| == |spine| && (tail == null <==> st.tail == -1) && (head == null <==> spine == [])
      ensures tail == null ==> spine == [] && st.nodes == []
      ensures tail != null ==>
        && 0 <= st.tail < |spine| && tail == spine[st.tail]
        && tail.index == st.nodes[st.tail].index && tail.active == st.nodes[st.tail].active
        && (tail.next == null <==> st.tail == |spine| - 1)
        && (forall j :: 0 <= j < |spine| && j != st.tail ==> spine[j] != tail)
    {
      if tail != null { PlaceAt(st.tail); OthersApart(st.tail); }
    }

    /** A node at the end of the spine, after the tail whose next now names it. */
    twostate lemma Appended()
      requires old(Separate()) && old(Linked()) && old(Abstracted())
      requires |spine| == old(|spine|) + 1 && forall i :: 0 <= i < old(|spine|) ==> spine[i] == old(spine[i])
      requires |st.nodes| == |old(st.nodes)| + 1
      requires forall i :: 0 <= i < |old(st.nodes)| ==> st.nodes[i] == old(st.nodes)[i]
      requires var node := spine[|spine| - 1];
        && fresh(node) && fresh(node.freeMask.buckets) && fresh(node.elementArray)
        && node.Is(st.nodes[|spine| - 1]) && node.threadList == this && node.next == null
        && node.prev == (if |spine| == 1 then null else spine[|spine| - 2])
      requires forall i :: 0 <= i < |spine| - 2 ==> unchanged(spine[i])
      requires forall i :: 0 <= i < |spine| - 1 ==> unchanged(spine[i].freeMask.buckets, spine[i].elementArray)
      requires |spine| > 1 ==> var n := spine[|spine| - 2];
        && n.next == spine[|spine| - 1] && n.prev == old(n.prev) && n.threadList == old(n.threadList)
        && n.numElements == old(n.numElements) && n.firstKnownFree == old(n.firstKnownFree)
        && n.dirty == old(n.dirty) && n.active == old(n.active) && n.index == old(n.index)
      ensures Separate() && Linked() && Abstracted()
    {
      hide Node.Is;
      forall i | 0 <= i < |spine| ensures spine[i].Is(st.nodes[i]) && LinkedAt(i) {
        if i < |spine| - 1 {
          assert old(LinkedAt(i)) && spine[i] == old(spine)[i];
          spine[i].Untouched(st.nodes[i]);
        }
      }
    }

    method AppendPumaNode() returns (node: Node, ghost garbage: seq<Element>)
      requires Valid() && nodeCapacity > 0 && TailInRange(st)
      modifies this`head, this`tail, this`spine, this`st, this`numNodes, Memory()
      ensures Valid() && |garbage| == nodeCapacity && st == AppendNode(old(st), garbage)
      ensures tail == node && fresh(Memory() - old(Memory()))
    {
      hide Bitmask.Bits, LinkedAt, Linked, Abstracted, Separate, Node.Is, MemoryOf;
      InMemory();
      TailPlace();
      garbage := seq(nodeCapacity, _ => []);
      if tail != null {
        PlaceAt(st.tail);
        if !tail.active {
          node := tail;
          WakeTail(node);
          return;
        } else if tail.next != null {
          node := tail.next;
          ReuseNext(tail, node);
          return;
        }
      }
      node := LinkNew();
      garbage := node.elementArray[..];
      MemoryOfSnoc(old(spine), node);
    }

    // ----- src/pumalloc.c:13-40 and 84-88 -----

    method SetWatermark(node: Node, f: nat, ghost k: nat)
      requires Valid() && k < |spine| && node == spine[k]
      modifies this`st, node`firstKnownFree
      ensures Valid() && k < |old(st.nodes)| && st == SetFirstKnownFree(old(st), k, f)
    {
      hide Apart, Node.Is, LinkedAt, Linked, Abstracted, Separate, Bitmask.Bits;
      StateAt(k);
      OthersDiffer(k);
      ghost var was := st.nodes[k];
      node.firstKnownFree := f;
      st := SetFirstKnownFree(st, k, f);
      node.Rewritten(was);
      OneNodeWritten(k);
    }

    method MakeNodeTail(node: Node, ghost k: nat)
      requires Valid() && k < |spine| && node == spine[k]
      modifies this`st, this`tail, this`numNodes, node`active
      ensures Valid() && k < |old(st.nodes)| && st == MakeTail(old(st), k) && tail == node
    {
      hide Apart, Node.Is, LinkedAt, Linked, Abstracted, Separate, Bitmask.Bits;
      StateAt(k);
      OthersDiffer(k);
      ghost var was := st.nodes[k];
      numNodes := numNodes + if node.active then 0 else 1;
      tail := node;
      node.active := true;
      st := MakeTail(st, k);
      node.Rewritten(was);
      OneNodeWritten(k);
    }

    /** Lines 18-19: a node with room to allocate from. */
    method NodeWithRoom() returns (node: Node, ghost garbage: seq<Element>)
      requires Valid() && W(st) && nodeCapacity > 0
      modifies this`head, this`tail, this`spine, this`st, this`numNodes, Memory()
      ensures Valid() && |garbage| == nodeCapacity > 0 && TailInRange(old(st)) && st == WithRoom(old(st), garbage)
      ensures tail == node && fresh(Memory() - old(Memory()))
      ensures old(tail != null && tail.numElements < tail.capacity) ==> node == old(tail)
    {
      hide Bitmask.Bits, LinkedAt, Linked, Abstracted, Separate, Node.Is, MemoryOf, WExcept;
      WithRoomFacts(st, [[]]);
      TailPlace();
      garbage := seq(nodeCapacity, _ => []);
      if tail != null { StateAt(st.tail); }
      if tail == null || tail.numElements == tail.capacity {
        node, garbage := AppendPumaNode();
      } else {
        node := tail;
      }
    }

    /** Lines 25-27: compact the node and put the watermark above its elements. */
    method CompactTail(node: Node, ghost k: nat, ghost a: ListState) returns (freeIndex: nat)
      requires Valid() && k < |spine| && node == spine[k]
      requires W(a) && k == a.tail && st == SetFirstKnownFree(a, k, a.nodes[k].firstKnownFree + 1)
      modifies this`head, this`tail, this`spine, this`st, this`numElements, this`numNodes, Memory()
      ensures Valid() && InRange(CompactedTail(a), k)
      ensures st == SetFirstKnownFree(CompactedTail(a), k, CompactedTail(a).nodes[k].numElements + 1)
      ensures freeIndex == CompactedTail(a).nodes[k].numElements
      ensures k < |spine| <= |old(spine)| && spine == old(spine)[..|spine|]
    {
      hide Bitmask.Bits, LinkedAt, Linked, Abstracted, Separate, Node.Is, MemoryOf, WExcept, Compaction.CleanupNode;
      InMemory();
      BumpIsCleanable(a);
      CleanupNode(node, k);
      StateAt(k);
      freeIndex := node.numElements;
      SetWatermark(node, freeIndex + 1, k);
    }

    /** Lines 21-28: choose the slot. */
    method ReserveSlot(node: Node, ghost k: nat) returns (freeIndex: nat)
      requires Valid() && W(st) && k < |spine| && node == spine[k] && k == st.tail
      modifies this`head, this`tail, this`spine, this`st, this`numElements, this`numNodes, Memory()
      ensures Valid() && 0 <= old(st.tail) && (st, freeIndex) == Reserve(old(st))
      ensures k < |spine| <= |old(spine)| && spine == old(spine)[..|spine|]
    {
      hide Bitmask.Bits, LinkedAt, Linked, Abstracted, Separate, Node.Is, MemoryOf, WExcept, CompactedTail;
      InMemory();
      StateAt(k);
      ghost var a := st;
      freeIndex := node.firstKnownFree;
      SetWatermark(node, freeIndex + 1, k);
      if freeIndex >= node.capacity {
        freeIndex := CompactTail(node, k, a);
      }
    }

    /** The case distinction of Places.NewPlace on the fields of the tail. */
    lemma PlacedByFields()
      requires Valid() && W(st)
      ensures TailInRange(st)
      ensures tail != null && tail.numElements < tail.capacity && tail.firstKnownFree < tail.capacity ==>
        forall m, q, i :: Places.Placed(st, m, q, i) ==>
          && i == tail.firstKnownFree
          && forall p, j :: Places.LiveAt(st, p, j) ==> Places.Stays(st, m, p, j)
    {
      hide LinkedAt, Linked, Separate, WExcept, Node.Is, Abstracted;
      TailClosed(st);
      TailPlace();
      if tail != null { StateAt(st.tail); }
    }

    method PumallocOnThreadList() returns (node: Node, slot: nat, ghost garbage: seq<Element>)
      requires Valid() && W(st) && nodeCapacity > 0
      modifies this`head, this`tail, this`spine, this`st, this`numElements, this`numNodes, Memory()
      ensures Valid() && |garbage| == nodeCapacity > 0
      ensures fresh(Memory() - old(Memory()))
      ensures st == Pumalloc(old(st), garbage).0 && Pumalloc(old(st), garbage).1 == At(st.tail, slot)
      ensures node == tail && slot < node.capacity
      ensures TailInRange(old(st)) && Places.Placed(old(st), st, st.tail, slot)
      ensures old(tail != null && tail.numElements < tail.capacity && tail.firstKnownFree < tail.capacity) ==>
        && node == old(tail) && slot == old(tail.firstKnownFree)
        && forall p, j :: Places.LiveAt(old(st), p, j) ==> Places.Stays(old(st), st, p, j)
    {
      hide Bitmask.Bits, LinkedAt, Linked, Abstracted, Separate, Node.Is, MemoryOf, WExcept, WithRoom, Reserve;
      hide Places.Placed;
      PlacedByFields();
      node, garbage := NodeWithRoom();
      Places.PumallocPlaces(old(st), garbage);
      WithRoomFacts(old(st), garbage);
      TailClosed(st);
      ghost var a, k := st, st.tail;
      TailPlace();
      ReserveFacts(a);
      ghost var ns := spine;
      slot := ReserveSlot(node, k);
      MemoryOfPrefix(ns, |spine|);
      InMemory();
      TakeSlot(node, slot, k);
    }

    /** Lines 30-35: the node becomes the active tail and its slot is taken. */
    method TakeSlot(node: Node, slot: nat, ghost k: nat)
      requires Valid() && k < |spine| && node == spine[k] && SlotInRange(st, k, slot) && st.nodes[k].free[slot]
      modifies this`numElements, this`numNodes, this`tail, this`st, node`active, node`numElements, node.freeMask.buckets
      ensures Valid() && k < |old(st.nodes)| && SlotInRange(MakeTail(old(st), k), k, slot)
      ensures st == AllocAt(MakeTail(old(st), k), k, slot)
      ensures tail == node && slot < node.capacity
    {
      hide Bitmask.Bits, LinkedAt, Linked, Abstracted, Separate, Node.Is, MemoryOf;
      MakeNodeTail(node, k);
      StateAt(k);
      AllocElementOnNode(node, slot, k);
    }

    lemma TailClosed(l: ListState)
      requires W(l)
      ensures TailInRange(l)
    {}

    // ----- src/pumakernel.c:14-74 -----

    /** The abstract list follows what _runKernelOnNode does to its node. */
    method RunKernelAt(node: Node, kernel: Kernel, e: Extra, elementsDone: nat, limit: nat, ghost k: nat)
      returns (e': Extra, elementsDone': nat, ghost visited: seq<Element>)
      requires Valid() && k < |spine| && node == spine[k] && k < |st.nodes| && NodeOk(st.nodes[k])
      requires elementsDone < limit && node.capacity < TWO_TO_THE_64
      modifies this`st, node.elementArray
      ensures Valid() && InRange(old(st), k) && Sized(old(st.nodes[k])) && st == RunOnNode(old(st), k, kernel, e)
      ensures visited == old(st.nodes[k]).slots[..LeadingRun(old(st.nodes[k]))]
      ensures e' == Apply(kernel, visited, e).1 && elementsDone' == elementsDone + |visited|
    {
      hide Bitmask.Bits, LinkedAt, Linked, Abstracted, Separate, Apply;
      StateAt(k);
      OthersApart(k);
      ghost var n := st.nodes[k];
      e', elementsDone' := node.RunKernelOnNode(kernel, e, elementsDone, limit, n);
      visited := n.slots[..LeadingRun(n)];
      st := RunOnNode(st, k, kernel, e);
      OneNodeWritten(k);
    }

    method CleanIfDirty(node: Node, ghost k: nat)
      requires Valid() && W(st) && k < st.numNodes && k < |spine| && node == spine[k]
      modifies this`head, this`tail, this`spine, this`st, this`numElements, this`numNodes, Memory()
      ensures Valid() && st == Cleaned(old(st), k)
      ensures k < |spine| <= |old(spine)| && spine == old(spine)[..|spine|]
    {
      hide Bitmask.Bits, LinkedAt, Linked, Abstracted, Separate, Node.Is, MemoryOf, WExcept, Compaction.CleanupNode;
      InMemory();
      StateAt(k);
      if node.dirty {
        IsCleanable(st, k);
        CleanupNode(node, k);
      }
    }

    /** One turn of the traversal; the node after this one is returned. */
    method WalkOn(node: Node, kernel: Kernel, e: Extra, elementsDone: nat, limit: nat, ghost k: nat)
      returns (next: Node?, e': Extra, elementsDone': nat, ghost xs: seq<Element>)
      requires Valid() && W(st) && k < |spine| && node == spine[k] && node.active && k < |st.nodes|
      requires elementsDone < limit && node.capacity < TWO_TO_THE_64
      modifies this`head, this`tail, this`spine, this`st, this`numElements, this`numNodes, Memory()
      ensures Valid() && W(st) && k < |spine| <= |old(spine)| && spine == old(spine)[..|spine|]
      ensures |spine| == |st.nodes| && next == (if k + 1 < |spine| then spine[k + 1] else null)
      ensures var rest := Walk(st, k + 1, elementsDone', limit, kernel, e');
        Walk(old(st), k, elementsDone, limit, kernel, e) == WalkResult(rest.list, rest.extra, xs + rest.visited)
    {
      hide Bitmask.Bits, LinkedAt, Linked, Abstracted, Separate, Node.Is, MemoryOf, WExcept, Cleaned, RunOnNode, Walk;
      PlaceAt(k);
      InMemory();
      WalkTurn(st, k, elementsDone, limit, kernel, e);
      CleanIfDirty(node, k);
      InMemory();
      SameLength();
      e', elementsDone', xs := RunKernelAt(node, kernel, e, elementsDone, limit, k);
      PlaceAt(k);
      next := node.next;
    }

    /** The traversal of _runKernelThread. */
    method RunKernelThread(kernel: Kernel, e: Extra) returns (e': Extra, ghost visited: seq<Element>)
      requires Valid() && W(st) && forall i :: 0 <= i < |spine| ==> spine[i].capacity < TWO_TO_THE_64
      modifies this`head, this`tail, this`spine, this`st, this`numElements, this`numNodes, Memory()
      ensures Valid() && WalkResult(st, e', visited) == RunKernel(old(st), kernel, e)
      ensures |spine| <= |old(spine)| && spine == old(spine)[..|spine|]
    {
      hide Bitmask.Bits, LinkedAt, Linked, Abstracted, Separate, Node.Is, MemoryOf, WExcept, Cleaned, RunOnNode, Walk;
      SameLength();
      var currentNode := head;
      var elementsDone, initNumElements := 0, numElements;
      e', visited := e, [];
      ghost var k := 0;
      while currentNode != null && currentNode.active && elementsDone < initNumElements
        invariant Valid() && W(st) && k <= |spine| == |st.nodes|
        invariant |spine| <= |old(spine)| && spine == old(spine)[..|spine|]
        invariant Memory() <= old(Memory())
        invariant currentNode == if k < |spine| then spine[k] else null
        invariant var rest := Walk(st, k, elementsDone, initNumElements, kernel, e');
          Walk(old(st), 0, 0, initNumElements, kernel, e) == WalkResult(rest.list, rest.extra, visited + rest.visited)
        decreases |spine| - k
      {
        ghost var xs;
        currentNode, e', elementsDone, xs := WalkOn(currentNode, kernel, e', elementsDone, initNumElements, k);
        MemoryOfPrefix(old(spine), |spine|);
        visited := visited + xs;
        k := k + 1;
      }
      if k < |spine| { PlaceAt(k); }
      WalkDone(st, k, elementsDone, initNumElements, kernel, e');
    }

    /** A live slot meets the asserts of _freeElementOnNode. */
    lemma LiveSlot(k: nat, i: nat)
      requires Valid() && W(st) && k < |spine| && i < spine[k].capacity && spine[k].freeMask.Valid()
      requires i < spine[k].freeMask.numElements && spine[k].freeMask.Get(i) == MASK_NOT_FREE
      ensures SlotInRange(st, k, i) && !st.nodes[k].free[i] && k < st.numNodes
      ensures spine[k].numElements > 0 && numElements > 0
      ensures k + 1 < |spine| && !spine[k + 1].active ==> st.tail <= k + 1
    {
      hide WExcept, Linked, LinkedAt, Separate, Bitmask.Get;
      StateAt(k);
      UsedSlotCounts(st, -1, k, i);
      Transfer.TailCloses(st);
      if k + 1 < |spine| { ActiveNode(k + 1); }
    }

    lemma ActiveNode(k: nat)
      requires Valid() && W(st) && k < |spine|
      ensures spine[k].active <==> k < st.numNodes
    {
      StateAt(k);
      assert Fits(st.nodes[k], k, st.numNodes, -1);
    }

    lemma InMemory()
      ensures forall i :: 0 <= i < |spine| ==>
        spine[i] in Memory() && spine[i].freeMask.buckets in Memory() && spine[i].elementArray in Memory()
    {}
  }

  /** pufree of the element in slot i of its node, which is node k of its list. */
  method Pufree(node: Node, i: nat, ghost k: nat)
    requires node.threadList.Valid() && W(node.threadList.st) && k < |node.threadList.spine|
    requires node == node.threadList.spine[k]
    requires i < node.capacity && node.freeMask.Valid() && i < node.freeMask.numElements
    requires node.freeMask.Get(i) == MASK_NOT_FREE
    modifies node.threadList, node.threadList.spine, node.freeMask.buckets
    ensures node.threadList == old(node.threadList)
    ensures var l := node.threadList;
      && l.Valid() && W(l.st) && SlotInRange(old(l.st), k, i) && l.st == FreeAt(old(l.st), k, i)
      && AllSized(old(l.st.nodes)) && AllSized(l.st.nodes)
      && Bag(old(l.st)) == Bag(l.st) + multiset{old(node.elementArray[i])}
      && k < |l.spine| <= |old(l.spine)| && l.spine == old(l.spine)[..|l.spine|]
      && Places.LiveAt(old(l.st), k, i) && Places.Released(old(l.st), l.st, k, i)
    ensures node.numElements == old(node.numElements) - 1 && node.dirty
    ensures node.next == null <==>
      old(node.next == null || (node.numElements - 1 < node.capacity / 2 && !node.next.active))
  {
    hide WExcept, Node.Is, ThreadList.LinkedAt, ThreadList.Linked, ThreadList.Abstracted;
    hide ThreadList.Separate, Bitmask.Bits, Bitmask.Get, FreeAt, Bag;
    var l := node.threadList;
    l.LiveSlot(k, i);
    l.StateAt(k);
    FreeFacts(l.st, -1, k, i);
    Places.FreePlaces(l.st, k, i);
    l.FreeElementOnNode(node, i, k);
    l.StateAt(k);
  }

  /** One turn of the loop of _cleanupNode on a node that is not full: either the loop ends here, or a
      move is due, allowed, and brings the loop closer to its end. */
  lemma TurnFacts(l: ListState, k: nat)
    requires Cleanable(l, k) && l.nodes[k].numElements < Capacity(l.nodes[k])
    ensures -1 <= l.tail < |l.nodes|
    ensures var f := FirstIndex(l.nodes[k].free, true); var (t, last) := Compaction.GetLastElement(l);
      && InRange(t, k) && |t.nodes| == |l.nodes| && t.nodes[k].index == l.nodes[k].index
      && |t.nodes[k].free| == |l.nodes[k].free|
      && (last.At? ==> 0 <= last.node < |t.nodes|)
      && (NothingToMove(t, k, f, last) ==> Compaction.CleanupNode(l, k) == Finish(t, k))
      && (!NothingToMove(t, k, f, last) ==>
           last.At? && Cleanable(t, k) && SlotInRange(t, k, f) && t.nodes[k].free[f]
           && k <= last.node == t.numNodes - 1 && SlotInRange(t, last.node, last.slot)
           && !t.nodes[last.node].free[last.slot] && (last.node == k ==> f < last.slot)
           && var m := Move(t, k, f, last.node, last.slot);
              Cleanable(m, k) && Compaction.CleanupNode(l, k) == Compaction.CleanupNode(m, k)
              && |m.nodes[k].free| == |l.nodes[k].free| && FirstIndex(m.nodes[k].free, true) > f)
  {
    hide WExcept;
    TrimFacts(l, k);
    var f := FirstIndex(l.nodes[k].free, true);
    var (t, last) := Compaction.GetLastElement(l);
    if !NothingToMove(t, k, f, last) {
      LastIsLater(t, k, f, last);
      MoveKeeps(t, k, f, last.node, last.slot);
      MoveShape(t, k, f, last.node, last.slot);
    }
  }

  lemma FullTurn(l: ListState, k: nat)
    requires Cleanable(l, k) && l.nodes[k].numElements >= Capacity(l.nodes[k])
    ensures Compaction.CleanupNode(l, k) == Finish(l, k)
  {}

  /** After the allocation and the copy, the asserts of _freeElementOnNode hold for the source slot. */
  lemma MoveObligations(l: ListState, k: nat, f: nat, p: nat, j: nat)
    requires WExcept(l, k) && SlotInRange(l, k, f) && l.nodes[k].free[f]
    requires k <= p == l.numNodes - 1 && SlotInRange(l, p, j) && !l.nodes[p].free[j] && (p == k ==> f < j)
    ensures var b := WriteAt(AllocAt(l, k, f), k, f, l.nodes[p].slots[j]);
      && WExcept(b, k) && SlotInRange(b, p, j) && !b.nodes[p].free[j]
      && b.nodes[p].numElements > 0 && b.numElements > 0 && b.tail <= p + 1
  {
    AllocFacts(l, k, f);
    WriteFacts(AllocAt(l, k, f), k, k, f, l.nodes[p].slots[j]);
    hide AllFit;
    UsedSlotCounts(WriteAt(AllocAt(l, k, f), k, f, l.nodes[p].slots[j]), k, p, j);
  }
}
