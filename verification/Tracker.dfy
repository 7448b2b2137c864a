/** The provenance tracker: a reference-counted graph of instructions on an
    explicit heap, released through a worklist (riscv/tracker.cc). */
module Tracker {
  import opened Powers

  type Ptr = nat
  const NULL: Ptr := 0
  const NXPR: nat := 32
  const REG_SP: int := 2
  const MEM_TO_TAG_RATIO: nat := 8

  type reg = r: int | 0 <= r < 32

  datatype Insn = Insn(bits: u64, rd: reg, rs1: reg, rs2: reg)

  datatype Node = Node(c1: Ptr, c2: Ptr, insn: Insn, pc: u64, val: u64, refc: int, isMem: bool)

  /** What malloc has handed out and free has not taken back.  Reading or
      writing a node at a key that is absent would be a use after free. */
  type Heap = map<Ptr, Node>

  // ---- links and their counts

  /** order lists nodes by age; a node that was freed leaves NULL behind. */
  predicate AllLive(heap: Heap, order: seq<Ptr>) {
    forall i :: 0 <= i < |order| ==> order[i] == NULL || order[i] in heap
  }

  /** Every child link of the listed nodes, with multiplicity. */
  ghost function Links(heap: Heap, order: seq<Ptr>): multiset<Ptr>
    requires AllLive(heap, order)
  {
    if order == [] then multiset{}
    else
      var n := |order| - 1;
      Links(heap, order[..n]) + Children(heap, order[n])
  }

  ghost function Children(heap: Heap, p: Ptr): multiset<Ptr>
    requires p == NULL || p in heap
  {
    if p == NULL then multiset{} else multiset{heap[p].c1, heap[p].c2}
  }

  predicate SameChildren(heap: Heap, heap': Heap, p: Ptr) {
    p in heap && p in heap' && heap'[p] == heap[p].(refc := heap'[p].refc)
  }

  lemma {:induction false} LinksSame(heap: Heap, heap': Heap, order: seq<Ptr>)
    requires forall i :: 0 <= i < |order| ==> order[i] == NULL || SameChildren(heap, heap', order[i])
    ensures AllLive(heap, order) && AllLive(heap', order) && Links(heap', order) == Links(heap, order)
  {
    if order != [] {
      var n := |order| - 1;
      LinksSame(heap, heap', order[..n]);
      assert order[n] == NULL || SameChildren(heap, heap', order[n]);
      assert Children(heap, order[n]) == Children(heap', order[n]);
    }
  }

  lemma {:induction false} LinksWithout(heap: Heap, order: seq<Ptr>, i: nat)
    requires AllLive(heap, order) && i < |order|
    ensures AllLive(heap, order[i := NULL])
    ensures Links(heap, order) == Links(heap, order[i := NULL]) + Children(heap, order[i])
  {
    hide Links, Children, AllLive;
    UpdatePrefix(order, i);
    AllLiveParts(heap, order, i);
    if i == |order| - 1 {
      LinksWithoutLast(heap, order);
    } else {
      LinksWithout(heap, order[..|order| - 1], i);
      LinksWithoutEarlier(heap, order, i);
    }
  }

  lemma LinksWithoutLast(heap: Heap, order: seq<Ptr>)
    requires order != [] && AllLive(heap, order) && AllLive(heap, order[|order| - 1 := NULL])
    ensures var n := |order| - 1; Links(heap, order) == Links(heap, order[n := NULL]) + Children(heap, order[n])
  {
    var n := |order| - 1;
    var rest := order[n := NULL];
    hide Links, Children, AllLive;
    LinksStep(heap, order);
    LinksStep(heap, rest);
    NoChildren(heap);
    assert rest[..n] == order[..n];
  }

  lemma LinksWithoutEarlier(heap: Heap, order: seq<Ptr>, i: nat)
    requires i < |order| - 1 && AllLive(heap, order) && AllLive(heap, order[i := NULL])
    requires AllLive(heap, order[..|order| - 1]) && AllLive(heap, order[..|order| - 1][i := NULL])
    requires var head := order[..|order| - 1];
             Links(heap, head) == Links(heap, head[i := NULL]) + Children(heap, head[i])
    ensures Links(heap, order) == Links(heap, order[i := NULL]) + Children(heap, order[i])
  {
    hide Links, Children, AllLive;
    var n := |order| - 1;
    AllLiveParts(heap, order, i);
    UpdatePrefix(order, i);
    LinksStep(heap, order);
    LinksStep(heap, order[i := NULL]);
    Exchange(Links(heap, order[..n]), Links(heap, order[..n][i := NULL]),
             Children(heap, order[i]), Children(heap, order[n]));
  }

  lemma UpdatePrefix(order: seq<Ptr>, i: nat)
    requires i < |order|
    ensures var n, rest := |order| - 1, order[i := NULL];
            if i == n then rest[..n] == order[..n] && rest[n] == NULL
            else rest[..n] == order[..n][i := NULL] && rest[n] == order[n] && order[..n][i] == order[i]
  {
  }

  lemma AllLiveParts(heap: Heap, order: seq<Ptr>, i: nat)
    requires AllLive(heap, order) && i < |order|
    ensures AllLive(heap, order[i := NULL]) && AllLive(heap, order[..|order| - 1])
    ensures AllLive(heap, order[i := NULL][..|order| - 1])
    ensures forall k :: 0 <= k < |order| ==> order[k] == NULL || order[k] in heap
  {
  }

  lemma NoChildren(heap: Heap)
    ensures Children(heap, NULL) == multiset{}
  {
  }

  lemma LinksStep(heap: Heap, order: seq<Ptr>)
    requires AllLive(heap, order) && order != []
    ensures var n := |order| - 1; Links(heap, order) == Links(heap, order[..n]) + Children(heap, order[n])
  {
  }

  lemma Exchange(a: multiset<Ptr>, b: multiset<Ptr>, c: multiset<Ptr>, d: multiset<Ptr>)
    requires a == b + c
    ensures a + d == (b + d) + c
  {
  }

  /** Someone in the list has p as a child, if p is linked at all. */
  lemma {:induction false} Referrer(heap: Heap, order: seq<Ptr>, p: Ptr) returns (j: nat)
    requires AllLive(heap, order) && p in Links(heap, order)
    ensures j < |order| && p in Children(heap, order[j])
  {
    var n := |order| - 1;
    if p in Children(heap, order[n]) {
      j := n;
    } else {
      j := Referrer(heap, order[..n], p);
    }
  }

  lemma {:induction false} LinkedIn(heap: Heap, order: seq<Ptr>, j: nat, p: Ptr)
    requires AllLive(heap, order) && j < |order| && p in Children(heap, order[j])
    ensures p in Links(heap, order)
  {
    if j < |order| - 1 {
      LinkedIn(heap, order[..|order| - 1], j, p);
    }
  }

  // ---- the invariant

  /** c is no node, or stands before position n. */
  predicate Born(order: seq<Ptr>, n: int, c: Ptr) {
    c == NULL || exists i :: 0 <= i < n && i < |order| && order[i] == c
  }

  /** order lists exactly the live nodes, each once; children are older than
      their parents, so the graph is acyclic. */
  ghost predicate WellLinked(heap: Heap, order: seq<Ptr>) {
    && NULL !in heap
    && AllLive(heap, order)
    && (forall p :: p in heap ==> Born(order, |order|, p))
    && (forall i, j :: 0 <= i < j < |order| && order[i] == order[j] ==> order[i] == NULL)
    && (forall j :: 0 <= j < |order| && order[j] != NULL ==>
          Born(order, j, heap[order[j]].c1) && Born(order, j, heap[order[j]].c2))
  }

  /** refs and the child links of live nodes add up to every reference count,
      but for the nodes in exempt, which nothing refers to. */
  ghost predicate Counted(heap: Heap, order: seq<Ptr>, refs: multiset<Ptr>, exempt: set<Ptr>)
    requires AllLive(heap, order)
  {
    CountsAre(heap, refs, refs + Links(heap, order), exempt)
  }

  ghost predicate CountsAre(heap: Heap, refs: multiset<Ptr>, all: multiset<Ptr>, exempt: set<Ptr>) {
    && (forall p :: p in refs ==> p == NULL || p in heap)
    && (forall p :: p in exempt ==> p !in all)
    && (forall p :: p in heap && p !in exempt ==> heap[p].refc == all[p] >= 1)
  }

  /** The state between, and during, the tracker's operations. */
  ghost predicate Graph(heap: Heap, order: seq<Ptr>, refs: multiset<Ptr>, exempt: set<Ptr>) {
    WellLinked(heap, order) && Counted(heap, order, refs, exempt)
  }

  // ---- reachability

  /** p can be reached from the roots in k links. */
  ghost predicate ReachIn(heap: Heap, roots: multiset<Ptr>, p: Ptr, k: nat)
    decreases k
  {
    if k == 0 then p in roots
    else exists q :: q in heap && p in Children(heap, q) && ReachIn(heap, roots, q, k - 1)
  }

  ghost predicate Reachable(heap: Heap, roots: multiset<Ptr>, p: Ptr) {
    p != NULL && exists k: nat :: ReachIn(heap, roots, p, k)
  }

  /** Exactly the nodes reachable from the roots are live: nothing leaks and
      nothing dangles. */
  lemma LiveIffReachable(heap: Heap, order: seq<Ptr>, roots: multiset<Ptr>, p: Ptr)
    requires Graph(heap, order, roots, {})
    ensures p in heap <==> Reachable(heap, roots, p)
  {
    if p in heap {
      assert Born(order, |order|, p);
      var j :| 0 <= j < |order| && order[j] == p;
      LiveIsReached(heap, order, roots, j);
    }
    if Reachable(heap, roots, p) {
      var k: nat :| ReachIn(heap, roots, p, k);
      ReachedIsLive(heap, order, roots, p, k);
    }
  }

  lemma {:induction false} ReachedIsLive(heap: Heap, order: seq<Ptr>, roots: multiset<Ptr>, p: Ptr, k: nat)
    requires Graph(heap, order, roots, {}) && ReachIn(heap, roots, p, k)
    ensures p == NULL || p in heap
  {
    if k > 0 {
      var q :| q in heap && p in Children(heap, q) && ReachIn(heap, roots, q, k - 1);
      assert Born(order, |order|, q);
      var j :| 0 <= j < |order| && order[j] == q;
      assert Born(order, j, heap[order[j]].c1) && Born(order, j, heap[order[j]].c2);
    }
  }

  lemma {:induction false} LiveIsReached(heap: Heap, order: seq<Ptr>, roots: multiset<Ptr>, j: nat)
    requires Graph(heap, order, roots, {}) && j < |order| && order[j] != NULL
    ensures exists k: nat :: ReachIn(heap, roots, order[j], k)
    decreases |order| - j
  {
    var p := order[j];
    assert heap[p].refc >= 1;
    if p in roots {
      assert ReachIn(heap, roots, p, 0);
    } else {
      var i := Referrer(heap, order, p);
      Older(heap, order, i, j);
      LiveIsReached(heap, order, roots, i);
      var k: nat :| ReachIn(heap, roots, order[i], k);
      assert ReachIn(heap, roots, p, k + 1);
    }
  }

  lemma Older(heap: Heap, order: seq<Ptr>, i: nat, j: nat)
    requires WellLinked(heap, order) && i < |order| && j < |order| && order[j] != NULL
    requires order[j] in Children(heap, order[i])
    ensures j < i
  {
    assert Born(order, i, heap[order[i]].c1) && Born(order, i, heap[order[i]].c2);
    assert Born(order, i, order[j]);
  }

  // ---- releasing one reference

  /** The survivors of a release, changed in nothing but their counts. */
  ghost predicate OnlyCounts(heap: Heap, heap': Heap) {
    forall p :: p in heap' ==> SameChildren(heap, heap', p)
  }

  ghost predicate Released(heap: Heap, heap': Heap, exempt: set<Ptr>) {
    OnlyCounts(heap, heap') && forall p :: p in exempt && p in heap ==> p in heap' && heap'[p] == heap[p]
  }

  lemma NothingReleased(heap: Heap, exempt: set<Ptr>)
    ensures Released(heap, heap, exempt)
  {
  }

  lemma ReleasedOne(heap0: Heap, heap: Heap, exempt: set<Ptr>, p: Ptr, n: int)
    requires Released(heap0, heap, exempt) && p in heap && p !in exempt
    ensures Released(heap0, heap[p := heap[p].(refc := n)], exempt)
    ensures Released(heap0, heap - {p}, exempt)
  {
    assert SameChildren(heap0, heap, p);
    assert forall q :: q in heap ==> SameChildren(heap0, heap, q);
  }

  lemma Pop(heap: Heap, order: seq<Ptr>, held: multiset<Ptr>, exempt: set<Ptr>, queue: seq<Ptr>, rest: seq<Ptr>, p: Ptr)
    requires Graph(heap, order, held + multiset(queue), exempt) && queue == rest + [p]
    ensures Graph(heap, order, held + multiset(rest) + multiset{p}, exempt)
  {
    hide Graph;
    assert held + multiset(rest + [p]) == held + multiset(rest) + multiset{p};
  }

  lemma Push(heap: Heap, order: seq<Ptr>, held: multiset<Ptr>, exempt: set<Ptr>, rest: seq<Ptr>, c1: Ptr, c2: Ptr)
    requires Graph(heap, order, held + multiset(rest) + multiset{c1, c2}, exempt)
    ensures Graph(heap, order, held + multiset(rest + [c1] + [c2]), exempt)
  {
    hide Graph;
    assert held + multiset(rest + [c1] + [c2]) == held + multiset(rest) + multiset{c1, c2};
  }

  lemma Decrement(heap: Heap, order: seq<Ptr>, refs: multiset<Ptr>, exempt: set<Ptr>, p: Ptr, heap': Heap)
    requires Graph(heap, order, refs + multiset{p}, exempt) && p != NULL
    requires p in heap && heap' == heap[p := heap[p].(refc := heap[p].refc - 1)]
    ensures p !in exempt && Graph(heap', order, refs, if heap'[p].refc == 0 then exempt + {p} else exempt)
  {
    CountSet(heap, order, p, heap[p].refc - 1);
    var all := refs + Links(heap, order);
    hide WellLinked, Links, AllLive;
    assert refs + multiset{p} + Links(heap, order) == all + multiset{p};
    OneLess(heap, heap', refs, all, exempt, p);
  }

  lemma OneLess(heap: Heap, heap': Heap, refs: multiset<Ptr>, all: multiset<Ptr>, exempt: set<Ptr>, p: Ptr)
    requires CountsAre(heap, refs + multiset{p}, all + multiset{p}, exempt) && p in heap
    requires heap' == heap[p := heap[p].(refc := heap[p].refc - 1)]
    ensures p !in exempt && CountsAre(heap', refs, all, if heap'[p].refc == 0 then exempt + {p} else exempt)
  {
    assert p in all + multiset{p};
    forall q | q in heap' && q != p ensures (all + multiset{p})[q] == all[q] {}
    forall q | q in refs ensures q in refs + multiset{p} {}
    forall q | q in exempt ensures q !in all { assert q !in all + multiset{p}; }
  }

  lemma CountSet(heap: Heap, order: seq<Ptr>, p: Ptr, n: int)
    requires WellLinked(heap, order) && p in heap
    ensures var heap' := heap[p := heap[p].(refc := n)];
            WellLinked(heap', order) && Links(heap', order) == Links(heap, order)
  {
    var heap' := heap[p := heap[p].(refc := n)];
    forall i | 0 <= i < |order| ensures order[i] == NULL || SameChildren(heap, heap', order[i]) {}
    LinksSame(heap, heap', order);
    SameLinked(heap, heap', order);
    hide Links;
  }

  lemma SameLinked(heap: Heap, heap': Heap, order: seq<Ptr>)
    requires WellLinked(heap, order) && heap'.Keys == heap.Keys
    requires forall i :: 0 <= i < |order| ==> order[i] == NULL || SameChildren(heap, heap', order[i])
    ensures WellLinked(heap', order)
  {
    hide Born;
    assert forall q :: q in heap' <==> q in heap;
    forall j | 0 <= j < |order| && order[j] != NULL
      ensures Born(order, j, heap'[order[j]].c1) && Born(order, j, heap'[order[j]].c2)
    {
      assert SameChildren(heap, heap', order[j]);
    }
  }

  /** Freeing p turns its two links into references still to be released. */
  lemma Freed(heap: Heap, order: seq<Ptr>, refs: multiset<Ptr>, exempt: set<Ptr>, p: Ptr) returns (order': seq<Ptr>)
    requires p in heap && p !in exempt && Graph(heap, order, refs, exempt + {p})
    ensures Graph(heap - {p}, order', refs + Children(heap, p), exempt)
  {
    var i := PlaceOf(heap, order, p);
    order' := order[i := NULL];
    var all := refs + Links(heap, order);
    assert p !in all && p !in Links(heap, order);
    Unlinked(heap, order, i);
    ChildrenLive(heap, order, i);
    RestUnchanged(heap, order, i);
    hide WellLinked, Links, AllLive, Children;
    assert refs + Children(heap, p) + Links(heap - {p}, order') == all;
    LastReference(heap, refs, Children(heap, p), all, exempt, p);
  }

  lemma PlaceOf(heap: Heap, order: seq<Ptr>, p: Ptr) returns (i: nat)
    requires WellLinked(heap, order) && p in heap
    ensures i < |order| && order[i] == p && p != NULL
  {
    assert Born(order, |order|, p);
    i :| 0 <= i < |order| && order[i] == p;
  }

  lemma RestUnchanged(heap: Heap, order: seq<Ptr>, i: nat)
    requires WellLinked(heap, order) && i < |order| && order[i] != NULL
    ensures AllLive(heap, order[i := NULL]) && AllLive(heap - {order[i]}, order[i := NULL])
    ensures Links(heap - {order[i]}, order[i := NULL]) + Children(heap, order[i]) == Links(heap, order)
  {
    var order', heap' := order[i := NULL], heap - {order[i]};
    LinksWithout(heap, order, i);
    OthersKept(heap, order, i);
    LinksSame(heap, heap', order');
    hide WellLinked, Links, AllLive, Children;
  }

  lemma OthersKept(heap: Heap, order: seq<Ptr>, i: nat)
    requires WellLinked(heap, order) && i < |order| && order[i] != NULL
    ensures var order', heap' := order[i := NULL], heap - {order[i]};
            forall k :: 0 <= k < |order'| ==> order'[k] == NULL || SameChildren(heap, heap', order'[k])
  {
    hide Born;
  }

  lemma LastReference(heap: Heap, refs: multiset<Ptr>, children: multiset<Ptr>, all: multiset<Ptr>,
                      exempt: set<Ptr>, p: Ptr)
    requires CountsAre(heap, refs, all, exempt + {p}) && refs <= all && children <= all
    requires forall c :: c in children ==> c == NULL || c in heap
    ensures CountsAre(heap - {p}, refs + children, all, exempt)
  {
    assert p !in all;
    forall q | q in refs + children ensures q == NULL || q in heap - {p} {
      assert q in all;
    }
  }

  lemma ChildrenLive(heap: Heap, order: seq<Ptr>, i: nat)
    requires WellLinked(heap, order) && i < |order| && order[i] != NULL
    ensures forall c :: c in Children(heap, order[i]) ==> c == NULL || c in heap
  {
    assert Born(order, i, heap[order[i]].c1) && Born(order, i, heap[order[i]].c2);
  }

  lemma UnlinkedListed(heap: Heap, order: seq<Ptr>, i: nat)
    requires WellLinked(heap, order) && i < |order| && order[i] != NULL
    ensures AllLive(heap - {order[i]}, order[i := NULL])
    ensures forall q :: q in heap - {order[i]} ==> Born(order[i := NULL], |order|, q)
  {
    hide Born;
    forall q | q in heap - {order[i]} ensures Born(order[i := NULL], |order|, q) { StillBorn(order, i, |order|, q); }
  }

  lemma UnlinkedAges(heap: Heap, order: seq<Ptr>, i: nat)
    requires WellLinked(heap, order) && i < |order| && order[i] != NULL && order[i] !in Links(heap, order)
    ensures AllLive(heap, order) && forall j :: 0 <= j < |order| && j != i && order[j] != NULL ==>
              && Born(order[i := NULL], j, heap[order[j]].c1)
              && Born(order[i := NULL], j, heap[order[j]].c2)
  {
    ListedLive(heap, order);
    hide WellLinked, Born, Links;
    forall j | 0 <= j < |order| && j != i && order[j] != NULL
      ensures Born(order[i := NULL], j, heap[order[j]].c1) && Born(order[i := NULL], j, heap[order[j]].c2)
    {
      StillOlder(heap, order, i, j);
    }
  }

  lemma Unlinked(heap: Heap, order: seq<Ptr>, i: nat)
    requires WellLinked(heap, order) && i < |order| && order[i] != NULL && order[i] !in Links(heap, order)
    ensures WellLinked(heap - {order[i]}, order[i := NULL])
  {
    UnlinkedListed(heap, order, i);
    UnlinkedAges(heap, order, i);
    hide Links, Born;
  }

  lemma StillOlder(heap: Heap, order: seq<Ptr>, i: nat, j: nat)
    requires WellLinked(heap, order) && i < |order| && order[i] != NULL && order[i] !in Links(heap, order)
    requires j < |order| && j != i && order[j] != NULL
    ensures Born(order[i := NULL], j, heap[order[j]].c1) && Born(order[i := NULL], j, heap[order[j]].c2)
  {
    hide Born;
    assert Born(order, j, heap[order[j]].c1) && Born(order, j, heap[order[j]].c2);
    if order[i] in Children(heap, order[j]) { LinkedIn(heap, order, j, order[i]); }
    StillBorn(order, i, j, heap[order[j]].c1);
    StillBorn(order, i, j, heap[order[j]].c2);
  }

  lemma StillBorn(order: seq<Ptr>, i: nat, n: nat, c: Ptr)
    requires i < |order| && Born(order, n, c) && c != order[i]
    ensures Born(order[i := NULL], n, c)
  {
    if c != NULL {
      var m :| 0 <= m < n && m < |order| && order[m] == c;
      assert order[i := NULL][m] == c;
    }
  }

  lemma NullIsNoReference(heap: Heap, order: seq<Ptr>, refs: multiset<Ptr>, exempt: set<Ptr>)
    requires Graph(heap, order, refs + multiset{NULL}, exempt)
    ensures Graph(heap, order, refs, exempt)
  {
    hide Links;
    var all := refs + Links(heap, order);
    assert refs + multiset{NULL} + Links(heap, order) == all + multiset{NULL};
    forall q | q in exempt ensures q !in all { assert q !in all + multiset{NULL}; }
    forall q | q in heap && q !in exempt ensures heap[q].refc == all[q] >= 1 {
      assert (all + multiset{NULL})[q] == all[q];
    }
  }

  // ---- building a node

  /** if (p) p->refc++ */
  function Retained(heap: Heap, p: Ptr): Heap
    requires p == NULL || p in heap
  {
    if p == NULL then heap else heap[p := heap[p].(refc := heap[p].refc + 1)]
  }

  predicate ChildrenIn(heap: Heap, node: Node) {
    (node.c1 == NULL || node.c1 in heap) && (node.c2 == NULL || node.c2 in heap)
  }

  lemma OneMore(heap: Heap, refs: multiset<Ptr>, all: multiset<Ptr>, exempt: set<Ptr>, p: Ptr)
    requires CountsAre(heap, refs, all, exempt) && NULL !in heap && p !in exempt && (p == NULL || p in heap)
    ensures CountsAre(Retained(heap, p), refs, all + multiset{p}, exempt)
  {
  }

  /** A new node with its links retained, itself not yet referred to. */
  lemma Allocated(heap: Heap, order: seq<Ptr>, refs: multiset<Ptr>, chunk: Ptr, node: Node, heap': Heap)
    requires Graph(heap, order, refs, {})
    requires chunk != NULL && chunk !in heap && ChildrenIn(heap, node)
    requires heap' == Retained(Retained(heap[chunk := node], node.c1), node.c2)
    ensures Graph(heap', order + [chunk], refs, {chunk})
  {
    var heap1, order' := heap[chunk := node], order + [chunk];
    var all := refs + Links(heap, order);
    GraphParts(heap, order, refs, {});
    hide Graph, Born, Links;
    Appended(heap, order, chunk, node);
    ChunkUnlinked(heap, order, refs, chunk);
    ListedLive(heap1, order');
    OnlyCountsRetained(heap1, order', node);
    SameLinked(heap1, heap', order');
    LinksSame(heap1, heap', order');
    TwoMore(refs, Links(heap, order), node.c1, node.c2);
    ChildrenNotChunk(heap, node, chunk);
    NoNull(heap1, order');
    hide WellLinked, AllLive, Retained;
    Added(heap, refs, all, chunk, node);
    BothRetained(heap1, refs, all, chunk, node);
    GraphFrom(heap', order', refs, {chunk});
  }

  lemma GraphParts(heap: Heap, order: seq<Ptr>, refs: multiset<Ptr>, exempt: set<Ptr>)
    requires Graph(heap, order, refs, exempt)
    ensures WellLinked(heap, order) && AllLive(heap, order)
    ensures CountsAre(heap, refs, refs + Links(heap, order), exempt)
  {
    hide WellLinked, Links, CountsAre;
    ListedLive(heap, order);
  }

  lemma GraphFrom(heap: Heap, order: seq<Ptr>, refs: multiset<Ptr>, exempt: set<Ptr>)
    requires WellLinked(heap, order) && AllLive(heap, order)
    requires CountsAre(heap, refs, refs + Links(heap, order), exempt)
    ensures Graph(heap, order, refs, exempt)
  {
    hide WellLinked, Links, CountsAre;
  }

  lemma ListedLive(heap: Heap, order: seq<Ptr>)
    requires WellLinked(heap, order)
    ensures AllLive(heap, order)
  {
    hide Born;
  }

  lemma NoNull(heap: Heap, order: seq<Ptr>)
    requires WellLinked(heap, order)
    ensures NULL !in heap
  {
    hide Born, AllLive;
  }

  lemma ChildrenNotChunk(heap: Heap, node: Node, chunk: Ptr)
    requires ChildrenIn(heap, node) && chunk !in heap && chunk != NULL
    ensures node.c1 != chunk && node.c2 != chunk
  {
  }

  lemma TwoMore(refs: multiset<Ptr>, links: multiset<Ptr>, c1: Ptr, c2: Ptr)
    ensures refs + (links + multiset{c1, c2}) == refs + links + multiset{c1} + multiset{c2}
  {
  }

  lemma OnlyCountsRetained(heap: Heap, order: seq<Ptr>, node: Node)
    requires AllLive(heap, order) && ChildrenIn(heap, node)
    ensures node.c2 == NULL || node.c2 in Retained(heap, node.c1)
    ensures var heap' := Retained(Retained(heap, node.c1), node.c2);
            heap'.Keys == heap.Keys
            && forall i :: 0 <= i < |order| ==> order[i] == NULL || SameChildren(heap, heap', order[i])
  {
  }

  lemma BothRetained(heap: Heap, refs: multiset<Ptr>, all: multiset<Ptr>, chunk: Ptr, node: Node)
    requires CountsAre(heap, refs, all, {chunk}) && NULL !in heap && ChildrenIn(heap, node)
    requires node.c1 != chunk && node.c2 != chunk
    ensures node.c2 == NULL || node.c2 in Retained(heap, node.c1)
    ensures CountsAre(Retained(Retained(heap, node.c1), node.c2), refs,
            all + multiset{node.c1} + multiset{node.c2}, {chunk})
  {
    hide CountsAre;
    OneMore(heap, refs, all, {chunk}, node.c1);
    OneMore(Retained(heap, node.c1), refs, all + multiset{node.c1}, {chunk}, node.c2);
  }

  lemma Added(heap: Heap, refs: multiset<Ptr>, all: multiset<Ptr>, chunk: Ptr, node: Node)
    requires CountsAre(heap, refs, all, {}) && chunk !in all && chunk !in heap
    ensures CountsAre(heap[chunk := node], refs, all, {chunk})
  {
  }

  lemma ChunkUnlinked(heap: Heap, order: seq<Ptr>, refs: multiset<Ptr>, chunk: Ptr)
    requires Graph(heap, order, refs, {}) && chunk != NULL && chunk !in heap
    ensures chunk !in refs + Links(heap, order)
  {
    if chunk in Links(heap, order) {
      var j := Referrer(heap, order, chunk);
      ChildrenLive(heap, order, j);
    }
  }

  lemma Appended(heap: Heap, order: seq<Ptr>, chunk: Ptr, node: Node)
    requires WellLinked(heap, order) && chunk != NULL && chunk !in heap && ChildrenIn(heap, node)
    ensures WellLinked(heap[chunk := node], order + [chunk])
    ensures Links(heap[chunk := node], order + [chunk]) == Links(heap, order) + multiset{node.c1, node.c2}
  {
    var heap', order' := heap[chunk := node], order + [chunk];
    AppendedLinks(heap, order, chunk, node);
    hide Links, Born, AllLive;
    AppendedListed(heap, order, chunk, heap');
    AppendedAges(heap, order, chunk, node, heap', order');
    AppendedDistinct(heap, order, chunk, order');
  }

  lemma AppendedAges(heap: Heap, order: seq<Ptr>, chunk: Ptr, node: Node, heap': Heap, order': seq<Ptr>)
    requires WellLinked(heap, order) && chunk != NULL && chunk !in heap && ChildrenIn(heap, node)
    requires heap' == heap[chunk := node] && order' == order + [chunk]
    ensures forall j :: 0 <= j < |order'| && order'[j] != NULL ==>
              order'[j] in heap' && Born(order', j, heap'[order'[j]].c1) && Born(order', j, heap'[order'[j]].c2)
  {
    forall j | 0 <= j < |order'| && order'[j] != NULL
      ensures order'[j] in heap' && Born(order', j, heap'[order'[j]].c1) && Born(order', j, heap'[order'[j]].c2)
    {
      AppendedOlder(heap, order, chunk, node, j);
    }
  }

  lemma AppendedDistinct(heap: Heap, order: seq<Ptr>, chunk: Ptr, order': seq<Ptr>)
    requires WellLinked(heap, order) && chunk != NULL && chunk !in heap && order' == order + [chunk]
    ensures forall i, j :: 0 <= i < j < |order'| && order'[i] == order'[j] ==> order'[i] == NULL
  {
    hide Born;
  }

  lemma AppendedListed(heap: Heap, order: seq<Ptr>, chunk: Ptr, heap': Heap)
    requires WellLinked(heap, order) && chunk != NULL && chunk !in heap && heap'.Keys == heap.Keys + {chunk}
    ensures forall p :: p in heap' ==> Born(order + [chunk], |order| + 1, p)
  {
    hide Born;
    forall p | p in heap' ensures Born(order + [chunk], |order| + 1, p) {
      if p == chunk {
        BornLast(order, chunk);
      } else {
        assert p in heap.Keys + {chunk};
        BornAppended(order, chunk, |order|, p);
      }
    }
  }

  lemma AppendedOlder(heap: Heap, order: seq<Ptr>, chunk: Ptr, node: Node, j: nat)
    requires WellLinked(heap, order) && chunk != NULL && chunk !in heap && ChildrenIn(heap, node)
    requires j <= |order| && (order + [chunk])[j] != NULL
    ensures var heap', order' := heap[chunk := node], order + [chunk];
            order'[j] in heap' && Born(order', j, heap'[order'[j]].c1) && Born(order', j, heap'[order'[j]].c2)
  {
    hide Born;
    BornNull(order);
    var m := if j < |order| then heap[order[j]] else node;
    BornAppended(order, chunk, j, m.c1);
    BornAppended(order, chunk, j, m.c2);
  }

  lemma AppendedLinks(heap: Heap, order: seq<Ptr>, chunk: Ptr, node: Node)
    requires AllLive(heap, order) && chunk !in heap && chunk != NULL
    ensures AllLive(heap[chunk := node], order + [chunk])
    ensures Links(heap[chunk := node], order + [chunk]) == Links(heap, order) + multiset{node.c1, node.c2}
  {
    var heap', order' := heap[chunk := node], order + [chunk];
    forall i | 0 <= i < |order| ensures order[i] == NULL || SameChildren(heap, heap', order[i]) {}
    LinksSame(heap, heap', order);
    assert order'[..|order|] == order;
    LinksStep(heap', order');
    ChildrenAre(heap', chunk);
    hide Links, Children;
  }

  lemma BornLast(order: seq<Ptr>, chunk: Ptr)
    ensures Born(order + [chunk], |order| + 1, chunk)
  {
    assert (order + [chunk])[|order|] == chunk;
  }

  lemma BornNull(order: seq<Ptr>)
    ensures forall j :: Born(order, j, NULL)
  {
  }

  lemma BornAppended(order: seq<Ptr>, chunk: Ptr, j: nat, p: Ptr)
    requires j <= |order| && Born(order, j, p)
    ensures Born(order + [chunk], j, p) && Born(order + [chunk], j + 1, p)
  {
    if p != NULL {
      var m :| 0 <= m < j && m < |order| && order[m] == p;
      assert (order + [chunk])[m] == p;
    }
  }

  /** Storing the new node in a slot gives it its one reference. */
  lemma Rooted(heap: Heap, order: seq<Ptr>, refs: multiset<Ptr>, chunk: Ptr, heap': Heap)
    requires Graph(heap, order, refs, {chunk}) && chunk in heap
    requires heap' == heap[chunk := heap[chunk].(refc := 1)]
    ensures Graph(heap', order, refs + multiset{chunk}, {})
  {
    CountSet(heap, order, chunk, 1);
    var all := refs + Links(heap, order);
    hide Links, WellLinked, AllLive;
    assert refs + multiset{chunk} + Links(heap, order) == all + multiset{chunk};
    FirstReference(heap, refs, all, chunk, heap');
  }

  lemma FirstReference(heap: Heap, refs: multiset<Ptr>, all: multiset<Ptr>, chunk: Ptr, heap': Heap)
    requires CountsAre(heap, refs, all, {chunk}) && chunk in heap
    requires heap' == heap[chunk := heap[chunk].(refc := 1)]
    ensures CountsAre(heap', refs + multiset{chunk}, all + multiset{chunk}, {})
  {
    assert chunk !in all;
  }

  lemma SlotSet(slots: seq<Ptr>, i: nat, v: Ptr)
    requires i < |slots|
    ensures multiset(slots) >= multiset{slots[i]}
    ensures multiset(slots[i := v]) == multiset(slots) - multiset{slots[i]} + multiset{v}
  {
    assert slots[i] in multiset(slots);
  }

  class TrackerState {
    var heap: Heap
    const regs: array<Ptr>
    const mem: array<Ptr>
    var lastInsn: Insn
    var lastPc: u64
    var isMemInsn: bool
    ghost var order: seq<Ptr>

    /** The roots: one slot per register and per tagged word of memory. */
    ghost function Slots(): multiset<Ptr>
      reads this, regs, mem
    {
      multiset(regs[..]) + multiset(mem[..])
    }

    ghost predicate Valid()
      reads this, regs, mem
    {
      && regs.Length == NXPR && regs != mem
      && Graph(heap, order, Slots(), {})
    }

    constructor (sz: nat)
      ensures Valid() && heap == map[] && mem.Length == sz && !isMemInsn && fresh(regs) && fresh(mem)
    {
      heap, order := map[], [];
      isMemInsn := false;
      regs := new Ptr[NXPR](_ => NULL);
      mem := new Ptr[sz](_ => NULL);
      lastInsn, lastPc := Insn(0, 0, 0, 0), 0;
      new;
      NoSlots(regs[..]);
      NoSlots(mem[..]);
    }

    /** Drops one reference to node, and frees what that leaves unreferenced.
        held are the other references from outside the heap. */
    method Cleanup(node: Ptr, ghost held: multiset<Ptr>, ghost exempt: set<Ptr>)
      requires Graph(heap, order, held + multiset{node}, exempt)
      modifies `heap, `order
      ensures Graph(heap, order, held, exempt)
      ensures Released(old(heap), heap, exempt)
    {
      hide Graph, Links, Children, Released;
      NothingReleased(heap, exempt);
      if node == NULL {
        NullIsNoReference(heap, order, held, exempt);
        assert Graph(heap, order, held, exempt);
        assert Released(old(heap), heap, exempt);
        return;
      }
      var queue := [node];
      assert multiset(queue) == multiset{node};
      while queue != []
        invariant Graph(heap, order, held + multiset(queue), exempt)
        invariant Released(old(heap), heap, exempt)
        decreases heap.Keys, |queue|
      {
        var last := |queue| - 1;
        var current := queue[last];
        assert queue == queue[..last] + [current];
        Pop(heap, order, held, exempt, queue, queue[..last], current);
        queue := queue[..last];
        ghost var refs := held + multiset(queue);
        if current == NULL {
          NullIsNoReference(heap, order, refs, exempt);
          continue;
        }
        IsLive(heap, order, refs, exempt, current);
        ReleasedOne(old(heap), heap, exempt, current, heap[current].refc - 1);
        ghost var before := heap;
        heap := heap[current := heap[current].(refc := heap[current].refc - 1)];
        Decrement(before, order, refs, exempt, current, heap);
        assert heap.Keys == before.Keys;
        if heap[current].refc == 0 {
          var c1, c2 := heap[current].c1, heap[current].c2;
          ghost var younger := Freed(heap, order, refs, exempt, current);
          ChildrenAre(heap, current);
          Push(heap - {current}, younger, held, exempt, queue, c1, c2);
          ReleasedOne(old(heap), heap, exempt, current, 0);
          assert current in heap.Keys && current !in (heap - {current}).Keys;
          queue := queue + [c1] + [c2];
          heap := heap - {current};
          order := younger;
        }
      }
      assert held + multiset(queue) == held;
    }

    /** malloc, the stores to the fields, and the two increments.  A reference
        count set to garbage stands for one not yet initialised. */
    method Build(chunk: Ptr, node: Node)
      requires Valid() && chunk != NULL && chunk !in heap && ChildrenIn(heap, node)
      modifies `heap, `order
      ensures regs.Length == NXPR && regs != mem && Graph(heap, order, Slots(), {chunk})
      ensures chunk in heap && heap[chunk] == node && OnlyCounts(old(heap), heap - {chunk})
    {
      hide Graph;
      ghost var before := heap;
      heap := heap[chunk := node];
      if node.c1 != NULL { heap := Retained(heap, node.c1); }
      if node.c2 != NULL { heap := Retained(heap, node.c2); }
      Allocated(before, order, Slots(), chunk, node, heap);
      order := order + [chunk];
    }

    /** What track and track_load end with; track_store does the same to a
        memory slot. */
    method ReplaceReg(dst: reg, chunk: Ptr, node: Node)
      requires Valid() && chunk != NULL && chunk !in heap && ChildrenIn(heap, node)
      modifies `heap, `order, regs
      ensures Valid() && regs[..] == old(regs[..])[dst := chunk]
      ensures Tracked(old(heap), heap, chunk, node.(refc := 1))
    {
      hide Graph, OnlyCounts;
      Build(chunk, node);
      ghost var grown := heap;
      ghost var held := Vacated(regs[..], mem[..], dst);
      Cleanup(regs[dst], held, {chunk});
      ghost var released := heap;
      heap := heap[chunk := heap[chunk].(refc := 1)];
      regs[dst] := chunk;
      Rooted(released, order, held, chunk, heap);
      Occupied(old(regs[..]), mem[..], dst, chunk, regs[..]);
      TrackedIs(old(heap), grown, released, heap, chunk);
    }

    method ReplaceMem(ind: nat, chunk: Ptr, node: Node)
      requires Valid() && ind < mem.Length && chunk != NULL && chunk !in heap && ChildrenIn(heap, node)
      modifies `heap, `order, mem
      ensures Valid() && mem[..] == old(mem[..])[ind := chunk]
      ensures Tracked(old(heap), heap, chunk, node.(refc := 1))
    {
      hide Graph, OnlyCounts;
      Build(chunk, node);
      ghost var grown := heap;
      ghost var held := Vacated(mem[..], regs[..], ind);
      Cleanup(mem[ind], held, {chunk});
      ghost var released := heap;
      heap := heap[chunk := heap[chunk].(refc := 1)];
      mem[ind] := chunk;
      Rooted(released, order, held, chunk, heap);
      Occupied(old(mem[..]), regs[..], ind, chunk, mem[..]);
      TrackedIs(old(heap), grown, released, heap, chunk);
    }

    method TrackLoad(paddr: u64, chunk: Ptr, garbage: int)
      requires Valid() && paddr / MEM_TO_TAG_RATIO < mem.Length && chunk != NULL && chunk !in heap
      modifies `heap, `order, `isMemInsn, regs
      ensures Valid() && !isMemInsn
      ensures var dst, c1, c2 := lastInsn.rd, old(mem[paddr / MEM_TO_TAG_RATIO]), old(regs[lastInsn.rs1]);
              if !old(isMemInsn) || dst == 0 then heap == old(heap) && regs[..] == old(regs[..])
              else
                Tracked(old(heap), heap, chunk, Node(c1, c2, lastInsn, lastPc, dst, 1, true))
                && regs[..] == old(regs[..])[dst := chunk]
    {
      hide Graph, OnlyCounts;
      if !isMemInsn { return; }
      isMemInsn := false;
      var dst := lastInsn.rd;
      if dst == 0 { return; }
      var ind := paddr / MEM_TO_TAG_RATIO;
      SlotsLive(heap, order, regs[..], mem[..], lastInsn.rs1, ind);
      ReplaceReg(dst, chunk, Node(mem[ind], regs[lastInsn.rs1], lastInsn, lastPc, dst, garbage, true));
    }

    method TrackStore(paddr: u64, addr: u64, chunk: Ptr, garbage: int)
      requires Valid() && paddr / MEM_TO_TAG_RATIO < mem.Length && chunk != NULL && chunk !in heap
      modifies `heap, `order, `isMemInsn, mem
      ensures Valid() && !isMemInsn
      ensures var ind, c1, c2 := paddr / MEM_TO_TAG_RATIO, old(regs[lastInsn.rs2]), old(regs[lastInsn.rs1]);
              if !old(isMemInsn) then heap == old(heap) && mem[..] == old(mem[..])
              else
                Tracked(old(heap), heap, chunk, Node(c1, c2, lastInsn, lastPc, addr, 1, true))
                && mem[..] == old(mem[..])[ind := chunk]
    {
      hide Graph, OnlyCounts;
      if !isMemInsn { return; }
      isMemInsn := false;
      var ind := paddr / MEM_TO_TAG_RATIO;
      var reg := lastInsn.rs2;
      SlotsLive(heap, order, regs[..], mem[..], lastInsn.rs1, ind);
      SlotsLive(heap, order, regs[..], mem[..], reg, ind);
      ReplaceMem(ind, chunk, Node(regs[reg], regs[lastInsn.rs1], lastInsn, lastPc, addr, garbage, true));
    }

    /** args are the disassembler's register operands: the destination first,
        0 for none, then sources, with -1 for a memory operand. */
    method Track(insn: Insn, pc: u64, args: seq<int>, chunk: Ptr)
      requires Valid() && chunk != NULL && chunk !in heap
      requires args != [] ==> 0 <= args[0] < NXPR
      requires forall i :: 1 <= i < |args| ==> args[i] == -1 || 1 <= args[i] < NXPR
      modifies this, regs
      ensures Valid() && lastInsn == insn && lastPc == pc
      ensures isMemInsn <==> |args| > 0 && args[0] !in {0, REG_SP} && -1 in args[1..]
      ensures if Makes(insn, pc, args, old(heap), old(regs[..])) then
                var c1 := if |args| >= 2 then old(regs[args[1]]) else NULL;
                var c2 := if |args| >= 3 then old(regs[args[2]]) else NULL;
                Tracked(old(heap), heap, chunk, Node(c1, c2, insn, pc, insn.rd, 1, false))
                && regs[..] == old(regs[..])[insn.rd := chunk]
              else heap == old(heap) && regs[..] == old(regs[..])
    {
      hide Graph, OnlyCounts;
      lastInsn, lastPc := insn, pc;
      isMemInsn := false;
      var n := |args|;
      if n == 0 || args[0] == 0 { return; }
      if args[0] == REG_SP { return; }
      for i := 1 to n
        invariant forall k :: 1 <= k < i ==> args[k] != -1
      {
        if args[i] == -1 {
          isMemInsn := true;
          assert args[1..][i - 1] == -1;
          return;
        }
      }
      var dst := insn.rd;
      if dst <= 0 || dst != args[0] { return; }
      SourcesLive(heap, order, regs[..], mem[..], args);
      if (n >= 2 && regs[args[1]] != NULL && heap[regs[args[1]]].pc == pc) ||
         (n >= 3 && regs[args[2]] != NULL && heap[regs[args[2]]].pc == pc)
      {
        return;
      }
      if n == 2 && args[1] == dst { return; }
      var c1 := if n >= 2 then regs[args[1]] else NULL;
      var c2 := if n >= 3 then regs[args[2]] else NULL;
      ReplaceReg(dst, chunk, Node(c1, c2, insn, pc, dst, 1, false));
    }
  }

  /** node is new at chunk; every other node is an old one with at most its
      count changed. */
  ghost predicate Tracked(heap: Heap, heap': Heap, chunk: Ptr, node: Node) {
    chunk in heap' && heap'[chunk] == node && OnlyCounts(heap, heap' - {chunk})
  }

  /** When a register instruction makes a node: it writes a register other
      than sp, neither source node carries the same pc, and it is not a
      one-source write to its own source. */
  predicate Makes(insn: Insn, pc: u64, args: seq<int>, heap: Heap, regs: seq<Ptr>)
    requires |regs| == NXPR && (forall i :: 1 <= i < |args| ==> args[i] == -1 || 1 <= args[i] < NXPR)
  {
    && args != [] && args[0] !in {0, REG_SP} && args[0] == insn.rd && -1 !in args[1..]
    && (|args| >= 2 ==> !HasPc(heap, regs[args[1]], pc))
    && (|args| >= 3 ==> !HasPc(heap, regs[args[2]], pc))
    && !(|args| == 2 && args[1] == insn.rd)
  }

  predicate HasPc(heap: Heap, p: Ptr, pc: u64) {
    p != NULL && p in heap && heap[p].pc == pc
  }

  lemma TrackedIs(heap: Heap, grown: Heap, released: Heap, heap': Heap, chunk: Ptr)
    requires chunk in grown && OnlyCounts(heap, grown - {chunk}) && Released(grown, released, {chunk})
    requires heap' == released[chunk := grown[chunk].(refc := 1)]
    ensures Tracked(heap, heap', chunk, grown[chunk].(refc := 1))
  {
    forall p | p in heap' - {chunk} ensures SameChildren(heap, heap' - {chunk}, p) {
      assert SameChildren(grown, released, p);
      assert SameChildren(heap, grown - {chunk}, p);
    }
  }

  lemma SlotsLive(heap: Heap, order: seq<Ptr>, regs: seq<Ptr>, mem: seq<Ptr>, r: nat, i: nat)
    requires Graph(heap, order, multiset(regs) + multiset(mem), {}) && r < |regs| && i < |mem|
    ensures regs[r] == NULL || regs[r] in heap
    ensures mem[i] == NULL || mem[i] in heap
  {
    hide Links;
    assert regs[r] in multiset(regs) + multiset(mem) && mem[i] in multiset(regs) + multiset(mem);
  }

  lemma SourcesLive(heap: Heap, order: seq<Ptr>, regs: seq<Ptr>, mem: seq<Ptr>, args: seq<int>)
    requires Graph(heap, order, multiset(regs) + multiset(mem), {})
    requires forall i :: 1 <= i < |args| ==> 1 <= args[i] < |regs|
    ensures forall i :: 1 <= i < |args| ==> regs[args[i]] == NULL || regs[args[i]] in heap
  {
    hide Links;
    forall i | 1 <= i < |args| ensures regs[args[i]] == NULL || regs[args[i]] in heap {
      assert regs[args[i]] in multiset(regs) + multiset(mem);
    }
  }

  /** The references from all slots but one. */
  lemma Vacated(slots: seq<Ptr>, others: seq<Ptr>, i: nat) returns (held: multiset<Ptr>)
    requires i < |slots|
    ensures held + multiset{slots[i]} == multiset(slots) + multiset(others)
    ensures held == multiset(slots) + multiset(others) - multiset{slots[i]}
    ensures multiset(slots) + multiset(others) == multiset(others) + multiset(slots)
  {
    SlotSet(slots, i, slots[i]);
    held := multiset(slots) + multiset(others) - multiset{slots[i]};
  }

  lemma Occupied(slots: seq<Ptr>, others: seq<Ptr>, i: nat, v: Ptr, slots': seq<Ptr>)
    requires i < |slots| && slots' == slots[i := v]
    ensures multiset(slots') + multiset(others)
         == multiset(slots) + multiset(others) - multiset{slots[i]} + multiset{v}
    ensures multiset(slots') + multiset(others) == multiset(others) + multiset(slots')
  {
    SlotSet(slots, i, v);
  }

  lemma {:induction false} NoSlots(slots: seq<Ptr>)
    requires forall i :: 0 <= i < |slots| ==> slots[i] == NULL
    ensures forall p :: p in multiset(slots) ==> p == NULL
  {
  }

  lemma ChildrenAre(heap: Heap, p: Ptr)
    requires p in heap && p != NULL
    ensures Children(heap, p) == multiset{heap[p].c1, heap[p].c2}
  {
  }

  lemma IsLive(heap: Heap, order: seq<Ptr>, refs: multiset<Ptr>, exempt: set<Ptr>, p: Ptr)
    requires Graph(heap, order, refs + multiset{p}, exempt) && p != NULL
    ensures p in heap && p !in exempt
  {
    hide Links;
    assert p in refs + multiset{p};
  }
}
