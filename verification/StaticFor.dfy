/** The static parallel loop: which NUMA nodes take part, which block each participant runs,
    and the loop as a whole. */
module StaticFor {
  import opened Bits
  import opened Sequences
  import opened TreeBarrier
  import opened BinomialTree
  import opened Unfolding

  // ---------------------------------------------------------------------------
  // Numbering the workers of several nodes
  // ---------------------------------------------------------------------------

  // Workers on the first `j` of nodes with `ns` workers each.
  function Base(ns: seq<nat>, j: nat): nat
    requires j <= |ns|
  {
    if j == 0 then 0 else Base(ns, j - 1) + ns[j - 1]
  }

  function Total(ns: seq<nat>): nat {
    Base(ns, |ns|)
  }

  // The node of worker `x`.
  function NodeOf(ns: seq<nat>, x: nat): (j: nat)
    requires x < Total(ns)
    ensures j < |ns| && Base(ns, j) <= x < Base(ns, j) + ns[j]
  {
    NodeUpTo(ns, |ns|, x)
  }

  function NodeUpTo(ns: seq<nat>, k: nat, x: nat): (j: nat)
    requires k <= |ns| && x < Base(ns, k)
    ensures j < k && Base(ns, j) <= x < Base(ns, j) + ns[j]
    decreases k
  {
    if Base(ns, k - 1) <= x then k - 1 else NodeUpTo(ns, k - 1, x)
  }

  // Its index on the node.
  function IndexOf(ns: seq<nat>, x: nat): nat
    requires x < Total(ns)
  {
    x - Base(ns, NodeOf(ns, x))
  }

  lemma {:induction false} BaseGrows(ns: seq<nat>, j: nat, k: nat)
    requires j <= k <= |ns|
    ensures Base(ns, j) <= Base(ns, k)
    ensures j < k ==> Base(ns, j) + ns[j] <= Base(ns, k)
  {
    if j < k {
      BaseGrows(ns, j, k - 1);
    }
  }

  lemma NodeIs(ns: seq<nat>, j: nat, i: nat)
    requires j < |ns| && i < ns[j]
    ensures Base(ns, j) + i < Total(ns)
    ensures NodeOf(ns, Base(ns, j) + i) == j && IndexOf(ns, Base(ns, j) + i) == i
  {
    BaseGrows(ns, j, |ns|);
    var k := NodeOf(ns, Base(ns, j) + i);
    if k < j {
      BaseGrows(ns, k, j);
    } else if j < k {
      BaseGrows(ns, j, k);
    }
  }

  // ---------------------------------------------------------------------------
  // A user worker as the master, over several nodes
  // ---------------------------------------------------------------------------

  // `s` with every element moved up by `b`.
  ghost function Shift(s: seq<nat>, b: nat): (r: seq<nat>)
    ensures |r| == |s| && forall k :: 0 <= k < |s| ==> r[k] == s[k] + b
  {
    seq(|s|, k requires 0 <= k < |s| => s[k] + b)
  }

  lemma ShiftMember(s: seq<nat>, b: nat, c: nat)
    ensures c in Shift(s, b) <==> b <= c && c - b in s
    ensures Distinct(s) ==> Distinct(Shift(s, b))
  {
    if b <= c && c - b in s {
      var k :| 0 <= k < |s| && s[k] == c - b;
      assert Shift(s, b)[k] == c;
    }
  }

  // The master signals, and waits for, the first worker of each node; workers 0 to
  // Total(ns) - 1 run a binomial tree on their node; participant Total(ns) is the master.
  ghost function UserKids(ns: seq<nat>, x: nat): seq<nat>
    requires x <= Total(ns)
  {
    if x == Total(ns) then seq(|ns|, j requires 0 <= j < |ns| => Base(ns, j))
    else
      var j := NodeOf(ns, x);
      Shift(Kids(IndexOf(ns, x), ns[j], -1, Log(ns[j])), Base(ns, j))
  }

  ghost function UserParent(ns: seq<nat>, x: nat): nat
    requires x <= Total(ns)
  {
    if x == Total(ns) then 0
    else if IndexOf(ns, x) == 0 then Total(ns)
    else Base(ns, NodeOf(ns, x)) + IndexOf(ns, x) - LowBit(IndexOf(ns, x))
  }

  ghost function UserDepth(ns: seq<nat>, x: nat): nat {
    if x == Total(ns) then 0 else x + 1
  }

  ghost function UserLists(ns: seq<nat>): seq<seq<nat>> {
    seq(Total(ns) + 1, x requires 0 <= x <= Total(ns) => UserKids(ns, x))
  }

  ghost function UserTree(ns: seq<nat>): Tree {
    Tree(Total(ns), UserLists(ns), UserLists(ns))
  }

  ghost function UserParents(ns: seq<nat>): seq<nat> {
    seq(Total(ns) + 1, x requires 0 <= x <= Total(ns) => UserParent(ns, x))
  }

  ghost function UserDepths(ns: seq<nat>): seq<nat> {
    seq(Total(ns) + 1, x requires 0 <= x <= Total(ns) => UserDepth(ns, x))
  }

  ghost predicate Positive(ns: seq<nat>) {
    forall j :: 0 <= j < |ns| ==> ns[j] > 0
  }

  lemma MasterKids(ns: seq<nat>, c: nat)
    requires Positive(ns)
    ensures c in UserKids(ns, Total(ns)) <==> c < Total(ns) && UserParent(ns, c) == Total(ns)
    ensures Distinct(UserKids(ns, Total(ns)))
  {
    var kids := UserKids(ns, Total(ns));
    forall i, j | 0 <= i < j < |kids| ensures kids[i] != kids[j] {
      BaseGrows(ns, i, j);
    }
    if c in kids {
      var j :| 0 <= j < |kids| && kids[j] == c;
      NodeIs(ns, j, 0);
    }
    if c < Total(ns) && UserParent(ns, c) == Total(ns) {
      if IndexOf(ns, c) == 0 {
        assert kids[NodeOf(ns, c)] == c;
      }
    }
  }

  lemma WorkerKids(ns: seq<nat>, q: nat, c: nat)
    requires Positive(ns) && q < Total(ns)
    ensures c in UserKids(ns, q) <==> c < Total(ns) && UserParent(ns, c) == q
    ensures Distinct(UserKids(ns, q))
  {
    var j, i := NodeOf(ns, q), IndexOf(ns, q);
    var kids := Kids(i, ns[j], -1, Log(ns[j]));
    KidsDistinct(i, ns[j], -1, Log(ns[j]));
    ShiftMember(kids, Base(ns, j), c);
    if c in UserKids(ns, q) {
      KidsMember(i, ns[j], -1, c - Base(ns, j));
      NodeIs(ns, j, c - Base(ns, j));
    }
    if c < Total(ns) && UserParent(ns, c) == q {
      var k, l := NodeOf(ns, c), IndexOf(ns, c);
      if l != 0 {
        NodeIs(ns, k, l - LowBit(l));
        KidsMember(i, ns[j], -1, l);
      }
    }
  }

  /** The per-node binomial trees under the master form a tree that reaches every worker of
      every allocated node. */
  lemma UserTreeOk(ns: seq<nat>)
    requires Positive(ns)
    ensures TreeOk(UserTree(ns), UserParents(ns), UserDepths(ns))
  {
    var t, parent := UserTree(ns), UserParents(ns);
    forall q: nat | q <= Total(ns) ensures Distinct(t.signals[q]) {
      if q == Total(ns) { MasterKids(ns, 0); } else { WorkerKids(ns, q, 0); }
    }
    forall q: nat, c: nat | q <= Total(ns) ensures c in t.signals[q] <==> IsKid(t, parent, q, c) {
      if q == Total(ns) { MasterKids(ns, c); } else { WorkerKids(ns, q, c); }
    }
  }

  // ---------------------------------------------------------------------------
  // Blocks of iterations
  // ---------------------------------------------------------------------------

  function Min(a: nat, b: nat): nat {
    if a < b then a else b
  }

  function Delta(count: nat, threads: nat): nat
    requires threads > 0
  {
    (count + threads - 1) / threads
  }

  // The iterations that the participant with work index `work` passes to the loop body.
  function Block(delta: nat, count: nat, work: nat): (nat, nat) {
    (Min(delta * work, count), Min(delta * (work + 1), count))
  }

  ghost predicate InBlock(delta: nat, count: nat, work: nat, x: nat) {
    Block(delta, count, work).0 <= x < Block(delta, count, work).1
  }

  /** The block size is the least with which `threads` blocks are enough. */
  lemma DeltaLeast(count: nat, threads: nat)
    requires threads > 0
    ensures count <= threads * Delta(count, threads)
    ensures count > 0 ==> Delta(count, threads) > 0 && threads * (Delta(count, threads) - 1) < count
    ensures count == 0 ==> Delta(count, threads) == 0
  {
    var a := count + threads - 1;
    var d := a / threads;
    assert a == threads * d + a % threads;
    Scale(threads, d - 1);
    if count == 0 && d > 0 {
      MulMonotone(threads, 1, d);
    }
  }

  lemma Scale(a: int, b: int)
    ensures a * (b + 1) == a * b + a
  {
  }

  lemma {:induction false} MulMonotone(d: nat, a: nat, b: nat)
    requires a <= b
    ensures d * a <= d * b
  {
    if a < b {
      MulMonotone(d, a, b - 1);
      assert d * b == d * (b - 1) + d;
    }
  }

  // A block has at most `delta` iterations.
  lemma BlockSize(delta: nat, count: nat, work: nat)
    ensures var (low, high) := Block(delta, count, work);
            low <= high <= count && high - low <= delta
  {
    Scale(delta, work);
  }

  /** The blocks of `threads` work indices partition the iterations: iteration `x` is in the block of
      exactly one work index `k`. The blocks are consecutive, all of the same size but that the last
      ones may be cut short, and this size is the least with which they are enough. */
  lemma BlocksPartition(count: nat, threads: nat, x: nat) returns (k: nat)
    requires threads > 0 && x < count
    ensures k < threads && forall w: nat :: InBlock(Delta(count, threads), count, w, x) <==> w == k
    ensures var d := Delta(count, threads);
            && d * k <= x < d * (k + 1)
            && count <= threads * d && threads * (d - 1) < count
  {
    var d := Delta(count, threads);
    DeltaLeast(count, threads);
    k := FindBlock(d, threads, x);
    forall w: nat ensures InBlock(d, count, w, x) <==> w == k {
      if w < k {
        MulMonotone(d, w + 1, k);
      } else if k < w {
        MulMonotone(d, k + 1, w);
      }
    }
  }

  lemma {:induction false} FindBlock(d: nat, threads: nat, x: nat) returns (k: nat)
    requires x < threads * d
    ensures k < threads && d * k <= x < d * (k + 1)
  {
    if d * (threads - 1) <= x {
      k := threads - 1;
    } else {
      k := FindBlock(d, threads - 1, x);
    }
  }

  // ---------------------------------------------------------------------------
  // Allocation of nodes and work indices
  // ---------------------------------------------------------------------------

  // `nodes` are nodes with `ns` workers each, at least one.
  ghost predicate Reserved(threads: seq<nat>, nodes: seq<nat>, ns: seq<nat>) {
    && |ns| == |nodes|
    && (forall j {:trigger nodes[j]} :: 0 <= j < |nodes| ==> nodes[j] < |threads| && ns[j] == threads[nodes[j]] > 0)
  }

  // `nodes` increase and stay below `i`.
  ghost predicate Ascending(nodes: seq<nat>, i: nat) {
    && (forall j, k :: 0 <= j < k < |nodes| ==> nodes[j] < nodes[k])
    && (forall j :: 0 <= j < |nodes| ==> nodes[j] < i)
  }

  /** Different workers of the reserved nodes wait on different slots, the slot of a worker
      being its index behind those of all earlier nodes. */
  lemma SlotsDiffer(threads: seq<nat>, nodes: seq<nat>, ns: seq<nat>, j: nat, i: nat, k: nat, l: nat)
    requires Reserved(threads, nodes, ns) && Ascending(nodes, |threads|)
    requires j < |ns| && k < |ns| && i < ns[j] && l < ns[k] && (j != k || i != l)
    ensures Base(threads, nodes[j]) + i != Base(threads, nodes[k]) + l
  {
    if j < k {
      BaseGrows(threads, nodes[j], nodes[k]);
    } else if k < j {
      BaseGrows(threads, nodes[k], nodes[j]);
    }
  }

  /** `base[j]` is the first work index of the j-th node: it counts the workers of earlier
      nodes, and the user worker once its node, at position `jm`, has been passed. */
  ghost predicate BasesOk(ns: seq<nat>, base: seq<nat>, user: bool, jm: nat) {
    && |base| == |ns|
    && forall j: nat {:trigger base[j]} :: j < |ns| ==> base[j] == Base(ns, j) + Once(user && jm < j)
  }

  // The entries of `work` for the reserved nodes.
  function Bases(nodes: seq<nat>, work: seq<nat>): (base: seq<nat>)
    requires forall j :: 0 <= j < |nodes| ==> nodes[j] < |work|
    ensures |base| == |nodes| && forall j :: 0 <= j < |nodes| ==> base[j] == work[nodes[j]]
  {
    seq(|nodes|, j requires 0 <= j < |nodes| => work[nodes[j]])
  }

  lemma {:induction false} BasePrefix(ns: seq<nat>, k: nat, j: nat)
    requires j <= |ns|
    ensures Base(ns + [k], j) == Base(ns, j)
  {
    if j > 0 {
      BasePrefix(ns, k, j - 1);
    }
  }

  lemma BasesNext(ns: seq<nat>, base: seq<nat>, user: bool, jm: nat, jm': nat, k: nat)
    requires BasesOk(ns, base, user, jm) && (jm' == jm || (jm >= |ns| && jm' >= |ns|))
    ensures BasesOk(ns + [k], base + [Total(ns) + Once(user && jm < |ns|)], user, jm')
    ensures Total(ns + [k]) == Total(ns) + k
  {
    forall j: nat | j <= |ns| ensures Base(ns + [k], j) == Base(ns, j) {
      BasePrefix(ns, k, j);
    }
  }

  // Which of the first `i` nodes have been reserved, and how many threads they bring.
  ghost predicate Visited(threads: seq<nat>, busy: seq<bool>, i: nat, nodes: seq<nat>, ns: seq<nat>) {
    && |busy| == |threads| && i <= |threads|
    && Reserved(threads, nodes, ns) && Ascending(nodes, i)
    && forall k: nat {:trigger k in nodes} :: k in nodes <==> k < i && !busy[k] && threads[k] > 0
  }

  ghost predicate Counted(nodes: seq<nat>, ns: seq<nat>, work: seq<nat>, user: bool, jm: nat, numThreads: nat) {
    && (forall j :: 0 <= j < |nodes| ==> nodes[j] < |work|)
    && BasesOk(ns, Bases(nodes, work), user, jm)
    && numThreads == Enough(ns, user, jm)
  }

  lemma VisitedNext(threads: seq<nat>, busy: seq<bool>, i: nat, nodes: seq<nat>, ns: seq<nat>)
    requires Visited(threads, busy, i, nodes, ns) && i < |threads|
    ensures if busy[i] || threads[i] == 0 then Visited(threads, busy, i + 1, nodes, ns)
            else Visited(threads, busy, i + 1, nodes + [i], ns + [threads[i]])
  {
    assert (nodes + [i])[..|nodes|] == nodes;
  }

  lemma CountedNext(threads: seq<nat>, busy: seq<bool>, i: nat, nodes: seq<nat>, ns: seq<nat>, work: seq<nat>, user: bool,
                    jm: nat, jm': nat, n: nat)
    requires Visited(threads, busy, i, nodes, ns) && i < |threads| == |work|
    requires Counted(nodes, ns, work, user, jm, n) && (jm' == jm || (jm >= |ns| && jm' >= |ns|))
    ensures Counted(nodes + [i], ns + [threads[i]], work[i := n], user, jm',
                    n + threads[i] + Once(user && jm' < |ns| + 1) - Once(user && jm < |ns|))
  {
    BasesNext(ns, Bases(nodes, work), user, jm, jm', threads[i]);
    assert Bases(nodes + [i], work[i := n]) == Bases(nodes, work) + [n];
  }

  // A reserved node has workers.
  lemma ReservedPositive(threads: seq<nat>, nodes: seq<nat>, ns: seq<nat>)
    requires Reserved(threads, nodes, ns)
    ensures Positive(ns)
  {
    forall j | 0 <= j < |ns| ensures ns[j] > 0 {
      assert nodes[j] < |threads|;
    }
  }

  // The threads of the first nodes, the user worker included once its node, at `jm`, is among them.
  function Enough(ns: seq<nat>, user: bool, jm: nat): nat {
    Total(ns) + Once(user && jm < |ns|)
  }

  // Without the last node there were too few threads.
  ghost predicate AllNeeded(ns: seq<nat>, user: bool, jm: nat, reqThreads: int) {
    |ns| > 1 ==> Enough(ns[..|ns| - 1], user, jm) < reqThreads
  }

  lemma LastNeeded(ns: seq<nat>, n: nat, user: bool, jm: nat, jm': nat, reqThreads: int)
    requires ns == [] || Enough(ns, user, jm) < reqThreads
    requires jm' == jm || (jm >= |ns| && jm' >= |ns|)
    ensures AllNeeded(ns + [n], user, jm', reqThreads)
  {
    assert (ns + [n])[..|ns|] == ns;
  }

  /** What a system-wide loop asks for: the workers of each node and whether it is taken; whether
      the master is a user worker, and its node; how many threads are wanted. */
  datatype Request = Request(threads: seq<nat>, busy: seq<bool>, user: bool, master: nat, reqThreads: int)

  /** What has been found: the nodes, the first work index of each, the number of threads; the
      workers of each node, and the position of the master's node among them. */
  datatype Found = Found(nodes: seq<nat>, work: seq<nat>, numThreads: nat, ns: seq<nat>, jm: nat)

  // The search for nodes has looked at the first `i`.
  ghost predicate Search(q: Request, i: nat, r: Found) {
    && |r.work| == |q.threads| && |r.nodes| == |r.ns| <= i
    && Visited(q.threads, q.busy, i, r.nodes, r.ns) && Counted(r.nodes, r.ns, r.work, q.user, r.jm, r.numThreads)
    && AllNeeded(r.ns, q.user, r.jm, q.reqThreads)
    && if r.jm < |r.nodes| then r.nodes[r.jm] == q.master && q.master < i
       else r.jm == |q.threads| && q.master !in r.nodes
  }

  ghost predicate Searching(q: Request, i: nat, r: Found) {
    |r.work| == |q.threads| && forall n: nat {:trigger Marker(r, n)} :: Marker(r, n) ==> Search(q, i, r)
  }

  lemma SearchMeans(q: Request, i: nat, r: Found)
    ensures Searching(q, i, r) <==> Search(q, i, r)
  {
    assert Marker(r, 0);
  }

  // At first nothing has been found.
  lemma SearchStart(q: Request, r: Found)
    requires |q.busy| == |q.threads| == |r.work| && r == Found([], r.work, 0, [], |q.threads|)
    ensures Searching(q, 0, r)
  {
    SearchMeans(q, 0, r);
  }

  // A busy node, or one without workers, is passed over.
  lemma SearchSkip(q: Request, i: nat, r: Found)
    requires Searching(q, i, r)
    requires i < |q.threads| == |q.busy| && (q.busy[i] || q.threads[i] == 0)
    ensures Searching(q, i + 1, r)
  {
    SearchMeans(q, i, r);
    SearchMeans(q, i + 1, r);
    VisitedNext(q.threads, q.busy, i, r.nodes, r.ns);
  }

  // What there is once node `i` has been taken.
  ghost function Taken(q: Request, i: nat, r: Found): Found
    requires i < |q.threads| == |r.work|
  {
    Found(r.nodes + [i], r.work[i := r.numThreads], r.numThreads + q.threads[i] + Once(q.user && q.master == i),
          r.ns + [q.threads[i]], if q.master == i then |r.nodes| else r.jm)
  }

  // The thread count once node `i` has been taken.
  lemma TakenCount(q: Request, i: nat, r: Found)
    requires Search(q, i, r) && i < |q.threads|
    ensures var t := Taken(q, i, r);
            Counted(t.nodes, t.ns, t.work, q.user, t.jm, t.numThreads)
  {
    CountedNext(q.threads, q.busy, i, r.nodes, r.ns, r.work, q.user, r.jm, Taken(q, i, r).jm, r.numThreads);
  }

  lemma TakenSearch(q: Request, i: nat, r: Found)
    requires Search(q, i, r) && i < |q.threads| && !q.busy[i] && q.threads[i] != 0
    requires r.nodes == [] || r.numThreads < q.reqThreads
    ensures Search(q, i + 1, Taken(q, i, r))
  {
    VisitedNext(q.threads, q.busy, i, r.nodes, r.ns);
    TakenCount(q, i, r);
    LastNeeded(r.ns, q.threads[i], q.user, r.jm, Taken(q, i, r).jm, q.reqThreads);
  }

  // A free one is taken.
  lemma SearchTake(q: Request, i: nat, r: Found)
    requires Searching(q, i, r)
    requires i < |q.threads| == |q.busy| && !q.busy[i] && q.threads[i] != 0
    requires r.nodes == [] || r.numThreads < q.reqThreads
    ensures Searching(q, i + 1, Taken(q, i, r))
  {
    SearchMeans(q, i, r);
    TakenSearch(q, i, r);
    SearchMeans(q, i + 1, Taken(q, i, r));
  }

  // The workers of the nodes.
  function Workers(threads: seq<nat>, nodes: seq<nat>): (ns: seq<nat>)
    requires forall j :: 0 <= j < |nodes| ==> nodes[j] < |threads|
    ensures |ns| == |nodes| && forall j :: 0 <= j < |nodes| ==> ns[j] == threads[nodes[j]]
  {
    seq(|nodes|, j requires 0 <= j < |nodes| => threads[nodes[j]])
  }

  // The nodes have the work indices that follow those of earlier nodes and, once the
  // master's node has been passed, that of the user worker.
  ghost predicate Numbering(threads: seq<nat>, user: bool, master: nat, nodes: seq<nat>, work: seq<nat>, numThreads: nat) {
    && |work| == |threads|
    && (forall j :: 0 <= j < |nodes| ==> nodes[j] < |threads|)
    && numThreads == Total(Workers(threads, nodes)) + Once(user && master in nodes)
    && (forall j {:trigger Base(Workers(threads, nodes), j)} :: 0 <= j < |nodes| ==>
          work[nodes[j]] == Base(Workers(threads, nodes), j) + Once(user && master in nodes[..j]))
  }

  ghost predicate Numbered(threads: seq<nat>, user: bool, master: nat, nodes: seq<nat>, work: seq<nat>, numThreads: nat) {
    forall n: nat {:trigger Marker(work, n)} :: Marker(work, n) ==>
      Numbering(threads, user, master, nodes, work, numThreads)
  }

  lemma NumberedMeans(threads: seq<nat>, user: bool, master: nat, nodes: seq<nat>, work: seq<nat>, numThreads: nat)
    ensures Numbered(threads, user, master, nodes, work, numThreads) <==>
            Numbering(threads, user, master, nodes, work, numThreads)
  {
    assert Marker(work, 0);
  }

  // The master's node is among the first `j` exactly if its position is.
  lemma MasterBefore(nodes: seq<nat>, i: nat, master: nat, jm: nat, j: nat)
    requires Ascending(nodes, i) && j <= |nodes|
    requires if jm < |nodes| then nodes[jm] == master else master !in nodes
    ensures master in nodes[..j] <==> jm < j
  {
    if jm < j {
      assert nodes[..j][jm] == master;
    }
  }

  lemma WorkersAre(threads: seq<nat>, nodes: seq<nat>, ns: seq<nat>)
    requires Reserved(threads, nodes, ns)
    ensures (forall j :: 0 <= j < |nodes| ==> nodes[j] < |threads|) && ns == Workers(threads, nodes)
  {
    assert forall j :: 0 <= j < |nodes| ==> nodes[j] < |threads|;
  }

  // What has been counted up to the `j`-th node.
  lemma CountedAt(ns: seq<nat>, base: seq<nat>, user: bool, nodes: seq<nat>, i: nat, master: nat, jm: nat, j: nat)
    requires BasesOk(ns, base, user, jm) && Ascending(nodes, i) && j <= |nodes| == |ns|
    requires if jm < |nodes| then nodes[jm] == master else master !in nodes
    ensures (if j < |nodes| then base[j] else Enough(ns, user, jm)) == Base(ns, j) + Once(user && master in nodes[..j])
  {
    MasterBefore(nodes, i, master, jm, j);
  }

  lemma SearchNumbers(q: Request, i: nat, r: Found)
    requires Searching(q, i, r)
    ensures Numbered(q.threads, q.user, q.master, r.nodes, r.work, r.numThreads)
  {
    SearchMeans(q, i, r);
    NumberedMeans(q.threads, q.user, q.master, r.nodes, r.work, r.numThreads);
    WorkersAre(q.threads, r.nodes, r.ns);
    var base := Bases(r.nodes, r.work);
    CountedAt(r.ns, base, q.user, r.nodes, i, q.master, r.jm, |r.nodes|);
    assert r.nodes[..|r.nodes|] == r.nodes;
    forall j | 0 <= j < |r.nodes|
      ensures r.work[r.nodes[j]] == Base(r.ns, j) + Once(q.user && q.master in r.nodes[..j]) {
      CountedAt(r.ns, base, q.user, r.nodes, i, q.master, r.jm, j);
    }
  }

  // The work index that comes after the first `j` nodes.
  lemma NumberedAt(threads: seq<nat>, user: bool, master: nat, nodes: seq<nat>, work: seq<nat>, n: nat, j: nat)
    requires Numbered(threads, user, master, nodes, work, n) && j <= |nodes|
    requires |work| == |threads| && Ascending(nodes, |threads|)
    ensures (if j < |nodes| then work[nodes[j]] else n) ==
            Base(Workers(threads, nodes), j) + Once(user && master in nodes[..j])
  {
    NumberedMeans(threads, user, master, nodes, work, n);
    assert nodes[..|nodes|] == nodes;
  }

  lemma MasterStep(nodes: seq<nat>, i: nat, user: bool, master: nat, j: nat)
    requires Ascending(nodes, i) && j < |nodes|
    ensures Once(user && master in nodes[..j + 1]) ==
            Once(user && master in nodes[..j]) + if user && nodes[j] == master then 1 else 0
  {
    assert nodes[..j + 1] == nodes[..j] + [nodes[j]];
  }

  /** The work indices of the next node, and in the end the number of threads, come right behind those
      of a node, the user worker being counted behind its own node; the first node starts at 0. */
  lemma NumberedStep(threads: seq<nat>, user: bool, master: nat, nodes: seq<nat>, work: seq<nat>, n: nat, j: nat)
    requires Numbered(threads, user, master, nodes, work, n) && j < |nodes|
    requires |work| == |threads| && Ascending(nodes, |threads|)
    ensures j == 0 ==> work[nodes[j]] == 0
    ensures (if j + 1 < |nodes| then work[nodes[j + 1]] else n) ==
            work[nodes[j]] + threads[nodes[j]] + if user && nodes[j] == master then 1 else 0
  {
    NumberedAt(threads, user, master, nodes, work, n, j);
    NumberedAt(threads, user, master, nodes, work, n, j + 1);
    MasterStep(nodes, |threads|, user, master, j);
    assert Workers(threads, nodes)[j] == threads[nodes[j]];
  }

  // The last of several nodes was needed: the threads counted before it were too few.
  lemma LastWasNeeded(q: Request, i: nat, r: Found)
    requires Searching(q, i, r) && |r.nodes| > 1
    ensures r.nodes[|r.nodes| - 1] < |r.work| && r.work[r.nodes[|r.nodes| - 1]] < q.reqThreads
  {
    SearchMeans(q, i, r);
    var j := |r.nodes| - 1;
    var few := r.ns[..j];
    assert r.ns == few + [r.ns[j]];
    BasePrefix(few, r.ns[j], j);
    assert Bases(r.nodes, r.work)[j] == r.work[r.nodes[j]];
    assert Enough(few, q.user, r.jm) == r.work[r.nodes[j]];
  }

  // The nodes reserved are the free ones with workers among the first `i`, in order.
  lemma SearchNodes(q: Request, i: nat, r: Found)
    requires Searching(q, i, r)
    ensures i <= |q.threads| == |q.busy| && Ascending(r.nodes, i)
    ensures forall k: nat :: k in r.nodes <==> k < i && !q.busy[k] && q.threads[k] > 0
  {
    SearchMeans(q, i, r);
  }

  // Looks at one node of a system-wide search.
  method Look(i: nat, threads: seq<nat>, user: bool, master: nat, free: bool, nodes: seq<nat>, work: seq<nat>,
              numThreads: nat, ghost q: Request, ghost r: Found)
    returns (nodes': seq<nat>, work': seq<nat>, numThreads': nat, ghost r': Found)
    requires q == Request(threads, q.busy, user, master, q.reqThreads) && r == Found(nodes, work, numThreads, r.ns, r.jm)
    requires Searching(q, i, r) && i < |threads| == |q.busy| && (nodes == [] || numThreads < q.reqThreads)
    requires free <==> !q.busy[i] && threads[i] != 0
    ensures Searching(q, i + 1, r') && r' == Found(nodes', work', numThreads', r'.ns, r'.jm)
    ensures if free then nodes' == nodes + [i] else nodes' == nodes && numThreads' == numThreads
  {
    nodes', work', numThreads', r' := nodes, work, numThreads, r;
    if free {
      SearchTake(q, i, r);
      nodes', work' := nodes + [i], work[i := numThreads];
      numThreads' := numThreads + threads[i];
      if user && master == i {
        numThreads' := numThreads' + 1;
      }
      r' := Taken(q, i, r);
    } else {
      SearchSkip(q, i, r);
    }
  }

  // Searches the nodes until enough threads are found.
  method LookAll(threads: seq<nat>, busy: seq<bool>, user: bool, master: nat, reqThreads: int, ghost q: Request)
    returns (nodes: seq<nat>, work: seq<nat>, numThreads: nat, ghost r: Found, ghost stop: nat)
    requires |busy| == |threads| && q == Request(threads, busy, user, master, reqThreads)
    ensures r == Found(nodes, work, numThreads, r.ns, r.jm) && Searching(q, stop, r)
    ensures stop == |threads| || (numThreads >= reqThreads && stop > 0 && stop - 1 in nodes)
  {
    nodes, numThreads, stop := [], 0, |threads|;
    work := seq(|threads|, _ => 0);
    r := Found(nodes, work, numThreads, [], |threads|);
    SearchStart(q, r);
    var i := 0;
    while i < |threads|
      invariant i <= |threads| == stop && (nodes == [] || numThreads < reqThreads)
      invariant r == Found(nodes, work, numThreads, r.ns, r.jm) && Searching(q, i, r)
    {
      var free := !busy[i] && threads[i] != 0;
      nodes, work, numThreads, r := Look(i, threads, user, master, free, nodes, work, numThreads, q, r);
      i := i + 1;
      if free && numThreads >= reqThreads {
        stop := i;
        break;
      }
    }
  }

  /** Reserves nodes for a system-wide loop: the free ones with workers among the first `stop`, in
      order. The work indices of a node follow those of the nodes before, the user worker being
      counted with its node. The search stops as soon as enough threads are found, not before and
      not after: without the last node, if there are others, they were too few. */
  method Allocate(threads: seq<nat>, busy: seq<bool>, user: bool, master: nat, reqThreads: int)
    returns (nodes: seq<nat>, work: seq<nat>, numThreads: nat, ghost r: Found, ghost stop: nat)
    requires |busy| == |threads|
    ensures r == Found(nodes, work, numThreads, r.ns, r.jm)
    ensures Searching(Request(threads, busy, user, master, reqThreads), stop, r)
    ensures stop == |threads| || (numThreads >= reqThreads && stop > 0 && stop - 1 in nodes)
    ensures Numbered(threads, user, master, nodes, work, numThreads)
    ensures stop <= |threads| == |work|
    ensures forall k: nat :: k in nodes <==> k < stop && !busy[k] && threads[k] > 0
    ensures forall j, k :: 0 <= j < k < |nodes| ==> nodes[j] < nodes[k]
    ensures forall j :: 0 <= j < |nodes| ==> nodes[j] < stop
    ensures |nodes| > 1 ==> work[nodes[|nodes| - 1]] < reqThreads
  {
    ghost var q := Request(threads, busy, user, master, reqThreads);
    nodes, work, numThreads, r, stop := LookAll(threads, busy, user, master, reqThreads, q);
    SearchNumbers(q, stop, r);
    SearchNodes(q, stop, r);
    if |nodes| > 1 {
      LastWasNeeded(q, stop, r);
    }
  }

  // A reservation of the master's node alone; nothing is reserved if it is taken.
  ghost predicate OwnNode(threads: seq<nat>, busy: seq<bool>, user: bool, master: nat, r: Found) {
    && |busy| == |threads| == |r.work| && master < |threads|
    && r.nodes == (if busy[master] then [] else [master]) && r.jm == 0
    && Reserved(threads, r.nodes, r.ns) && BasesOk(r.ns, Bases(r.nodes, r.work), user, 0)
    && r.numThreads == Total(r.ns) + Once(user)
  }

  // Reserves the master's own node for a loop restricted to it.
  method AllocateOwn(threads: seq<nat>, busy: seq<bool>, user: bool, master: nat)
    returns (nodes: seq<nat>, work: seq<nat>, numThreads: nat, ghost ns: seq<nat>)
    requires |busy| == |threads| && master < |threads| && threads[master] > 0
    ensures nodes == (if busy[master] then [] else [master])
    ensures numThreads == (if busy[master] then 0 else threads[master]) + if user then 1 else 0
    ensures |work| == |threads| && work[master] == 0
    ensures OwnNode(threads, busy, user, master, Found(nodes, work, numThreads, ns, 0))
  {
    nodes, ns, numThreads := [], [], 0;
    work := seq(|threads|, _ => 0);
    if !busy[master] {
      nodes, ns := [master], [threads[master]];
      numThreads := numThreads + threads[master];
      assert Base(ns, 1) == Base(ns, 0) + ns[0];
    }
    if user {
      numThreads := numThreads + 1;
    }
  }

  // ---------------------------------------------------------------------------
  // The loop
  // ---------------------------------------------------------------------------

  // How often iteration `x` has been executed by the first `n` participants.
  ghost function Executed(ran: multiset<nat>, work: seq<nat>, delta: nat, count: nat, x: nat, n: nat): nat
    requires n <= |work|
  {
    if n == 0 then 0
    else Executed(ran, work, delta, count, x, n - 1) + if InBlock(delta, count, work[n - 1], x) then ran[n - 1] else 0
  }

  lemma {:induction false} ExecutedOne(ran: multiset<nat>, work: seq<nat>, delta: nat, count: nat, x: nat, n: nat, c: nat)
    requires n <= |work| && ran == All(|work|)
    requires forall d: nat :: d < n ==> (InBlock(delta, count, work[d], x) <==> d == c)
    ensures Executed(ran, work, delta, count, x, n) == Once(c < n)
  {
    if n > 0 {
      ExecutedOne(ran, work, delta, count, x, n - 1, c);
      AllCounts(|work|, n - 1);
    }
  }

  // Every work index is somebody's, and nobody else's.
  ghost predicate Bijection(work: seq<nat>) {
    && Distinct(work)
    && (forall c :: 0 <= c < |work| ==> work[c] < |work|)
    && (forall k: nat :: k < |work| ==> k in work)
  }

  lemma EachOnce(ran: multiset<nat>, work: seq<nat>, count: nat, x: nat)
    requires work != [] && Bijection(work) && ran == All(|work|)
    ensures Executed(ran, work, Delta(count, |work|), count, x, |work|) == Once(x < count)
  {
    if x < count {
      var k := BlocksPartition(count, |work|, x);
      assert k in work;
      var c :| 0 <= c < |work| && work[c] == k;
      ExecutedOne(ran, work, Delta(count, |work|), count, x, |work|, c);
    } else {
      ExecutedOne(ran, work, Delta(count, |work|), count, x, |work|, |work|);
    }
  }

  // The work indices of the workers of a node whose first index is `first`.
  function NodeWork(first: nat, n: nat): (work: seq<nat>)
    ensures |work| == n && forall k :: 0 <= k < n ==> work[k] == first + k
  {
    seq(n, k requires 0 <= k < n => first + k)
  }

  /** A static loop run by the workers of one node, any of which is the master: when the
      master returns, every iteration has been executed exactly once and all is quiet. */
  lemma SystemLoop(n: nat, m: nat, count: nat, states: seq<State>, labels: seq<Label>, i: nat, x: nat)
    requires m < n && IsRun(SystemTree(n, m), states, labels) && i < |states|
    requires Returned(SystemTree(n, m), states[i])
    ensures Executed(states[i].ran, NodeWork(0, n), Delta(count, n), count, x, n) == Once(x < count)
    ensures Quiet(states[i])
  {
    SystemTreeOk(n, m);
    BarrierComplete(SystemTree(n, m), SystemParents(n, m), SystemDepths(n, m), states, labels, i);
    forall k: nat | k < n ensures k in NodeWork(0, n) {
      assert NodeWork(0, n)[k] == k;
    }
    EachOnce(states[i].ran, NodeWork(0, n), count, x);
  }

  // Work indices of the workers of the nodes with `ns` workers and, last, of the user worker
  // that is the master, whose node is the one numbered `jm` (if a node was reserved at all).
  function UserWork(ns: seq<nat>, base: seq<nat>, jm: nat): seq<nat>
    requires |base| == |ns| && (jm < |ns| || ns == [])
  {
    seq(Total(ns), x requires 0 <= x < Total(ns) => base[NodeOf(ns, x)] + IndexOf(ns, x))
    + [if ns == [] then 0 else base[jm] + ns[jm]]
  }

  // The master's index lies right behind those of its node.
  lemma UserWorkIs(ns: seq<nat>, base: seq<nat>, jm: nat, x: nat)
    requires BasesOk(ns, base, true, jm) && (jm < |ns| || ns == []) && x <= Total(ns)
    ensures var b := if ns == [] then 0 else Base(ns, jm) + ns[jm];
            b <= Total(ns) && UserWork(ns, base, jm)[x] == if x == Total(ns) then b else if x < b then x else x + 1
  {
    if ns != [] {
      BaseGrows(ns, jm, |ns|);
    }
    if x < Total(ns) {
      var j := NodeOf(ns, x);
      if j < jm {
        BaseGrows(ns, j, jm);
      } else if jm < j {
        BaseGrows(ns, jm, j);
      }
    }
  }

  /** The workers of all reserved nodes together with the user worker have the work indices
      0 to num_threads - 1, each exactly once. */
  lemma UserWorkBijection(ns: seq<nat>, base: seq<nat>, jm: nat)
    requires BasesOk(ns, base, true, jm) && (jm < |ns| || ns == [])
    ensures |UserWork(ns, base, jm)| == Total(ns) + 1 && Bijection(UserWork(ns, base, jm))
  {
    var u, n := UserWork(ns, base, jm), Total(ns);
    var b := if ns == [] then 0 else Base(ns, jm) + ns[jm];
    forall x: nat | x <= n ensures b <= n && u[x] == if x == n then b else if x < b then x else x + 1 {
      UserWorkIs(ns, base, jm, x);
    }
    forall k: nat | k <= n ensures k in u {
      assert u[if k == b then n else if k < b then k else k - 1] == k;
    }
  }

  /** A static loop with a user worker as the master, over reserved nodes with `ns` workers
      whose work indices start at `base`, the master's node among them: when it returns,
      every iteration has been executed exactly once and all is quiet. */
  lemma UserLoop(ns: seq<nat>, base: seq<nat>, jm: nat, count: nat, states: seq<State>, labels: seq<Label>, i: nat, x: nat)
    requires Positive(ns) && BasesOk(ns, base, true, jm) && (jm < |ns| || ns == [])
    requires IsRun(UserTree(ns), states, labels) && i < |states| && Returned(UserTree(ns), states[i])
    ensures var u := UserWork(ns, base, jm);
            Executed(states[i].ran, u, Delta(count, |u|), count, x, |u|) == Once(x < count)
    ensures Quiet(states[i])
  {
    UserWorkBijection(ns, base, jm);
    UserTreeOk(ns);
    BarrierComplete(UserTree(ns), UserParents(ns), UserDepths(ns), states, labels, i);
    EachOnce(states[i].ran, UserWork(ns, base, jm), count, x);
  }

  // ---------------------------------------------------------------------------
  // Whole loops, from the reservation to the return of the master
  // ---------------------------------------------------------------------------

  // One iteration less for each of the threads would not be enough.
  ghost predicate FairShare(block: (nat, nat), count: nat, numThreads: nat) {
    block.0 <= block.1 && (block.0 < block.1 ==> numThreads * (block.1 - block.0 - 1) < count)
  }

  lemma SharesFair(count: nat, numThreads: nat, work: nat)
    requires numThreads > 0
    ensures FairShare(Block(Delta(count, numThreads), count, work), count, numThreads)
  {
    var d := Delta(count, numThreads);
    var (low, high) := Block(d, count, work);
    DeltaLeast(count, numThreads);
    BlockSize(d, count, work);
    if low < high {
      MulMonotone(numThreads, high - low - 1, d - 1);
    }
  }

  // Every iteration below `count`, and no other, is executed exactly once when each participant
  // runs the block of its work index, the blocks being those for `numThreads` threads.
  // None of them executes more than its share, the number of iterations by that of threads, rounded up.
  ghost predicate Covers(ran: multiset<nat>, work: seq<nat>, count: nat, numThreads: nat) {
    && |work| == numThreads > 0
    && (forall c :: 0 <= c < |work| ==> FairShare(Block(Delta(count, numThreads), count, work[c]), count, numThreads))
    && forall x: nat :: Executed(ran, work, Delta(count, numThreads), count, x, |work|) == Once(x < count)
  }

  lemma UserCovers(threads: seq<nat>, r: Found, count: nat, states: seq<State>, labels: seq<Label>, i: nat)
    requires Reserved(threads, r.nodes, r.ns) && forall j :: 0 <= j < |r.nodes| ==> r.nodes[j] < |r.work|
    requires BasesOk(r.ns, Bases(r.nodes, r.work), true, r.jm) && (r.jm < |r.ns| || r.ns == [])
    requires r.numThreads == Total(r.ns) + 1
    requires IsRun(UserTree(r.ns), states, labels) && i < |states| && Returned(UserTree(r.ns), states[i])
    ensures Covers(states[i].ran, UserWork(r.ns, Bases(r.nodes, r.work), r.jm), count, r.numThreads)
    ensures Quiet(states[i])
  {
    var base := Bases(r.nodes, r.work);
    ReservedPositive(threads, r.nodes, r.ns);
    UserWorkBijection(r.ns, base, r.jm);
    UserLoop(r.ns, base, r.jm, count, states, labels, i, 0);
    forall c | 0 <= c < r.numThreads
      ensures FairShare(Block(Delta(count, r.numThreads), count, UserWork(r.ns, base, r.jm)[c]), count, r.numThreads)
    {
      SharesFair(count, r.numThreads, UserWork(r.ns, base, r.jm)[c]);
    }
    forall x: nat
      ensures Executed(states[i].ran, UserWork(r.ns, base, r.jm), Delta(count, r.numThreads), count, x, r.numThreads) ==
              Once(x < count) {
      UserLoop(r.ns, base, r.jm, count, states, labels, i, x);
    }
  }

  /** A system-wide loop of a user worker whose node is among those reserved: the participants are as
      many as the threads counted by the reservation, and when the master returns they have executed
      every iteration exactly once, in blocks cut for that number, and all is quiet. */
  lemma UserMaster(q: Request, stop: nat, r: Found, count: nat, states: seq<State>, labels: seq<Label>, i: nat)
    requires Searching(q, stop, r) && q.user && q.master in r.nodes
    requires IsRun(UserTree(r.ns), states, labels) && i < |states| && Returned(UserTree(r.ns), states[i])
    ensures Search(q, stop, r) && r.jm < |r.ns|
    ensures Covers(states[i].ran, UserWork(r.ns, Bases(r.nodes, r.work), r.jm), count, r.numThreads)
    ensures Quiet(states[i])
  {
    SearchMeans(q, stop, r);
    UserCovers(q.threads, r, count, states, labels, i);
  }

  /** The same for a loop confined to the node of the user worker, even if that node is taken: the
      master is then alone. */
  lemma UserOwn(threads: seq<nat>, busy: seq<bool>, master: nat, r: Found, count: nat, states: seq<State>,
                labels: seq<Label>, i: nat)
    requires OwnNode(threads, busy, true, master, r)
    requires IsRun(UserTree(r.ns), states, labels) && i < |states| && Returned(UserTree(r.ns), states[i])
    ensures r.jm < |r.ns| || r.ns == []
    ensures Covers(states[i].ran, UserWork(r.ns, Bases(r.nodes, r.work), r.jm), count, r.numThreads)
    ensures Quiet(states[i])
  {
    UserCovers(threads, r, count, states, labels, i);
  }

  lemma SystemCovers(n: nat, m: nat, count: nat, states: seq<State>, labels: seq<Label>, i: nat)
    requires m < n && IsRun(SystemTree(n, m), states, labels) && i < |states|
    requires Returned(SystemTree(n, m), states[i])
    ensures Covers(states[i].ran, NodeWork(0, n), count, n) && Quiet(states[i])
  {
    SystemLoop(n, m, count, states, labels, i, 0);
    forall c | 0 <= c < n ensures FairShare(Block(Delta(count, n), count, NodeWork(0, n)[c]), count, n) {
      SharesFair(count, n, NodeWork(0, n)[c]);
    }
    forall x: nat ensures Executed(states[i].ran, NodeWork(0, n), Delta(count, n), count, x, n) == Once(x < count) {
      SystemLoop(n, m, count, states, labels, i, x);
    }
  }

  // A node that is reserved alone: its threads are all there are, and its work indices start at 0.
  lemma OneNode(threads: seq<nat>, r: Found, master: nat)
    requires Reserved(threads, r.nodes, r.ns) && r.nodes == [master] && master < |r.work|
    requires BasesOk(r.ns, Bases(r.nodes, r.work), false, r.jm) && r.numThreads == Total(r.ns)
    ensures master < |threads| && r.numThreads == threads[master] && r.work[master] == 0
  {
    assert Base(r.ns, 1) == Base(r.ns, 0) + r.ns[0];
    assert r.nodes[0] == master && Bases(r.nodes, r.work)[0] == r.work[master];
  }

  /** A system-wide loop of a system worker that has reserved its own node only. */
  lemma SystemMaster(q: Request, stop: nat, r: Found, m: nat, count: nat, states: seq<State>, labels: seq<Label>, i: nat)
    requires Searching(q, stop, r) && !q.user && r.nodes == [q.master] && m < r.numThreads
    requires IsRun(SystemTree(r.numThreads, m), states, labels) && i < |states|
    requires Returned(SystemTree(r.numThreads, m), states[i])
    ensures q.master < |q.threads| == |r.work| && r.numThreads == q.threads[q.master]
    ensures Covers(states[i].ran, NodeWork(r.work[q.master], r.numThreads), count, r.numThreads) && Quiet(states[i])
  {
    SearchMeans(q, stop, r);
    assert q.master in r.nodes;
    OneNode(q.threads, r, q.master);
    SystemCovers(r.numThreads, m, count, states, labels, i);
  }

  /** The same for a loop confined to the node of the system worker, which is free. */
  lemma SystemOwn(threads: seq<nat>, busy: seq<bool>, master: nat, r: Found, m: nat, count: nat, states: seq<State>,
                  labels: seq<Label>, i: nat)
    requires OwnNode(threads, busy, false, master, r) && !busy[master] && m < r.numThreads
    requires IsRun(SystemTree(r.numThreads, m), states, labels) && i < |states|
    requires Returned(SystemTree(r.numThreads, m), states[i])
    ensures r.numThreads == threads[master]
    ensures Covers(states[i].ran, NodeWork(r.work[master], r.numThreads), count, r.numThreads) && Quiet(states[i])
  {
    OneNode(threads, r, master);
    SystemCovers(r.numThreads, m, count, states, labels, i);
  }
}
