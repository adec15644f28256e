/** The trees over which static loops are distributed: binomial trees computed with bit
    masks, re-rooted at the master when the master is itself one of the workers. */
module BinomialTree {
  import opened Bits
  import opened Sequences
  import opened TreeBarrier

  // The number of bits of n - 1.
  function Log(n: nat): nat
    requires n > 0
  {
    Width(n - 1)
  }

  function Width(a: nat): nat {
    if a == 0 then 0 else 1 + Width(a / 2)
  }

  method LogThreads(numThreads: nat) returns (log: nat)
    requires numThreads > 0
    ensures log == Log(numThreads)
    ensures numThreads <= Pow2(log) && (log > 0 ==> Pow2(log - 1) < numThreads)
  {
    log := 0;
    var n: nat := numThreads - 1;
    while n != 0
      invariant log + Width(n) == Log(numThreads)
    {
      log := log + 1;
      n := n / 2;
    }
    WidthBound(numThreads - 1);
  }

  lemma {:induction false} WidthBound(a: nat)
    ensures a < Pow2(Width(a)) && (a > 0 ==> Width(a) > 0 && Pow2(Width(a) - 1) <= a)
    ensures a == 0 ==> Width(a) == 0
  {
    if a > 0 {
      WidthBound(a / 2);
    }
  }

  // The children that worker `i` of `n` finds at the levels `p` to 1, `rewire` being skipped.
  ghost function Kids(i: nat, n: nat, rewire: int, p: nat): seq<nat> {
    if p == 0 then []
    else (if IsChild(i, n, rewire, p) then [i + Pow2(p - 1)] else []) + Kids(i, n, rewire, p - 1)
  }

  ghost predicate IsChild(i: nat, n: nat, rewire: int, p: nat)
    requires p > 0
  {
    i % Pow2(p) == 0 && i + Pow2(p - 1) < n && i + Pow2(p - 1) != rewire
  }

  lemma ChildBits(i: nat, p: nat)
    requires p > 0
    ensures And(i, Pow2(p) - 1) == 0 <==> i % Pow2(p) == 0
    ensures i % Pow2(p) == 0 ==> Or(i, Pow2(p - 1)) == i + Pow2(p - 1)
  {
    AndMask(i, p);
    if i % Pow2(p) == 0 {
      OrBit(i, p - 1);
    }
  }

  // One level: the child there, if there is one, comes before those of the lower levels.
  lemma KidsStep(dst: seq<nat>, i: nat, n: nat, rewire: int, p: nat)
    requires p > 0
    ensures dst + Kids(i, n, rewire, p) ==
            (if IsChild(i, n, rewire, p) then dst + [i + Pow2(p - 1)] else dst) + Kids(i, n, rewire, p - 1)
  {
  }

  // The child of a worker at level `p`, if it has one.
  method ChildAt(myIdx: nat, numThreads: nat, rewire: int, p: nat) returns (found: bool, dstIdx: nat)
    requires p > 0
    ensures found <==> IsChild(myIdx, numThreads, rewire, p)
    ensures found ==> dstIdx == myIdx + Pow2(p - 1)
  {
    var mask := Pow2(p) - 1;
    ChildBits(myIdx, p);
    dstIdx := Or(myIdx, Pow2(p - 1));
    found := And(myIdx, mask) == 0 && dstIdx < numThreads && dstIdx != rewire;
  }

  // The loop over levels that a worker runs once to signal and once to wait.
  method Children(myIdx: nat, numThreads: nat, rewire: int) returns (dst: seq<nat>)
    requires numThreads > 0
    ensures dst == Kids(myIdx, numThreads, rewire, Log(numThreads))
    ensures forall a, b :: 0 <= a < b < |dst| ==> dst[a] > dst[b]
  {
    KidsOrder(myIdx, numThreads, rewire, Log(numThreads));
    var p := LogThreads(numThreads);
    dst := [];
    while p > 0
      invariant dst + Kids(myIdx, numThreads, rewire, p) == Kids(myIdx, numThreads, rewire, Log(numThreads))
    {
      KidsStep(dst, myIdx, numThreads, rewire, p);
      var found, dstIdx := ChildAt(myIdx, numThreads, rewire, p);
      if found {
        dst := dst + [dstIdx];
      }
      p := p - 1;
    }
  }

  ghost predicate Descending(s: seq<nat>, low: nat, high: nat) {
    && (forall a :: 0 <= a < |s| ==> low < s[a] < high)
    && (forall a, b :: 0 <= a < b < |s| ==> s[a] > s[b])
  }

  lemma DescendingMore(x: nat, s: seq<nat>, low: nat, mid: nat, high: nat)
    requires Descending(s, low, mid) && low < mid <= x < high
    ensures Descending([x] + s, low, high)
  {
  }

  // The farthest child comes first.
  lemma {:induction false} KidsOrder(i: nat, n: nat, rewire: int, p: nat)
    ensures Descending(Kids(i, n, rewire, p), i, i + Pow2(p))
    decreases p
  {
    if p > 0 {
      KidsOrder(i, n, rewire, p - 1);
      if IsChild(i, n, rewire, p) {
        DescendingMore(i + Pow2(p - 1), Kids(i, n, rewire, p - 1), i, i + Pow2(p - 1), i + Pow2(p));
      }
    }
  }

  /** The children of `i` are exactly the workers that become `i` when their lowest bit is
      cleared, except the rewired one. */
  lemma KidsMember(i: nat, n: nat, rewire: int, c: nat)
    requires n > 0
    ensures c in Kids(i, n, rewire, Log(n)) <==> 0 < c < n && c != rewire && c - LowBit(c) == i
  {
    KidsAbove(i, n, rewire, Log(n), c);
    if 0 < c < n && c != rewire && c - LowBit(c) == i {
      var e := LowExp(c);
      ClearLowBit(c);
      WidthBound(n - 1);
      if Log(n) <= e {
        Pow2Monotone(Log(n), e);
        assert false;
      }
      KidsBelow(i, n, rewire, Log(n), e + 1);
    }
  }

  lemma Pow2Monotone(p: nat, q: nat)
    requires p <= q
    ensures Pow2(p) <= Pow2(q)
  {
    if p < q {
      Pow2Increases(p, q);
    }
  }

  lemma {:induction false} KidsAbove(i: nat, n: nat, rewire: int, p: nat, c: nat)
    ensures c in Kids(i, n, rewire, p) ==> 0 < c < n && c != rewire && c - LowBit(c) == i && c < i + Pow2(p)
    decreases p
  {
    if p > 0 {
      KidsAbove(i, n, rewire, p - 1, c);
      if IsChild(i, n, rewire, p) {
        LowBitIs(i, p - 1);
      }
    }
  }

  lemma {:induction false} KidsBelow(i: nat, n: nat, rewire: int, p: nat, q: nat)
    requires 0 < q <= p && IsChild(i, n, rewire, q)
    ensures i + Pow2(q - 1) in Kids(i, n, rewire, p)
    decreases p
  {
    if q < p {
      KidsBelow(i, n, rewire, p - 1, q);
    }
  }

  lemma {:induction false} KidsDistinct(i: nat, n: nat, rewire: int, p: nat)
    ensures Distinct(Kids(i, n, rewire, p))
    decreases p
  {
    if p > 0 {
      KidsDistinct(i, n, rewire, p - 1);
      KidsAbove(i, n, rewire, p - 1, i + Pow2(p - 1));
    }
  }

  // ---------------------------------------------------------------------------
  // A system worker as the master, on its own node
  // ---------------------------------------------------------------------------

  // What worker `i` signals when worker `m` is the master: the master first hands over to worker 0.
  ghost function SystemSignals(n: nat, m: nat, i: nat): seq<nat>
    requires n > 0
  {
    if i != m then Kids(i, n, m, Log(n))
    else (if m != 0 then [0] else []) + Kids(m, n, -1, Log(n))
  }

  // What it waits for: the master comes back to worker 0 at the end.
  ghost function SystemWaits(n: nat, m: nat, i: nat): seq<nat>
    requires n > 0
  {
    if i != m then Kids(i, n, m, Log(n))
    else Kids(m, n, -1, Log(n)) + if m != 0 then [0] else []
  }

  ghost function SystemTree(n: nat, m: nat): Tree
    requires m < n
  {
    Tree(m, seq(n, i requires 0 <= i < n => SystemSignals(n, m, i)), seq(n, i requires 0 <= i < n => SystemWaits(n, m, i)))
  }

  ghost function SystemParent(m: nat, c: nat): nat {
    if c == 0 then m else c - LowBit(c)
  }

  ghost function SystemDepth(m: nat, c: nat): nat {
    if c == m then 0 else c + 1
  }

  ghost function SystemParents(n: nat, m: nat): seq<nat> {
    seq(n, c requires 0 <= c < n => SystemParent(m, c))
  }

  ghost function SystemDepths(n: nat, m: nat): seq<nat> {
    seq(n, c requires 0 <= c < n => SystemDepth(m, c))
  }

  // The master lists worker 0 and its own binomial children; the master's binomial parent skips it.
  lemma SystemKids(n: nat, m: nat, q: nat, c: nat)
    requires m < n && q < n
    ensures c in SystemSignals(n, m, q) <==> c < n && c != m && SystemParent(m, c) == q
    ensures c in SystemWaits(n, m, q) <==> c < n && c != m && SystemParent(m, c) == q
    ensures Distinct(SystemSignals(n, m, q)) && Distinct(SystemWaits(n, m, q))
  {
    var rewire := if q == m then -1 else m;
    KidsMember(q, n, rewire, c);
    KidsMember(q, n, rewire, 0);
    KidsDistinct(q, n, rewire, Log(n));
  }

  /** Whichever worker is the master, the rewired lists form a tree rooted at it that
      reaches every worker of the node. */
  lemma SystemTreeOk(n: nat, m: nat)
    requires m < n
    ensures TreeOk(SystemTree(n, m), SystemParents(n, m), SystemDepths(n, m))
  {
    var t, parent := SystemTree(n, m), SystemParents(n, m);
    forall q: nat | q < n ensures Distinct(t.signals[q]) && Distinct(t.waits[q]) {
      SystemKids(n, m, q, 0);
    }
    forall q: nat, c: nat | q < n
      ensures c in t.signals[q] <==> IsKid(t, parent, q, c)
      ensures c in t.waits[q] <==> IsKid(t, parent, q, c) {
      SystemKids(n, m, q, c);
    }
  }
}
