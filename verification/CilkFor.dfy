/** The divide-and-conquer loops: ranges are halved until they are no larger than a grain; the
    NUMA-aware loop lets the worker's node decide which half it keeps. */
module CilkFor {

  // Where the worker that splits the range from `low` to `high` runs.
  type Placement = (int, int) -> int

  datatype Range = Range(low: int, high: int)

  const MAX_GRAIN := 2048

  /** The grain of a loop of `count` iterations on `workers` workers: the requested one, or one
      that makes about eight leaves for each worker. */
  function GrainSize(req: int, count: int, workers: nat, underTool: bool): (grain: int)
    requires workers > 0
    ensures grain >= 1
    ensures req > 0 ==> grain == req
    ensures req <= 0 && (count < 1 || underTool) ==> grain == 1
    ensures req <= 0 && count >= 1 && !underTool ==>
              grain <= MAX_GRAIN && 8 * workers * (grain - 1) < count && (grain < MAX_GRAIN ==> count <= 8 * workers * grain)
  {
    if req > 0 then req
    else if count < 1 then 1
    else if underTool then 1
    else
      var n := (count + 8 * workers - 1) / (8 * workers);
      CeilDiv(count, 8 * workers);
      if n > MAX_GRAIN then GrainBelow(8 * workers, n); MAX_GRAIN else n
  }

  lemma GrainBelow(m: int, n: int)
    requires m >= 1 && n > MAX_GRAIN
    ensures m * (MAX_GRAIN - 1) <= m * (n - 1)
  {
  }

  lemma CeilDiv(count: int, m: int)
    requires count >= 1 && m >= 1
    ensures var n := (count + m - 1) / m; n >= 1 && m * (n - 1) < count <= m * n
  {
    var a := count + m - 1;
    var n := a / m;
    assert a == m * n + a % m;
    assert m * (n - 1) == m * n - m;
    if n < 1 {
      NonPositive(m, n);
    }
  }

  lemma NonPositive(m: int, n: int)
    requires m >= 1 && n < 1
    ensures m * n <= 0
  {
  }

  function Mid(low: int, high: int): int {
    low + (high - low) / 2
  }

  // A range is split in the middle, rounded down: neither half is empty, and the first is not the larger.
  lemma Middle(low: int, high: int)
    ensures 2 * Mid(low, high) <= low + high < 2 * Mid(low, high) + 2
    ensures high - low > 1 ==> low < Mid(low, high) < high
  {
  }

  // The leaves of a range in the order in which a single worker runs them: first the half
  // that is spawned, then the one that is kept.
  ghost function Leaves(low: int, high: int, grain: int, place: Placement): seq<Range>
    requires grain >= 1
    decreases high - low
  {
    if high - low <= grain then [Range(low, high)]
    else
      var mid := Mid(low, high);
      if place(low, high) < mid
      then Leaves(low, mid, grain, place) + Leaves(mid, high, grain, place)
      else Leaves(mid, high, grain, place) + Leaves(low, mid, grain, place)
  }

  // The part of a frame that guides stealing: the range of nodes that the frame asks for.
  class Frame {
    var numaLow: int
    var numaHigh: int

    constructor (low: int, high: int)
      ensures numaLow == low && numaHigh == high
    {
      numaLow, numaHigh := low, high;
    }

    ghost function Window(): Range
      reads this
    {
      Range(numaLow, numaHigh)
    }
  }

  // What remains of a range at each turn of the loop, down to the leaf that the loop runs itself:
  // each time the half that is not spawned.
  ghost function Remaining(low: int, high: int, grain: int, place: Placement): (rs: seq<Range>)
    requires grain >= 1
    ensures rs != [] && rs[0] == Range(low, high)
    decreases high - low
  {
    if high - low <= grain then [Range(low, high)]
    else
      var mid := Mid(low, high);
      [Range(low, high)] + if place(low, high) < mid then Remaining(mid, high, grain, place)
                           else Remaining(low, mid, grain, place)
  }

  // The half that is spawned and the one that is kept.
  function Halves(low: int, high: int, place: Placement): (Range, Range) {
    var mid := Mid(low, high);
    if place(low, high) < mid then (Range(low, mid), Range(mid, high)) else (Range(mid, high), Range(low, mid))
  }

  lemma SplitOnce(low: int, high: int, grain: int, place: Placement)
    requires grain >= 1 && high - low > grain
    ensures var (spawned, kept) := Halves(low, high, place);
            && Leaves(low, high, grain, place) ==
               Leaves(spawned.low, spawned.high, grain, place) + Leaves(kept.low, kept.high, grain, place)
            && Remaining(low, high, grain, place) == [Range(low, high)] + Remaining(kept.low, kept.high, grain, place)
            && spawned.high - spawned.low < high - low && kept.high - kept.low < high - low
  {
  }

  // One turn of the loop: what has been run and seen so far, and what is still to come.
  lemma Turn(leaves: seq<Range>, windows: seq<Range>, low: int, high: int, grain: int, place: Placement)
    requires grain >= 1 && high - low > grain
    ensures var (spawned, kept) := Halves(low, high, place);
            && leaves + Leaves(low, high, grain, place) ==
               leaves + Leaves(spawned.low, spawned.high, grain, place) + Leaves(kept.low, kept.high, grain, place)
            && windows + Remaining(low, high, grain, place)[1..] ==
               windows + [kept] + Remaining(kept.low, kept.high, grain, place)[1..]
  {
    SplitOnce(low, high, grain, place);
    var kept := Halves(low, high, place).1;
    var r := Remaining(kept.low, kept.high, grain, place);
    assert r == [kept] + r[1..];
    assert ([Range(low, high)] + r)[1..] == r;
  }

  // `all` ends with `own`.
  ghost predicate Ends<T>(all: seq<T>, own: seq<T>) {
    |own| <= |all| && all[|all| - |own|..] == own
  }

  lemma EndsAppend<T>(a: seq<T>, b: seq<T>, own: seq<T>)
    requires Ends(b, own)
    ensures Ends(a + b, own)
  {
  }

  // The loop stops at the first range that is no larger than a grain.
  lemma {:induction false} RemainingLast(low: int, high: int, grain: int, place: Placement, k: nat)
    requires grain >= 1 && k < |Remaining(low, high, grain, place)|
    ensures var r := Remaining(low, high, grain, place)[k];
            k + 1 == |Remaining(low, high, grain, place)| <==> r.high - r.low <= grain
    decreases high - low
  {
    if k > 0 {
      var kept := Halves(low, high, place).1;
      SplitOnce(low, high, grain, place);
      RemainingLast(kept.low, kept.high, grain, place, k - 1);
    }
  }

  /** What remains at turn `k` is exactly what has not been spawned: its leaves are the last ones
      of the whole loop. */
  lemma {:induction false} RemainingLeaves(low: int, high: int, grain: int, place: Placement, k: nat)
    requires grain >= 1 && k < |Remaining(low, high, grain, place)|
    ensures var r := Remaining(low, high, grain, place)[k];
            Ends(Leaves(low, high, grain, place), Leaves(r.low, r.high, grain, place))
    decreases high - low
  {
    var all := Leaves(low, high, grain, place);
    if k > 0 {
      var (spawned, kept) := Halves(low, high, place);
      SplitOnce(low, high, grain, place);
      var rs := Remaining(kept.low, kept.high, grain, place);
      RemainingLeaves(kept.low, kept.high, grain, place, k - 1);
      EndsAppend(Leaves(spawned.low, spawned.high, grain, place), Leaves(kept.low, kept.high, grain, place),
                 Leaves(rs[k - 1].low, rs[k - 1].high, grain, place));
    } else {
      assert all[|all| - |all|..] == all;
    }
  }

  // Spawns one half, after setting the frame's window to the other.
  method SpawnHalf(frame: Frame, low: int, high: int, grain: int, place: Placement)
    returns (spawned: seq<Range>, lo: int, hi: int, ghost window: Range)
    requires grain >= 1 && high - low > grain && frame.Window() == Range(low, high)
    modifies frame
    ensures var (theirs, kept) := Halves(low, high, place);
            && spawned == Leaves(theirs.low, theirs.high, grain, place)
            && Range(lo, hi) == kept == window == frame.Window()
    ensures exists mid ::
              && 2 * mid <= low + high < 2 * mid + 2
              && if place(low, high) < mid
                 then spawned == Leaves(low, mid, grain, place) && Range(lo, hi) == Range(mid, high)
                 else spawned == Leaves(mid, high, grain, place) && Range(lo, hi) == Range(low, mid)
    decreases high - low, 0
  {
    var mid := low + (high - low) / 2;
    var numa := place(low, high);
    ghost var theirs;
    if numa < mid {
      frame.numaLow := mid;
      window := frame.Window();
      spawned, theirs := NumaRecursive(low, mid, grain, place);
      lo, hi := mid, high;
    } else {
      frame.numaHigh := mid;
      window := frame.Window();
      spawned, theirs := NumaRecursive(mid, high, grain, place);
      lo, hi := low, mid;
    }
  }

  /** The NUMA-aware loop: spawns one half and goes on with the other. `windows` are the windows of
      its frame at the start and whenever a half is spawned: always what remains of the range. */
  method NumaRecursive(low: int, high: int, grain: int, place: Placement)
    returns (leaves: seq<Range>, ghost windows: seq<Range>)
    requires grain >= 1
    ensures leaves == Leaves(low, high, grain, place)
    ensures windows == Remaining(low, high, grain, place)
    decreases high - low, 1
  {
    var frame := new Frame(low, high);
    var lo, hi := low, high;
    leaves := [];
    windows := [frame.Window()];
    while hi - lo > grain
      invariant leaves + Leaves(lo, hi, grain, place) == Leaves(low, high, grain, place)
      invariant windows + Remaining(lo, hi, grain, place)[1..] == Remaining(low, high, grain, place)
      invariant frame.Window() == Range(lo, hi)
      invariant hi - lo <= high - low
      decreases hi - lo
    {
      Turn(leaves, windows, lo, hi, grain, place);
      SplitOnce(lo, hi, grain, place);
      var spawned;
      ghost var window;
      spawned, lo, hi, window := SpawnHalf(frame, lo, hi, grain, place);
      leaves := leaves + spawned;
      windows := windows + [window];
    }
    leaves := leaves + [Range(lo, hi)];
  }

  // The plain loop always spawns the low half.
  method Recursive(low: int, high: int, grain: int) returns (leaves: seq<Range>)
    requires grain >= 1
    ensures leaves == Leaves(low, high, grain, (l, h) => l)
    decreases high - low
  {
    ghost var place: Placement := (l, h) => l;
    var lo := low;
    leaves := [];
    while high - lo > grain
      invariant low <= lo
      invariant leaves + Leaves(lo, high, grain, place) == Leaves(low, high, grain, place)
    {
      Turn(leaves, [], lo, high, grain, place);
      var mid := lo + (high - lo) / 2;
      assert Halves(lo, high, place) == (Range(lo, mid), Range(mid, high));
      var spawned := Recursive(lo, mid, grain);
      lo, leaves := mid, leaves + spawned;
    }
    leaves := leaves + [Range(lo, high)];
  }

  // ---------------------------------------------------------------------------
  // What the leaves cover
  // ---------------------------------------------------------------------------

  // How many of the ranges contain `x`.
  ghost function Hits(rs: seq<Range>, x: int): nat {
    if rs == [] then 0 else (if rs[0].low <= x < rs[0].high then 1 else 0) + Hits(rs[1..], x)
  }

  lemma {:induction false} HitsAppend(a: seq<Range>, b: seq<Range>, x: int)
    ensures Hits(a + b, x) == Hits(a, x) + Hits(b, x)
  {
    if a == [] {
      assert a + b == b;
    } else {
      assert (a + b)[1..] == a[1..] + b;
      HitsAppend(a[1..], b, x);
    }
  }

  /** Whatever the placement, every iteration is in exactly one leaf. */
  lemma {:induction false} LeavesCover(low: int, high: int, grain: int, place: Placement, x: int)
    requires grain >= 1
    ensures Hits(Leaves(low, high, grain, place), x) == if low <= x < high then 1 else 0
    decreases high - low
  {
    if high - low > grain {
      var mid := Mid(low, high);
      LeavesCover(low, mid, grain, place, x);
      LeavesCover(mid, high, grain, place, x);
      HitsAppend(Leaves(low, mid, grain, place), Leaves(mid, high, grain, place), x);
      HitsAppend(Leaves(mid, high, grain, place), Leaves(low, mid, grain, place), x);
    }
  }

  /** No leaf is larger than a grain, and if the range was split at all none is smaller than half
      a grain, rounded up; so the number of leaves is bounded. */
  lemma {:induction false} LeafSizes(low: int, high: int, grain: int, place: Placement, k: nat)
    requires grain >= 1 && k < |Leaves(low, high, grain, place)|
    ensures var r := Leaves(low, high, grain, place)[k];
            && low <= r.low && r.high <= high && r.high - r.low <= grain
            && (high - low > grain ==> r.high - r.low >= (grain + 1) / 2)
    decreases high - low
  {
    if high - low > grain {
      var (a, b) := Halves(low, high, place);
      var first := Leaves(a.low, a.high, grain, place);
      if k < |first| {
        LeafSizes(a.low, a.high, grain, place, k);
      } else {
        LeafSizes(b.low, b.high, grain, place, k - |first|);
      }
    }
  }

  lemma Distribute(a: nat, b: nat, h: int)
    ensures (a + b) * h == a * h + b * h
  {
  }

  /** A loop that is split has at most one leaf for each half grain of iterations. */
  lemma {:induction false} LeafCount(low: int, high: int, grain: int, place: Placement)
    requires grain >= 1 && low <= high
    ensures high - low > grain ==> |Leaves(low, high, grain, place)| * ((grain + 1) / 2) <= high - low
    ensures high - low <= grain ==> |Leaves(low, high, grain, place)| == 1
    decreases high - low
  {
    if high - low > grain {
      var mid := Mid(low, high);
      LeafCount(low, mid, grain, place);
      LeafCount(mid, high, grain, place);
      Distribute(|Leaves(low, mid, grain, place)|, |Leaves(mid, high, grain, place)|, (grain + 1) / 2);
    }
  }

  // ---------------------------------------------------------------------------
  // Pedigrees
  // ---------------------------------------------------------------------------

  // The pedigrees, innermost rank first, with which the iterations of a leaf start: the leaf
  // starts at the rank of its first iteration, and each iteration bumps the rank.
  ghost function LeafPedigrees(rank: int, r: Range, root: seq<int>): seq<seq<int>>
    decreases r.high - r.low
  {
    if r.high <= r.low then [] else [[0, rank] + root] + LeafPedigrees(rank + 1, Range(r.low + 1, r.high), root)
  }

  ghost function Pedigrees(rs: seq<Range>, root: seq<int>): seq<seq<int>> {
    if rs == [] then [] else LeafPedigrees(rs[0].low, rs[0], root) + Pedigrees(rs[1..], root)
  }

  lemma {:induction false} PedigreesAppend(a: seq<Range>, b: seq<Range>, root: seq<int>)
    ensures Pedigrees(a + b, root) == Pedigrees(a, root) + Pedigrees(b, root)
  {
    if a == [] {
      assert a + b == b;
    } else {
      assert (a + b)[1..] == a[1..] + b;
      PedigreesAppend(a[1..], b, root);
    }
  }

  lemma {:induction false} PedigreesSplit(rank: int, low: int, mid: int, high: int, root: seq<int>)
    requires low <= mid <= high
    ensures LeafPedigrees(rank, Range(low, high), root) ==
            LeafPedigrees(rank, Range(low, mid), root) + LeafPedigrees(rank + mid - low, Range(mid, high), root)
    decreases mid - low
  {
    if low < mid {
      PedigreesSplit(rank + 1, low + 1, mid, high, root);
    }
  }

  // The pedigrees of the `n` iterations of a flat loop: the ranks count them from `low` on.
  ghost function FlatLoop(low: int, n: nat, root: seq<int>): (ps: seq<seq<int>>)
    ensures |ps| == n && forall i :: 0 <= i < n ==> ps[i] == [0, low + i] + root
  {
    seq(n, i requires 0 <= i < n => [0, low + i] + root)
  }

  lemma {:induction false} LeafPedigreesAre(rank: int, r: Range, root: seq<int>)
    requires r.low <= r.high
    ensures LeafPedigrees(rank, r, root) == FlatLoop(rank, r.high - r.low, root)
    decreases r.high - r.low
  {
    if r.low < r.high {
      LeafPedigreesAre(rank + 1, Range(r.low + 1, r.high), root);
    }
  }

  /** The pedigrees of the iterations are those of one flat loop, in which the ranks count the
      iterations from `low` on, whatever the recursion. */
  lemma IterationPedigrees(low: int, high: int, grain: int, place: Placement, root: seq<int>)
    requires grain >= 1 && low <= high
    ensures multiset(Pedigrees(Leaves(low, high, grain, place), root)) ==
            multiset(FlatLoop(low, high - low, root))
  {
    FlatPedigrees(low, high, grain, place, root);
    LeafPedigreesAre(low, Range(low, high), root);
  }

  /** The same, compared with the pedigrees of a loop with a single leaf. */
  lemma {:induction false} FlatPedigrees(low: int, high: int, grain: int, place: Placement, root: seq<int>)
    requires grain >= 1 && low <= high
    ensures multiset(Pedigrees(Leaves(low, high, grain, place), root)) == multiset(LeafPedigrees(low, Range(low, high), root))
    decreases high - low
  {
    if high - low <= grain {
      assert Pedigrees([Range(low, high)], root) == LeafPedigrees(low, Range(low, high), root) + Pedigrees([], root);
    } else {
      var mid := Mid(low, high);
      FlatPedigrees(low, mid, grain, place, root);
      FlatPedigrees(mid, high, grain, place, root);
      PedigreesSplit(low, low, mid, high, root);
      PedigreesAppend(Leaves(low, mid, grain, place), Leaves(mid, high, grain, place), root);
      PedigreesAppend(Leaves(mid, high, grain, place), Leaves(low, mid, grain, place), root);
    }
  }
}
