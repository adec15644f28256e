/** Determinism of reducers: the maps of consecutive strands may be merged in any order and
    bracketing, merges of different strands interleaving freely; every hyperobject ends with the
    product of its parts in serial order, and every view is either held once or destroyed once. */
module ReducerTrees {
  import opened ReducerMerge
  import opened Unfolding

  /** Consecutive strands: what the map of each holds when it ends, with the keys in use, what
      the views hold, and the operation of each hyperobject. */
  datatype Strands<!V> = Strands(maps: seq<RMap>, keys: set<nat>, heap: Heap<V>, op: Op<V>)

  // The strands from `lo` to `hi` and the map that theirs have been merged into.
  datatype Group = Group(lo: nat, hi: nat, m: RMap)

  datatype State<V> = State(groups: seq<Group>, heap: Heap<V>)

  // ---------------------------------------------------------------------------
  // What the strands hold at the start
  // ---------------------------------------------------------------------------

  ghost predicate Within(m: RMap, addrs: set<nat>) {
    forall k :: k in m.views ==> k in addrs && m.views[k] in addrs
  }

  // The strand `b` comes after `a`: no view is in both, and a hyperobject is not used before the
  // strand that creates it, which holds its leftmost view.
  ghost predicate Follows(a: RMap, b: RMap) {
    && !b.isLeftmost && Apart(a, b)
    && forall k :: k in a.views && k in b.views ==> b.views[k] != k
  }

  ghost predicate InOrder<V>(c: Strands<V>) {
    && c.maps != []
    && (forall i :: 0 <= i < |c.maps| ==> Owns(c.maps[i], c.keys) && Within(c.maps[i], c.heap.cells.Keys))
    && forall i, j :: 0 <= i < j < |c.maps| ==> Follows(c.maps[i], c.maps[j])
  }

  /** The strands are as consecutive strands can be. */
  ghost predicate Valid<V>(c: Strands<V>) {
    forall n: nat {:trigger Marker(c, n)} :: Marker(c, n) ==> InOrder(c)
  }

  lemma ValidMeans<V>(c: Strands<V>)
    ensures Valid(c) <==> InOrder(c)
  {
    assert Marker(c, 0);
  }

  // ---------------------------------------------------------------------------
  // Merging them, two neighbours at a time
  // ---------------------------------------------------------------------------

  ghost function Init<V>(c: Strands<V>): State<V> {
    State(seq(|c.maps|, i requires 0 <= i < |c.maps| => Group(i, i + 1, c.maps[i])), c.heap)
  }

  // The groups `i` and `i + 1` can be merged.
  ghost predicate Enabled<V>(s: State<V>, i: nat) {
    i + 1 < |s.groups| && HasCells(s.groups[i].m, s.groups[i + 1].m, s.heap.cells)
  }

  function Joined(gs: seq<Group>, i: nat, m: RMap): seq<Group>
    requires i + 1 < |gs|
  {
    gs[..i] + [Group(gs[i].lo, gs[i + 1].hi, m)] + gs[i + 2..]
  }

  ghost function Next<V>(c: Strands<V>, s: State<V>, i: nat): State<V>
    requires Enabled(s, i)
  {
    var (m, h) := MergeReducerMaps(s.groups[i].m, s.groups[i + 1].m, s.heap, c.op);
    State(Joined(s.groups, i, m), h)
  }

  /** `s'` is left by merging the groups `i` and `i + 1`. */
  ghost predicate Step<V>(c: Strands<V>, s: State<V>, i: nat, s': State<V>) {
    forall n: nat {:trigger Marker(s, n)} :: Marker(s, n) ==> Enabled(s, i) && s' == Next(c, s, i)
  }

  lemma StepMeans<V>(c: Strands<V>, s: State<V>, i: nat, s': State<V>)
    ensures Step(c, s, i, s') <==> Enabled(s, i) && s' == Next(c, s, i)
  {
    assert Marker(s, 0);
  }

  // `steps[i]` is the position of the groups that are merged in the i-th step.
  ghost predicate Run<V>(c: Strands<V>, states: seq<State<V>>, steps: seq<nat>) {
    && |states| == |steps| + 1 && states[0] == Init(c)
    && forall i: nat {:trigger steps[i]} :: i < |steps| ==> Step(c, states[i], steps[i], states[i + 1])
  }

  // ---------------------------------------------------------------------------
  // What a group has
  // ---------------------------------------------------------------------------

  ghost predicate Mentions(ms: seq<RMap>, g: Group, k: nat) {
    exists i :: g.lo <= i < g.hi <= |ms| && k in ms[i].views
  }

  ghost predicate HeldIn(ms: seq<RMap>, g: Group, v: nat) {
    exists i :: g.lo <= i < g.hi <= |ms| && Holds(ms[i], v)
  }

  // One of the strands holds the leftmost view of `k`.
  ghost predicate HomeIn(ms: seq<RMap>, g: Group, k: nat) {
    exists i :: g.lo <= i < g.hi <= |ms| && Has(ms[i], k)
  }

  // The map holds the leftmost view of `k`.
  predicate Has(m: RMap, k: nat) {
    k in m.views && m.views[k] == k
  }

  // What the map of a group has for `k`.
  ghost predicate KeyOk(ms: seq<RMap>, g: Group, k: nat) {
    && (k in g.m.views <==> Mentions(ms, g, k))
    && (k in g.m.views && g.m.views[k] != k ==> HeldIn(ms, g, g.m.views[k]))
    && (HomeIn(ms, g, k) ==> Has(g.m, k))
    && (Has(g.m, k) ==> HomeIn(ms, g, k) || g.m.isLeftmost)
  }

  ghost predicate GroupOk<V>(c: Strands<V>, g: Group) {
    && g.lo < g.hi <= |c.maps|
    && Owns(g.m, c.keys) && Within(g.m, c.heap.cells.Keys)
    && g.m.isLeftmost == (g.lo == 0 && c.maps[0].isLeftmost)
    && forall k: nat :: KeyOk(c.maps, g, k)
  }

  // The groups are all the strands, in order.
  ghost predicate Layout(gs: seq<Group>, n: nat) {
    && gs != [] && gs[0].lo == 0 && gs[|gs| - 1].hi == n
    && (forall i :: 0 <= i < |gs| ==> gs[i].lo < gs[i].hi)
    && forall i :: 0 <= i < |gs| - 1 ==> gs[i].hi == gs[i + 1].lo
  }

  // Some map holds the leftmost view of `k`.
  ghost predicate HasHome(gs: seq<Group>, k: nat) {
    exists i :: 0 <= i < |gs| && Has(gs[i].m, k)
  }

  // The initial value of `k` is intact as long as no map holds its leftmost view.
  ghost predicate Intact<V>(c: Strands<V>, s: State<V>, k: nat) {
    k in c.keys && k in c.heap.cells && k in s.heap.cells && s.heap.cells[k] != c.heap.cells[k] ==>
      HasHome(s.groups, k)
  }

  ghost predicate Inv<V>(c: Strands<V>, s: State<V>) {
    && Layout(s.groups, |c.maps|)
    && (forall i :: 0 <= i < |s.groups| ==> GroupOk(c, s.groups[i]))
    && s.heap.cells.Keys == c.heap.cells.Keys
    && forall k: nat :: Intact(c, s, k)
  }

  lemma InitInv<V>(c: Strands<V>)
    requires Valid(c)
    ensures Inv(c, Init(c))
  {
    ValidMeans(c);
    forall i | 0 <= i < |c.maps| ensures GroupOk(c, Init(c).groups[i]) {
      StrandOk(c, i);
    }
  }

  lemma StrandOk<V>(c: Strands<V>, i: nat)
    requires Valid(c) && i < |c.maps|
    ensures GroupOk(c, Group(i, i + 1, c.maps[i]))
  {
    ValidMeans(c);
    var m := c.maps[i];
    var g := Group(i, i + 1, m);
    assert i > 0 ==> Follows(c.maps[0], m);
    forall k: nat ensures KeyOk(c.maps, g, k) {
      assert k in m.views ==> Holds(m, m.views[k]);
    }
  }

  // ---------------------------------------------------------------------------
  // Different groups
  // ---------------------------------------------------------------------------

  lemma {:induction false} Ordered(gs: seq<Group>, n: nat, i: nat, j: nat)
    requires Layout(gs, n) && i < j < |gs|
    ensures gs[i].hi <= gs[j].lo
  {
    if i + 1 < j {
      Ordered(gs, n, i, j - 1);
    }
  }

  // The leftmost view of `k` is not in a later group than a group that uses `k`.
  lemma UsedBefore<V>(c: Strands<V>, a: Group, b: Group, k: nat)
    requires Valid(c) && GroupOk(c, a) && GroupOk(c, b) && a.hi <= b.lo && k in a.m.views
    ensures !Has(b.m, k) && !HomeIn(c.maps, b, k)
  {
    ValidMeans(c);
    assert KeyOk(c.maps, a, k) && KeyOk(c.maps, b, k);
    var i :| a.lo <= i < a.hi && k in c.maps[i].views;
    forall j | b.lo <= j < b.hi ensures !Has(c.maps[j], k) {
      assert Follows(c.maps[i], c.maps[j]);
    }
  }

  lemma NotInBoth<V>(c: Strands<V>, a: Group, b: Group, v: nat)
    requires Valid(c) && a.hi <= b.lo && HeldIn(c.maps, a, v)
    ensures !HeldIn(c.maps, b, v)
  {
    ValidMeans(c);
    var i :| a.lo <= i < a.hi <= |c.maps| && Holds(c.maps[i], v);
    var p :| p in c.maps[i].views && c.maps[i].views[p] == v;
    forall j | b.lo <= j < b.hi <= |c.maps| ensures !Holds(c.maps[j], v) {
      assert Follows(c.maps[i], c.maps[j]);
      forall q | q in c.maps[j].views ensures c.maps[j].views[q] != v {
        assert !SameView(c.maps[i], p, c.maps[j], q);
      }
    }
  }

  // A group has no view of an earlier one.
  lemma GroupsApart<V>(c: Strands<V>, a: Group, b: Group)
    requires Valid(c) && GroupOk(c, a) && GroupOk(c, b) && a.hi <= b.lo
    ensures Apart(a.m, b.m) && Apart(b.m, a.m)
  {
    forall i, k | i in a.m.views && k in b.m.views ensures !SameView(a.m, i, b.m, k) {
      assert KeyOk(c.maps, a, i) && KeyOk(c.maps, b, k);
      UsedBefore(c, a, b, i);
      if a.m.views[i] != i {
        NotInBoth(c, a, b, a.m.views[i]);
      }
    }
    ApartSym(a.m, b.m);
  }

  // Neighbours can be merged.
  lemma NeighboursReady<V>(c: Strands<V>, s: State<V>, i: nat)
    requires Valid(c) && Inv(c, s) && i + 1 < |s.groups|
    ensures var (l, r) := (s.groups[i].m, s.groups[i + 1].m);
            Ready(l, r, c.keys, s.heap.cells) && Ready(r, l, c.keys, s.heap.cells) && !r.isLeftmost
    ensures Enabled(s, i)
  {
    GroupsApart(c, s.groups[i], s.groups[i + 1]);
  }

  // ---------------------------------------------------------------------------
  // One merge keeps the invariant
  // ---------------------------------------------------------------------------

  // Merging in either direction: `m` and `o` are `l` and `r` or the other way round.
  ghost predicate Merges(l: RMap, r: RMap, m: RMap, o: RMap, kind: Kind) {
    if kind == IntoLeft then m == l && o == r else m == r && o == l && !l.isLeftmost
  }

  // The map that survives, the other one, and the direction.
  function Roles(l: RMap, r: RMap): (roles: (RMap, RMap, Kind))
    ensures Merges(l, r, roles.0, roles.1, roles.2)
  {
    if l.isLeftmost || |l.views| > |r.views| then (l, r, IntoLeft) else (r, l, IntoRight)
  }

  // The map that is left.
  function Survivor(l: RMap, r: RMap): RMap {
    var (m, o, kind) := Roles(l, r);
    RMap(ViewsAfter(m, o, kind, o.views.Keys), m.isLeftmost || o.isLeftmost)
  }

  lemma MergeRoles<V>(l: RMap, r: RMap, h: Heap<V>, op: Op<V>)
    requires HasCells(l, r, h.cells)
    ensures var (m, o, kind) := Roles(l, r);
            HasCells(m, o, h.cells) && MergeReducerMaps(l, r, h, op) == Merge(m, o, kind, h, op)
    ensures MergeReducerMaps(l, r, h, op).0 == Survivor(l, r)
  {
  }

  lemma JoinedHas(ms: seq<RMap>, a: Group, b: Group, m: RMap, x: nat)
    requires a.hi == b.lo && a.lo <= a.hi && b.lo <= b.hi <= |ms|
    ensures var g := Group(a.lo, b.hi, m);
            && (Mentions(ms, g, x) <==> Mentions(ms, a, x) || Mentions(ms, b, x))
            && (HeldIn(ms, g, x) <==> HeldIn(ms, a, x) || HeldIn(ms, b, x))
            && (HomeIn(ms, g, x) <==> HomeIn(ms, a, x) || HomeIn(ms, b, x))
  {
  }

  // What the map `s` after the merge has for one key.
  lemma MergedKey(l: RMap, r: RMap, m: RMap, o: RMap, kind: Kind, s: RMap, k: nat)
    requires Merges(l, r, m, o, kind) && s.views == ViewsAfter(m, o, kind, o.views.Keys) && !r.isLeftmost
    requires k in l.views ==> l.views[k] != 0 && !Has(r, k)
    requires k in r.views ==> r.views[k] != 0
    ensures k in s.views <==> k in l.views || k in r.views
    ensures k in s.views && s.views[k] != k ==>
              (k in l.views && s.views[k] == l.views[k]) || (k in r.views && s.views[k] == r.views[k])
    ensures Has(l, k) || Has(r, k) ==> Has(s, k)
    ensures Has(s, k) ==> Has(l, k) || Has(r, k) || l.isLeftmost
  {
  }

  lemma MergedKeyOk<V>(c: Strands<V>, a: Group, b: Group, m: RMap, o: RMap, kind: Kind, s: RMap, k: nat)
    requires Valid(c) && GroupOk(c, a) && GroupOk(c, b) && a.hi == b.lo
    requires Merges(a.m, b.m, m, o, kind) && s.views == ViewsAfter(m, o, kind, o.views.Keys)
    requires s.isLeftmost == a.m.isLeftmost
    ensures KeyOk(c.maps, Group(a.lo, b.hi, s), k)
  {
    assert KeyOk(c.maps, a, k) && KeyOk(c.maps, b, k);
    if k in a.m.views {
      UsedBefore(c, a, b, k);
    }
    MergedKey(a.m, b.m, m, o, kind, s, k);
    JoinedHas(c.maps, a, b, s, k);
    if k in s.views {
      JoinedHas(c.maps, a, b, s, s.views[k]);
    }
  }

  lemma MergedOk<V>(c: Strands<V>, a: Group, b: Group)
    requires Valid(c) && GroupOk(c, a) && GroupOk(c, b) && a.hi == b.lo
    ensures GroupOk(c, Group(a.lo, b.hi, Survivor(a.m, b.m)))
  {
    var (m, o, kind) := Roles(a.m, b.m);
    var s := Survivor(a.m, b.m);
    GroupsApart(c, a, b);
    MergeOwns(m, o, kind, c.keys);
    forall k | k in s.views ensures k in c.heap.cells.Keys && s.views[k] in c.heap.cells.Keys {
      if k in o.views {
        KeepFrom(m, o, kind, k);
      }
    }
    forall k: nat ensures KeyOk(c.maps, Group(a.lo, b.hi, s), k) {
      MergedKeyOk(c, a, b, m, o, kind, s, k);
    }
  }

  // A merge writes to views that survive only.
  lemma CellsChanged<V>(m: RMap, o: RMap, kind: Kind, keys: set<nat>, h: Heap<V>, op: Op<V>, v: nat)
    requires Ready(m, o, keys, h.cells) && v in h.cells
    ensures var (s, h') := Merge(m, o, kind, h, op);
            h'.cells.Keys == h.cells.Keys && (h'.cells[v] != h.cells[v] ==> Holds(s, v))
  {
    var (s, h') := Merge(m, o, kind, h, op);
    if h'.cells[v] != h.cells[v] {
      CellsAt(m, o, kind, keys, h.cells, op, o.views.Keys, v);
      var k: nat :| k in o.views && Reduces(m, o, kind, k, v);
      assert k in s.views;
    }
  }

  // What a merge does: the group it leaves, and the cells it may change.
  lemma MergeGroups<V>(c: Strands<V>, a: Group, b: Group, h: Heap<V>)
    requires Valid(c) && GroupOk(c, a) && GroupOk(c, b) && a.hi == b.lo && h.cells.Keys == c.heap.cells.Keys
    requires Ready(a.m, b.m, c.keys, h.cells) && Ready(b.m, a.m, c.keys, h.cells)
    ensures var (m, h') := MergeReducerMaps(a.m, b.m, h, c.op);
            && GroupOk(c, Group(a.lo, b.hi, m)) && h'.cells.Keys == h.cells.Keys
            && forall v: nat :: v in h.cells && h'.cells[v] != h.cells[v] ==> Holds(m, v)
  {
    var (m, o, kind) := Roles(a.m, b.m);
    MergeRoles(a.m, b.m, h, c.op);
    MergedOk(c, a, b);
    forall v: nat | v in h.cells && Merge(m, o, kind, h, c.op).1.cells[v] != h.cells[v]
      ensures Holds(Survivor(a.m, b.m), v)
    {
      CellsChanged(m, o, kind, c.keys, h, c.op, v);
    }
  }

  lemma MergeStep<V>(c: Strands<V>, s: State<V>, i: nat)
    requires Valid(c) && Inv(c, s) && i + 1 < |s.groups|
    ensures Enabled(s, i)
    ensures var s' := Next(c, s, i);
            && GroupOk(c, s'.groups[i]) && s'.heap.cells.Keys == s.heap.cells.Keys
            && forall v: nat :: v in s.heap.cells && s'.heap.cells[v] != s.heap.cells[v] ==> Holds(s'.groups[i].m, v)
  {
    NeighboursReady(c, s, i);
    MergeGroups(c, s.groups[i], s.groups[i + 1], s.heap);
  }

  // Where the groups are after the merge.
  lemma JoinedAt(gs: seq<Group>, n: nat, i: nat, m: RMap)
    requires Layout(gs, n) && i + 1 < |gs|
    ensures var js := Joined(gs, i, m);
            && Layout(js, n) && |js| == |gs| - 1 && js[i] == Group(gs[i].lo, gs[i + 1].hi, m)
            && forall j :: 0 <= j < |js| && j != i ==> js[j] == gs[if j < i then j else j + 1]
  {
  }

  // The leftmost view of a key stays in the merged map.
  lemma HomeMerged<V>(c: Strands<V>, a: Group, b: Group, k: nat)
    requires Valid(c) && GroupOk(c, a) && GroupOk(c, b) && a.hi == b.lo
    requires Has(a.m, k) || Has(b.m, k)
    ensures Has(Survivor(a.m, b.m), k)
  {
    var (m, o, kind) := Roles(a.m, b.m);
    if k in a.m.views {
      UsedBefore(c, a, b, k);
    }
    MergedKey(a.m, b.m, m, o, kind, Survivor(a.m, b.m), k);
  }

  lemma JoinedHome(gs: seq<Group>, i: nat, m: RMap, k: nat)
    requires i + 1 < |gs| && HasHome(gs, k) && (Has(gs[i].m, k) || Has(gs[i + 1].m, k) ==> Has(m, k))
    ensures HasHome(Joined(gs, i, m), k)
  {
    var js := Joined(gs, i, m);
    var j: nat :| j < |gs| && Has(gs[j].m, k);
    if j == i || j == i + 1 {
      assert js[i].m == m;
    } else {
      assert js[if j < i then j else j - 1] == gs[j];
    }
  }

  // And so in some map.
  lemma HomeStays<V>(c: Strands<V>, s: State<V>, i: nat, k: nat)
    requires Valid(c) && Inv(c, s) && Enabled(s, i) && HasHome(s.groups, k)
    ensures HasHome(Next(c, s, i).groups, k)
  {
    var a, b := s.groups[i], s.groups[i + 1];
    if Has(a.m, k) || Has(b.m, k) {
      HomeMerged(c, a, b, k);
    }
    MergeRoles(a.m, b.m, s.heap, c.op);
    JoinedHome(s.groups, i, Survivor(a.m, b.m), k);
  }

  lemma IntactKept<V>(c: Strands<V>, s: State<V>, i: nat, k: nat)
    requires Valid(c) && Inv(c, s) && i + 1 < |s.groups| && Enabled(s, i)
    ensures Intact(c, Next(c, s, i), k)
  {
    var s' := Next(c, s, i);
    MergeStep(c, s, i);
    JoinedAt(s.groups, |c.maps|, i, s'.groups[i].m);
    if k in c.keys && k in c.heap.cells && s'.heap.cells[k] != c.heap.cells[k] {
      if s'.heap.cells[k] != s.heap.cells[k] {
        var q :| q in s'.groups[i].m.views && s'.groups[i].m.views[q] == k;
        assert Has(s'.groups[i].m, k);
      } else {
        assert Intact(c, s, k);
        HomeStays(c, s, i, k);
      }
    }
  }

  lemma JoinedOk<V>(c: Strands<V>, gs: seq<Group>, i: nat, m: RMap)
    requires Layout(gs, |c.maps|) && i + 1 < |gs| && forall j :: 0 <= j < |gs| ==> GroupOk(c, gs[j])
    requires GroupOk(c, Group(gs[i].lo, gs[i + 1].hi, m))
    ensures Layout(Joined(gs, i, m), |c.maps|)
    ensures forall j :: 0 <= j < |gs| - 1 ==> GroupOk(c, Joined(gs, i, m)[j])
  {
    JoinedAt(gs, |c.maps|, i, m);
  }

  /** Merging any two neighbours keeps the invariant of ownership. */
  lemma StepKeeps<V>(c: Strands<V>, s: State<V>, i: nat, s': State<V>)
    requires Valid(c) && Inv(c, s) && Step(c, s, i, s')
    ensures Inv(c, s') && |s'.groups| + 1 == |s.groups|
  {
    StepMeans(c, s, i, s');
    MergeStep(c, s, i);
    JoinedOk(c, s.groups, i, s'.groups[i].m);
    forall k: nat ensures Intact(c, s', k) {
      IntactKept(c, s, i, k);
    }
  }

  /** Every state of every run satisfies it. */
  lemma {:induction false} RunInv<V>(c: Strands<V>, states: seq<State<V>>, steps: seq<nat>, i: nat)
    requires Valid(c) && Run(c, states, steps) && i < |states|
    ensures Inv(c, states[i]) && |states[i].groups| + i == |c.maps|
  {
    if i == 0 {
      InitInv(c);
    } else {
      RunInv(c, states, steps, i - 1);
      StepKeeps(c, states[i - 1], steps[i - 1], states[i]);
    }
  }

  /** Every run is finite: it has one step fewer than there are strands when, and only when, no
      merge is left to do, and then one map is left. */
  lemma RunLength<V>(c: Strands<V>, states: seq<State<V>>, steps: seq<nat>)
    requires Valid(c) && Run(c, states, steps)
    ensures var s := states[|steps|];
            && |steps| < |c.maps|
            && (|steps| + 1 == |c.maps| <==> |s.groups| == 1)
            && (|s.groups| == 1 <==> forall i: nat :: !Enabled(s, i))
  {
    var s := states[|steps|];
    RunInv(c, states, steps, |steps|);
    if |s.groups| > 1 {
      NeighboursReady(c, s, 0);
    }
  }

  // ---------------------------------------------------------------------------
  // Serial order
  // ---------------------------------------------------------------------------

  // The parts of `k` that the strands hold, in serial order.
  ghost function Parts<V>(c: Strands<V>, k: nat): (ps: seq<Part<V>>)
    requires Valid(c)
    ensures |ps| == |c.maps|
  {
    ValidMeans(c);
    seq(|c.maps|, i requires 0 <= i < |c.maps| => PartOf(c.maps[i], c.heap.cells, k))
  }

  // The parts combined from left to right.
  ghost function Serial<V>(lm: bool, ps: seq<Part<V>>, init: V, f: (V, V) -> V): Part<V>
    requires ps != []
  {
    if |ps| == 1 then ps[0] else Combine(lm, Serial(lm, ps[..|ps| - 1], init, f), ps[|ps| - 1], init, f)
  }

  ghost predicate Associative<V(!new)>(f: (V, V) -> V) {
    forall u: V, v: V, w: V :: f(f(u, v), w) == f(u, f(v, w))
  }

  lemma CombineAssociative<V(!new)>(lm: bool, p: Part<V>, q: Part<V>, r: Part<V>, init: V, i: V, f: (V, V) -> V)
    requires Associative(f)
    ensures Combine(lm, Combine(lm, p, q, init, f), r, init, f) == Combine(lm, p, Combine(false, q, r, i, f), init, f)
  {
  }

  lemma {:induction false} SerialAppend<V(!new)>(lm: bool, a: seq<Part<V>>, b: seq<Part<V>>, init: V, i: V, f: (V, V) -> V)
    requires Associative(f) && a != [] && b != []
    ensures Serial(lm, a + b, init, f) == Combine(lm, Serial(lm, a, init, f), Serial(false, b, i, f), init, f)
    decreases |b|
  {
    var n := |b| - 1;
    assert (a + b)[..|a + b| - 1] == a + b[..n];
    if n == 0 {
      assert a + b[..n] == a;
    } else {
      SerialAppend(lm, a, b[..n], init, i, f);
      CombineAssociative(lm, Serial(lm, a, init, f), Serial(false, b[..n], i, f), b[n], init, i, f);
    }
  }

  // The map of a group has the parts of its strands combined in serial order.
  ghost predicate ValueOk<V>(c: Strands<V>, s: State<V>, g: Group, k: nat)
    requires Valid(c) && k in c.heap.cells
  {
    && g.lo < g.hi <= |c.maps|
    && (k in g.m.views ==> g.m.views[k] in s.heap.cells)
    && PartOf(g.m, s.heap.cells, k) ==
       Serial(g.m.isLeftmost, Parts(c, k)[g.lo..g.hi], c.heap.cells[k], At(c.op, k))
  }

  ghost predicate Values<V>(c: Strands<V>, s: State<V>, k: nat)
    requires Valid(c) && k in c.heap.cells
  {
    forall i :: 0 <= i < |s.groups| ==> ValueOk(c, s, s.groups[i], k)
  }

  // Where the leftmost map takes in the leftmost view, nobody has touched it.
  lemma InitUntouched<V>(c: Strands<V>, s: State<V>, i: nat, k: nat)
    requires Valid(c) && Inv(c, s) && i + 1 < |s.groups| && k in c.keys && k in c.heap.cells
    requires s.groups[i].m.isLeftmost && k !in s.groups[i].m.views
    requires k in s.groups[i + 1].m.views && !Has(s.groups[i + 1].m, k)
    ensures s.heap.cells[k] == c.heap.cells[k]
  {
    assert Intact(c, s, k);
    forall j: nat | j < |s.groups| ensures !Has(s.groups[j].m, k) {
      if j < i {
        Ordered(s.groups, |c.maps|, j, i);
      } else if j > i + 1 {
        Ordered(s.groups, |c.maps|, i + 1, j);
        UsedBefore(c, s.groups[i + 1], s.groups[j], k);
      }
    }
  }

  lemma CombineInit<V>(lm: bool, p: Part<V>, q: Part<V>, init: V, i: V, f: (V, V) -> V)
    requires lm && p.Absent? && q.Local? ==> i == init
    ensures Combine(lm, p, q, i, f) == Combine(lm, p, q, init, f)
  {
  }

  lemma {:induction false} SerialInit<V>(ps: seq<Part<V>>, init: V, i: V, f: (V, V) -> V)
    requires ps != []
    ensures Serial(false, ps, init, f) == Serial(false, ps, i, f)
    decreases |ps|
  {
    if |ps| > 1 {
      SerialInit(ps[..|ps| - 1], init, i, f);
    }
  }

  lemma SerialSlices<V(!new)>(lm: bool, ps: seq<Part<V>>, lo: nat, mid: nat, hi: nat, init: V, f: (V, V) -> V)
    requires Associative(f) && lo < mid < hi <= |ps|
    ensures Serial(lm, ps[lo..hi], init, f) ==
            Combine(lm, Serial(lm, ps[lo..mid], init, f), Serial(false, ps[mid..hi], init, f), init, f)
  {
    SerialAppend(lm, ps[lo..mid], ps[mid..hi], init, init, f);
    assert ps[lo..mid] + ps[mid..hi] == ps[lo..hi];
  }

  // The merged group.
  lemma MergedValue<V(!new)>(c: Strands<V>, s: State<V>, i: nat, k: nat)
    requires Valid(c) && Inv(c, s) && Enabled(s, i) && Associative(At(c.op, k))
    requires k in c.keys && k in c.heap.cells && Values(c, s, k)
    ensures ValueOk(c, Next(c, s, i), Next(c, s, i).groups[i], k)
  {
    var a, b := s.groups[i], s.groups[i + 1];
    MergeStep(c, s, i);
    NeighboursReady(c, s, i);
    MergeMeans(a.m, b.m, c.keys, s.heap, c.op, k);
    assert ValueOk(c, s, a, k) && ValueOk(c, s, b, k);
    var p, q := PartOf(a.m, s.heap.cells, k), PartOf(b.m, s.heap.cells, k);
    if a.m.isLeftmost && p.Absent? && q.Local? {
      InitUntouched(c, s, i, k);
    }
    CombineInit(a.m.isLeftmost, p, q, c.heap.cells[k], s.heap.cells[k], At(c.op, k));
    SerialSlices(a.m.isLeftmost, Parts(c, k), a.lo, a.hi, b.hi, c.heap.cells[k], At(c.op, k));
  }

  // No two groups hold the same view.
  lemma StatesApart<V>(c: Strands<V>, s: State<V>, i: nat, j: nat)
    requires Valid(c) && Inv(c, s) && i < |s.groups| && j < |s.groups| && i != j
    ensures Apart(s.groups[i].m, s.groups[j].m)
  {
    if i < j {
      Ordered(s.groups, |c.maps|, i, j);
      GroupsApart(c, s.groups[i], s.groups[j]);
    } else {
      Ordered(s.groups, |c.maps|, j, i);
      GroupsApart(c, s.groups[j], s.groups[i]);
    }
  }

  // A merge does not touch the views of any other group.
  lemma OtherCell<V>(c: Strands<V>, s: State<V>, i: nat, j: nat, k: nat)
    requires Valid(c) && Inv(c, s) && Enabled(s, i) && j + 1 < |s.groups| && j != i
    ensures var s' := Next(c, s, i);
            var m := s'.groups[j].m;
            k in m.views ==> m.views[k] in s.heap.cells && m.views[k] in s'.heap.cells &&
                             s'.heap.cells[m.views[k]] == s.heap.cells[m.views[k]]
  {
    var s' := Next(c, s, i);
    var m, n := s'.groups[j].m, s'.groups[i].m;
    StepMeans(c, s, i, s');
    MergeStep(c, s, i);
    StepKeeps(c, s, i, s');
    StatesApart(c, s', i, j);
    if k in m.views {
      forall q | q in n.views ensures n.views[q] != m.views[k] {
        assert !SameView(n, q, m, k);
      }
    }
  }

  lemma SameValue<V>(c: Strands<V>, s: State<V>, s': State<V>, g: Group, k: nat)
    requires Valid(c) && k in c.heap.cells && ValueOk(c, s, g, k)
    requires k in g.m.views ==> g.m.views[k] in s'.heap.cells &&
                                s'.heap.cells[g.m.views[k]] == s.heap.cells[g.m.views[k]]
    ensures ValueOk(c, s', g, k)
  {
  }

  lemma OtherValue<V>(c: Strands<V>, s: State<V>, i: nat, j: nat, k: nat)
    requires Valid(c) && Inv(c, s) && Enabled(s, i) && j + 1 < |s.groups| && j != i
    requires k in c.keys && k in c.heap.cells && Values(c, s, k)
    ensures ValueOk(c, Next(c, s, i), Next(c, s, i).groups[j], k)
  {
    OtherCell(c, s, i, j, k);
    JoinedAt(s.groups, |c.maps|, i, Next(c, s, i).groups[i].m);
    SameValue(c, s, Next(c, s, i), Next(c, s, i).groups[j], k);
  }

  lemma StepValues<V(!new)>(c: Strands<V>, s: State<V>, i: nat, s': State<V>, k: nat)
    requires Valid(c) && Inv(c, s) && Step(c, s, i, s') && Associative(At(c.op, k))
    requires k in c.keys && k in c.heap.cells && Values(c, s, k)
    ensures Values(c, s', k)
  {
    StepMeans(c, s, i, s');
    forall j: nat | j + 1 < |s.groups| ensures ValueOk(c, s', s'.groups[j], k) {
      if j == i {
        MergedValue(c, s, i, k);
      } else {
        OtherValue(c, s, i, j, k);
      }
    }
  }

  lemma InitValues<V>(c: Strands<V>, k: nat)
    requires Valid(c) && k in c.heap.cells
    ensures Values(c, Init(c), k)
  {
    ValidMeans(c);
    forall j | 0 <= j < |c.maps| ensures ValueOk(c, Init(c), Init(c).groups[j], k) {
      assert Parts(c, k)[j..j + 1] == [PartOf(c.maps[j], c.heap.cells, k)];
    }
  }

  /** In every state of every run, the map of every group has, for every hyperobject with an
      associative operation, the parts of its strands combined in serial order: merges may happen
      in any bracketing, and merges of different groups in any order. */
  lemma {:induction false} AnyBracketing<V(!new)>(c: Strands<V>, states: seq<State<V>>, steps: seq<nat>, i: nat, k: nat)
    requires Valid(c) && Run(c, states, steps) && i < |states|
    requires Associative(At(c.op, k)) && k in c.keys && k in c.heap.cells
    ensures Values(c, states[i], k)
  {
    if i == 0 {
      InitValues(c, k);
    } else {
      AnyBracketing(c, states, steps, i - 1, k);
      RunInv(c, states, steps, i - 1);
      StepValues(c, states[i - 1], steps[i - 1], states[i], k);
    }
  }

  // The values that the strands contribute.
  ghost function Present<V>(ps: seq<Part<V>>): seq<V> {
    if ps == [] then []
    else Present(ps[..|ps| - 1]) + if ps[|ps| - 1].Absent? then [] else [ps[|ps| - 1].v]
  }

  ghost function Product<V>(vs: seq<V>, f: (V, V) -> V): V
    requires vs != []
  {
    if |vs| == 1 then vs[0] else f(Product(vs[..|vs| - 1], f), vs[|vs| - 1])
  }

  // The first part that is there.
  ghost function FirstPart<V>(ps: seq<Part<V>>): Part<V> {
    if ps == [] then Absent else if !ps[0].Absent? then ps[0] else FirstPart(ps[1..])
  }

  // The operands of the serial execution. If the leftmost strand never touched the
  // hyperobject and a later strand has a view of its own, the initial value comes first.
  ghost function Operands<V>(lm: bool, ps: seq<Part<V>>, init: V): seq<V>
    requires ps != []
  {
    (if lm && ps[0].Absent? && FirstPart(ps).Local? then [init] else []) + Present(ps)
  }

  lemma {:induction false} FirstPartAppend<V>(ps: seq<Part<V>>, p: Part<V>)
    ensures FirstPart(ps + [p]) == if FirstPart(ps).Absent? then p else FirstPart(ps)
  {
    if ps != [] {
      assert (ps + [p])[1..] == ps[1..] + [p];
      FirstPartAppend(ps[1..], p);
    }
  }

  lemma {:induction false} PresentFirst<V>(ps: seq<Part<V>>)
    ensures FirstPart(ps).Absent? <==> Present(ps) == []
  {
    if ps != [] {
      var n := |ps| - 1;
      assert ps == ps[..n] + [ps[n]];
      FirstPartAppend(ps[..n], ps[n]);
      PresentFirst(ps[..n]);
    }
  }

  lemma ProductAppend<V>(vs: seq<V>, v: V, f: (V, V) -> V)
    ensures Product(vs + [v], f) == if vs == [] then v else f(Product(vs, f), v)
  {
    assert (vs + [v])[..|vs|] == vs;
  }

  // One more part: what has been combined so far, `x`, is the product of `os`, or absent.
  lemma CombineValue<V>(lm: bool, x: Part<V>, p: Part<V>, os: seq<V>, init: V, f: (V, V) -> V)
    requires !x.Absent? ==> os != [] && x.v == Product(os, f)
    ensures Combine(lm, x, p, init, f).Absent? <==> x.Absent? && p.Absent?
    ensures p.Absent? ==> Combine(lm, x, p, init, f) == x
    ensures !p.Absent? ==>
              Combine(lm, x, p, init, f).v ==
              Product((if !x.Absent? then os else if lm && p.Local? then [init] else []) + [p.v], f)
  {
    if !p.Absent? {
      ProductAppend(if !x.Absent? then os else if lm && p.Local? then [init] else [], p.v, f);
    }
  }

  lemma SerialMore<V>(lm: bool, a: seq<Part<V>>, p: Part<V>, init: V, f: (V, V) -> V)
    requires a != []
    ensures Serial(lm, a + [p], init, f) == Combine(lm, Serial(lm, a, init, f), p, init, f)
  {
    assert (a + [p])[..|a|] == a;
  }

  lemma SerialStep<V>(lm: bool, a: seq<Part<V>>, p: Part<V>, init: V, f: (V, V) -> V)
    requires a != []
    requires Serial(lm, a, init, f).Absent? <==> Present(a) == []
    requires Present(a) != [] ==> Serial(lm, a, init, f).v == Product(Operands(lm, a, init), f)
    ensures Serial(lm, a + [p], init, f).Absent? <==> Present(a + [p]) == []
    ensures Present(a + [p]) != [] ==> Serial(lm, a + [p], init, f).v == Product(Operands(lm, a + [p], init), f)
  {
    SerialMore(lm, a, p, init, f);
    PresentAppend(a, p);
    OperandsAppend(lm, a, p, init);
    CombineValue(lm, Serial(lm, a, init, f), p, Operands(lm, a, init), init, f);
  }

  /** Combining the parts in order computes the product of the operands of the serial
      execution, whatever the operation. */
  lemma {:induction false} SerialIsProduct<V>(lm: bool, ps: seq<Part<V>>, init: V, f: (V, V) -> V)
    requires ps != []
    ensures Serial(lm, ps, init, f).Absent? <==> Present(ps) == []
    ensures Present(ps) != [] ==> Serial(lm, ps, init, f).v == Product(Operands(lm, ps, init), f)
    decreases |ps|
  {
    var n := |ps| - 1;
    assert ps == ps[..n] + [ps[n]];
    if n == 0 {
      SerialOne(lm, ps[0], init, f);
    } else {
      SerialIsProduct(lm, ps[..n], init, f);
      SerialStep(lm, ps[..n], ps[n], init, f);
    }
  }

  lemma SerialOne<V>(lm: bool, p: Part<V>, init: V, f: (V, V) -> V)
    ensures Serial(lm, [p], init, f) == p
    ensures Present([p]) == if p.Absent? then [] else [p.v]
    ensures Operands(lm, [p], init) == Present([p])
  {
    assert [p][..0] == [];
    assert [p][1..] == [];
    assert FirstPart([p]) == if p.Absent? then FirstPart([p][1..]) else p;
  }

  // One more part `p`, after parts whose first one that is there is `first` and whose values are `vs`.
  lemma OperandsMore<V>(start: bool, first: Part<V>, vs: seq<V>, p: Part<V>, init: V)
    requires first.Absent? <==> vs == []
    ensures var first' := if first.Absent? then p else first;
            var vs' := vs + if p.Absent? then [] else [p.v];
            (if start && first'.Local? then [init] else []) + vs' ==
            if p.Absent? then (if start && first.Local? then [init] else []) + vs
            else if vs != [] then (if start && first.Local? then [init] else []) + vs + [p.v]
            else (if start && p.Local? then [init] else []) + [p.v]
  {
  }

  lemma PresentAppend<V>(a: seq<Part<V>>, p: Part<V>)
    ensures Present(a + [p]) == Present(a) + if p.Absent? then [] else [p.v]
  {
    assert (a + [p])[..|a|] == a;
  }

  lemma OperandsAppend<V>(lm: bool, a: seq<Part<V>>, p: Part<V>, init: V)
    requires a != []
    ensures var o := Operands(lm, a + [p], init);
            o == if p.Absent? then Operands(lm, a, init)
                 else if Present(a) != [] then Operands(lm, a, init) + [p.v]
                 else (if lm && p.Local? then [init] else []) + [p.v]
  {
    FirstPartAppend(a, p);
    PresentFirst(a);
    PresentAppend(a, p);
    OperandsMore(lm && a[0].Absent?, FirstPart(a), Present(a), p, init);
    assert !a[0].Absent? ==> FirstPart(a) == a[0];
  }

  lemma PartValue<V>(m: RMap, cells: map<nat, V>, k: nat, lm: bool, ps: seq<Part<V>>, init: V, f: (V, V) -> V)
    requires ps != [] && (k in m.views ==> m.views[k] in cells)
    requires PartOf(m, cells, k) == Serial(lm, ps, init, f)
    ensures k in m.views <==> Present(ps) != []
    ensures k in m.views ==> cells[m.views[k]] == Product(Operands(lm, ps, init), f)
  {
    SerialIsProduct(lm, ps, init, f);
  }

  /** The final value of a hyperobject is the product of its operands in serial order, in
      whatever order and bracketing the maps were merged. */
  lemma Determinism<V(!new)>(c: Strands<V>, states: seq<State<V>>, steps: seq<nat>, k: nat)
    requires Valid(c) && Run(c, states, steps) && |steps| + 1 == |c.maps|
    requires Associative(At(c.op, k)) && k in c.keys && k in c.heap.cells
    ensures var s, ps := states[|steps|], Parts(c, k);
            && |s.groups| == 1
            && var m := s.groups[0].m;
               && (k in m.views <==> Present(ps) != [])
               && (k in m.views ==> m.views[k] in s.heap.cells &&
                                    s.heap.cells[m.views[k]] ==
                                    Product(Operands(c.maps[0].isLeftmost, ps, c.heap.cells[k]), At(c.op, k)))
  {
    var s, ps := states[|steps|], Parts(c, k);
    RunLength(c, states, steps);
    RunInv(c, states, steps, |steps|);
    AnyBracketing(c, states, steps, |steps|, k);
    assert ps[0..|ps|] == ps;
    assert ValueOk(c, s, s.groups[0], k) && GroupOk(c, s.groups[0]);
    PartValue(s.groups[0].m, s.heap.cells, k, c.maps[0].isLeftmost, ps, c.heap.cells[k], At(c.op, k));
  }

  /** So any two runs that merge all strands agree on every hyperobject. */
  lemma OrderIrrelevant<V(!new)>(c: Strands<V>, states: seq<State<V>>, steps: seq<nat>,
                                 states': seq<State<V>>, steps': seq<nat>, k: nat)
    requires Valid(c) && Run(c, states, steps) && Run(c, states', steps')
    requires |steps| + 1 == |c.maps| && |steps'| + 1 == |c.maps|
    requires Associative(At(c.op, k)) && k in c.keys && k in c.heap.cells
    ensures var s, s' := states[|steps|], states'[|steps'|];
            && |s.groups| == 1 && |s'.groups| == 1
            && var m, m' := s.groups[0].m, s'.groups[0].m;
               && (k in m.views <==> k in m'.views)
               && (k in m.views ==> m.views[k] in s.heap.cells && m'.views[k] in s'.heap.cells &&
                                    s.heap.cells[m.views[k]] == s'.heap.cells[m'.views[k]])
  {
    Determinism(c, states, steps, k);
    Determinism(c, states', steps', k);
  }

  // ---------------------------------------------------------------------------
  // Destroyed exactly once
  // ---------------------------------------------------------------------------

  // Some strand holds the view.
  ghost predicate OfStrand<V>(c: Strands<V>, v: nat) {
    exists i :: 0 <= i < |c.maps| && Holds(c.maps[i], v)
  }

  // Some map holds the view now.
  ghost predicate HeldNow(gs: seq<Group>, v: nat) {
    exists i :: 0 <= i < |gs| && Holds(gs[i].m, v)
  }

  ghost predicate OneHolder(gs: seq<Group>, v: nat) {
    forall i, j :: 0 <= i < j < |gs| && Holds(gs[i].m, v) ==> !Holds(gs[j].m, v)
  }

  // From `h` to `h'` the view `v` has been destroyed `n` times.
  ghost predicate DestroyedTimes<V>(h: Heap<V>, h': Heap<V>, v: nat, n: nat) {
    h'.destroyed[v] == h.destroyed[v] + n
  }

  // A view of a strand that is not leftmost is held or has been destroyed once; no other view
  // has been destroyed.
  ghost predicate Accounted<V>(c: Strands<V>, s: State<V>, v: nat) {
    && (v !in c.keys && HeldNow(s.groups, v) ==> OfStrand(c, v))
    && DestroyedTimes(c.heap, s.heap, v,
                      if v !in c.keys && OfStrand(c, v) && !HeldNow(s.groups, v) then 1 else 0)
  }

  lemma MergeDestroys<V>(l: RMap, r: RMap, keys: set<nat>, h: Heap<V>, op: Op<V>, v: nat)
    requires Ready(l, r, keys, h.cells) && Ready(r, l, keys, h.cells)
    ensures var (m, h') := MergeReducerMaps(l, r, h, op);
            && DestroyedTimes(h, h', v, if v !in keys && (Holds(l, v) || Holds(r, v)) && !Holds(m, v) then 1 else 0)
            && (v !in keys && Holds(m, v) ==> Holds(l, v) || Holds(r, v))
  {
    var (m, o, kind) := Roles(l, r);
    DroppedOnce(m, o, kind, h, op, v);
    if v in keys {
      HomeNotDropped(m, o, kind, keys, v);
    } else {
      MergeHolds(m, o, kind, keys, h, op, v);
    }
  }

  // Who holds `v` after the merge of the groups at `i`.
  lemma HeldAfter(gs: seq<Group>, n: nat, i: nat, m: RMap, v: nat)
    requires Layout(gs, n) && i + 1 < |gs|
    requires OneHolder(gs, v)
    requires Holds(m, v) ==> Holds(gs[i].m, v) || Holds(gs[i + 1].m, v)
    ensures HeldNow(Joined(gs, i, m), v) <==>
            HeldNow(gs, v) && (Holds(gs[i].m, v) || Holds(gs[i + 1].m, v) ==> Holds(m, v))
  {
    var js := Joined(gs, i, m);
    JoinedAt(gs, n, i, m);
    if HeldNow(gs, v) {
      var j :| 0 <= j < |gs| && Holds(gs[j].m, v);
      if j < i || j > i + 1 {
        assert Holds(js[if j < i then j else j - 1].m, v);
      } else if Holds(m, v) {
        assert Holds(js[i].m, v);
      }
    }
  }

  lemma HeldOnce<V>(c: Strands<V>, s: State<V>, v: nat)
    requires Valid(c) && Inv(c, s)
    ensures OneHolder(s.groups, v)
  {
    forall i: nat, j: nat | i < j < |s.groups| && Holds(s.groups[i].m, v) ensures !Holds(s.groups[j].m, v) {
      StatesApart(c, s, i, j);
      var p :| p in s.groups[i].m.views && s.groups[i].m.views[p] == v;
      forall q | q in s.groups[j].m.views ensures s.groups[j].m.views[q] != v {
        assert !SameView(s.groups[i].m, p, s.groups[j].m, q);
      }
    }
  }

  lemma StepAccounts<V>(c: Strands<V>, s: State<V>, i: nat, s': State<V>, v: nat)
    requires Valid(c) && Inv(c, s) && Step(c, s, i, s') && Accounted(c, s, v)
    ensures Accounted(c, s', v)
  {
    StepMeans(c, s, i, s');
    var a, b := s.groups[i], s.groups[i + 1];
    NeighboursReady(c, s, i);
    MergeDestroys(a.m, b.m, c.keys, s.heap, c.op, v);
    if v !in c.keys {
      HeldOnce(c, s, v);
      HeldAfter(s.groups, |c.maps|, i, s'.groups[i].m, v);
    }
  }

  /** In every state of every run, every view of a strand that is not leftmost is held by exactly
      one map or has been destroyed exactly once, never both; no other view is destroyed, and
      neither is any leftmost one. */
  lemma {:induction false} DestroyedOnce<V>(c: Strands<V>, states: seq<State<V>>, steps: seq<nat>, i: nat, v: nat)
    requires Valid(c) && Run(c, states, steps) && i < |states|
    ensures Accounted(c, states[i], v) && OneHolder(states[i].groups, v)
  {
    RunInv(c, states, steps, i);
    HeldOnce(c, states[i], v);
    if i == 0 {
      InitHolds(c, v);
    } else {
      DestroyedOnce(c, states, steps, i - 1, v);
      RunInv(c, states, steps, i - 1);
      StepAccounts(c, states[i - 1], steps[i - 1], states[i], v);
    }
  }

  lemma InitHolds<V>(c: Strands<V>, v: nat)
    ensures HeldNow(Init(c).groups, v) <==> OfStrand(c, v)
  {
    forall i | 0 <= i < |c.maps| ensures Init(c).groups[i].m == c.maps[i] {
    }
  }
}
