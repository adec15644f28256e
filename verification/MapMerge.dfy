/** Merging and destroying reducer maps in place: the loops over slots do what
    `ReducerMerge.Merge` says. */
module MapMerge {
  import opened HashTable
  import opened ReducerMerge
  import opened ReducerMap
  import opened Unfolding

  // The memory in which views live.
  class Memory<V> {
    var cells: map<nat, V>
    var destroyed: multiset<nat>

    constructor (cells: map<nat, V>)
      ensures this.cells == cells && destroyed == multiset{}
    {
      this.cells, destroyed := cells, multiset{};
    }

    function Contents(): Heap<V>
      reads this
    {
      Heap(cells, destroyed)
    }
  }

  ghost function AsMap(m: CilkredMap): RMap
    reads m
  {
    RMap(m.views, m.isLeftmost)
  }

  // ---------------------------------------------------------------------------
  // The steps of a merge
  // ---------------------------------------------------------------------------

  lemma ViewsStep(m: RMap, o: RMap, kind: Kind, done: set<nat>, k: nat)
    requires done <= o.views.Keys && k in o.views && k !in done
    ensures ViewsAfter(m, o, kind, done + {k}) == ViewsAfter(m, o, kind, done)[k := Keep(m, o, kind, k)]
    ensures k in ViewsAfter(m, o, kind, done) <==> k in m.views
    ensures k in m.views ==> ViewsAfter(m, o, kind, done)[k] == m.views[k]
  {
  }

  // Cells after one more reduction.
  ghost function Reduced<V>(cells: map<nat, V>, op: Op<V>, k: nat, keep: nat, drop: nat): map<nat, V>
    requires drop != 0 ==> keep in cells && drop in cells
  {
    if drop == 0 then cells else cells[keep := op(k, cells[keep], cells[drop])]
  }

  lemma CellsUntouched<V>(m: RMap, o: RMap, kind: Kind, keys: set<nat>, cells: map<nat, V>, op: Op<V>, done: set<nat>, k: nat)
    requires Ready(m, o, keys, cells) && done <= o.views.Keys && k in o.views && k !in done
    ensures var (keep, drop) := (Keep(m, o, kind, k), Drop(m, o, kind, k));
            && keep in cells && (drop != 0 ==> drop in cells)
            && CellsAfter(m, o, kind, cells, op, done)[keep] == cells[keep]
            && (drop != 0 ==> CellsAfter(m, o, kind, cells, op, done)[drop] == cells[drop])
  {
    var keep, drop := Keep(m, o, kind, k), Drop(m, o, kind, k);
    KeepFrom(m, o, kind, k);
    DropFrom(m, o, kind, k);
    CellsAt(m, o, kind, keys, cells, op, done, keep);
    if drop != 0 {
      CellsAt(m, o, kind, keys, cells, op, done, drop);
    }
    forall i: nat | i in done ensures !Reduces(m, o, kind, i, keep) && (drop != 0 ==> !Reduces(m, o, kind, i, drop)) {
      KeepDrop(m, o, kind, keys, i, k);
    }
  }

  // A cell that the reduction for `k` does not write.
  lemma CellSame<V>(m: RMap, o: RMap, kind: Kind, keys: set<nat>, cells: map<nat, V>, op: Op<V>, done: set<nat>, k: nat,
                    v: nat)
    requires Ready(m, o, keys, cells) && done <= o.views.Keys && k in o.views && v in cells
    requires !Reduces(m, o, kind, k, v)
    ensures CellsAfter(m, o, kind, cells, op, done + {k})[v] == CellsAfter(m, o, kind, cells, op, done)[v]
  {
    CellsAt(m, o, kind, keys, cells, op, done, v);
    CellsAt(m, o, kind, keys, cells, op, done + {k}, v);
    if i: nat :| i in done && Reduces(m, o, kind, i, v) {
      assert i in done + {k};
    }
  }

  lemma MapStep<V>(a: map<nat, V>, b: map<nat, V>, op: Op<V>, k: nat, keep: nat, drop: nat)
    requires a.Keys == b.Keys && (drop != 0 ==> keep in a && drop in a && b[keep] == op(k, a[keep], a[drop]))
    requires forall v :: v in a && (v != keep || drop == 0) ==> b[v] == a[v]
    ensures b == Reduced(a, op, k, keep, drop)
  {
  }

  lemma CellWritten<V>(m: RMap, o: RMap, kind: Kind, keys: set<nat>, cells: map<nat, V>, op: Op<V>, done: set<nat>, k: nat)
    requires Ready(m, o, keys, cells) && done <= o.views.Keys && k in o.views && Drop(m, o, kind, k) != 0
    ensures var (keep, drop) := (Keep(m, o, kind, k), Drop(m, o, kind, k));
            && keep in cells && drop in cells
            && CellsAfter(m, o, kind, cells, op, done + {k})[keep] == op(k, cells[keep], cells[drop])
  {
    var keep := Keep(m, o, kind, k);
    KeepFrom(m, o, kind, k);
    DropFrom(m, o, kind, k);
    CellsAt(m, o, kind, keys, cells, op, done + {k}, keep);
    assert Reduces(m, o, kind, k, keep) && k in done + {k};
  }

  lemma CellsStep<V>(m: RMap, o: RMap, kind: Kind, keys: set<nat>, cells: map<nat, V>, op: Op<V>, done: set<nat>, k: nat)
    requires Ready(m, o, keys, cells) && done <= o.views.Keys && k in o.views && k !in done
    ensures var (keep, drop) := (Keep(m, o, kind, k), Drop(m, o, kind, k));
            && (drop != 0 ==> keep in cells && drop in cells)
            && CellsAfter(m, o, kind, cells, op, done + {k}) ==
               Reduced(CellsAfter(m, o, kind, cells, op, done), op, k, keep, drop)
  {
    var keep, drop := Keep(m, o, kind, k), Drop(m, o, kind, k);
    var a, b := CellsAfter(m, o, kind, cells, op, done), CellsAfter(m, o, kind, cells, op, done + {k});
    CellsUntouched(m, o, kind, keys, cells, op, done, k);
    forall v | v in a && (v != keep || drop == 0) ensures b[v] == a[v] {
      CellSame(m, o, kind, keys, cells, op, done, k, v);
    }
    if drop != 0 {
      CellWritten(m, o, kind, keys, cells, op, done, k);
    }
    MapStep(a, b, op, k, keep, drop);
  }

  // ---------------------------------------------------------------------------
  // The loops over slots
  // ---------------------------------------------------------------------------

  // Two maps that share nothing.
  ghost predicate Both(m: CilkredMap, o: CilkredMap)
    reads m, o
  {
    m.Valid() && o.Valid() && m != o
  }

  // The slot of `m` to reduce with the slot of `o` for `key` and `view`, if there is one; the
  // leftmost map takes in the leftmost view first.
  method MineSlot(m: CilkredMap, ghost o: CilkredMap, key: nat, view: nat, ghost m0: RMap, ghost o0: RMap)
    returns (found: bool, h: nat, a: nat)
    requires Both(m, o) && key != 0 && key in o0.views && o0.views[key] == view && m0.isLeftmost == m.isLeftmost
    requires (key in m.views <==> key in m0.views) && (key in m.views ==> m.views[key] == m0.views[key] != 0)
    modifies m`nelem, m`nbuckets, m`buckets, m`lists, m`place, m`views
    ensures Both(m, o)
    ensures found <==> Mine(m0, o0, key) != 0
    ensures found ==> h < m.nbuckets && a < |m.lists[h]| && m.lists[h][a] == Elem(key, Mine(m0, o0, key))
    ensures m.views == if found then old(m.views)[key := Mine(m0, o0, key)] else old(m.views)
    ensures !found ==> key !in m.views
  {
    found, h, a := m.Lookup(key);
    if !found && m.isLeftmost {
      if key != view {
        h, a := m.RehashAndInsert(key, key);
        found := true;
      }
    }
  }

  // Reduces the views in the slots `a` of `m` and `j` of `o`, after exchanging them if `m` is
  // the map of the later strand.
  method ReduceSlots<V>(m: CilkredMap, h: nat, a: nat, o: CilkredMap, i: nat, j: nat, kind: Kind, mem: Memory<V>, op: Op<V>,
                        ghost key: nat, ghost mine: nat, ghost theirs: nat)
    requires Both(m, o)
    requires h < m.nbuckets && a < |m.lists[h]| && m.lists[h][a] == Elem(key, mine)
    requires i < o.nbuckets && j < |o.lists[i]| && o.lists[i][j] == Elem(key, theirs)
    requires key in m.views && m.views[key] == mine && key in o.views && o.views[key] == theirs && mine != 0 && theirs != 0
    requires mine in mem.cells && theirs in mem.cells
    modifies m`buckets, m`lists, m`views, o`buckets, o`lists, o`views, mem`cells
    ensures Both(m, o)
    ensures m.views == old(m.views)[key := if kind == IntoRight then theirs else mine]
    ensures o.views == old(o.views)[key := if kind == IntoRight then mine else theirs]
    ensures |o.lists[i]| == old(|o.lists[i]|) && o.Before(i, j + 1) == old(o.Before(i, j + 1))
    ensures var (left, right) := if kind == IntoRight then (theirs, mine) else (mine, theirs);
            mem.cells == Reduced(old(mem.cells), op, key, left, right)
  {
    var k, left, right := o.buckets[i][j].key, m.buckets[h][a].view, o.buckets[i][j].view;
    if kind == IntoRight {
      o.SetView(i, j, left);
      m.SetView(h, a, right);
      left, right := right, left;
    }
    mem.cells := mem.cells[left := op(k, mem.cells[left], mem.cells[right])];
  }

  // Moves the view in slot `j` of `o` to `m`, which has none.
  method MoveSlot(m: CilkredMap, o: CilkredMap, i: nat, j: nat, ghost key: nat, ghost theirs: nat)
    requires Both(m, o)
    requires i < o.nbuckets && j < |o.lists[i]| && o.lists[i][j] == Elem(key, theirs)
    requires key != 0 && key !in m.views
    modifies m`nelem, m`nbuckets, m`buckets, m`lists, m`place, m`views, o`buckets, o`lists, o`views
    ensures Both(m, o) && m.views == old(m.views)[key := theirs]
    ensures o.views == old(o.views)[key := 0]
    ensures |o.lists[i]| == old(|o.lists[i]|) && o.Before(i, j + 1) == old(o.Before(i, j + 1))
  {
    var k, view := o.buckets[i][j].key, o.buckets[i][j].view;
    o.SetView(i, j, 0);
    var _, _ := m.RehashAndInsert(k, view);
  }

  lemma Overwrite(views: map<nat, nat>, k: nat, u: nat, v: nat)
    ensures views[k := u][k := v] == views[k := v]
  {
  }

  // One element of `o`: `keep` is the view that `m` ends up with, `drop` the one left in `o`.
  method MergeElement<V>(m: CilkredMap, o: CilkredMap, i: nat, j: nat, kind: Kind, mem: Memory<V>, op: Op<V>,
                         ghost m0: RMap, ghost o0: RMap, ghost key: nat, ghost keep: nat, ghost drop: nat)
    requires Both(m, o)
    requires i < o.nbuckets && j < |o.lists[i]|
    requires key in o0.views && key != 0 && o0.views[key] != 0 && o.lists[i][j] == Elem(key, o0.views[key])
    requires key in o.views && o.views[key] == o0.views[key]
    requires m0.isLeftmost == m.isLeftmost
    requires (key in m.views <==> key in m0.views) && (key in m.views ==> m.views[key] == m0.views[key] != 0)
    requires keep == Keep(m0, o0, kind, key) && drop == Drop(m0, o0, kind, key)
    requires drop != 0 ==> keep in mem.cells && drop in mem.cells
    modifies m`nelem, m`nbuckets, m`buckets, m`lists, m`place, m`views, o`buckets, o`lists, o`views, mem`cells
    ensures Both(m, o) && m.views == old(m.views)[key := keep]
    ensures o.views == old(o.views)[key := drop]
    ensures |o.lists[i]| == old(|o.lists[i]|) && o.Before(i, j + 1) == old(o.Before(i, j + 1))
    ensures mem.cells == Reduced(old(mem.cells), op, key, keep, drop)
  {
    ghost var mine := Mine(m0, o0, key);
    Overwrite(m.views, key, mine, keep);
    var found, h, a := MineSlot(m, o, o.buckets[i][j].key, o.buckets[i][j].view, m0, o0);
    if found {
      ReduceSlots(m, h, a, o, i, j, kind, mem, op, key, mine, o0.views[key]);
    } else {
      MoveSlot(m, o, i, j, key, o0.views[key]);
    }
  }

  // The views left in `o` after the keys in `done`.
  ghost function DropsAfter(m: RMap, o: RMap, kind: Kind, done: set<nat>): map<nat, nat> {
    map k | k in o.views :: if k in done then Drop(m, o, kind, k) else o.views[k]
  }

  /** A merge under way: the map `o` that is being merged into `m`, the cells as they were
      before, and what can be a key. */
  datatype Job<!V> = Job(m: RMap, o: RMap, kind: Kind, keys: set<nat>, cells: map<nat, V>, op: Op<V>)

  ghost predicate JobOk<V>(job: Job<V>) {
    Ready(job.m, job.o, job.keys, job.cells)
  }

  // The views of both maps and the cells after the keys in `done`.
  ghost predicate AfterKeys<V>(job: Job<V>, views: map<nat, nat>, drops: map<nat, nat>, cells: map<nat, V>, done: set<nat>) {
    && JobOk(job) && done <= job.o.views.Keys
    && views == ViewsAfter(job.m, job.o, job.kind, done)
    && drops == DropsAfter(job.m, job.o, job.kind, done)
    && cells == CellsAfter(job.m, job.o, job.kind, job.cells, job.op, done)
  }

  // The same, hidden.
  ghost predicate Partway<V>(job: Job<V>, views: map<nat, nat>, drops: map<nat, nat>, cells: map<nat, V>, done: set<nat>) {
    forall n: nat {:trigger Marker(done, n)} :: Marker(done, n) ==> AfterKeys(job, views, drops, cells, done)
  }

  lemma PartwayMeans<V>(job: Job<V>, views: map<nat, nat>, drops: map<nat, nat>, cells: map<nat, V>, done: set<nat>)
    ensures Partway(job, views, drops, cells, done) <==> AfterKeys(job, views, drops, cells, done)
  {
    assert Marker(done, 0);
  }

  lemma PartwayFacts<V>(job: Job<V>, views: map<nat, nat>, drops: map<nat, nat>, cells: map<nat, V>, done: set<nat>, k: nat)
    requires Partway(job, views, drops, cells, done) && k in drops && k !in done
    ensures k in job.o.views && k != 0 && drops[k] == job.o.views[k] != 0
    ensures k in views <==> k in job.m.views
    ensures k in job.m.views ==> views[k] == job.m.views[k] != 0
    ensures var (keep, drop) := (Keep(job.m, job.o, job.kind, k), Drop(job.m, job.o, job.kind, k));
            drop != 0 ==> keep in cells && drop in cells
  {
    PartwayMeans(job, views, drops, cells, done);
    ViewsStep(job.m, job.o, job.kind, done, k);
    CellsUntouched(job.m, job.o, job.kind, job.keys, job.cells, job.op, done, k);
  }

  lemma PartwayNext<V>(job: Job<V>, views: map<nat, nat>, drops: map<nat, nat>, cells: map<nat, V>, done: set<nat>, k: nat,
                       keep: nat, drop: nat)
    requires Partway(job, views, drops, cells, done) && k in job.o.views && k !in done
    requires keep == Keep(job.m, job.o, job.kind, k) && drop == Drop(job.m, job.o, job.kind, k)
    requires drop != 0 ==> keep in cells && drop in cells
    ensures Partway(job, views[k := keep], drops[k := drop], Reduced(cells, job.op, k, keep, drop), done + {k})
  {
    PartwayMeans(job, views, drops, cells, done);
    ViewsStep(job.m, job.o, job.kind, done, k);
    DropsStep(job.m, job.o, job.kind, done, k);
    CellsStep(job.m, job.o, job.kind, job.keys, job.cells, job.op, done, k);
    PartwayMeans(job, views[k := keep], drops[k := drop], Reduced(cells, job.op, k, keep, drop), done + {k});
  }

  lemma DropsStep(m: RMap, o: RMap, kind: Kind, done: set<nat>, k: nat)
    requires k in o.views
    ensures DropsAfter(m, o, kind, done + {k}) == DropsAfter(m, o, kind, done)[k := Drop(m, o, kind, k)]
  {
  }

  // How far the merge has come: all slots before slot `j` of bucket `i` of `o` are done.
  ghost predicate Merged<V>(job: Job<V>, m: CilkredMap, o: CilkredMap, mem: Memory<V>, i: nat, j: nat)
    reads m, o, mem
  {
    && Both(m, o) && m.isLeftmost == job.m.isLeftmost
    && Partway(job, m.views, o.views, mem.cells, o.Before(i, j))
  }

  // The element in slot `j` of bucket `i` of `o`; is there another one behind it?
  method MergeSlot<V>(m: CilkredMap, o: CilkredMap, i: nat, j: nat, kind: Kind, mem: Memory<V>, op: Op<V>, ghost job: Job<V>)
    returns (more: bool)
    requires Merged(job, m, o, mem, i, j) && kind == job.kind && op == job.op
    requires i < o.nbuckets && j < |o.lists[i]|
    modifies m`nelem, m`nbuckets, m`buckets, m`lists, m`place, m`views, o`buckets, o`lists, o`views, mem`cells
    ensures Merged(job, m, o, mem, i, j + 1)
    ensures |o.lists[i]| == old(|o.lists[i]|) && (more <==> j + 1 < |o.lists[i]|)
  {
    ghost var key, done := o.lists[i][j].key, o.Before(i, j);
    WalkedStep(o.lists, o.place, o.views, i, j);
    PartwayFacts(job, m.views, o.views, mem.cells, done, key);
    ghost var keep, drop := Keep(job.m, job.o, job.kind, key), Drop(job.m, job.o, job.kind, key);
    PartwayNext(job, m.views, o.views, mem.cells, done, key, keep, drop);
    MergeElement(m, o, i, j, kind, mem, op, job.m, job.o, key, keep, drop);
    more := o.InUse(i, j + 1);
  }

  lemma MergedBucket<V>(job: Job<V>, m: CilkredMap, o: CilkredMap, mem: Memory<V>, i: nat, j: nat)
    requires Merged(job, m, o, mem, i, j) && i < o.nbuckets && j == |o.lists[i]|
    ensures Merged(job, m, o, mem, i + 1, 0)
  {
    WalkedBucket(o.lists, o.place, o.views, i);
  }

  // All elements of bucket `i` of `o`.
  method MergeBucket<V>(m: CilkredMap, o: CilkredMap, i: nat, kind: Kind, mem: Memory<V>, op: Op<V>, ghost job: Job<V>)
    requires Merged(job, m, o, mem, i, 0) && kind == job.kind && op == job.op && i < o.nbuckets
    modifies m`nelem, m`nbuckets, m`buckets, m`lists, m`place, m`views, o`buckets, o`lists, o`views, mem`cells
    ensures Merged(job, m, o, mem, i + 1, 0)
  {
    var j := 0;
    var used := o.InUse(i, j);
    while used
      invariant Merged(job, m, o, mem, i, j) && j <= |o.lists[i]| && (used <==> j < |o.lists[i]|)
      decreases |o.lists[i]| - j
    {
      used := MergeSlot(m, o, i, j, kind, mem, op, job);
      j := j + 1;
    }
    MergedBucket(job, m, o, mem, i, j);
  }

  // ---------------------------------------------------------------------------
  // Destroying a map
  // ---------------------------------------------------------------------------

  // The views for the keys in `done` that a map owns and that are not leftmost views.
  ghost function Doomed(views: map<nat, nat>, done: set<nat>): set<nat> {
    set k | k in views.Keys && k in done && views[k] != 0 && views[k] != k :: views[k]
  }

  ghost predicate Shared(views: map<nat, nat>, k: nat, l: nat) {
    k != l && k in views && l in views && views[k] == views[l] != 0
  }

  ghost predicate NoShare(views: map<nat, nat>) {
    forall k, l {:trigger Shared(views, k, l)} :: !Shared(views, k, l)
  }

  lemma DoomedStep(views: map<nat, nat>, done: set<nat>, k: nat)
    requires NoShare(views) && k in views && k !in done
    ensures multiset(Doomed(views, done + {k})) ==
            multiset(Doomed(views, done)) + if views[k] != 0 && views[k] != k then multiset{views[k]} else multiset{}
  {
    var v := views[k];
    if v != 0 && v != k {
      assert Doomed(views, done + {k}) == Doomed(views, done) + {v};
      assert forall l :: l in done && l in views ==> !Shared(views, k, l);
    } else {
      assert Doomed(views, done + {k}) == Doomed(views, done);
    }
  }

  // Destroys the views in bucket `i`.
  method DestroyBucket<V>(o: CilkredMap, i: nat, mem: Memory<V>, ghost destroyed: multiset<nat>)
    requires o.Valid() && NoShare(o.views) && i < o.nbuckets
    requires mem.destroyed == destroyed + multiset(Doomed(o.views, o.Before(i, 0)))
    modifies mem`destroyed
    ensures mem.destroyed == destroyed + multiset(Doomed(o.views, o.Before(i + 1, 0)))
  {
    var j := 0;
    var used := o.InUse(i, j);
    while used
      invariant j <= |o.lists[i]| && (used <==> j < |o.lists[i]|)
      invariant mem.destroyed == destroyed + multiset(Doomed(o.views, o.Before(i, j)))
      decreases |o.lists[i]| - j
    {
      WalkedStep(o.lists, o.place, o.views, i, j);
      DoomedStep(o.views, o.Before(i, j), o.lists[i][j].key);
      assert Slots(o.buckets[i], o.lists[i]);
      var e := o.buckets[i][j];
      if e.view != 0 && e.key != e.view {
        mem.destroyed := mem.destroyed + multiset{e.view};
      }
      j := j + 1;
      used := o.InUse(i, j);
    }
    WalkedBucket(o.lists, o.place, o.views, i);
  }

  // Destroys a map: its views, except leftmost ones.
  method DestroyMap<V>(o: CilkredMap, mem: Memory<V>)
    requires o.Valid() && NoShare(o.views)
    modifies mem`destroyed
    ensures mem.destroyed == Buried(old(mem.destroyed), o.views)
  {
    WalkedStart(o.lists, o.place, o.views);
    assert Doomed(o.views, {}) == {};
    var i := 0;
    while i < o.nbuckets
      invariant i <= o.nbuckets
      invariant mem.destroyed == old(mem.destroyed) + multiset(Doomed(o.views, o.Before(i, 0)))
    {
      DestroyBucket(o, i, mem, old(mem.destroyed));
      i := i + 1;
    }
    WalkedAll(o.lists, o.place, o.views);
  }

  // ---------------------------------------------------------------------------
  // Merging maps
  // ---------------------------------------------------------------------------

  lemma DropsDoomed(m: RMap, o: RMap, kind: Kind, keys: set<nat>)
    requires Owns(m, keys) && Owns(o, keys) && Apart(m, o)
    ensures var drops := DropsAfter(m, o, kind, o.views.Keys);
            NoShare(drops) && Doomed(drops, o.views.Keys) == Dropped(m, o, kind)
  {
    var drops := DropsAfter(m, o, kind, o.views.Keys);
    forall k, l ensures !Shared(drops, k, l) {
      if k in drops && l in drops {
        KeepDrop(m, o, kind, keys, k, l);
      }
    }
  }

  lemma PartwayStart<V>(job: Job<V>)
    requires JobOk(job)
    ensures Partway(job, job.m.views, job.o.views, job.cells, {})
  {
    PartwayMeans(job, job.m.views, job.o.views, job.cells, {});
  }

  lemma PartwayKeys<V>(job: Job<V>, views: map<nat, nat>, drops: map<nat, nat>, cells: map<nat, V>, done: set<nat>)
    requires Partway(job, views, drops, cells, done)
    ensures drops.Keys == job.o.views.Keys
  {
    PartwayMeans(job, views, drops, cells, done);
  }

  lemma MergedStart<V>(job: Job<V>, m: CilkredMap, o: CilkredMap, mem: Memory<V>)
    requires Both(m, o) && JobOk(job) && job.m == AsMap(m) && job.o == AsMap(o) && job.cells == mem.cells
    ensures Merged(job, m, o, mem, 0, 0)
  {
    PartwayStart(job);
    WalkedStart(o.lists, o.place, o.views);
  }

  lemma MergedEnd<V>(job: Job<V>, m: CilkredMap, o: CilkredMap, mem: Memory<V>)
    requires Merged(job, m, o, mem, o.nbuckets, 0)
    ensures Both(m, o) && Partway(job, m.views, o.views, mem.cells, job.o.views.Keys)
  {
    WalkedAll(o.lists, o.place, o.views);
    PartwayKeys(job, m.views, o.views, mem.cells, o.views.Keys);
  }

  // All elements of `o`.
  method MergeAll<V>(m: CilkredMap, o: CilkredMap, kind: Kind, mem: Memory<V>, op: Op<V>, ghost job: Job<V>)
    requires Merged(job, m, o, mem, 0, 0) && kind == job.kind && op == job.op
    modifies m`nelem, m`nbuckets, m`buckets, m`lists, m`place, m`views, o`buckets, o`lists, o`views, mem`cells
    ensures Merged(job, m, o, mem, o.nbuckets, 0)
  {
    var i := 0;
    while i < o.nbuckets
      invariant i <= o.nbuckets && Merged(job, m, o, mem, i, 0)
    {
      MergeBucket(m, o, i, kind, mem, op, job);
      i := i + 1;
    }
  }

  // What has been destroyed once a map with these views is.
  ghost function Buried(destroyed: multiset<nat>, views: map<nat, nat>): multiset<nat> {
    destroyed + multiset(Doomed(views, views.Keys))
  }

  lemma PartwayNoShare<V>(job: Job<V>, views: map<nat, nat>, drops: map<nat, nat>, cells: map<nat, V>)
    requires Partway(job, views, drops, cells, job.o.views.Keys)
    ensures NoShare(drops) && JobOk(job)
  {
    PartwayMeans(job, views, drops, cells, job.o.views.Keys);
    DropsDoomed(job.m, job.o, job.kind, job.keys);
  }

  lemma MergeIs<V>(job: Job<V>, destroyed: multiset<nat>)
    requires JobOk(job)
    ensures ReducerMerge.Merge(job.m, job.o, job.kind, Heap(job.cells, destroyed), job.op) ==
            (RMap(ViewsAfter(job.m, job.o, job.kind, job.o.views.Keys), job.m.isLeftmost || job.o.isLeftmost),
             Heap(CellsAfter(job.m, job.o, job.kind, job.cells, job.op, job.o.views.Keys),
                  Buried(destroyed, DropsAfter(job.m, job.o, job.kind, job.o.views.Keys))))
  {
    DropsDoomed(job.m, job.o, job.kind, job.keys);
    assert DropsAfter(job.m, job.o, job.kind, job.o.views.Keys).Keys == job.o.views.Keys;
  }

  lemma PartwayEnd<V>(job: Job<V>, views: map<nat, nat>, drops: map<nat, nat>, cells: map<nat, V>, destroyed: multiset<nat>)
    requires JobOk(job) && Partway(job, views, drops, cells, job.o.views.Keys)
    ensures (RMap(views, job.m.isLeftmost || job.o.isLeftmost), Heap(cells, Buried(destroyed, drops))) ==
            ReducerMerge.Merge(job.m, job.o, job.kind, Heap(job.cells, destroyed), job.op)
  {
    PartwayMeans(job, views, drops, cells, job.o.views.Keys);
    MergeIs(job, destroyed);
  }

  // The end of a merge: the maps belong to one strand now, and `o` goes.
  method Retire<V>(m: CilkredMap, o: CilkredMap, mem: Memory<V>)
    requires Both(m, o) && NoShare(o.views)
    modifies m`isLeftmost, mem`destroyed
    ensures m.Valid() && m.isLeftmost == (old(m.isLeftmost) || o.isLeftmost)
    ensures mem.destroyed == Buried(old(mem.destroyed), o.views)
  {
    m.isLeftmost := m.isLeftmost || o.isLeftmost;
    DestroyMap(o, mem);
  }

  /** Merges `o` into `m` and destroys `o`. */
  method Merge<V>(m: CilkredMap, o: CilkredMap, kind: Kind, mem: Memory<V>, op: Op<V>, ghost keys: set<nat>)
    requires Both(m, o) && !o.isLeftmost && Ready(AsMap(m), AsMap(o), keys, mem.cells)
    modifies m, o, mem
    ensures m.Valid()
    ensures (AsMap(m), mem.Contents()) ==
            ReducerMerge.Merge(old(AsMap(m)), old(AsMap(o)), kind, old(mem.Contents()), op)
  {
    ghost var job := Job(AsMap(m), AsMap(o), kind, keys, mem.cells, op);
    ghost var destroyed := mem.destroyed;
    MergedStart(job, m, o, mem);
    MergeAll(m, o, kind, mem, op, job);
    MergedEnd(job, m, o, mem);
    PartwayNoShare(job, m.views, o.views, mem.cells);
    PartwayEnd(job, m.views, o.views, mem.cells, destroyed);
    Retire(m, o, mem);
  }

  /** Merges the maps of two consecutive strands and returns the one that survives; a strand
      that touched no hyperobject may have no map. */
  method MergeReducerMaps<V>(l: CilkredMap?, r: CilkredMap?, mem: Memory<V>, op: Op<V>, ghost keys: set<nat>)
    returns (s: CilkredMap?)
    requires l != null && r != null ==> Both(l, r) && Both(r, l) && !r.isLeftmost
    requires l != null && r != null ==> Ready(AsMap(l), AsMap(r), keys, mem.cells) && Ready(AsMap(r), AsMap(l), keys, mem.cells)
    modifies l, r, mem
    ensures l == null ==> s == r && mem.Contents() == old(mem.Contents())
    ensures r == null ==> (l != null ==> s == l) && mem.Contents() == old(mem.Contents())
    ensures l != null && r != null ==>
              && s != null && s.Valid()
              && s == (if old(l.isLeftmost) || |old(l.views)| > |old(r.views)| then l else r)
              && (AsMap(s), mem.Contents()) ==
                 ReducerMerge.MergeReducerMaps(old(AsMap(l)), old(AsMap(r)), old(mem.Contents()), op)
  {
    if l == null {
      return r;
    }
    if r == null {
      return l;
    }
    SizedMeans(l.place, l.views, l.nelem, l.nbuckets);
    SizedMeans(r.place, r.views, r.nelem, r.nbuckets);
    if l.isLeftmost || l.nelem > r.nelem {
      Merge(l, r, IntoLeft, mem, op, keys);
      s := l;
    } else {
      Merge(r, l, IntoRight, mem, op, keys);
      s := r;
    }
  }
}
