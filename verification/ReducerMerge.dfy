/** Merging of reducer maps, as a function on values: which view survives for each key,
    what it then holds, and which views are destroyed. */
module ReducerMerge {

  /** A reducer map: the view of each hyperobject. A hyperobject is named by its key, the
      address of its leftmost view; views are addresses, never 0. */
  datatype RMap = RMap(views: map<nat, nat>, isLeftmost: bool)

  // What the views hold, and which views have been destroyed how often.
  datatype Heap<V> = Heap(cells: map<nat, V>, destroyed: multiset<nat>)

  datatype Kind = IntoLeft | IntoRight

  // The reduce operation of the hyperobject named by a key.
  type Op<!V> = (nat, V, V) -> V

  // ---------------------------------------------------------------------------
  // Merging `o` into `m`
  // ---------------------------------------------------------------------------

  // The view of `m` for the key `k` of `o` when the two are about to be reduced: the
  // leftmost map first takes in the leftmost view. 0 if there is none.
  function Mine(m: RMap, o: RMap, k: nat): nat
    requires k in o.views
  {
    if k in m.views then m.views[k]
    else if m.isLeftmost && o.views[k] != k then k
    else 0
  }

  // The view that `m` has for `k` in the end.
  function Keep(m: RMap, o: RMap, kind: Kind, k: nat): nat
    requires k in o.views
  {
    if Mine(m, o, k) == 0 || kind == IntoRight then o.views[k] else Mine(m, o, k)
  }

  // The view that is left in `o`, 0 if its view has moved.
  function Drop(m: RMap, o: RMap, kind: Kind, k: nat): nat
    requires k in o.views
  {
    if Mine(m, o, k) == 0 then 0 else if kind == IntoRight then Mine(m, o, k) else o.views[k]
  }

  // The view at `v` is the left operand of the reduction for key `k`.
  ghost predicate Reduces(m: RMap, o: RMap, kind: Kind, k: nat, v: nat) {
    k in o.views && Drop(m, o, kind, k) != 0 && Keep(m, o, kind, k) == v
  }

  // The views of `m` after the keys in `done` have been merged.
  function ViewsAfter(m: RMap, o: RMap, kind: Kind, done: set<nat>): map<nat, nat>
    requires done <= o.views.Keys
  {
    map k | k in m.views.Keys + done :: if k in done then Keep(m, o, kind, k) else m.views[k]
  }

  ghost function CellsAfter<V>(m: RMap, o: RMap, kind: Kind, cells: map<nat, V>, op: Op<V>, done: set<nat>): map<nat, V>
    requires done <= o.views.Keys && HasCells(m, o, cells)
  {
    map v | v in cells.Keys ::
      if k: nat :| k in done && Reduces(m, o, kind, k, v) then op(k, cells[v], cells[Drop(m, o, kind, k)]) else cells[v]
  }

  // The views that are destroyed with `o`.
  ghost function Dropped(m: RMap, o: RMap, kind: Kind): set<nat> {
    set k | k in o.views.Keys && Drop(m, o, kind, k) != 0 && Drop(m, o, kind, k) != k :: Drop(m, o, kind, k)
  }

  ghost function Merge<V>(m: RMap, o: RMap, kind: Kind, h: Heap<V>, op: Op<V>): (RMap, Heap<V>)
    requires HasCells(m, o, h.cells)
  {
    (RMap(ViewsAfter(m, o, kind, o.views.Keys), m.isLeftmost || o.isLeftmost),
     Heap(CellsAfter(m, o, kind, h.cells, op, o.views.Keys), h.destroyed + multiset(Dropped(m, o, kind))))
  }

  // Merges consecutive strands, `l` before `r`: the larger map survives, and the leftmost one in any case.
  ghost function MergeReducerMaps<V>(l: RMap, r: RMap, h: Heap<V>, op: Op<V>): (RMap, Heap<V>)
    requires HasCells(l, r, h.cells)
  {
    if l.isLeftmost || |l.views| > |r.views| then Merge(l, r, IntoLeft, h, op) else Merge(r, l, IntoRight, h, op)
  }

  // ---------------------------------------------------------------------------
  // Who owns what
  // ---------------------------------------------------------------------------

  // Every view that can be touched has a cell.
  ghost predicate HasCells<V>(m: RMap, o: RMap, cells: map<nat, V>) {
    && (forall k :: k in m.views ==> k in cells && m.views[k] in cells)
    && (forall k :: k in o.views ==> k in cells && o.views[k] in cells)
  }

  // `m` has for `k` the view that `o` has for `l`.
  ghost predicate SameView(m: RMap, k: nat, o: RMap, l: nat) {
    k in m.views && l in o.views && m.views[k] == o.views[l]
  }

  // A map's own views: nobody's twice, and a leftmost view only under its own key.
  ghost predicate Owns(m: RMap, keys: set<nat>) {
    && (forall k :: k in m.views ==> k != 0 && m.views[k] != 0 && k in keys)
    && (forall k :: k in m.views && m.views[k] in keys ==> m.views[k] == k)
    && (forall k, l {:trigger SameView(m, k, m, l)} :: SameView(m, k, m, l) ==> k == l)
  }

  // No view is in both maps.
  ghost predicate Apart(m: RMap, o: RMap) {
    forall k, l {:trigger SameView(m, k, o, l)} :: !SameView(m, k, o, l)
  }

  lemma ApartSym(m: RMap, o: RMap)
    requires Apart(m, o)
    ensures Apart(o, m)
  {
    forall k, l ensures !SameView(o, k, m, l) {
      assert !SameView(m, l, o, k);
    }
  }

  ghost predicate Holds(m: RMap, v: nat) {
    exists k :: k in m.views && m.views[k] == v
  }

  ghost predicate Ready<V>(m: RMap, o: RMap, keys: set<nat>, cells: map<nat, V>) {
    && Owns(m, keys) && Owns(o, keys) && Apart(m, o) && HasCells(m, o, cells)
  }

  // Different keys keep and drop different views.
  lemma KeepDrop(m: RMap, o: RMap, kind: Kind, keys: set<nat>, k: nat, l: nat)
    requires Owns(m, keys) && Owns(o, keys) && Apart(m, o)
    requires k in o.views && l in o.views
    ensures Keep(m, o, kind, k) == Keep(m, o, kind, l) ==> k == l
    ensures Drop(m, o, kind, k) != 0 && Drop(m, o, kind, k) == Drop(m, o, kind, l) ==> k == l
    ensures Keep(m, o, kind, k) != Drop(m, o, kind, l)
  {
    assert SameView(m, k, m, l) || SameView(o, k, o, l) ==> k == l;
    assert !SameView(m, k, o, l) && !SameView(m, l, o, k) && !SameView(m, k, o, k);
  }

  lemma CellsAt<V>(m: RMap, o: RMap, kind: Kind, keys: set<nat>, cells: map<nat, V>, op: Op<V>, done: set<nat>, v: nat)
    requires Ready(m, o, keys, cells) && done <= o.views.Keys && v in cells
    ensures forall k: nat :: k in done && Reduces(m, o, kind, k, v) ==>
              CellsAfter(m, o, kind, cells, op, done)[v] == op(k, cells[v], cells[Drop(m, o, kind, k)])
    ensures (forall k: nat :: k in done ==> !Reduces(m, o, kind, k, v)) ==>
              CellsAfter(m, o, kind, cells, op, done)[v] == cells[v]
  {
    forall k: nat, l: nat | k in done && Reduces(m, o, kind, k, v) && l in done && Reduces(m, o, kind, l, v) ensures k == l {
      KeepDrop(m, o, kind, keys, k, l);
    }
  }

  // ---------------------------------------------------------------------------
  // What a map contributes to one hyperobject
  // ---------------------------------------------------------------------------

  /** The part of one hyperobject that a map holds: none, the leftmost view itself, or the
      view of a later strand. */
  datatype Part<V> = Absent | Leftmost(v: V) | Local(v: V)

  ghost function PartOf<V>(m: RMap, cells: map<nat, V>, k: nat): Part<V>
    requires k in m.views ==> m.views[k] in cells
  {
    if k !in m.views then Absent
    else if m.views[k] == k then Leftmost(cells[k])
    else Local(cells[m.views[k]])
  }

  // The parts of two consecutive strands together. `lm`: the first is in the leftmost map,
  // where the absence of a view stands for the initial value `init`.
  ghost function Combine<V>(lm: bool, p: Part<V>, q: Part<V>, init: V, f: (V, V) -> V): Part<V> {
    match (p, q)
    case (_, Absent) => p
    case (Absent, Local(v)) => if lm then Leftmost(f(init, v)) else q
    case (Absent, Leftmost(_)) => q
    case (Leftmost(u), _) => Leftmost(f(u, q.v))
    case (Local(u), _) => Local(f(u, q.v))
  }

  ghost function At<V>(op: Op<V>, k: nat): (V, V) -> V {
    (u, v) => op(k, u, v)
  }

  // The view of a key that only `m` has is not touched.
  lemma KeptElsewhere(m: RMap, o: RMap, kind: Kind, keys: set<nat>, k: nat)
    requires Owns(m, keys) && Owns(o, keys) && Apart(m, o) && k in m.views && k !in o.views
    ensures forall i: nat :: !Reduces(m, o, kind, i, m.views[k])
  {
    forall i: nat | i in o.views ensures Keep(m, o, kind, i) != m.views[k] {
      KeepNotMine(m, o, kind, keys, i, k);
    }
  }

  // What the surviving view of `k` holds.
  lemma CellOf<V>(m: RMap, o: RMap, kind: Kind, keys: set<nat>, cells: map<nat, V>, op: Op<V>, k: nat)
    requires Ready(m, o, keys, cells)
    ensures var cells' := CellsAfter(m, o, kind, cells, op, o.views.Keys);
            && (k in o.views ==>
                  var v, d := Keep(m, o, kind, k), Drop(m, o, kind, k);
                  v in cells && (d != 0 ==> d in cells) && cells'[v] == if d == 0 then cells[v] else op(k, cells[v], cells[d]))
            && (k in m.views && k !in o.views ==> cells'[m.views[k]] == cells[m.views[k]])
  {
    if k in o.views {
      var v := Keep(m, o, kind, k);
      CellsAt(m, o, kind, keys, cells, op, o.views.Keys, v);
      forall i: nat | i in o.views && Reduces(m, o, kind, i, v) ensures i == k {
        KeepDrop(m, o, kind, keys, i, k);
      }
    } else if k in m.views {
      CellsAt(m, o, kind, keys, cells, op, o.views.Keys, m.views[k]);
      KeptElsewhere(m, o, kind, keys, k);
    }
  }

  // The part that results for `k`, by cases; `views` and `cells'` are what the merge leaves.
  lemma PartAfter<V>(m: RMap, o: RMap, kind: Kind, cells: map<nat, V>, views: map<nat, nat>, cells': map<nat, V>,
                     op: Op<V>, k: nat)
    requires k in cells && (k in m.views ==> m.views[k] in cells && m.views[k] != 0 && k != 0)
    requires k in o.views ==> o.views[k] in cells && o.views[k] != 0 && k != 0
    requires k in m.views && k in o.views ==> m.views[k] != o.views[k]
    requires k in views <==> k in m.views || k in o.views
    requires k in views ==> views[k] in cells'
    requires k in o.views ==>
               var v, d := Keep(m, o, kind, k), Drop(m, o, kind, k);
               && views[k] == v && v in cells && (d != 0 ==> d in cells)
               && cells'[v] == if d == 0 then cells[v] else op(k, cells[v], cells[d])
    requires k in m.views && k !in o.views ==> views[k] == m.views[k] && cells'[m.views[k]] == cells[m.views[k]]
    requires kind == IntoRight ==> !m.isLeftmost
    ensures var (l, r) := if kind == IntoLeft then (m, o) else (o, m);
            PartOf(RMap(views, m.isLeftmost), cells', k) ==
            Combine(m.isLeftmost, PartOf(l, cells, k), PartOf(r, cells, k), cells[k], At(op, k))
  {
  }

  lemma MergePart<V>(m: RMap, o: RMap, kind: Kind, keys: set<nat>, h: Heap<V>, op: Op<V>, k: nat)
    requires Ready(m, o, keys, h.cells) && k in h.cells && (kind == IntoRight ==> !m.isLeftmost)
    ensures var (s, h') := Merge(m, o, kind, h, op);
            var (l, r) := if kind == IntoLeft then (m, o) else (o, m);
            && (k in s.views ==> s.views[k] in h'.cells)
            && PartOf(s, h'.cells, k) ==
               Combine(m.isLeftmost, PartOf(l, h.cells, k), PartOf(r, h.cells, k), h.cells[k], At(op, k))
  {
    var views := ViewsAfter(m, o, kind, o.views.Keys);
    var cells' := CellsAfter(m, o, kind, h.cells, op, o.views.Keys);
    CellOf(m, o, kind, keys, h.cells, op, k);
    assert !SameView(m, k, o, k);
    PartAfter(m, o, kind, h.cells, views, cells', op, k);
  }

  /** Merging the maps of two consecutive strands leaves, for every hyperobject, the left part
      reduced with the right part, in this order, whichever map survives. */
  lemma MergeMeans<V>(l: RMap, r: RMap, keys: set<nat>, h: Heap<V>, op: Op<V>, k: nat)
    requires Ready(l, r, keys, h.cells) && k in h.cells && !r.isLeftmost
    ensures var (m, h') := MergeReducerMaps(l, r, h, op);
            && (k in m.views ==> m.views[k] in h'.cells)
            && PartOf(m, h'.cells, k) ==
               Combine(l.isLeftmost, PartOf(l, h.cells, k), PartOf(r, h.cells, k), h.cells[k], At(op, k))
  {
    if l.isLeftmost || |l.views| > |r.views| {
      MergePart(l, r, IntoLeft, keys, h, op, k);
    } else {
      ApartSym(l, r);
      MergePart(r, l, IntoRight, keys, h, op, k);
    }
  }

  // ---------------------------------------------------------------------------
  // Ownership
  // ---------------------------------------------------------------------------

  ghost predicate Destroyed<V>(h: Heap<V>, h': Heap<V>, v: nat) {
    h'.destroyed[v] == h.destroyed[v] + 1
  }

  lemma DroppedOnce<V>(m: RMap, o: RMap, kind: Kind, h: Heap<V>, op: Op<V>, v: nat)
    requires HasCells(m, o, h.cells)
    ensures var h' := Merge(m, o, kind, h, op).1;
            h'.destroyed[v] == h.destroyed[v] + if v in Dropped(m, o, kind) then 1 else 0
  {
  }

  // A surviving view is one of the two, or the leftmost view taken in on the way.
  lemma KeepFrom(m: RMap, o: RMap, kind: Kind, k: nat)
    requires k in o.views
    ensures var v := Keep(m, o, kind, k); v == o.views[k] || (k in m.views && v == m.views[k]) || (k !in m.views && v == k)
  {
  }

  lemma KeepNotMine(m: RMap, o: RMap, kind: Kind, keys: set<nat>, k: nat, l: nat)
    requires Owns(m, keys) && Owns(o, keys) && Apart(m, o)
    requires k in o.views && l in m.views && l !in o.views
    ensures Keep(m, o, kind, k) != m.views[l]
  {
    KeepFrom(m, o, kind, k);
    assert !SameView(m, l, o, k) && (SameView(m, k, m, l) ==> k == l);
  }

  lemma MergeOwns(m: RMap, o: RMap, kind: Kind, keys: set<nat>)
    requires Owns(m, keys) && Owns(o, keys) && Apart(m, o)
    ensures Owns(RMap(ViewsAfter(m, o, kind, o.views.Keys), m.isLeftmost || o.isLeftmost), keys)
  {
    var views := ViewsAfter(m, o, kind, o.views.Keys);
    forall k | k in views ensures k != 0 && views[k] != 0 && k in keys && (views[k] in keys ==> views[k] == k) {
      if k in o.views {
        KeepFrom(m, o, kind, k);
      }
    }
    var s := RMap(views, m.isLeftmost || o.isLeftmost);
    forall k, l | SameView(s, k, s, l) ensures k == l {
      if k in o.views && l in o.views {
        KeepDrop(m, o, kind, keys, k, l);
      } else if k in o.views {
        KeepNotMine(m, o, kind, keys, k, l);
      } else if l in o.views {
        KeepNotMine(m, o, kind, keys, l, k);
      } else {
        assert SameView(m, k, m, l);
      }
    }
  }

  lemma DroppedGone(m: RMap, o: RMap, kind: Kind, keys: set<nat>, k: nat, l: nat)
    requires Owns(m, keys) && Owns(o, keys) && Apart(m, o) && k in ViewsAfter(m, o, kind, o.views.Keys) && l in o.views
    ensures ViewsAfter(m, o, kind, o.views.Keys)[k] != Drop(m, o, kind, l)
  {
    if k in o.views {
      KeepDrop(m, o, kind, keys, k, l);
    } else {
      DropFrom(m, o, kind, l);
      assert !SameView(m, k, o, l) && (SameView(m, k, m, l) ==> k == l);
    }
  }

  lemma MergeHolds<V>(m: RMap, o: RMap, kind: Kind, keys: set<nat>, h: Heap<V>, op: Op<V>, v: nat)
    requires Ready(m, o, keys, h.cells) && v !in keys
    ensures var (s, h') := Merge(m, o, kind, h, op);
            && (Holds(m, v) || Holds(o, v) <==> Holds(s, v) || Destroyed(h, h', v))
            && !(Holds(s, v) && Destroyed(h, h', v))
            && (Destroyed(h, h', v) || h'.destroyed[v] == h.destroyed[v])
  {
    var s := RMap(ViewsAfter(m, o, kind, o.views.Keys), m.isLeftmost || o.isLeftmost);
    DroppedOnce(m, o, kind, h, op, v);
    HoldsAfter(m, o, kind, keys, s, v);
  }

  // A view is kept or dropped, and not both.
  lemma HoldsAfter(m: RMap, o: RMap, kind: Kind, keys: set<nat>, s: RMap, v: nat)
    requires Owns(m, keys) && Owns(o, keys) && Apart(m, o) && v !in keys
    requires s.views == ViewsAfter(m, o, kind, o.views.Keys)
    ensures Holds(m, v) || Holds(o, v) <==> Holds(s, v) || v in Dropped(m, o, kind)
    ensures !(Holds(s, v) && v in Dropped(m, o, kind))
  {
    forall k, l | k in s.views && l in o.views ensures s.views[k] != Drop(m, o, kind, l) {
      DroppedGone(m, o, kind, keys, k, l);
    }
    forall k | k in o.views && o.views[k] == v ensures Holds(s, v) || v in Dropped(m, o, kind) {
      assert k in s.views;
      assert Keep(m, o, kind, k) == v || Drop(m, o, kind, k) == v;
    }
    forall k | k in m.views && m.views[k] == v ensures Holds(s, v) || v in Dropped(m, o, kind) {
      assert k in s.views;
      assert k in o.views ==> Keep(m, o, kind, k) == v || Drop(m, o, kind, k) == v;
    }
    if v in Dropped(m, o, kind) {
      var l :| l in o.views && Drop(m, o, kind, l) == v && v != 0 && v != l;
      DropFrom(m, o, kind, l);
    }
    if Holds(s, v) {
      var k :| k in s.views && s.views[k] == v;
      if k in o.views {
        KeepFrom(m, o, kind, k);
      }
    }
  }

  lemma DropFrom(m: RMap, o: RMap, kind: Kind, k: nat)
    requires k in o.views
    ensures var d := Drop(m, o, kind, k); d == 0 || d == k || d == o.views[k] || (k in m.views && d == m.views[k])
  {
  }

  // A leftmost view is not destroyed.
  lemma HomeNotDropped(m: RMap, o: RMap, kind: Kind, keys: set<nat>, v: nat)
    requires Owns(m, keys) && Owns(o, keys) && v in keys
    ensures v !in Dropped(m, o, kind)
  {
    forall l | l in o.views && Drop(m, o, kind, l) != l ensures Drop(m, o, kind, l) == 0 || Drop(m, o, kind, l) != v {
      DropFrom(m, o, kind, l);
    }
  }
}
