/** One shared object over a whole run: which tasks have issued an access to it,
    which still wait, which run, which have released it. The lemmas say that issuing in
    program order and releasing keep the ordering guarantees of dataflow.
 */
module ObjectProtocol {
  import opened ObjMetadata
  import opened Sequences

  /** A program: task `t` is the map from the objects it names to its access groups, and its body
      takes `length(t)` steps. It runs on `workers` workers, and worker `w` may run `t` if
      `fits(w)(t)`: a frame can be restricted to some nodes. */
  datatype Program = Program(tasks: seq<map<nat, Group>>, objs: nat, length: nat -> nat,
                             workers: nat, fits: nat -> nat -> bool)

  ghost predicate ProgramOk(p: Program) {
    forall t: nat, o: nat {:trigger o in p.tasks[t]} ::
      t < |p.tasks| && o in p.tasks[t] ==> o < p.objs && p.tasks[t][o] != EMPTY
  }

  predicate Names(p: Program, t: nat, o: nat) {
    t < |p.tasks| && o in p.tasks[t]
  }

  predicate Conflict(p: Program, a: nat, b: nat, o: nat)
  {
    Names(p, a, o) && Names(p, b, o) && !Compatible(p.tasks[a][o], p.tasks[b][o])
  }

  ghost predicate Increasing(s: seq<nat>) {
    forall i, j :: 0 <= i < j < |s| ==> s[i] < s[j]
  }

  // Every task of a waiting generation asked for that generation's group.
  ghost predicate GroupsOk(p: Program, o: nat, w: seq<Gen<nat>>) {
    forall i, t :: 0 <= i < |w| && t in w[i].tasks ==> Names(p, t, o) && p.tasks[t][o] == w[i].group
  }

  // `t` has issued its access and is not in the queue `q`: it got the object.
  ghost predicate Through(q: seq<nat>, issued: set<nat>, t: nat) {
    t in issued && t !in q
  }

  /** The tasks in `issued` have issued their access to object `o`, the queue `q` waits,
      `running` hold the object under `group`, and `released` have given it up. */
  ghost predicate OrderOk(p: Program, o: nat, q: seq<nat>, running: set<nat>, group: Group, issued: set<nat>,
                          released: set<nat>) {
    && Increasing(q)
    && (forall t: nat :: t in issued ==> Names(p, t, o))
    && (forall t: nat :: t in q ==> t in issued)
    && (forall t: nat :: t in released ==> Through(q, issued, t))
    && (forall t: nat :: t in running <==> Through(q, issued, t) && t !in released)
    && (forall t: nat :: t in running ==> p.tasks[t][o] == group)
    && (forall a: nat, b: nat :: b in issued && a < b && Names(p, a, o) ==> a in issued)
    && (forall a: nat, b: nat :: Through(q, issued, a) && b in q ==> a < b)
    && (forall a: nat, b: nat :: a < b && Through(q, issued, b) && Conflict(p, a, b, o) ==> a in released)
  }

  // Invariant of object `o` whose metadata is `m`, standing for the queue of generations `f`.
  ghost predicate ObjOk(p: Program, o: nat, m: Meta<nat>, f: Fifo<nat>, issued: set<nat>, released: set<nat>) {
    && m == Encode(f) && FifoOk(f)
    && GroupsOk(p, o, f.waiting)
    && OrderOk(p, o, Flat(f.waiting), f.running, f.group, issued, released)
  }

  lemma ObjInit(p: Program, o: nat)
    ensures ObjOk(p, o, Init(), Idle(), {}, {})
  {
  }

  lemma IncreasingDistinct(s: seq<nat>)
    requires Increasing(s)
    ensures Distinct(s)
  {
  }

  // `t` is the next task of the program to issue its access to `o`.
  ghost predicate NextToIssue(p: Program, o: nat, issued: set<nat>, t: nat) {
    && Names(p, t, o) && t !in issued
    && (forall a: nat :: Names(p, a, o) && a < t ==> a in issued)
    && (forall a: nat :: a in issued ==> a < t)
  }

  lemma OrderGrant(p: Program, o: nat, running: set<nat>, group: Group, issued: set<nat>, released: set<nat>, t: nat)
    requires OrderOk(p, o, [], running, group, issued, released)
    requires NextToIssue(p, o, issued, t)
    requires running == {} || Compatible(group, p.tasks[t][o])
    ensures OrderOk(p, o, [], running + {t}, p.tasks[t][o], issued + {t}, released)
  {
    forall a: nat, b: nat | a < b && Through([], issued + {t}, b) && Conflict(p, a, b, o) ensures a in released {
      if b != t {
        assert Through([], issued, b);
      } else {
        assert a in running <==> Through([], issued, a) && a !in released;
      }
    }
  }

  lemma OrderQueue(p: Program, o: nat, q: seq<nat>, running: set<nat>, group: Group, issued: set<nat>,
                   released: set<nat>, t: nat)
    requires OrderOk(p, o, q, running, group, issued, released)
    requires NextToIssue(p, o, issued, t)
    ensures OrderOk(p, o, q + [t], running, group, issued + {t}, released)
  {
    var q' := q + [t];
    assert forall a: nat :: a in q' <==> a in q || a == t;
    assert forall a: nat :: Through(q', issued + {t}, a) <==> Through(q, issued, a);
    assert forall i :: 0 <= i < |q| ==> q[i] in q;
  }

  lemma OrderRelease(p: Program, o: nat, q: seq<nat>, running: set<nat>, group: Group, issued: set<nat>,
                     released: set<nat>, t: nat)
    requires OrderOk(p, o, q, running, group, issued, released) && t in running
    ensures OrderOk(p, o, q, running - {t}, group, issued, released + {t})
  {
  }

  lemma SplitIncreasing(ts: seq<nat>, q: seq<nat>)
    requires Increasing(ts + q)
    ensures Increasing(q)
    ensures forall a: nat, b: nat :: a in ts && b in q ==> a < b
  {
    forall i, j | 0 <= i < j < |q| ensures q[i] < q[j] {
      assert (ts + q)[|ts| + i] < (ts + q)[|ts| + j];
    }
    forall a: nat, b: nat | a in ts && b in q ensures a < b {
      var i :| 0 <= i < |ts| && ts[i] == a;
      var j :| 0 <= j < |q| && q[j] == b;
      assert (ts + q)[i] < (ts + q)[|ts| + j];
    }
  }

  lemma OrderReleaseNext(p: Program, o: nat, ts: seq<nat>, q: seq<nat>, group: Group, group': Group, issued: set<nat>,
                         released: set<nat>, t: nat)
    requires OrderOk(p, o, ts + q, {t}, group, issued, released)
    requires forall u :: u in ts ==> Names(p, u, o) && p.tasks[u][o] == group'
    requires group' == WRITE ==> |ts| == 1
    ensures OrderOk(p, o, q, SetOf(ts), group', issued, released + {t})
  {
    SplitIncreasing(ts, q);
    assert t in {t};
    assert forall u: nat :: u in ts + q <==> u in ts || u in q;
    assert forall u: nat :: Through(q, issued, u) <==> Through(ts + q, issued, u) || u in ts;
    forall u: nat ensures u in SetOf(ts) <==> Through(q, issued, u) && u !in released + {t} {
      assert u in {t} <==> Through(ts + q, issued, u) && u !in released;
    }
    forall a: nat, b: nat | a < b && Through(q, issued, b) && Conflict(p, a, b, o) ensures a in released + {t} {
      if !Through(ts + q, issued, b) {
        assert b in ts && a in issued;
        if Through(ts + q, issued, a) {
          assert a in {t} <==> a !in released;
        }
      }
    }
  }

  lemma AddGroupsOk(p: Program, o: nat, f: Fifo<nat>, t: nat)
    requires GroupsOk(p, o, f.waiting) && Names(p, t, o) && FifoOk(f)
    ensures GroupsOk(p, o, FifoAdd(f, t, p.tasks[t][o]).waiting)
  {
  }

  /** Issuing accesses in program order keeps the invariant of the object. */
  lemma ObjIssue(p: Program, o: nat, m: Meta<nat>, f: Fifo<nat>, issued: set<nat>, released: set<nat>, t: nat)
    requires ProgramOk(p)
    requires ObjOk(p, o, m, f, issued, released)
    requires NextToIssue(p, o, issued, t)
    ensures ObjOk(p, o, AddTask(m, t, p.tasks[t][o]).0, FifoAdd(f, t, p.tasks[t][o]), issued + {t}, released)
    ensures AddTask(m, t, p.tasks[t][o]).1 == Granted(f, p.tasks[t][o])
  {
    var g := p.tasks[t][o];
    AddTaskRefines(f, t, g);
    FlatFifo(f, t, g);
    AddGroupsOk(p, o, f, t);
    if Granted(f, g) {
      assert Flat(f.waiting) == [];
      OrderGrant(p, o, f.running, f.group, issued, released, t);
    } else {
      OrderQueue(p, o, Flat(f.waiting), f.running, f.group, issued, released, t);
    }
  }

  lemma ReleaseGroupsOk(p: Program, o: nat, f: Fifo<nat>, t: nat)
    requires GroupsOk(p, o, f.waiting)
    ensures GroupsOk(p, o, FifoRelease(f, t).waiting)
  {
    var f' := FifoRelease(f, t);
    if f.running == {t} && f.waiting != [] {
      assert forall i :: 0 <= i < |f'.waiting| ==> f'.waiting[i] == f.waiting[i + 1];
    }
  }

  lemma OrderFifoRelease(p: Program, o: nat, f: Fifo<nat>, issued: set<nat>, released: set<nat>, t: nat)
    requires FifoOk(f) && GroupsOk(p, o, f.waiting) && t in f.running
    requires OrderOk(p, o, Flat(f.waiting), f.running, f.group, issued, released)
    ensures var f' := FifoRelease(f, t);
            OrderOk(p, o, Flat(f'.waiting), f'.running, f'.group, issued, released + {t})
  {
    if f.running == {t} && f.waiting != [] {
      var g := f.waiting[0];
      assert GenOk(g);
      assert forall u :: u in g.tasks ==> Names(p, u, o) && p.tasks[u][o] == g.group;
      OrderReleaseNext(p, o, g.tasks, Flat(f.waiting[1..]), f.group, g.group, issued, released, t);
    } else {
      OrderRelease(p, o, Flat(f.waiting), f.running, f.group, issued, released, t);
      OrderReleaseEmpty(p, o, f.group, issued, released + {t});
    }
  }

  // With nobody running or waiting the group does not matter.
  lemma OrderReleaseEmpty(p: Program, o: nat, group: Group, issued: set<nat>, released: set<nat>)
    ensures OrderOk(p, o, [], {}, group, issued, released) ==> OrderOk(p, o, [], {}, EMPTY, issued, released)
  {
  }

  /** Releasing keeps the invariant of the object. */
  lemma ObjRelease(p: Program, o: nat, m: Meta<nat>, f: Fifo<nat>, issued: set<nat>, released: set<nat>, t: nat)
    requires ObjOk(p, o, m, f, issued, released)
    requires t in f.running
    ensures ObjOk(p, o, Wakeup(m).0, FifoRelease(f, t), issued, released + {t})
    ensures Wakeup(m).1 == FifoReleased(f, t)
  {
    IncreasingDistinct(Flat(f.waiting));
    WakeupRefines(f, t);
    ReleaseGroupsOk(p, o, f, t);
    OrderFifoRelease(p, o, f, issued, released, t);
  }

  /** When everybody who issued has released, the metadata is back in its initial state. */
  lemma ObjQuiescent(p: Program, o: nat, m: Meta<nat>, f: Fifo<nat>, issued: set<nat>)
    requires ObjOk(p, o, m, f, issued, issued)
    ensures m == Init()
  {
    if t :| t in f.running {
      assert false;
    }
    assert f.running == {};
  }
}
