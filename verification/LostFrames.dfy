/** Ready frames that the runtime loses. A worker that takes the last of several frames from a list
    leaves the tail of the list on the frame taken; what is appended next cannot be reached. This
    takes a frame that not every worker may run: without such frames nothing is ever lost. */
module LostFrames {
  import opened ObjMetadata
  import opened ObjectProtocol
  import opened Dataflow
  import opened DataflowTheorems
  import opened ReadyQueues
  import opened Sequences

  // The frames that a step appends to a ready list.
  ghost function Appended<V>(c: Code<V>, s: State<V>, l: Label): seq<nat>
    requires Enabled(c, s, l)
  {
    var f := s.frames[l.t];
    match l
    case DropGuard(t, w) => LastCount(f, t)
    case Release(t, o, w) => Grant(s.frames[t := f.(released := f.released + {o})], [], Wakeup(s.metas[o]).1).1
    case _ => []
  }

  // The step appends frames to a list whose tail is wrong.
  ghost predicate Loses<V>(c: Code<V>, s: State<V>, l: Label)
    requires Enabled(c, s, l)
  {
    (l.DropGuard? || l.Release?) && !s.lists[l.w].attached && Appended(c, s, l) != []
  }

  lemma StepLoses<V>(c: Code<V>, s: State<V>, l: Label)
    requires Enabled(c, s, l)
    ensures Next(c, s, l).lost == {} <==> s.lost == {} && !Loses(c, s, l)
  {
    var ts := Appended(c, s, l);
    assert ts != [] ==> ts[0] in SetOf(ts);
    if l.Release? {
      ReleaseNext(c, s, l.t, l.o, l.w, Wakeup(s.metas[l.o]).1);
    }
  }

  ghost predicate LosesAt<V>(c: Code<V>, states: seq<State<V>>, labels: seq<Label>, k: nat) {
    k < |labels| && k < |states| && Enabled(c, states[k], labels[k]) && Loses(c, states[k], labels[k])
  }

  /** A run has lost no frame if and only if none of its steps has appended to a list whose
      tail was wrong. */
  lemma {:induction false} RunLoses<V>(c: Code<V>, store: seq<V>, states: seq<State<V>>, labels: seq<Label>, i: nat)
    requires IsRun(c, store, states, labels) && i < |states|
    ensures states[i].lost == {} <==> forall k: nat :: k < i ==> !LosesAt(c, states, labels, k)
  {
    if i > 0 {
      RunLoses(c, store, states, labels, i - 1);
      StepLoses(c, states[i - 1], labels[i - 1]);
      assert LosesAt(c, states, labels, i - 1) <==> Loses(c, states[i - 1], labels[i - 1]);
    }
  }

  /** Exactly when taking a frame leaves the tail of a list right: there was one frame only, or the
      tail was right before and the worker may run a frame other than the last. */
  lemma TailAfterStart<V>(c: Code<V>, s: State<V>, t: nat, v: nat, w: nat)
    requires Enabled(c, s, Start(t, v, w))
    ensures var q := s.lists[v];
            Next(c, s, Start(t, v, w)).lists[v].attached <==>
            |q.frames| == 1 || (q.attached && exists i :: 0 <= i < |q.frames| - 1 && c.prog.fits(w)(q.frames[i]))
  {
    TakeAttached(s.lists[v], c.prog.fits(w));
  }

  lemma LostStays<V>(c: Code<V>, s: State<V>, l: Label, t: nat)
    requires Consistent(c.prog, s) && Enabled(c, s, l) && t in s.lost
    ensures t in Next(c, s, l).lost
  {
    if l.Release? {
      ReleaseNext(c, s, l.t, l.o, l.w, Wakeup(s.metas[l.o]).1);
    }
  }

  ghost predicate IsLost<V>(p: Program, s: State<V>, t: nat) {
    Consistent(p, s) && t in s.lost
  }

  /** A frame that is lost is lost for ever: its task never starts. */
  lemma LostForEver<V>(c: Code<V>, store: seq<V>, states: seq<State<V>>, labels: seq<Label>, i: nat, j: nat, t: nat)
    requires ProgramOk(c.prog) && |store| == c.prog.objs
    requires IsRun(c, store, states, labels) && i <= j < |states| && t in states[i].lost
    ensures t in states[j].lost && t < |states[j].frames| && !states[j].frames[t].started
  {
    RunInv(c, store, states, labels, i);
    forall k | i <= k < j && IsLost(c.prog, states[k], t) && Enabled(c, states[k], labels[k])
      ensures IsLost(c.prog, states[k + 1], t) {
      StepConsistent(c, states[k], labels[k]);
      LostStays(c, states[k], labels[k], t);
    }
    RunInduction(c, store, states, labels, i, j, s => IsLost(c.prog, s, t));
    var fs :| Inv(c.prog, states[j], fs);
    PublishedExact(c.prog, states[j], fs, t);
  }

  // No frame is restricted to some of the workers.
  ghost predicate Unrestricted(p: Program) {
    forall w: nat, t: nat {:trigger MayRun(p, w, t)} :: w < p.workers && t < |p.tasks| ==> MayRun(p, w, t)
  }

  ghost predicate AllAttached<V>(p: Program, s: State<V>) {
    Consistent(p, s) && s.lost == {} && forall w :: 0 <= w < |s.lists| ==> s.lists[w].attached
  }

  lemma StartAttached<V>(c: Code<V>, s: State<V>, t: nat, v: nat, w: nat)
    requires AllAttached(c.prog, s) && Unrestricted(c.prog) && Enabled(c, s, Start(t, v, w))
    ensures s.lists[v].frames[0] == t && Next(c, s, Start(t, v, w)).lists[v] == Queue(s.lists[v].frames[1..], true)
  {
    var q := s.lists[v];
    var fs :| Inv(c.prog, s, fs);
    forall i | 0 <= i < |q.frames| ensures c.prog.fits(w)(q.frames[i]) {
      assert OnList(s.lists, v, q.frames[i]);
      PublishedExact(c.prog, s, fs, q.frames[i]);
      assert MayRun(c.prog, w, q.frames[i]);
    }
    TakeAny(q, c.prog.fits(w));
  }

  lemma StaysAttached<V>(c: Code<V>, s: State<V>, l: Label)
    requires AllAttached(c.prog, s) && Unrestricted(c.prog) && Enabled(c, s, l)
    ensures AllAttached(c.prog, Next(c, s, l))
  {
    StepConsistent(c, s, l);
    StepLoses(c, s, l);
    if l.Start? {
      StartAttached(c, s, l.t, l.v, l.w);
    } else if l.Release? {
      ReleaseNext(c, s, l.t, l.o, l.w, Wakeup(s.metas[l.o]).1);
    }
  }

  /** If every worker may run every frame, no run loses a frame, and workers take the frames of
      a list from its front. */
  lemma NothingLost<V>(c: Code<V>, store: seq<V>, states: seq<State<V>>, labels: seq<Label>, i: nat)
    requires ProgramOk(c.prog) && |store| == c.prog.objs && Unrestricted(c.prog)
    requires IsRun(c, store, states, labels) && i < |states|
    ensures states[i].lost == {} && forall w :: 0 <= w < |states[i].lists| ==> states[i].lists[w].attached
    ensures i < |labels| && labels[i].Start? ==>
              var q := states[i].lists[labels[i].v].frames; q != [] && q[0] == labels[i].t
  {
    InitInv(c.prog, store);
    forall k | 0 <= k < i && AllAttached(c.prog, states[k]) && Enabled(c, states[k], labels[k])
      ensures AllAttached(c.prog, states[k + 1]) {
      StaysAttached(c, states[k], labels[k]);
    }
    RunInduction(c, store, states, labels, 0, i, s => AllAttached(c.prog, s));
    if i < |labels| && labels[i].Start? {
      StartAttached(c, states[i], labels[i].t, labels[i].v, labels[i].w);
    }
  }

  /** If every worker may run every frame, a run that cannot continue has finished every task. */
  lemma AllFinish<V(!new)>(c: Code<V>, store: seq<V>, states: seq<State<V>>, labels: seq<Label>, i: nat)
    requires ProgramOk(c.prog) && |store| == c.prog.objs && BodiesOk(c) && Unrestricted(c.prog) && c.prog.workers > 0
    requires IsRun(c, store, states, labels) && i < |states|
    requires forall l :: !Enabled(c, states[i], l)
    ensures |states[i].frames| == |c.prog.tasks|
    ensures forall t: nat :: t < |c.prog.tasks| ==> Finished(c.prog, states[i], t)
  {
    forall t: nat | t < |c.prog.tasks| ensures HasWorker(c.prog, t) {
      assert MayRun(c.prog, 0, t);
    }
    NothingLost(c, store, states, labels, i);
    Quiescence(c, store, states, labels, i);
  }

  // ---------------------------------------------------------------------------
  // A run that loses a frame
  // ---------------------------------------------------------------------------

  /** Three tasks without objects on two workers, the second of which may run the second task
      only. */
  ghost function ThreeTasks(): Code<int> {
    Code(Program([map[], map[], map[]], 0, t => 0, 2, w => t => w == 0 || t == 1), (t, k, seen) => Skip)
  }

  // All frames go to the list of worker 0; worker 1 takes the second before the third arrives.
  ghost function LosingLabels(): seq<Label> {
    [DropGuard(0, 0), DropGuard(1, 0), Start(1, 0, 1), DropGuard(2, 0)]
  }

  ghost function Losing(k: nat): State<int>
    requires k <= 4
  {
    var guarded: Frame<int> := Fresh();
    var ready := guarded.(guard := false, incoming := 0);
    var running := ready.(started := true);
    var idle: Queue<nat> := EmptyQueue();
    if k == 0 then State([guarded, guarded, guarded], [], [idle, idle], {}, [])
    else if k == 1 then State([ready, guarded, guarded], [], [Queue([0], true), idle], {}, [])
    else if k == 2 then State([ready, ready, guarded], [], [Queue([0, 1], true), idle], {}, [])
    else if k == 3 then State([ready, running, guarded], [], [Queue([0], false), idle], {}, [])
    else State([ready, running, ready], [], [Queue([0], false), idle], {2}, [])
  }

  lemma LosingStart()
    ensures Losing(0) == InitState(ThreeTasks().prog, [])
  {
    var s := InitState<int>(ThreeTasks().prog, []);
    assert s.frames == Losing(0).frames && s.metas == [] && s.lists == Losing(0).lists;
  }

  // The guard of `t` is dropped, and the frame goes to the list of worker 0.
  lemma LosingDrop(k: nat, t: nat)
    requires (k == 0 && t == 0) || (k == 1 && t == 1) || (k == 3 && t == 2)
    ensures Enabled(ThreeTasks(), Losing(k), DropGuard(t, 0))
    ensures Next(ThreeTasks(), Losing(k), DropGuard(t, 0)) == Losing(k + 1)
  {
    var s := Losing(k);
    assert LastCount(s.frames[t], t) == [t];
    assert SetOf([t]) == {t};
    assert Unguarded(s, t, 0).frames == Losing(k + 1).frames;
    assert Publish(s.lists[0], [t]) == Losing(k + 1).lists[0];
    assert Unguarded(s, t, 0).lists == Losing(k + 1).lists;
  }

  // Worker 1 takes the second of two frames.
  lemma LosingTake()
    ensures Enabled(ThreeTasks(), Losing(2), Start(1, 0, 1))
    ensures Next(ThreeTasks(), Losing(2), Start(1, 0, 1)) == Losing(3)
  {
    var c, s := ThreeTasks(), Losing(2);
    assert FirstMatch([0, 1], c.prog.fits(1)) == 1 by {
      assert !c.prog.fits(1)(0) && c.prog.fits(1)(1);
    }
    assert CutAt([0, 1], 1) == [0];
    var s' := Next(c, s, Start(1, 0, 1));
    assert s'.lists[0] == Queue([0], false);
    assert s'.frames == Losing(3).frames && s'.lists == Losing(3).lists;
  }

  lemma LosingStep(k: nat)
    requires k < 4
    ensures Enabled(ThreeTasks(), Losing(k), LosingLabels()[k])
    ensures Losing(k + 1) == Next(ThreeTasks(), Losing(k), LosingLabels()[k])
  {
    if k == 2 {
      LosingTake();
    } else {
      LosingDrop(k, if k < 2 then k else 2);
    }
  }

  /** There is a run that loses a frame although every frame may run on some worker. */
  lemma LosingIsRun()
    ensures IsRun(ThreeTasks(), [], seq(5, k requires 0 <= k < 5 => Losing(k)), LosingLabels())
    ensures Losing(4).lost == {2}
  {
    var states := seq(5, k requires 0 <= k < 5 => Losing(k));
    LosingStart();
    forall k | 0 <= k < 4
      ensures Enabled(ThreeTasks(), states[k], LosingLabels()[k])
      ensures states[k + 1] == Next(ThreeTasks(), states[k], LosingLabels()[k]) {
      LosingStep(k);
    }
  }

  /** However that run goes on, the third task never starts and the program is never finished. */
  lemma LosingRun(states: seq<State<int>>, labels: seq<Label>, i: nat)
    requires IsRun(ThreeTasks(), [], states, labels) && 4 <= i < |states|
    requires labels[..4] == LosingLabels()
    ensures Runnable(ThreeTasks().prog) && BodiesOk(ThreeTasks())
    ensures |states[i].frames| == 3 && !Finished(ThreeTasks().prog, states[i], 2)
  {
    LosingPrefix(states, labels, 4);
    LostForEver(ThreeTasks(), [], states, labels, 4, i, 2);
    RunInv(ThreeTasks(), [], states, labels, i);
    forall t: nat | t < 3 ensures HasWorker(ThreeTasks().prog, t) {
      assert MayRun(ThreeTasks().prog, 0, t);
    }
  }

  lemma {:induction false} LosingPrefix(states: seq<State<int>>, labels: seq<Label>, k: nat)
    requires IsRun(ThreeTasks(), [], states, labels) && k <= 4 < |states| && labels[..4] == LosingLabels()
    ensures states[k] == Losing(k)
  {
    LosingStart();
    if k > 0 {
      LosingPrefix(states, labels, k - 1);
      LosingStep(k - 1);
      assert labels[k - 1] == labels[..4][k - 1];
    }
  }
}
