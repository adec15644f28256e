/** What every run of the dataflow engine guarantees. */
module DataflowTheorems {
  import opened ObjMetadata
  import opened ObjectProtocol
  import opened Dataflow
  import opened ReadyQueues
  import opened Sequences

  // What holds at first and is kept by every step holds all along a run.
  lemma {:induction false} RunInduction<V>(c: Code<V>, store: seq<V>, states: seq<State<V>>, labels: seq<Label>,
                                           from: nat, i: nat, P: State<V> -> bool)
    requires IsRun(c, store, states, labels) && from <= i < |states|
    requires P(states[from])
    requires forall k :: from <= k < i && P(states[k]) && Enabled(c, states[k], labels[k]) ==> P(states[k + 1])
    ensures P(states[i])
  {
    if from < i {
      RunInduction(c, store, states, labels, from, i - 1, P);
    }
  }

  // Some queues of generations explain the state.
  ghost predicate Consistent<V>(p: Program, s: State<V>) {
    exists fs :: Inv(p, s, fs)
  }

  lemma StepConsistent<V>(c: Code<V>, s: State<V>, l: Label)
    requires Consistent(c.prog, s) && Enabled(c, s, l)
    ensures Consistent(c.prog, Next(c, s, l))
  {
    var fs :| Inv(c.prog, s, fs);
    StepKeeps(c, s, fs, l);
  }

  /** Every state of a run has consistent metadata, frames and ready list. */
  lemma {:induction false} RunInv<V>(c: Code<V>, store: seq<V>, states: seq<State<V>>, labels: seq<Label>, i: nat)
    requires ProgramOk(c.prog) && |store| == c.prog.objs
    requires IsRun(c, store, states, labels) && i < |states|
    ensures Consistent(c.prog, states[i])
  {
    InitInv(c.prog, store);
    forall k | 0 <= k < i && Consistent(c.prog, states[k]) && Enabled(c, states[k], labels[k])
      ensures Consistent(c.prog, states[k + 1]) {
      StepConsistent(c, states[k], labels[k]);
    }
    RunInduction(c, store, states, labels, 0, i, s => Consistent(c.prog, s));
  }

  // ---------------------------------------------------------------------------
  // Conflict safety
  // ---------------------------------------------------------------------------

  // `t` stands in the list of object `o`.
  predicate Waits<V>(s: State<V>, o: nat, t: nat)
    requires o < |s.metas|
  {
    t in TasksOf(s.metas[o].tasks)
  }

  // `t` was granted object `o` and has not given it up.
  predicate Holds<V>(s: State<V>, o: nat, t: nat)
    requires o < |s.metas|
  {
    t < |s.frames| && o in s.frames[t].issued && !Waits(s, o, t) && o !in s.frames[t].released
  }

  lemma {:induction false} TasksOfAppend(a: seq<Node<nat>>, b: seq<Node<nat>>)
    ensures TasksOf(a + b) == TasksOf(a) + TasksOf(b)
  {
    var l, r := TasksOf(a + b), TasksOf(a) + TasksOf(b);
    assert forall i :: 0 <= i < |l| ==> l[i] == r[i];
  }

  lemma {:induction false} TasksOfEncode(w: seq<Gen<nat>>)
    ensures TasksOf(EncodeList(w)) == Flat(w)
  {
    if w != [] {
      TasksOfEncode(w[1..]);
      TasksOfMark(w[0].tasks, |w| > 1);
      TasksOfAppend(Mark(w[0].tasks, |w| > 1), EncodeList(w[1..]));
    }
  }

  lemma InvWaits<V>(p: Program, s: State<V>, fs: seq<Fifo<nat>>, o: nat)
    requires Inv(p, s, fs) && o < p.objs
    ensures TasksOf(s.metas[o].tasks) == Flat(fs[o].waiting)
    ensures forall t: nat :: Holds(s, o, t) <==> t in fs[o].running
    ensures OrderOk(p, o, Flat(fs[o].waiting), fs[o].running, fs[o].group, IssuedBy(s.frames, o), ReleasedBy(s.frames, o))
    ensures FifoOk(fs[o])
  {
    ObjectAt(p, s.frames, s.metas, fs, o);
    TasksOfEncode(fs[o].waiting);
    forall t: nat ensures Holds(s, o, t) <==> t in fs[o].running {
      assert t in fs[o].running <==> Through(Flat(fs[o].waiting), IssuedBy(s.frames, o), t) && t !in ReleasedBy(s.frames, o);
    }
  }

  /** Conflict safety. In every state of every run, tasks that hold an object together are
      compatible (all readers, or all of one other shared group, or one writer), and no
      task has started while an earlier task in conflict with it has not released. */
  lemma ConflictSafety<V>(c: Code<V>, store: seq<V>, states: seq<State<V>>, labels: seq<Label>, i: nat, o: nat,
                          a: nat, b: nat)
    requires ProgramOk(c.prog) && |store| == c.prog.objs && o < c.prog.objs && a < b < |c.prog.tasks|
    requires IsRun(c, store, states, labels) && i < |states|
    requires Conflict(c.prog, a, b, o)
    ensures |states[i].frames| == |c.prog.tasks| && |states[i].metas| == c.prog.objs
    ensures !(Holds(states[i], o, a) && Holds(states[i], o, b))
    ensures states[i].frames[b].started ==> o in states[i].frames[a].released
  {
    RunInv(c, store, states, labels, i);
    var s := states[i];
    var fs :| Inv(c.prog, s, fs);
    InvWaits(c.prog, s, fs, o);
    HoldersCompatible(fs[o], a, b);
    if s.frames[b].started {
      StartedThrough(c.prog, s, fs, b, o);
    }
  }

  lemma HoldersCompatible(f: Fifo<nat>, a: nat, b: nat)
    requires FifoOk(f) && a != b
    ensures a in f.running && b in f.running ==> f.group != WRITE
  {
    if a in f.running && b in f.running {
      SubsetSize({a, b}, f.running);
    }
  }

  lemma SubsetSize(a: set<nat>, b: set<nat>)
    requires a <= b
    ensures |a| <= |b|
  {
    assert |b - a| == |b| - |a|;
  }

  // A started task got each of its objects.
  lemma StartedThrough<V>(p: Program, s: State<V>, fs: seq<Fifo<nat>>, t: nat, o: nat)
    requires Inv(p, s, fs) && Names(p, t, o) && s.frames[t].started
    ensures o < |fs| && Through(Flat(fs[o].waiting), IssuedBy(s.frames, o), t)
  {
    FrameAt(p, s, fs, t);
    assert o < |fs|;
    assert Blocked(fs, t) == {};
    BlockedUpdate(fs, o, fs[o], t);
  }

  // ---------------------------------------------------------------------------
  // Exactly-once release
  // ---------------------------------------------------------------------------

  // The objects in whose lists `t` stands.
  ghost function WaitsOn<V>(s: State<V>, t: nat): set<nat> {
    set o: nat | o < |s.metas| && Waits(s, o, t)
  }

  lemma WaitsOnBlocked<V>(p: Program, s: State<V>, fs: seq<Fifo<nat>>, t: nat)
    requires Inv(p, s, fs)
    ensures WaitsOn(s, t) == Blocked(fs, t)
  {
    forall o: nat ensures o in WaitsOn(s, t) <==> o in Blocked(fs, t) {
      if o < |fs| {
        InvWaits(p, s, fs, o);
      }
    }
  }

  // `t` has been published: it is on a ready list, or would be if it had not been lost.
  ghost predicate Published<V>(s: State<V>, t: nat) {
    Listed(s.lists, t) || t in s.lost
  }

  /** The counter of a frame is its undropped issue guard plus the number of objects it is
      queued on, and the frame is published, in one place only, exactly from the moment the
      counter is zero until it starts. */
  lemma CounterExact<V>(c: Code<V>, store: seq<V>, states: seq<State<V>>, labels: seq<Label>, i: nat, t: nat)
    requires ProgramOk(c.prog) && |store| == c.prog.objs && t < |c.prog.tasks|
    requires IsRun(c, store, states, labels) && i < |states|
    ensures |states[i].frames| == |c.prog.tasks|
    ensures states[i].frames[t].incoming == (if states[i].frames[t].guard then 1 else 0) + |WaitsOn(states[i], t)|
    ensures Published(states[i], t) <==> states[i].frames[t].incoming == 0 && !states[i].frames[t].started
    ensures states[i].frames[t].started ==> states[i].frames[t].incoming == 0
    ensures forall v: nat, w: nat :: OnList(states[i].lists, v, t) && OnList(states[i].lists, w, t) ==> v == w
    ensures forall w: nat :: OnList(states[i].lists, w, t) ==> Distinct(states[i].lists[w].frames) && t !in states[i].lost
  {
    RunInv(c, store, states, labels, i);
    var fs :| Inv(c.prog, states[i], fs);
    WaitsOnBlocked(c.prog, states[i], fs, t);
    FrameAt(c.prog, states[i], fs, t);
    PublishedExact(c.prog, states[i], fs, t);
  }

  lemma PublishedExact<V>(p: Program, s: State<V>, fs: seq<Fifo<nat>>, t: nat)
    requires Inv(p, s, fs)
    ensures Published(s, t) <==> Waiting(s.frames, t)
    ensures forall v: nat, w: nat :: OnList(s.lists, v, t) && OnList(s.lists, w, t) ==> v == w
    ensures forall w: nat :: OnList(s.lists, w, t) ==> Distinct(s.lists[w].frames) && t !in s.lost
  {
    ReadyMeans(s.frames, s.lists, s.lost);
  }

  // The release loop leaves the frames it does not visit alone.
  lemma {:induction false} GrantOthers<V>(frames: seq<Frame<V>>, ready: seq<nat>, rel: seq<nat>, t: nat)
    requires forall i :: 0 <= i < |rel| ==> rel[i] < |frames|
    requires t < |frames| && t !in rel
    ensures Grant(frames, ready, rel).0[t] == frames[t]
    decreases rel
  {
    if rel != [] {
      var f := frames[rel[0]];
      GrantOthers(frames[rel[0] := f.(incoming := f.incoming - 1)],
                  if f.incoming == 1 then ready + [rel[0]] else ready, rel[1..], t);
    }
  }

  lemma ZeroFrame<V>(p: Program, f: Frame<V>, t: nat, blocked: set<nat>)
    requires t < |p.tasks| && FrameOk(p, f, t, blocked) && f.incoming == 0
    ensures !f.guard && f.issued == p.tasks[t].Keys && blocked == {}
  {
  }

  // A task that waits for nothing is not released.
  lemma NotReleased<V>(p: Program, s: State<V>, fs: seq<Fifo<nat>>, u: nat, o: nat, t: nat)
    requires Inv(p, s, fs) && Names(p, u, o) && s.frames[u].started && o !in s.frames[u].released
    requires Blocked(fs, t) == {}
    ensures o < |s.metas| && t !in Wakeup(s.metas[o]).1
  {
    StartedRuns(p, s, fs, u, o);
    ReleaseObjects(p, s, fs, u, o, s.frames[u].(released := s.frames[u].released + {o}));
    ReleaseFrame(fs, u, o, t);
  }

  lemma ReleaseStaysZero<V>(c: Code<V>, s: State<V>, fs: seq<Fifo<nat>>, u: nat, o: nat, w: nat, t: nat)
    requires Inv(c.prog, s, fs) && Enabled(c, s, Release(u, o, w)) && t < |s.frames|
    requires s.frames[t].incoming == 0 && Blocked(fs, t) == {}
    ensures Next(c, s, Release(u, o, w)).frames[t].incoming == 0
  {
    var rel := Wakeup(s.metas[o]).1;
    NotReleased(c.prog, s, fs, u, o, t);
    ReleaseNext(c, s, u, o, w, rel);
    GrantOthers(s.frames[u := s.frames[u].(released := s.frames[u].released + {o})], [], rel, t);
  }

  lemma CountStaysZero<V>(c: Code<V>, s: State<V>, fs: seq<Fifo<nat>>, l: Label, t: nat)
    requires Inv(c.prog, s, fs) && Enabled(c, s, l) && t < |s.frames|
    requires s.frames[t].incoming == 0
    ensures |Next(c, s, l).frames| == |s.frames| && Next(c, s, l).frames[t].incoming == 0
  {
    FrameAt(c.prog, s, fs, t);
    ZeroFrame(c.prog, s.frames[t], t, Blocked(fs, t));
    if l.Release? {
      ReleaseStaysZero(c, s, fs, l.t, l.o, l.w, t);
    }
  }

  lemma {:induction false} GrantKeepsGuards<V>(frames: seq<Frame<V>>, ready: seq<nat>, rel: seq<nat>, t: nat)
    requires forall i :: 0 <= i < |rel| ==> rel[i] < |frames|
    requires t < |frames|
    ensures exists k :: Grant(frames, ready, rel).0[t] == frames[t].(incoming := k)
    decreases rel
  {
    if rel == [] {
      assert Grant(frames, ready, rel).0[t] == frames[t].(incoming := frames[t].incoming);
    } else {
      var f := frames[rel[0]];
      GrantKeepsGuards(frames[rel[0] := f.(incoming := f.incoming - 1)],
                       if f.incoming == 1 then ready + [rel[0]] else ready, rel[1..], t);
    }
  }

  // Step `i` of a run publishes `t`.
  ghost predicate Enters<V>(states: seq<State<V>>, i: nat, t: nat)
    requires i + 1 < |states|
  {
    !Published(states[i], t) && Published(states[i + 1], t)
  }

  ghost predicate CountZero<V>(p: Program, s: State<V>, t: nat) {
    Consistent(p, s) && t < |s.frames| == |p.tasks| && s.frames[t].incoming == 0
  }

  lemma CountZeroStep<V>(c: Code<V>, s: State<V>, l: Label, t: nat)
    requires CountZero(c.prog, s, t) && Enabled(c, s, l)
    ensures CountZero(c.prog, Next(c, s, l), t)
  {
    var fs :| Inv(c.prog, s, fs);
    StepKeeps(c, s, fs, l);
    CountStaysZero(c, s, fs, l, t);
  }

  lemma ZeroForEver<V>(c: Code<V>, store: seq<V>, states: seq<State<V>>, labels: seq<Label>, i: nat, j: nat, t: nat)
    requires IsRun(c, store, states, labels) && i <= j < |states|
    requires CountZero(c.prog, states[i], t)
    ensures CountZero(c.prog, states[j], t)
  {
    forall k | i <= k < j && CountZero(c.prog, states[k], t) && Enabled(c, states[k], labels[k])
      ensures CountZero(c.prog, states[k + 1], t) {
      CountZeroStep(c, states[k], labels[k], t);
    }
    RunInduction(c, store, states, labels, i, j, s => CountZero(c.prog, s, t));
  }

  /** No frame is published twice: in no run do two steps both put `t` on a ready list. */
  lemma EntersOnce<V>(c: Code<V>, store: seq<V>, states: seq<State<V>>, labels: seq<Label>, i: nat, j: nat, t: nat)
    requires ProgramOk(c.prog) && |store| == c.prog.objs && t < |c.prog.tasks|
    requires IsRun(c, store, states, labels) && i < j < |labels|
    ensures !(Enters(states, i, t) && Enters(states, j, t))
  {
    if Enters(states, i, t) && Enters(states, j, t) {
      CounterExact(c, store, states, labels, i + 1, t);
      RunInv(c, store, states, labels, i + 1);
      ZeroForEver(c, store, states, labels, i + 1, j, t);
      CounterExact(c, store, states, labels, j, t);
      CounterExact(c, store, states, labels, j + 1, t);
      if states[j].frames[t].started {
        StartedStays(c, states[j], labels[j], t);
      }
    }
  }

  lemma StartedStays<V>(c: Code<V>, s: State<V>, l: Label, t: nat)
    requires Enabled(c, s, l) && t < |s.frames| && s.frames[t].started
    ensures |Next(c, s, l).frames| == |s.frames| && Next(c, s, l).frames[t].started
  {
    if l.Release? {
      GrantKeepsGuards(s.frames[l.t := s.frames[l.t].(released := s.frames[l.t].released + {l.o})], [],
                       Wakeup(s.metas[l.o]).1, t);
    }
  }

  // ---------------------------------------------------------------------------
  // Progress, termination, quiescence
  // ---------------------------------------------------------------------------

  lemma StepOfIssue<V>(c: Code<V>, s: State<V>, fs: seq<Fifo<nat>>, t: nat)
    requires Inv(c.prog, s, fs) && t < |c.prog.tasks| && !AllIssued(c.prog, s, t)
    requires forall u: nat :: u < t ==> AllIssued(c.prog, s, u)
    ensures exists l :: Enabled(c, s, l)
  {
    InvShape(c.prog, s, fs);
    FrameAt(c.prog, s, fs, t);
    var o :| o in c.prog.tasks[t].Keys && o !in s.frames[t].issued;
    assert Names(c.prog, t, o);
    assert Enabled(c, s, Issue(t, o));
  }

  // Every body keeps to the objects that its task names.
  ghost predicate BodiesOk<V(!new)>(c: Code<V>) {
    forall t: nat, k: nat, seen: seq<V> {:trigger c.access(t, k, seen)} ::
      t < |c.prog.tasks| && k < c.prog.length(t) ==> Allowed(c.prog, t, c.access(t, k, seen))
  }

  // Worker `w` may run task `t`.
  predicate MayRun(p: Program, w: nat, t: nat) {
    w < p.workers && p.fits(w)(t)
  }

  // There are workers, and every frame may run on one of them.
  ghost predicate Runnable(p: Program) {
    p.workers > 0 && forall t: nat :: t < |p.tasks| ==> HasWorker(p, t)
  }

  ghost predicate HasWorker(p: Program, t: nat) {
    exists w: nat :: MayRun(p, w, t)
  }

  lemma StepOfStarted<V(!new)>(c: Code<V>, s: State<V>, fs: seq<Fifo<nat>>, t: nat)
    requires BodiesOk(c) && c.prog.workers > 0
    requires Inv(c.prog, s, fs) && t < |c.prog.tasks| && s.frames[t].started && !Finished(c.prog, s, t)
    ensures exists l :: Enabled(c, s, l)
  {
    InvShape(c.prog, s, fs);
    FrameAt(c.prog, s, fs, t);
    var f := s.frames[t];
    if f.pc < c.prog.length(t) {
      assert Enabled(c, s, Body(t));
    } else {
      var o :| o in c.prog.tasks[t].Keys && o !in f.released;
      assert Names(c.prog, t, o);
      assert Enabled(c, s, Release(t, o, 0));
    }
  }

  // A task waits only for earlier ones that have not released.
  lemma NotWaiting<V>(p: Program, s: State<V>, fs: seq<Fifo<nat>>, t: nat, o: nat)
    requires Inv(p, s, fs) && o < |fs|
    requires forall u: nat :: u < t && u < |s.frames| && Names(p, u, o) ==> o in s.frames[u].released
    ensures t !in Flat(fs[o].waiting)
  {
    ObjectAt(p, s.frames, s.metas, fs, o);
    var f := fs[o];
    assert forall u: nat :: t in Flat(f.waiting) ==> u !in f.running;
    assert t in Flat(f.waiting) ==> f.running == {};
  }

  lemma LeastIssues<V>(c: Code<V>, s: State<V>, fs: seq<Fifo<nat>>, t: nat)
    requires Inv(c.prog, s, fs) && t < |c.prog.tasks| && !AllIssued(c.prog, s, t)
    requires forall u: nat :: u < t ==> Finished(c.prog, s, u)
    ensures exists l :: Enabled(c, s, l)
  {
    forall u: nat | u < t ensures AllIssued(c.prog, s, u) {
      assert Finished(c.prog, s, u);
      FrameAt(c.prog, s, fs, u);
    }
    StepOfIssue(c, s, fs, t);
  }

  lemma LeastWaits<V>(p: Program, s: State<V>, fs: seq<Fifo<nat>>, t: nat)
    requires Inv(p, s, fs) && t < |p.tasks| && !s.frames[t].guard && !s.frames[t].started
    requires forall u: nat :: u < t ==> Finished(p, s, u)
    ensures Waiting(s.frames, t)
  {
    forall o: nat | o < |fs| ensures o !in Blocked(fs, t) {
      forall u: nat | u < t && u < |s.frames| && Names(p, u, o) ensures o in s.frames[u].released {
        assert Finished(p, s, u);
      }
      NotWaiting(p, s, fs, t, o);
    }
    assert Blocked(fs, t) == {};
    FrameAt(p, s, fs, t);
  }

  // A worker that may run a frame of a list finds one in it.
  lemma StepOfListed<V>(c: Code<V>, s: State<V>, fs: seq<Fifo<nat>>, t: nat)
    requires Inv(c.prog, s, fs) && Runnable(c.prog) && t < |c.prog.tasks| && Listed(s.lists, t)
    ensures exists l :: Enabled(c, s, l)
  {
    InvShape(c.prog, s, fs);
    var v: nat :| OnList(s.lists, v, t);
    assert HasWorker(c.prog, t);
    var w: nat :| MayRun(c.prog, w, t);
    var q := s.lists[v].frames;
    var k := FirstMatch(q, c.prog.fits(w));
    var i :| 0 <= i < |q| && q[i] == t;
    assert k <= i;
    PublishedExact(c.prog, s, fs, q[k]);
    assert OnList(s.lists, v, q[k]);
    assert Enabled(c, s, Start(q[k], v, w));
  }

  lemma LeastUnfinishedMoves<V(!new)>(c: Code<V>, s: State<V>, fs: seq<Fifo<nat>>, t: nat)
    requires BodiesOk(c) && Runnable(c.prog) && s.lost == {}
    requires Inv(c.prog, s, fs) && t < |c.prog.tasks| && !Finished(c.prog, s, t)
    requires forall u: nat :: u < t ==> Finished(c.prog, s, u)
    ensures exists l :: Enabled(c, s, l)
  {
    InvShape(c.prog, s, fs);
    if !AllIssued(c.prog, s, t) {
      LeastIssues(c, s, fs, t);
    } else if s.frames[t].guard {
      assert Enabled(c, s, DropGuard(t, 0));
    } else if s.frames[t].started {
      StepOfStarted(c, s, fs, t);
    } else {
      LeastWaits(c.prog, s, fs, t);
      PublishedExact(c.prog, s, fs, t);
      StepOfListed(c, s, fs, t);
    }
  }

  lemma {:induction false} LeastUnfinished<V>(p: Program, s: State<V>, t: nat) returns (m: nat)
    requires t < |p.tasks| == |s.frames| && !Finished(p, s, t)
    ensures m <= t && !Finished(p, s, m) && forall u: nat :: u < m ==> Finished(p, s, u)
  {
    if u: nat :| u < t && !Finished(p, s, u) {
      m := LeastUnfinished(p, s, u);
    } else {
      m := t;
    }
  }

  /** No deadlock unless a frame has been lost: while some task is unfinished and no frame
      has been appended to a list whose tail was wrong, some step is enabled. */
  lemma Progress<V(!new)>(c: Code<V>, store: seq<V>, states: seq<State<V>>, labels: seq<Label>, i: nat, t: nat)
    requires ProgramOk(c.prog) && |store| == c.prog.objs && BodiesOk(c) && Runnable(c.prog) && t < |c.prog.tasks|
    requires IsRun(c, store, states, labels) && i < |states| && states[i].lost == {}
    requires |states[i].frames| == |c.prog.tasks| && !Finished(c.prog, states[i], t)
    ensures exists l :: Enabled(c, states[i], l)
  {
    RunInv(c, store, states, labels, i);
    var fs :| Inv(c.prog, states[i], fs);
    var m := LeastUnfinished(c.prog, states[i], t);
    LeastUnfinishedMoves(c, states[i], fs, m);
  }

  // The steps task `t` has still to take.
  ghost function FrameWork<V>(p: Program, f: Frame<V>, t: nat): int
    requires t < |p.tasks|
  {
    (|p.tasks[t].Keys| - |f.issued|) + (if f.guard then 1 else 0) + (if f.started then 0 else 1)
    + (p.length(t) - f.pc) + (|p.tasks[t].Keys| - |f.released|)
  }

  // The steps the first `n` tasks have still to take.
  ghost function Work<V>(p: Program, frames: seq<Frame<V>>, n: nat): int
    requires n <= |frames| == |p.tasks|
  {
    if n == 0 then 0 else Work(p, frames, n - 1) + FrameWork(p, frames[n - 1], n - 1)
  }

  lemma {:induction false} WorkUpdate<V>(p: Program, frames: seq<Frame<V>>, frames': seq<Frame<V>>, t: nat, n: nat)
    requires n <= |frames| == |frames'| == |p.tasks| && t < |frames|
    requires forall u: nat :: u < |frames| && u != t ==> FrameWork(p, frames'[u], u) == FrameWork(p, frames[u], u)
    requires FrameWork(p, frames'[t], t) == FrameWork(p, frames[t], t) - 1
    ensures Work(p, frames', n) == if t < n then Work(p, frames, n) - 1 else Work(p, frames, n)
  {
    if n > 0 {
      WorkUpdate(p, frames, frames', t, n - 1);
    }
  }

  // What a step does to the work of the frames.
  ghost predicate OneStep<V>(p: Program, frames: seq<Frame<V>>, frames': seq<Frame<V>>, t: nat)
    requires |frames| == |p.tasks| && t < |frames|
  {
    && |frames'| == |frames|
    && FrameWork(p, frames'[t], t) == FrameWork(p, frames[t], t) - 1
    && (forall u: nat :: u < |frames| && u != t ==> FrameWork(p, frames'[u], u) == FrameWork(p, frames[u], u))
  }

  lemma GrantCosts<V>(p: Program, frames: seq<Frame<V>>, ready: seq<nat>, rel: seq<nat>)
    requires |frames| == |p.tasks| && forall i :: 0 <= i < |rel| ==> rel[i] < |frames|
    ensures forall u: nat :: u < |frames| ==> FrameWork(p, Grant(frames, ready, rel).0[u], u) == FrameWork(p, frames[u], u)
  {
    forall u: nat | u < |frames| ensures FrameWork(p, Grant(frames, ready, rel).0[u], u) == FrameWork(p, frames[u], u) {
      GrantKeepsGuards(frames, ready, rel, u);
    }
  }

  lemma MarkReleased<V>(p: Program, frames: seq<Frame<V>>, t: nat, o: nat)
    requires |frames| == |p.tasks| && t < |frames| && o !in frames[t].released
    ensures OneStep(p, frames, frames[t := frames[t].(released := frames[t].released + {o})], t)
  {
  }

  lemma ReleaseCosts<V>(c: Code<V>, s: State<V>, t: nat, o: nat, w: nat)
    requires Enabled(c, s, Release(t, o, w))
    ensures OneStep(c.prog, s.frames, Next(c, s, Release(t, o, w)).frames, t)
  {
    MarkReleased(c.prog, s.frames, t, o);
    ReleaseNext(c, s, t, o, w, Wakeup(s.metas[o]).1);
    GrantCosts(c.prog, s.frames[t := s.frames[t].(released := s.frames[t].released + {o})], [], Wakeup(s.metas[o]).1);
  }

  lemma LocalCosts<V>(c: Code<V>, s: State<V>, l: Label)
    requires Enabled(c, s, l) && !l.Release? && !l.Start?
    ensures OneStep(c.prog, s.frames, Next(c, s, l).frames, l.t)
  {
  }

  lemma StartCosts<V>(c: Code<V>, s: State<V>, fs: seq<Fifo<nat>>, t: nat, v: nat, w: nat)
    requires Enabled(c, s, Start(t, v, w)) && Inv(c.prog, s, fs)
    ensures OneStep(c.prog, s.frames, Next(c, s, Start(t, v, w)).frames, t)
  {
    assert OnList(s.lists, v, t);
    PublishedExact(c.prog, s, fs, t);
  }

  /** Every step takes exactly one unit of the remaining work. */
  lemma StepCosts<V>(c: Code<V>, s: State<V>, l: Label)
    requires Consistent(c.prog, s) && Enabled(c, s, l)
    ensures |Next(c, s, l).frames| == |s.frames| == |c.prog.tasks|
    ensures Work(c.prog, Next(c, s, l).frames, |c.prog.tasks|) == Work(c.prog, s.frames, |c.prog.tasks|) - 1
  {
    match l {
      case Release(t, o, w) => ReleaseCosts(c, s, t, o, w);
      case Start(t, v, w) =>
        var fs :| Inv(c.prog, s, fs);
        StartCosts(c, s, fs, t, v, w);
      case _ => LocalCosts(c, s, l);
    }
    WorkUpdate(c.prog, s.frames, Next(c, s, l).frames, l.t, |s.frames|);
  }

  lemma FrameWorkNonneg<V>(p: Program, f: Frame<V>, t: nat, blocked: set<nat>)
    requires t < |p.tasks| && FrameOk(p, f, t, blocked)
    ensures FrameWork(p, f, t) >= 0
  {
    SubsetSize(f.issued, p.tasks[t].Keys);
    SubsetSize(f.released, p.tasks[t].Keys);
  }

  lemma {:induction false} WorkNonneg<V>(p: Program, frames: seq<Frame<V>>, fs: seq<Fifo<nat>>, n: nat)
    requires n <= |p.tasks| == |frames| && FramesOk(p, frames, fs)
    ensures Work(p, frames, n) >= 0
  {
    if n > 0 {
      var t := n - 1;
      WorkNonneg(p, frames, fs, t);
      FrameWorkNonneg(p, frames[t], t, Blocked(fs, t));
    }
  }

  lemma WorkLeft<V>(p: Program, s: State<V>)
    requires Consistent(p, s)
    ensures |s.frames| == |p.tasks| && Work(p, s.frames, |p.tasks|) >= 0
  {
    var fs :| Inv(p, s, fs);
    WorkNonneg(p, s.frames, fs, |p.tasks|);
  }

  // The steps a state has still to take.
  ghost function Left<V>(p: Program, s: State<V>): int {
    if |s.frames| == |p.tasks| then Work(p, s.frames, |p.tasks|) else -1
  }

  lemma RunStepCosts<V>(c: Code<V>, store: seq<V>, states: seq<State<V>>, labels: seq<Label>, i: nat)
    requires ProgramOk(c.prog) && |store| == c.prog.objs
    requires IsRun(c, store, states, labels) && i < |labels|
    ensures Left(c.prog, states[i + 1]) == Left(c.prog, states[i]) - 1
  {
    RunInv(c, store, states, labels, i);
    StepCosts(c, states[i], labels[i]);
  }

  lemma {:induction false} CountDown(w: seq<int>, i: nat)
    requires i < |w| && forall k :: 0 <= k < |w| - 1 ==> w[k + 1] == w[k] - 1
    ensures w[i] == w[0] - i
  {
    if i > 0 {
      CountDown(w, i - 1);
    }
  }

  /** Every run stops: its length is the work done, hence at most the work of the program. */
  lemma RunLength<V>(c: Code<V>, store: seq<V>, states: seq<State<V>>, labels: seq<Label>, i: nat)
    requires ProgramOk(c.prog) && |store| == c.prog.objs
    requires IsRun(c, store, states, labels) && i < |states|
    ensures i == Left(c.prog, states[0]) - Left(c.prog, states[i])
    ensures 0 <= i <= Left(c.prog, states[0])
  {
    var w := seq(|states|, k requires 0 <= k < |states| => Left(c.prog, states[k]));
    forall k | 0 <= k < |w| - 1 ensures w[k + 1] == w[k] - 1 {
      RunStepCosts(c, store, states, labels, k);
    }
    CountDown(w, i);
    RunInv(c, store, states, labels, i);
    WorkLeft(c.prog, states[i]);
  }

  /** Quiescence: a run that cannot continue has finished every task if and only if it has lost
      no frame; then every object is back in its initial state (nothing running, no generation,
      group EMPTY, empty list) and every ready list is empty. */
  lemma Quiescence<V(!new)>(c: Code<V>, store: seq<V>, states: seq<State<V>>, labels: seq<Label>, i: nat)
    requires ProgramOk(c.prog) && |store| == c.prog.objs && BodiesOk(c) && Runnable(c.prog)
    requires IsRun(c, store, states, labels) && i < |states|
    requires forall l :: !Enabled(c, states[i], l)
    ensures |states[i].frames| == |c.prog.tasks| && |states[i].metas| == c.prog.objs
    ensures (forall t: nat :: t < |c.prog.tasks| ==> Finished(c.prog, states[i], t)) <==> states[i].lost == {}
    ensures states[i].lost == {} ==> forall o: nat :: o < c.prog.objs ==> states[i].metas[o] == Init()
    ensures states[i].lost == {} ==> forall t: nat :: !Published(states[i], t)
  {
    RunInv(c, store, states, labels, i);
    var s := states[i];
    var fs :| Inv(c.prog, s, fs);
    if s.lost == {} {
      forall t: nat | t < |c.prog.tasks| ensures Finished(c.prog, s, t) {
        if !Finished(c.prog, s, t) {
          Progress(c, store, states, labels, i, t);
        }
      }
      AllDone(c.prog, s, fs);
    } else {
      var t :| t in s.lost;
      PublishedExact(c.prog, s, fs, t);
      assert !Finished(c.prog, s, t);
    }
  }

  // Everything is as it was at the start once every task is finished.
  lemma AllDone<V>(p: Program, s: State<V>, fs: seq<Fifo<nat>>)
    requires Inv(p, s, fs) && forall t: nat :: t < |p.tasks| ==> Finished(p, s, t)
    ensures forall o: nat :: o < p.objs ==> s.metas[o] == Init()
    ensures forall t: nat :: !Published(s, t)
  {
    forall o: nat | o < p.objs ensures s.metas[o] == Init() {
      ObjectAt(p, s.frames, s.metas, fs, o);
      forall t: nat ensures t in IssuedBy(s.frames, o) <==> t in ReleasedBy(s.frames, o) {
        if t < |s.frames| {
          assert Finished(p, s, t);
          FrameAt(p, s, fs, t);
        }
      }
      assert IssuedBy(s.frames, o) == ReleasedBy(s.frames, o);
      ObjQuiescent(p, o, s.metas[o], fs[o], IssuedBy(s.frames, o));
    }
    forall t: nat ensures !Published(s, t) {
      PublishedExact(p, s, fs, t);
      assert t < |s.frames| ==> Finished(p, s, t);
    }
  }
}
