/** Serial equivalence: whatever the interleaving, every task of the dataflow engine reads
    what it would read in the serial program, and a finished run leaves the serial store. */
module SerialEquivalence {
  import opened ObjMetadata
  import opened ObjectProtocol
  import opened Dataflow
  import opened DataflowTheorems
  import opened LostFrames

  // Only the two access entry points of the runtime are used.
  ghost predicate ReadsAndWrites(p: Program) {
    forall t: nat, o: nat :: Names(p, t, o) ==> p.tasks[t][o] == READ || p.tasks[t][o] == WRITE
  }

  predicate Writer(p: Program, t: nat, o: nat) {
    Names(p, t, o) && p.tasks[t][o] != READ
  }

  // The store and the values read after the first `k` steps of the body of `t`, run alone.
  ghost function Alone<V>(c: Code<V>, t: nat, store: seq<V>, k: nat): (r: (seq<V>, seq<V>))
    ensures |r.0| == |store|
  {
    if k == 0 then (store, [])
    else
      var (st, seen) := Alone(c, t, store, k - 1);
      Perform(c.access(t, k - 1, seen), st, seen)
  }

  // The store after the first `n` tasks have run one after the other.
  ghost function Serial<V>(c: Code<V>, store: seq<V>, n: nat): (st: seq<V>)
    ensures |st| == |store|
  {
    if n == 0 then store else Alone(c, n - 1, Serial(c, store, n - 1), c.prog.length(n - 1)).0
  }

  // A body changes only what its task may write.
  lemma {:induction false} AloneKeeps<V(!new)>(c: Code<V>, t: nat, store: seq<V>, k: nat, o: nat)
    requires BodiesOk(c) && t < |c.prog.tasks| && k <= c.prog.length(t) && o < |store| && !Writer(c.prog, t, o)
    ensures Alone(c, t, store, k).0[o] == store[o]
  {
    if k > 0 {
      AloneKeeps(c, t, store, k - 1, o);
      assert Allowed(c.prog, t, c.access(t, k - 1, Alone(c, t, store, k - 1).1));
    }
  }

  // Tasks that do not write `o`, or do nothing, leave it alone.
  lemma {:induction false} SerialStable<V(!new)>(c: Code<V>, store: seq<V>, i: nat, k: nat, o: nat)
    requires BodiesOk(c) && i <= k <= |c.prog.tasks| && o < |store|
    requires forall w: nat :: i <= w < k && Writer(c.prog, w, o) ==> c.prog.length(w) == 0
    ensures Serial(c, store, k)[o] == Serial(c, store, i)[o]
  {
    if i < k {
      SerialStable(c, store, i, k - 1, o);
      if !Writer(c.prog, k - 1, o) {
        AloneKeeps(c, k - 1, Serial(c, store, k - 1), c.prog.length(k - 1), o);
      }
    }
  }

  // The earlier writers of `o` have finished their bodies and the later ones have not begun.
  ghost predicate Frontier<V>(p: Program, frames: seq<Frame<V>>, o: nat, t: nat)
    requires |frames| == |p.tasks|
  {
    && (forall w: nat :: w < t && w < |frames| && Writer(p, w, o) ==> frames[w].pc == p.length(w))
    && (forall w: nat :: t < w < |frames| && Writer(p, w, o) ==> frames[w].pc == 0)
  }

  // The value of `o` when the serial program has come as far in task `t` as the run has.
  ghost function Reached<V>(c: Code<V>, store: seq<V>, frames: seq<Frame<V>>, o: nat, t: nat): V
    requires o < |store| && t <= |frames|
  {
    if t == |frames| then Serial(c, store, t)[o] else Alone(c, t, Serial(c, store, t), frames[t].pc).0[o]
  }

  ghost predicate SeenOk<V>(c: Code<V>, store: seq<V>, frames: seq<Frame<V>>) {
    forall t: nat :: t < |frames| ==> frames[t].seen == Alone(c, t, Serial(c, store, t), frames[t].pc).1
  }

  ghost predicate StoreOk<V>(c: Code<V>, store: seq<V>, frames: seq<Frame<V>>, now: seq<V>)
    requires |store| == |now| && |frames| == |c.prog.tasks|
  {
    forall o: nat, t: nat :: o < |now| && t <= |frames| && Frontier(c.prog, frames, o, t) ==>
      now[o] == Reached(c, store, frames, o, t)
  }

  /** The values of the run so far are those of the serial program. */
  ghost predicate ValuesOk<V>(c: Code<V>, store: seq<V>, s: State<V>) {
    && Consistent(c.prog, s)
    && |store| == |s.store| == c.prog.objs && |s.frames| == |c.prog.tasks|
    && SeenOk(c, store, s.frames)
    && StoreOk(c, store, s.frames, s.store)
  }

  // The order that holds at every state between tasks in conflict.
  ghost predicate InOrder<V>(p: Program, frames: seq<Frame<V>>, o: nat, a: nat, b: nat)
    requires |frames| == |p.tasks|
  {
    a < b < |frames| && Conflict(p, a, b, o) && frames[b].started ==> o in frames[a].released
  }

  lemma ConflictOrder<V>(p: Program, s: State<V>, fs: seq<Fifo<nat>>, o: nat, a: nat, b: nat)
    requires Inv(p, s, fs)
    ensures InOrder(p, s.frames, o, a, b)
  {
    if a < b < |s.frames| && Conflict(p, a, b, o) && s.frames[b].started {
      StartedThrough(p, s, fs, b, o);
      ObjectAt(p, s.frames, s.metas, fs, o);
    }
  }

  // A task that has released something has finished its body; one that has not started has not begun it.
  lemma FrameProgress<V>(p: Program, f: Frame<V>, t: nat, blocked: set<nat>, o: nat)
    requires t < |p.tasks| && FrameOk(p, f, t, blocked)
    ensures o in f.released ==> f.pc == p.length(t)
    ensures !f.started ==> f.pc == 0
  {
  }

  /** While a task has not finished its body, the earlier writers of each of its objects have
      finished theirs and the later ones have not begun. */
  lemma BodyFrontier<V>(p: Program, s: State<V>, t: nat, o: nat)
    requires ReadsAndWrites(p) && Consistent(p, s) && |s.frames| == |p.tasks|
    requires Names(p, t, o) && s.frames[t].started && s.frames[t].pc < p.length(t)
    ensures Frontier(p, s.frames, o, t)
  {
    var fs :| Inv(p, s, fs);
    FrameAt(p, s, fs, t);
    FrameProgress(p, s.frames[t], t, Blocked(fs, t), o);
    forall w: nat | w < |s.frames| && w != t && Writer(p, w, o)
      ensures s.frames[w].pc == if w < t then p.length(w) else 0 {
      FrameAt(p, s, fs, w);
      FrameProgress(p, s.frames[w], w, Blocked(fs, w), o);
      ConflictOrder(p, s, fs, o, w, t);
      ConflictOrder(p, s, fs, o, t, w);
    }
  }

  // ---------------------------------------------------------------------------
  // Steps keep the values
  // ---------------------------------------------------------------------------

  lemma SameFrontier<V>(p: Program, frames: seq<Frame<V>>, frames': seq<Frame<V>>, o: nat, t: nat)
    requires |frames| == |frames'| == |p.tasks|
    requires forall w: nat :: w < |frames| && w != t && Writer(p, w, o) ==> frames'[w].pc == frames[w].pc
    ensures Frontier(p, frames', o, t) <==> Frontier(p, frames, o, t)
  {
  }

  lemma SameBodies<V>(c: Code<V>, s: State<V>, l: Label)
    requires Enabled(c, s, l) && !l.Body?
    ensures |Next(c, s, l).frames| == |s.frames| && Next(c, s, l).store == s.store
    ensures forall t: nat :: t < |s.frames| ==>
              Next(c, s, l).frames[t].pc == s.frames[t].pc && Next(c, s, l).frames[t].seen == s.frames[t].seen
  {
    if l.Release? {
      ReleaseNext(c, s, l.t, l.o, l.w, Wakeup(s.metas[l.o]).1);
      forall t: nat | t < |s.frames|
        ensures Next(c, s, l).frames[t].pc == s.frames[t].pc && Next(c, s, l).frames[t].seen == s.frames[t].seen {
        GrantKeepsGuards(s.frames[l.t := s.frames[l.t].(released := s.frames[l.t].released + {l.o})], [],
                         Wakeup(s.metas[l.o]).1, t);
      }
    }
  }

  lemma QuietStore<V>(c: Code<V>, store: seq<V>, frames: seq<Frame<V>>, frames': seq<Frame<V>>, now: seq<V>)
    requires |store| == |now| && |frames| == |frames'| == |c.prog.tasks| && StoreOk(c, store, frames, now)
    requires forall t: nat :: t < |frames| ==> frames'[t].pc == frames[t].pc
    ensures StoreOk(c, store, frames', now)
  {
    forall o: nat, t: nat | o < |now| && t <= |frames'| && Frontier(c.prog, frames', o, t)
      ensures now[o] == Reached(c, store, frames', o, t) {
      SameFrontier(c.prog, frames, frames', o, t);
    }
  }

  // Steps outside bodies.
  lemma QuietKeeps<V>(c: Code<V>, store: seq<V>, s: State<V>, l: Label)
    requires ValuesOk(c, store, s) && Enabled(c, s, l) && !l.Body?
    ensures ValuesOk(c, store, Next(c, s, l))
  {
    StepConsistent(c, s, l);
    SameBodies(c, s, l);
    QuietStore(c, store, s.frames, Next(c, s, l).frames, s.store);
  }

  /** A step of a body reads what the serial body reads there and leaves in the objects of its
      task what the serial body leaves there. */
  lemma BodyAgrees<V(!new)>(c: Code<V>, store: seq<V>, s: State<V>, t: nat, o: nat)
    requires ReadsAndWrites(c.prog) && BodiesOk(c) && ValuesOk(c, store, s) && Enabled(c, s, Body(t))
    ensures var f := s.frames[t];
            var (now, seen) := Perform(c.access(t, f.pc, f.seen), s.store, f.seen);
            && seen == Alone(c, t, Serial(c, store, t), f.pc + 1).1
            && (Names(c.prog, t, o) && o < c.prog.objs ==> now[o] == Alone(c, t, Serial(c, store, t), f.pc + 1).0[o])
  {
    var f := s.frames[t];
    var a := c.access(t, f.pc, f.seen);
    if Names(c.prog, t, o) && o < c.prog.objs {
      BodyFrontier(c.prog, s, t, o);
      assert s.store[o] == Reached(c, store, s.frames, o, t);
    }
    if a.Get? {
      BodyFrontier(c.prog, s, t, a.o);
      assert s.store[a.o] == Reached(c, store, s.frames, a.o, t);
    }
  }

  // Another task that is at the frontier of `o` when `t`, a writer of `o`, has taken a step: `t` has
  // finished, and nothing has happened to `o` since.
  lemma FrontierPassed<V(!new)>(c: Code<V>, store: seq<V>, frames: seq<Frame<V>>, o: nat, t: nat, u: nat)
    requires BodiesOk(c) && |frames| == |c.prog.tasks| && o < |store| && t < |frames| && u <= |frames| && u != t
    requires Writer(c.prog, t, o) && frames[t].pc > 0 && Frontier(c.prog, frames, o, t) && Frontier(c.prog, frames, o, u)
    requires u < |frames| ==> frames[u].pc <= c.prog.length(u)
    ensures frames[t].pc == c.prog.length(t)
    ensures Reached(c, store, frames, o, u) == Alone(c, t, Serial(c, store, t), frames[t].pc).0[o]
  {
    assert t < u;
    assert Serial(c, store, t + 1) == Alone(c, t, Serial(c, store, t), c.prog.length(t)).0;
    SerialStable(c, store, t + 1, u, o);
    if u < |frames| && !Writer(c.prog, u, o) {
      AloneKeeps(c, u, Serial(c, store, u), frames[u].pc, o);
    }
  }

  lemma BodyKeepsFrame<V>(p: Program, s: State<V>, u: nat)
    requires Consistent(p, s) && u < |s.frames|
    ensures |s.frames| == |p.tasks| && s.frames[u].pc <= p.length(u)
  {
    var fs :| Inv(p, s, fs);
    FrameAt(p, s, fs, u);
  }

  // A body writes to an object only if its task is a writer of it.
  lemma NotWritten<V>(c: Code<V>, s: State<V>, t: nat, o: nat)
    requires Enabled(c, s, Body(t)) && o < |s.store| && !Writer(c.prog, t, o)
    ensures Next(c, s, Body(t)).store[o] == s.store[o]
  {
  }

  lemma BodyNext<V>(c: Code<V>, s: State<V>, t: nat)
    requires Enabled(c, s, Body(t))
    ensures var f, s' := s.frames[t], Next(c, s, Body(t));
            var (now, seen) := Perform(c.access(t, f.pc, f.seen), s.store, f.seen);
            s'.frames == s.frames[t := f.(pc := f.pc + 1, seen := seen)] && s'.store == now && |s'.store| == |s.store|
  {
  }

  // What the step leaves in `o`, seen from the task `t` itself ...
  lemma OwnStore<V(!new)>(c: Code<V>, store: seq<V>, s: State<V>, t: nat, o: nat)
    requires ReadsAndWrites(c.prog) && BodiesOk(c) && ValuesOk(c, store, s) && Enabled(c, s, Body(t))
    requires o < |s.store| && Frontier(c.prog, Next(c, s, Body(t)).frames, o, t)
    ensures Next(c, s, Body(t)).store[o] == Alone(c, t, Serial(c, store, t), s.frames[t].pc + 1).0[o]
  {
    BodyNext(c, s, t);
    if Names(c.prog, t, o) {
      BodyAgrees(c, store, s, t, o);
    } else {
      NotWritten(c, s, t, o);
      SameFrontier(c.prog, s.frames, Next(c, s, Body(t)).frames, o, t);
      assert s.store[o] == Reached(c, store, s.frames, o, t);
      AloneKeeps(c, t, Serial(c, store, t), s.frames[t].pc, o);
      AloneKeeps(c, t, Serial(c, store, t), s.frames[t].pc + 1, o);
    }
  }

  // ... from another task, when `t` is a writer of `o` ...
  lemma WrittenStore<V(!new)>(c: Code<V>, store: seq<V>, s: State<V>, frames: seq<Frame<V>>, t: nat, o: nat, u: nat)
    requires ReadsAndWrites(c.prog) && BodiesOk(c) && ValuesOk(c, store, s) && Enabled(c, s, Body(t))
    requires frames == Next(c, s, Body(t)).frames && |frames| == |s.frames|
    requires o < |s.store| && u <= |frames| && u != t && Writer(c.prog, t, o) && Frontier(c.prog, frames, o, u)
    ensures Alone(c, t, Serial(c, store, t), s.frames[t].pc + 1).0[o] == Reached(c, store, frames, o, u)
  {
    BodyNext(c, s, t);
    BodyFrontier(c.prog, s, t, o);
    SameFrontier(c.prog, s.frames, frames, o, t);
    if u < |s.frames| {
      BodyKeepsFrame(c.prog, s, u);
    }
    FrontierPassed(c, store, frames, o, t, u);
  }

  // ... and when it is not.
  lemma OtherStore<V>(c: Code<V>, store: seq<V>, s: State<V>, frames: seq<Frame<V>>, t: nat, o: nat, u: nat)
    requires ValuesOk(c, store, s) && |frames| == |s.frames| && t < |frames| && frames == s.frames[t := frames[t]]
    requires o < |s.store| && u <= |frames| && u != t && !Writer(c.prog, t, o) && Frontier(c.prog, frames, o, u)
    ensures s.store[o] == Reached(c, store, frames, o, u)
  {
    SameFrontier(c.prog, s.frames, frames, o, u);
    assert s.store[o] == Reached(c, store, s.frames, o, u);
  }

  lemma BodyStore<V(!new)>(c: Code<V>, store: seq<V>, s: State<V>, frames: seq<Frame<V>>, t: nat, o: nat, u: nat)
    requires ReadsAndWrites(c.prog) && BodiesOk(c) && ValuesOk(c, store, s) && Enabled(c, s, Body(t))
    requires frames == Next(c, s, Body(t)).frames && |frames| == |s.frames|
    requires o < |s.store| && u <= |frames| && Frontier(c.prog, frames, o, u)
    ensures Next(c, s, Body(t)).store[o] == Reached(c, store, frames, o, u)
  {
    BodyNext(c, s, t);
    if u == t {
      OwnStore(c, store, s, t, o);
    } else if Writer(c.prog, t, o) {
      BodyAgrees(c, store, s, t, o);
      WrittenStore(c, store, s, frames, t, o, u);
    } else {
      NotWritten(c, s, t, o);
      OtherStore(c, store, s, frames, t, o, u);
    }
  }

  lemma BodySeen<V(!new)>(c: Code<V>, store: seq<V>, s: State<V>, t: nat)
    requires ReadsAndWrites(c.prog) && BodiesOk(c) && ValuesOk(c, store, s) && Enabled(c, s, Body(t))
    ensures SeenOk(c, store, Next(c, s, Body(t)).frames)
  {
    BodyNext(c, s, t);
    BodyAgrees(c, store, s, t, 0);
  }

  lemma BodyKeepsValues<V(!new)>(c: Code<V>, store: seq<V>, s: State<V>, t: nat)
    requires ReadsAndWrites(c.prog) && BodiesOk(c)
    requires ValuesOk(c, store, s) && Enabled(c, s, Body(t))
    ensures ValuesOk(c, store, Next(c, s, Body(t)))
  {
    var s' := Next(c, s, Body(t));
    StepConsistent(c, s, Body(t));
    BodyNext(c, s, t);
    BodySeen(c, store, s, t);
    forall o: nat, u: nat | o < |s'.store| && u <= |s'.frames| && Frontier(c.prog, s'.frames, o, u)
      ensures s'.store[o] == Reached(c, store, s'.frames, o, u) {
      BodyStore(c, store, s, s'.frames, t, o, u);
    }
  }

  lemma StepKeepsValues<V(!new)>(c: Code<V>, store: seq<V>, s: State<V>, l: Label)
    requires ReadsAndWrites(c.prog) && BodiesOk(c)
    requires ValuesOk(c, store, s) && Enabled(c, s, l)
    ensures ValuesOk(c, store, Next(c, s, l))
  {
    if l.Body? {
      BodyKeepsValues(c, store, s, l.t);
    } else {
      QuietKeeps(c, store, s, l);
    }
  }

  lemma InitValues<V(!new)>(c: Code<V>, store: seq<V>)
    requires ProgramOk(c.prog) && |store| == c.prog.objs && BodiesOk(c)
    ensures ValuesOk(c, store, InitState(c.prog, store))
  {
    var s := InitState(c.prog, store);
    InitInv(c.prog, store);
    forall o: nat, t: nat | o < c.prog.objs && t <= |s.frames| && Frontier(c.prog, s.frames, o, t)
      ensures s.store[o] == Reached(c, store, s.frames, o, t) {
      SerialStable(c, store, 0, t, o);
    }
  }

  lemma RunValues<V(!new)>(c: Code<V>, store: seq<V>, states: seq<State<V>>, labels: seq<Label>, i: nat)
    requires ProgramOk(c.prog) && |store| == c.prog.objs && ReadsAndWrites(c.prog) && BodiesOk(c)
    requires IsRun(c, store, states, labels) && i < |states|
    ensures ValuesOk(c, store, states[i])
  {
    InitValues(c, store);
    forall k | 0 <= k < i && ValuesOk(c, store, states[k]) && Enabled(c, states[k], labels[k])
      ensures ValuesOk(c, store, states[k + 1]) {
      StepKeepsValues(c, store, states[k], labels[k]);
    }
    RunInduction(c, store, states, labels, 0, i, s => ValuesOk(c, store, s));
  }

  /** In every run, the values a task has read so far are those that its body reads in the
      serial program up to the same step, however the steps of different tasks were interleaved. */
  lemma SerialInputs<V(!new)>(c: Code<V>, store: seq<V>, states: seq<State<V>>, labels: seq<Label>, i: nat, t: nat)
    requires ProgramOk(c.prog) && |store| == c.prog.objs && ReadsAndWrites(c.prog) && BodiesOk(c)
    requires IsRun(c, store, states, labels) && i < |states| && t < |c.prog.tasks|
    ensures |states[i].frames| == |c.prog.tasks|
    ensures states[i].frames[t].seen == Alone(c, t, Serial(c, store, t), states[i].frames[t].pc).1
  {
    RunValues(c, store, states, labels, i);
  }

  /** Once every task is finished, the store is exactly that of the serial program. */
  lemma SerialStore<V(!new)>(c: Code<V>, store: seq<V>, states: seq<State<V>>, labels: seq<Label>, i: nat)
    requires ProgramOk(c.prog) && |store| == c.prog.objs && ReadsAndWrites(c.prog) && BodiesOk(c)
    requires IsRun(c, store, states, labels) && i < |states|
    requires |states[i].frames| == |c.prog.tasks|
    requires forall t: nat :: t < |c.prog.tasks| ==> Finished(c.prog, states[i], t)
    ensures states[i].store == Serial(c, store, |c.prog.tasks|)
  {
    var s, n := states[i], |c.prog.tasks|;
    RunValues(c, store, states, labels, i);
    forall o: nat | o < c.prog.objs ensures s.store[o] == Serial(c, store, n)[o] {
      forall w: nat | w < n && Writer(c.prog, w, o) ensures s.frames[w].pc == c.prog.length(w) {
        assert Finished(c.prog, s, w);
      }
      assert Frontier(c.prog, s.frames, o, n);
    }
  }

  /** If every worker may run every frame, every run that cannot continue has left exactly the
      store of the serial program. */
  lemma SerialResult<V(!new)>(c: Code<V>, store: seq<V>, states: seq<State<V>>, labels: seq<Label>, i: nat)
    requires ProgramOk(c.prog) && |store| == c.prog.objs && ReadsAndWrites(c.prog) && BodiesOk(c)
    requires Unrestricted(c.prog) && c.prog.workers > 0
    requires IsRun(c, store, states, labels) && i < |states|
    requires forall l :: !Enabled(c, states[i], l)
    ensures states[i].store == Serial(c, store, |c.prog.tasks|)
  {
    AllFinish(c, store, states, labels, i);
    SerialStore(c, store, states, labels, i);
  }
}
