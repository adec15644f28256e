/** The dataflow engine as a labelled step system. A program is a sequence of tasks in
    program order; each names objects with access groups. Every critical section of the
    runtime is one step, and steps of different tasks interleave freely.
 */
module Dataflow {
  import opened ObjMetadata
  import opened ObjectProtocol
  import opened ReadyQueues
  import opened Sequences
  import opened Unfolding

  // One step of a body: it reads an object, writes a value to one, or computes.
  datatype Access<V> = Get(o: nat) | Put(o: nat, v: V) | Skip

  /** A program and its bodies: `access(t, k, seen)` is step `k` of the body of task `t` that has
      read the values `seen` so far. What it does may depend on all of them. */
  datatype Code<!V> = Code(prog: Program, access: (nat, nat, seq<V>) -> Access<V>)

  /** A pending frame: the accesses issued so far, whether the issue guard is still held, the
      counter of unresolved dependences, and how far its body has come. */
  datatype Frame<V> = Frame(issued: set<nat>, guard: bool, incoming: int, started: bool, pc: nat, seen: seq<V>,
                            released: set<nat>)

  /** `lists` are the ready lists of the workers; the frames in `lost` have been appended behind a
      tail that had been left outside its list. */
  datatype State<V> = State(frames: seq<Frame<V>>, metas: seq<Meta<nat>>, lists: seq<Queue<nat>>, lost: set<nat>,
                            store: seq<V>)

  datatype Label =
    | Issue(t: nat, o: nat)            // add_task on one object
    | DropGuard(t: nat, w: nat)        // all accesses issued: drop the initial count; worker `w` gets the frame
    | Start(t: nat, v: nat, w: nat)    // worker `w` takes it from the ready list of worker `v`
    | Body(t: nat)                     // one step of the body
    | Release(t: nat, o: nat, w: nat)  // wakeup on one object, after the body, on worker `w`

  function Fresh<V>(): Frame<V> {
    Frame({}, true, 1, false, 0, [], {})
  }

  function InitState<V>(p: Program, store: seq<V>): State<V> {
    State(seq(|p.tasks|, _ => Fresh()), seq(p.objs, _ => Init()), seq(p.workers, _ => EmptyQueue()), {}, store)
  }

  predicate AllIssued<V>(p: Program, s: State<V>, t: nat)
    requires t < |p.tasks| == |s.frames|
  {
    s.frames[t].issued == p.tasks[t].Keys
  }

  // The body is over.
  predicate BodyDone<V>(p: Program, s: State<V>, t: nat)
    requires t < |p.tasks| == |s.frames|
  {
    s.frames[t].started && s.frames[t].pc == p.length(t)
  }

  predicate Finished<V>(p: Program, s: State<V>, t: nat)
    requires t < |p.tasks| == |s.frames|
  {
    BodyDone(p, s, t) && s.frames[t].released == p.tasks[t].Keys
  }

  // A body reads the objects that its task names, and writes those that it does not only read.
  predicate Allowed<V>(p: Program, t: nat, a: Access<V>) {
    match a
    case Get(o) => Names(p, t, o) && o < p.objs
    case Put(o, _) => Names(p, t, o) && o < p.objs && p.tasks[t][o] != READ
    case Skip => true
  }

  // The store and the values read after an access.
  function Perform<V>(a: Access<V>, store: seq<V>, seen: seq<V>): (r: (seq<V>, seq<V>))
    ensures |r.0| == |store|
  {
    match a
    case Get(o) => (store, if o < |store| then seen + [store[o]] else seen)
    case Put(o, v) => (if o < |store| then store[o := v] else store, seen)
    case Skip => (store, seen)
  }

  /** A write changes exactly its object, to the value written; a read adds the value of its object to
      what has been read, behind all the rest. */
  lemma PerformEffect<V>(a: Access<V>, store: seq<V>, seen: seq<V>)
    ensures var (store', seen') := Perform(a, store, seen);
            && |store'| == |store|
            && (a.Put? && a.o < |store| ==> store'[a.o] == a.v && seen' == seen)
            && (forall o: nat :: o < |store| && !(a.Put? && a.o == o) ==> store'[o] == store[o])
            && (a.Get? && a.o < |store| ==>
                  |seen'| == |seen| + 1 && seen'[..|seen|] == seen && seen'[|seen|] == store[a.o])
            && (a.Skip? ==> store' == store && seen' == seen)
  {
  }

  // Pointers point somewhere.
  ghost predicate Shape<V>(p: Program, s: State<V>) {
    && |s.frames| == |p.tasks| && |s.metas| == p.objs && |s.lists| == p.workers && |s.store| == p.objs
    && forall o, i :: 0 <= o < |s.metas| && 0 <= i < |s.metas[o].tasks| ==> s.metas[o].tasks[i].task < |p.tasks|
  }

  // Worker `w` finds `t` in the list `q`.
  predicate Finds(p: Program, q: Queue<nat>, w: nat, t: nat) {
    var k := FirstMatch(q.frames, p.fits(w));
    k < |q.frames| && q.frames[k] == t
  }

  ghost predicate Enabled<V>(c: Code<V>, s: State<V>, l: Label) {
    && Shape(c.prog, s) && l.t < |c.prog.tasks|
    && var p, f := c.prog, s.frames[l.t];
       match l
       case Issue(t, o) =>
         Names(p, t, o) && o < p.objs && o !in f.issued && forall u: nat :: u < t ==> AllIssued(p, s, u)
       case DropGuard(t, w) => f.guard && AllIssued(p, s, t) && w < p.workers
       case Start(t, v, w) => v < p.workers && w < p.workers && Finds(p, s.lists[v], w, t)
       case Body(t) => f.started && f.pc < p.length(t) && Allowed(p, t, c.access(t, f.pc, f.seen))
       case Release(t, o, w) => BodyDone(p, s, t) && Names(p, t, o) && o < p.objs && o !in f.released && w < p.workers
  }

  // The loop that releases a generation: count down, and gather the frames that reach zero.
  function Grant<V>(frames: seq<Frame<V>>, ready: seq<nat>, rel: seq<nat>): (r: (seq<Frame<V>>, seq<nat>))
    requires forall i :: 0 <= i < |rel| ==> rel[i] < |frames|
    ensures |r.0| == |frames|
    decreases rel
  {
    if rel == [] then (frames, ready)
    else
      var f := frames[rel[0]];
      Grant(frames[rel[0] := f.(incoming := f.incoming - 1)],
            if f.incoming == 1 then ready + [rel[0]] else ready,
            rel[1..])
  }

  // The state after the frames `ts` have been appended to the ready list of worker `w`.
  ghost function PublishAt<V>(s: State<V>, w: nat, ts: seq<nat>): State<V>
    requires w < |s.lists|
  {
    s.(lists := s.lists[w := Publish(s.lists[w], ts)], lost := s.lost + Lost(s.lists[w], ts))
  }

  // The frame if its count is about to reach zero.
  function LastCount<V>(f: Frame<V>, t: nat): seq<nat> {
    if f.incoming == 1 then [t] else []
  }

  // The state after the guard of `t` has been dropped on behalf of worker `w`.
  ghost function Unguarded<V>(s: State<V>, t: nat, w: nat): State<V>
    requires t < |s.frames| && w < |s.lists|
  {
    var f := s.frames[t];
    PublishAt(s.(frames := s.frames[t := f.(guard := false, incoming := f.incoming - 1)]), w, LastCount(f, t))
  }

  ghost function Next<V>(c: Code<V>, s: State<V>, l: Label): State<V>
    requires Enabled(c, s, l)
  {
    var p, f := c.prog, s.frames[l.t];
    match l
    case Issue(t, o) =>
      var (m, ready) := AddTask(s.metas[o], t, p.tasks[t][o]);
      s.(frames := s.frames[t := f.(issued := f.issued + {o},
                                    incoming := if ready then f.incoming else f.incoming + 1)],
         metas := s.metas[o := m])
    case DropGuard(t, w) => Unguarded(s, t, w)
    case Start(t, v, w) =>
      s.(frames := s.frames[t := f.(started := true)],
         lists := s.lists[v := Take(s.lists[v], FirstMatch(s.lists[v].frames, p.fits(w)))])
    case Body(t) =>
      var (store, seen) := Perform(c.access(t, f.pc, f.seen), s.store, f.seen);
      s.(frames := s.frames[t := f.(pc := f.pc + 1, seen := seen)], store := store)
    case Release(t, o, w) =>
      var (m, rel) := Wakeup(s.metas[o]);
      var (frames, ready) := Grant(s.frames[t := f.(released := f.released + {o})], [], rel);
      PublishAt(s.(frames := frames, metas := s.metas[o := m]), w, ready)
  }

  // `states` is a run from the initial store, step `i` being `labels[i]`.
  ghost predicate IsRun<V>(c: Code<V>, store: seq<V>, states: seq<State<V>>, labels: seq<Label>) {
    && |states| == |labels| + 1
    && states[0] == InitState(c.prog, store)
    && forall i :: 0 <= i < |labels| ==>
         Enabled(c, states[i], labels[i]) && states[i + 1] == Next(c, states[i], labels[i])
  }

  // ---------------------------------------------------------------------------
  // Invariant
  // ---------------------------------------------------------------------------

  ghost function IssuedBy<V>(frames: seq<Frame<V>>, o: nat): set<nat> {
    set t: nat | t < |frames| && o in frames[t].issued
  }

  ghost function ReleasedBy<V>(frames: seq<Frame<V>>, o: nat): set<nat> {
    set t: nat | t < |frames| && o in frames[t].released
  }

  // The objects on which `t` still waits.
  ghost function Blocked(fs: seq<Fifo<nat>>, t: nat): set<nat> {
    set o: nat | o < |fs| && t in Flat(fs[o].waiting)
  }

  ghost predicate FrameOk<V>(p: Program, f: Frame<V>, t: nat, blocked: set<nat>)
    requires t < |p.tasks|
  {
    var a := p.tasks[t].Keys;
    && f.issued <= a && f.pc <= p.length(t) && f.released <= a
    && (!f.guard ==> f.issued == a)
    && (f.started ==> f.incoming == 0)
    && (f.pc > 0 ==> f.started)
    && (f.released != {} ==> f.started && f.pc == p.length(t))
    && f.incoming == (if f.guard then 1 else 0) + |blocked|
  }

  // The frame may start and has not.
  predicate Waiting<V>(frames: seq<Frame<V>>, t: nat) {
    t < |frames| && frames[t].incoming == 0 && !frames[t].started
  }

  // `t` is on the list of worker `w`.
  predicate OnList(lists: seq<Queue<nat>>, w: nat, t: nat) {
    w < |lists| && t in lists[w].frames
  }

  // `t` is on some list.
  ghost predicate Listed(lists: seq<Queue<nat>>, t: nat) {
    exists w: nat :: OnList(lists, w, t)
  }

  // The ready lists and the lost frames hold, once each, exactly the frames that may start and have not.
  ghost predicate ReadyExact<V>(frames: seq<Frame<V>>, lists: seq<Queue<nat>>, lost: set<nat>) {
    && (forall w :: 0 <= w < |lists| ==> Distinct(lists[w].frames))
    && (forall w: nat, t: nat {:trigger OnList(lists, w, t)} :: OnList(lists, w, t) ==> Waiting(frames, t) && t !in lost)
    && (forall v: nat, w: nat, t: nat {:trigger OnList(lists, v, t), OnList(lists, w, t)} ::
          OnList(lists, v, t) && OnList(lists, w, t) ==> v == w)
    && (forall t: nat :: t in lost ==> Waiting(frames, t))
    && (forall t: nat {:trigger Waiting(frames, t)} :: Waiting(frames, t) && t !in lost ==> Listed(lists, t))
  }

  ghost predicate ReadyOk<V>(frames: seq<Frame<V>>, lists: seq<Queue<nat>>, lost: set<nat>) {
    forall n: nat {:trigger Marker(lists, n)} :: Marker(lists, n) ==> ReadyExact(frames, lists, lost)
  }

  lemma ReadyMeans<V>(frames: seq<Frame<V>>, lists: seq<Queue<nat>>, lost: set<nat>)
    ensures ReadyOk(frames, lists, lost) <==> ReadyExact(frames, lists, lost)
  {
    assert Marker(lists, 0);
  }

  ghost predicate InProgramOrder<V>(p: Program, frames: seq<Frame<V>>)
    requires |frames| == |p.tasks|
  {
    forall u: nat, t: nat :: u < t < |frames| && frames[t].issued != {} ==> frames[u].issued == p.tasks[u].Keys
  }

  ghost predicate ObjectsOk<V>(p: Program, frames: seq<Frame<V>>, metas: seq<Meta<nat>>, fs: seq<Fifo<nat>>)
    requires |metas| == |fs|
  {
    forall o: nat :: o < |fs| ==> ObjOk(p, o, metas[o], fs[o], IssuedBy(frames, o), ReleasedBy(frames, o))
  }

  ghost predicate FramesOk<V>(p: Program, frames: seq<Frame<V>>, fs: seq<Fifo<nat>>)
    requires |frames| == |p.tasks|
  {
    forall t: nat :: t < |frames| ==> FrameOk(p, frames[t], t, Blocked(fs, t))
  }

  /** The invariant of every reachable state, `fs` being the queues of generations that
      the objects' metadata stand for. */
  ghost predicate Inv<V>(p: Program, s: State<V>, fs: seq<Fifo<nat>>) {
    && ProgramOk(p)
    && |s.frames| == |p.tasks| && |s.metas| == |fs| == p.objs && |s.lists| == p.workers && |s.store| == p.objs
    && ObjectsOk(p, s.frames, s.metas, fs)
    && FramesOk(p, s.frames, fs)
    && InProgramOrder(p, s.frames)
    && ReadyOk(s.frames, s.lists, s.lost)
  }

  // The generations after a step.
  ghost function NextFifos(p: Program, fs: seq<Fifo<nat>>, l: Label): seq<Fifo<nat>>
    requires l.t < |p.tasks|
    requires l.Issue? || l.Release? ==> l.o < |fs| && Names(p, l.t, l.o)
  {
    match l
    case Issue(t, o) => fs[o := FifoAdd(fs[o], t, p.tasks[t][o])]
    case Release(t, o, _) => fs[o := FifoRelease(fs[o], t)]
    case _ => fs
  }

  lemma {:induction false} EncodedTask(w: seq<Gen<nat>>, i: nat)
    requires i < |EncodeList(w)|
    ensures EncodeList(w)[i].task in Flat(w)
  {
    var a := Mark(w[0].tasks, |w| > 1);
    if i < |a| {
      assert EncodeList(w)[i] == a[i];
    } else {
      EncodedTask(w[1..], i - |a|);
    }
  }

  lemma InvShape<V>(p: Program, s: State<V>, fs: seq<Fifo<nat>>)
    requires Inv(p, s, fs)
    ensures Shape(p, s)
  {
    forall o, i | 0 <= o < |s.metas| && 0 <= i < |s.metas[o].tasks| ensures s.metas[o].tasks[i].task < |p.tasks| {
      assert ObjOk(p, o, s.metas[o], fs[o], IssuedBy(s.frames, o), ReleasedBy(s.frames, o));
      EncodedTask(fs[o].waiting, i);
    }
  }

  lemma InitInv<V>(p: Program, store: seq<V>)
    requires ProgramOk(p) && |store| == p.objs
    ensures Inv(p, InitState(p, store), seq(p.objs, _ => Idle()))
  {
    var s := InitState(p, store);
    var fs := seq(p.objs, _ => Idle<nat>());
    ReadyMeans(s.frames, s.lists, s.lost);
    forall o: nat | o < |fs|
      ensures ObjOk(p, o, s.metas[o], fs[o], IssuedBy(s.frames, o), ReleasedBy(s.frames, o)) {
      ObjInit(p, o);
      assert IssuedBy(s.frames, o) == {} && ReleasedBy(s.frames, o) == {};
    }
    forall t: nat | t < |s.frames| ensures FrameOk(p, s.frames[t], t, Blocked(fs, t)) {
      assert Blocked(fs, t) == {};
    }
  }

  // ---------------------------------------------------------------------------
  // Steps that touch no metadata
  // ---------------------------------------------------------------------------

  lemma SameObjects<V>(p: Program, frames: seq<Frame<V>>, t: nat, f: Frame<V>, metas: seq<Meta<nat>>, fs: seq<Fifo<nat>>)
    requires |metas| == |fs| && t < |frames| && ObjectsOk(p, frames, metas, fs)
    requires f.issued == frames[t].issued && f.released == frames[t].released
    ensures ObjectsOk(p, frames[t := f], metas, fs)
  {
    forall o: nat | o < |fs|
      ensures ObjOk(p, o, metas[o], fs[o], IssuedBy(frames[t := f], o), ReleasedBy(frames[t := f], o)) {
      assert IssuedBy(frames[t := f], o) == IssuedBy(frames, o);
      assert ReleasedBy(frames[t := f], o) == ReleasedBy(frames, o);
    }
  }

  lemma FramesUpdate<V>(p: Program, frames: seq<Frame<V>>, t: nat, f: Frame<V>, fs: seq<Fifo<nat>>)
    requires t < |frames| == |p.tasks|
    requires FramesOk(p, frames, fs)
    requires FrameOk(p, f, t, Blocked(fs, t))
    ensures FramesOk(p, frames[t := f], fs)
  {
  }

  // A frame that may start as little, or as much, as before.
  lemma ReadySame<V>(frames: seq<Frame<V>>, lists: seq<Queue<nat>>, lost: set<nat>, t: nat, f: Frame<V>)
    requires ReadyOk(frames, lists, lost) && t < |frames|
    requires f.incoming == 0 && !f.started <==> frames[t].incoming == 0 && !frames[t].started
    ensures ReadyOk(frames[t := f], lists, lost)
  {
    ReadyMeans(frames, lists, lost);
    ReadyMeans(frames[t := f], lists, lost);
    assert forall u: nat {:trigger Waiting(frames[t := f], u)} {:trigger Waiting(frames, u)} ::
        Waiting(frames[t := f], u) <==> Waiting(frames, u);
  }

  // The frames `ts`, and no others, may start from now on.
  ghost predicate Ripen<V>(frames: seq<Frame<V>>, frames': seq<Frame<V>>, ts: seq<nat>) {
    && Distinct(ts)
    && forall t: nat {:trigger Waiting(frames', t)} {:trigger Waiting(frames, t)} ::
         && (t in ts ==> !Waiting(frames, t))
         && (Waiting(frames', t) <==> Waiting(frames, t) || t in ts)
  }

  lemma OnPublished(lists: seq<Queue<nat>>, w: nat, ts: seq<nat>)
    requires w < |lists|
    ensures forall v: nat, t: nat {:trigger OnList(lists[w := Publish(lists[w], ts)], v, t)} ::
              OnList(lists[w := Publish(lists[w], ts)], v, t) <==>
              OnList(lists, v, t) || (v == w && t in ts && lists[w].attached)
  {
  }

  lemma DistinctAppend(s: seq<nat>, ts: seq<nat>)
    requires Distinct(s) && Distinct(ts) && forall t :: t in ts ==> t !in s
    ensures Distinct(s + ts)
  {
    forall i, j | 0 <= i < j < |s + ts| ensures (s + ts)[i] != (s + ts)[j] {
      if i < |s| <= j {
        assert ts[j - |s|] in ts;
      }
    }
  }

  // Nothing but the frames `ts` is added, to the list of worker `w` or to the lost ones.
  lemma ReadyPublish<V>(frames: seq<Frame<V>>, frames': seq<Frame<V>>, lists: seq<Queue<nat>>, lost: set<nat>, w: nat,
                        ts: seq<nat>)
    requires ReadyOk(frames, lists, lost) && Ripen(frames, frames', ts) && w < |lists|
    ensures ReadyOk(frames', lists[w := Publish(lists[w], ts)], lost + Lost(lists[w], ts))
  {
    var lists', lost' := lists[w := Publish(lists[w], ts)], lost + Lost(lists[w], ts);
    ReadyMeans(frames, lists, lost);
    ReadyMeans(frames', lists', lost');
    OnPublished(lists, w, ts);
    forall t | t in ts ensures t !in lists[w].frames {
      assert OnList(lists, w, t) ==> Waiting(frames, t);
    }
    DistinctAppend(lists[w].frames, ts);
    forall t: nat | Waiting(frames', t) && t !in lost' ensures Listed(lists', t) {
      if Waiting(frames, t) {
        var v: nat :| OnList(lists, v, t);
        assert OnList(lists', v, t);
      } else {
        assert OnList(lists', w, t);
      }
    }
  }

  // A frame is taken and started.
  lemma ReadyStart<V>(frames: seq<Frame<V>>, lists: seq<Queue<nat>>, lost: set<nat>, v: nat, k: nat, f: Frame<V>)
    requires ReadyOk(frames, lists, lost) && v < |lists| && k < |lists[v].frames| && f.started
    ensures lists[v].frames[k] < |frames|
    ensures ReadyOk(frames[lists[v].frames[k] := f], lists[v := Take(lists[v], k)], lost)
  {
    var t := lists[v].frames[k];
    ReadyMeans(frames, lists, lost);
    assert OnList(lists, v, t);
    CutMembers(lists[v].frames, k);
    var frames', lists' := frames[t := f], lists[v := Take(lists[v], k)];
    ReadyMeans(frames', lists', lost);
    forall w: nat, u: nat ensures OnList(lists', w, u) <==> OnList(lists, w, u) && u != t {
      if w == v {
        assert lists'[w].frames == CutAt(lists[v].frames, k);
      } else if u == t {
        assert OnList(lists, w, u) ==> OnList(lists, v, u);
      }
    }
    assert forall u: nat :: Waiting(frames', u) <==> Waiting(frames, u) && u != t;
    forall u: nat | Waiting(frames', u) && u !in lost ensures Listed(lists', u) {
      var w: nat :| OnList(lists, w, u);
      assert OnList(lists', w, u);
    }
  }

  lemma OrderSame<V>(p: Program, frames: seq<Frame<V>>, t: nat, f: Frame<V>)
    requires t < |frames| == |p.tasks| && InProgramOrder(p, frames) && f.issued == frames[t].issued
    ensures InProgramOrder(p, frames[t := f])
  {
  }

  // A step of task `t` that changes neither accesses nor metadata.
  lemma LocalStep<V>(p: Program, s: State<V>, fs: seq<Fifo<nat>>, t: nat, f: Frame<V>, lists: seq<Queue<nat>>,
                     lost: set<nat>, store: seq<V>)
    requires Inv(p, s, fs) && t < |p.tasks| && |store| == |s.store| && |lists| == |s.lists|
    requires f.issued == s.frames[t].issued && f.released == s.frames[t].released
    requires FrameOk(p, f, t, Blocked(fs, t))
    requires ReadyOk(s.frames[t := f], lists, lost)
    ensures Inv(p, State(s.frames[t := f], s.metas, lists, lost, store), fs)
  {
    SameObjects(p, s.frames, t, f, s.metas, fs);
    FramesUpdate(p, s.frames, t, f, fs);
    OrderSame(p, s.frames, t, f);
  }

  lemma FrameAt<V>(p: Program, s: State<V>, fs: seq<Fifo<nat>>, t: nat)
    requires |s.frames| == |p.tasks| && t < |p.tasks| && FramesOk(p, s.frames, fs)
    ensures FrameOk(p, s.frames[t], t, Blocked(fs, t))
  {
  }

  lemma DropGuardFrame<V>(p: Program, f: Frame<V>, t: nat, blocked: set<nat>)
    requires t < |p.tasks| && FrameOk(p, f, t, blocked) && f.guard && f.issued == p.tasks[t].Keys
    ensures FrameOk(p, f.(guard := false, incoming := f.incoming - 1), t, blocked)
    ensures f.incoming >= 1 && !f.started
  {
  }

  // A frame is counted down, and published if that was its last count.
  lemma ReadyCountDown<V>(frames: seq<Frame<V>>, lists: seq<Queue<nat>>, lost: set<nat>, t: nat, f: Frame<V>, w: nat,
                          ts: seq<nat>)
    requires ReadyOk(frames, lists, lost) && w < |lists| && t < |frames| && ts == LastCount(frames[t], t)
    requires frames[t].incoming >= 1 && f.incoming == frames[t].incoming - 1 && !f.started
    ensures ReadyOk(frames[t := f], lists[w := Publish(lists[w], ts)], lost + Lost(lists[w], ts))
  {
    assert forall u: nat :: u != t ==> (Waiting(frames[t := f], u) <==> Waiting(frames, u));
    ReadyPublish(frames, frames[t := f], lists, lost, w, ts);
  }

  lemma UnguardedInv<V>(p: Program, s: State<V>, fs: seq<Fifo<nat>>, t: nat, w: nat)
    requires Inv(p, s, fs) && t < |p.tasks| && w < p.workers && s.frames[t].guard && AllIssued(p, s, t)
    ensures Inv(p, Unguarded(s, t, w), fs)
  {
    var f := s.frames[t];
    var f' := f.(guard := false, incoming := f.incoming - 1);
    var ts := LastCount(f, t);
    FrameAt(p, s, fs, t);
    DropGuardFrame(p, f, t, Blocked(fs, t));
    ReadyCountDown(s.frames, s.lists, s.lost, t, f', w, ts);
    LocalStep(p, s, fs, t, f', s.lists[w := Publish(s.lists[w], ts)], s.lost + Lost(s.lists[w], ts), s.store);
  }

  lemma DropGuardKeeps<V>(c: Code<V>, s: State<V>, fs: seq<Fifo<nat>>, t: nat, w: nat)
    requires Inv(c.prog, s, fs) && Enabled(c, s, DropGuard(t, w))
    ensures Inv(c.prog, Next(c, s, DropGuard(t, w)), fs)
  {
    UnguardedInv(c.prog, s, fs, t, w);
  }

  lemma StartKeeps<V>(c: Code<V>, s: State<V>, fs: seq<Fifo<nat>>, t: nat, v: nat, w: nat)
    requires Inv(c.prog, s, fs) && Enabled(c, s, Start(t, v, w))
    ensures Inv(c.prog, Next(c, s, Start(t, v, w)), fs)
  {
    var k := FirstMatch(s.lists[v].frames, c.prog.fits(w));
    FrameAt(c.prog, s, fs, t);
    ReadyMeans(s.frames, s.lists, s.lost);
    assert OnList(s.lists, v, t);
    ReadyStart(s.frames, s.lists, s.lost, v, k, s.frames[t].(started := true));
    LocalStep(c.prog, s, fs, t, s.frames[t].(started := true), s.lists[v := Take(s.lists[v], k)], s.lost, s.store);
  }

  lemma BodyKeeps<V>(c: Code<V>, s: State<V>, fs: seq<Fifo<nat>>, t: nat)
    requires Inv(c.prog, s, fs) && Enabled(c, s, Body(t))
    ensures Inv(c.prog, Next(c, s, Body(t)), fs)
  {
    var s' := Next(c, s, Body(t));
    FrameAt(c.prog, s, fs, t);
    ReadySame(s.frames, s.lists, s.lost, t, s'.frames[t]);
    LocalStep(c.prog, s, fs, t, s'.frames[t], s.lists, s.lost, s'.store);
  }

  // ---------------------------------------------------------------------------
  // Steps on metadata
  // ---------------------------------------------------------------------------

  // A step that touches one object only.
  lemma ObjectsUpdate<V>(p: Program, frames: seq<Frame<V>>, frames': seq<Frame<V>>, metas: seq<Meta<nat>>, m: Meta<nat>,
                         fs: seq<Fifo<nat>>, q: Fifo<nat>, o: nat)
    requires |metas| == |fs| && o < |fs| && ObjectsOk(p, frames, metas, fs)
    requires forall o': nat :: o' < |fs| && o' != o ==>
               IssuedBy(frames', o') == IssuedBy(frames, o') && ReleasedBy(frames', o') == ReleasedBy(frames, o')
    requires ObjOk(p, o, m, q, IssuedBy(frames', o), ReleasedBy(frames', o))
    ensures ObjectsOk(p, frames', metas[o := m], fs[o := q])
  {
    forall o': nat | o' < |fs|
      ensures ObjOk(p, o', metas[o := m][o'], fs[o := q][o'], IssuedBy(frames', o'), ReleasedBy(frames', o')) {
      if o' != o {
        assert ObjOk(p, o', metas[o'], fs[o'], IssuedBy(frames, o'), ReleasedBy(frames, o'));
      }
    }
  }

  lemma ObjectAt<V>(p: Program, frames: seq<Frame<V>>, metas: seq<Meta<nat>>, fs: seq<Fifo<nat>>, o: nat)
    requires |metas| == |fs| && o < |fs| && ObjectsOk(p, frames, metas, fs)
    ensures ObjOk(p, o, metas[o], fs[o], IssuedBy(frames, o), ReleasedBy(frames, o))
  {
  }

  lemma IssuedByUpdate<V>(frames: seq<Frame<V>>, t: nat, f: Frame<V>, o: nat)
    requires t < |frames| && f.issued == frames[t].issued + {o} && f.released == frames[t].released
    ensures IssuedBy(frames[t := f], o) == IssuedBy(frames, o) + {t}
    ensures forall o': nat :: o' != o ==> IssuedBy(frames[t := f], o') == IssuedBy(frames, o')
    ensures forall o': nat :: ReleasedBy(frames[t := f], o') == ReleasedBy(frames, o')
  {
  }

  // Which objects block `u` after the queue of object `o` changed to `q`.
  lemma BlockedUpdate(fs: seq<Fifo<nat>>, o: nat, q: Fifo<nat>, u: nat)
    requires o < |fs|
    ensures Blocked(fs[o := q], u) == if u in Flat(q.waiting) then Blocked(fs, u) + {o} else Blocked(fs, u) - {o}
    ensures o in Blocked(fs, u) <==> u in Flat(fs[o].waiting)
  {
  }

  lemma IssueObjects<V>(p: Program, s: State<V>, fs: seq<Fifo<nat>>, t: nat, o: nat, f: Frame<V>)
    requires ProgramOk(p) && |s.frames| == |p.tasks| && |s.metas| == |fs| == p.objs
    requires ObjectsOk(p, s.frames, s.metas, fs) && InProgramOrder(p, s.frames)
    requires Names(p, t, o) && o < p.objs && o !in s.frames[t].issued && t < |p.tasks|
    requires forall u: nat :: u < t ==> AllIssued(p, s, u)
    requires s.frames[t].issued <= p.tasks[t].Keys
    requires f.issued == s.frames[t].issued + {o} && f.released == s.frames[t].released
    ensures var g := p.tasks[t][o];
            ObjectsOk(p, s.frames[t := f], s.metas[o := AddTask(s.metas[o], t, g).0], fs[o := FifoAdd(fs[o], t, g)])
    ensures AddTask(s.metas[o], t, p.tasks[t][o]).1 == Granted(fs[o], p.tasks[t][o])
    ensures t !in Flat(fs[o].waiting) && FifoOk(fs[o])
  {
    var issued, released := IssuedBy(s.frames, o), ReleasedBy(s.frames, o);
    ObjectAt(p, s.frames, s.metas, fs, o);
    assert NextToIssue(p, o, issued, t) by {
      forall a: nat | Names(p, a, o) && a < t ensures a in issued {
        assert AllIssued(p, s, a);
      }
      forall a: nat | a in issued ensures a < t {
        assert s.frames[t].issued != p.tasks[t].Keys && s.frames[a].issued != {};
      }
    }
    ObjIssue(p, o, s.metas[o], fs[o], issued, released, t);
    IssuedByUpdate(s.frames, t, f, o);
    ObjectsUpdate(p, s.frames, s.frames[t := f], s.metas, AddTask(s.metas[o], t, p.tasks[t][o]).0,
                  fs, FifoAdd(fs[o], t, p.tasks[t][o]), o);
  }

  lemma IssueFrames<V>(p: Program, frames: seq<Frame<V>>, fs: seq<Fifo<nat>>, t: nat, o: nat, f: Frame<V>, g: Group)
    requires |frames| == |p.tasks| && t < |frames| && o < |fs| && Names(p, t, o)
    requires FramesOk(p, frames, fs)
    requires o !in frames[t].issued && FifoOk(fs[o]) && t !in Flat(fs[o].waiting)
    requires f == frames[t].(issued := frames[t].issued + {o},
                             incoming := if Granted(fs[o], g) then frames[t].incoming else frames[t].incoming + 1)
    ensures FramesOk(p, frames[t := f], fs[o := FifoAdd(fs[o], t, g)])
  {
    var q, frames' := FifoAdd(fs[o], t, g), frames[t := f];
    FlatFifo(fs[o], t, g);
    forall u: nat | u < |frames| ensures FrameOk(p, frames'[u], u, Blocked(fs[o := q], u)) {
      assert FrameOk(p, frames[u], u, Blocked(fs, u));
      BlockedUpdate(fs, o, q, u);
      if u != t {
        assert u in Flat(q.waiting) <==> u in Flat(fs[o].waiting);
        assert Blocked(fs[o := q], u) == Blocked(fs, u);
      } else {
        assert frames[t].guard;
        assert t in Flat(q.waiting) <==> !Granted(fs[o], g);
        assert o !in Blocked(fs, t);
      }
    }
  }

  lemma IssueOrder<V>(p: Program, s: State<V>, t: nat, o: nat, f: Frame<V>)
    requires |s.frames| == |p.tasks| && InProgramOrder(p, s.frames)
    requires Names(p, t, o) && o < p.objs && o !in s.frames[t].issued && t < |p.tasks|
    requires forall u: nat :: u < t ==> AllIssued(p, s, u)
    requires f.issued == s.frames[t].issued + {o}
    ensures InProgramOrder(p, s.frames[t := f])
  {
    var frames' := s.frames[t := f];
    forall u: nat, v: nat | u < v < |s.frames| && frames'[v].issued != {}
      ensures frames'[u].issued == p.tasks[u].Keys {
      if v == t {
        assert AllIssued(p, s, u);
      }
    }
  }

  lemma IssueKeeps<V>(c: Code<V>, s: State<V>, fs: seq<Fifo<nat>>, t: nat, o: nat)
    requires Inv(c.prog, s, fs) && Enabled(c, s, Issue(t, o))
    ensures Inv(c.prog, Next(c, s, Issue(t, o)), NextFifos(c.prog, fs, Issue(t, o)))
  {
    var s' := Next(c, s, Issue(t, o));
    var f' := s'.frames[t];
    FrameAt(c.prog, s, fs, t);
    IssueObjects(c.prog, s, fs, t, o, f');
    IssueFrames(c.prog, s.frames, fs, t, o, f', c.prog.tasks[t][o]);
    IssueOrder(c.prog, s, t, o, f');
    ReadySame(s.frames, s.lists, s.lost, t, f');
  }

  // What the release loop does to the frames: each released one is counted down once.
  lemma {:induction false} GrantFrames<V>(frames: seq<Frame<V>>, ready: seq<nat>, rel: seq<nat>, t: nat)
    requires forall i :: 0 <= i < |rel| ==> rel[i] < |frames|
    requires Distinct(rel) && t < |frames|
    ensures Grant(frames, ready, rel).0[t] ==
            if t in rel then frames[t].(incoming := frames[t].incoming - 1) else frames[t]
    decreases rel
  {
    if rel != [] {
      var u := rel[0];
      assert rel == [u] + rel[1..];
      assert u !in rel[1..];
      var f := frames[u];
      GrantFrames(frames[u := f.(incoming := f.incoming - 1)], if f.incoming == 1 then ready + [u] else ready, rel[1..], t);
    }
  }

  // What it gathers: exactly the frames whose count reaches zero.
  lemma {:induction false} GrantReady<V>(frames: seq<Frame<V>>, ready: seq<nat>, rel: seq<nat>)
    requires forall i :: 0 <= i < |rel| ==> rel[i] < |frames|
    requires Distinct(rel) && Distinct(ready) && forall t :: t in rel ==> t !in ready
    ensures Distinct(Grant(frames, ready, rel).1)
    ensures forall t: nat :: t in Grant(frames, ready, rel).1 <==> t in ready || (t in rel && frames[t].incoming == 1)
    decreases rel
  {
    if rel != [] {
      var t := rel[0];
      assert rel == [t] + rel[1..];
      assert t in rel && t !in rel[1..];
      var f := frames[t];
      GrantReady(frames[t := f.(incoming := f.incoming - 1)], if f.incoming == 1 then ready + [t] else ready, rel[1..]);
    }
  }

  // The frames it gathers are those that may start from now on.
  lemma GrantRipens<V>(frames: seq<Frame<V>>, rel: seq<nat>)
    requires forall i :: 0 <= i < |rel| ==> rel[i] < |frames|
    requires Distinct(rel) && forall t :: t in rel ==> frames[t].incoming >= 1 && !frames[t].started
    ensures Ripen(frames, Grant(frames, [], rel).0, Grant(frames, [], rel).1)
  {
    GrantReady(frames, [], rel);
    forall t: nat | t < |frames|
      ensures Grant(frames, [], rel).0[t] == if t in rel then frames[t].(incoming := frames[t].incoming - 1) else frames[t] {
      GrantFrames(frames, [], rel, t);
    }
  }

  lemma ReleasedByUpdate<V>(frames: seq<Frame<V>>, t: nat, f: Frame<V>, o: nat)
    requires t < |frames| && f.released == frames[t].released + {o} && f.issued == frames[t].issued
    ensures ReleasedBy(frames[t := f], o) == ReleasedBy(frames, o) + {t}
    ensures forall o': nat :: o' != o ==> ReleasedBy(frames[t := f], o') == ReleasedBy(frames, o')
    ensures forall o': nat :: IssuedBy(frames[t := f], o') == IssuedBy(frames, o')
  {
  }

  // Frames that differ in their counts only.
  lemma SameSets<V>(frames: seq<Frame<V>>, frames': seq<Frame<V>>)
    requires |frames'| == |frames|
    requires forall t: nat :: t < |frames| ==>
               frames'[t].issued == frames[t].issued && frames'[t].released == frames[t].released
    ensures forall o: nat :: IssuedBy(frames', o) == IssuedBy(frames, o) && ReleasedBy(frames', o) == ReleasedBy(frames, o)
  {
  }

  // A started task runs on every object it has not released.
  lemma StartedRuns<V>(p: Program, s: State<V>, fs: seq<Fifo<nat>>, t: nat, o: nat)
    requires Inv(p, s, fs) && Names(p, t, o) && s.frames[t].started && o !in s.frames[t].released
    ensures o < |fs| && t in fs[o].running
  {
    FrameAt(p, s, fs, t);
    assert o < |fs|;
    ObjectAt(p, s.frames, s.metas, fs, o);
    assert Blocked(fs, t) == {};
    BlockedUpdate(fs, o, fs[o], t);
    assert Through(Flat(fs[o].waiting), IssuedBy(s.frames, o), t);
  }

  lemma ReleaseObjects<V>(p: Program, s: State<V>, fs: seq<Fifo<nat>>, t: nat, o: nat, f: Frame<V>)
    requires |s.frames| == |p.tasks| && |s.metas| == |fs| == p.objs && t < |s.frames| && o < |fs|
    requires ObjectsOk(p, s.frames, s.metas, fs)
    requires t in fs[o].running
    requires f.released == s.frames[t].released + {o} && f.issued == s.frames[t].issued
    ensures ObjectsOk(p, s.frames[t := f], s.metas[o := Wakeup(s.metas[o]).0], fs[o := FifoRelease(fs[o], t)])
    ensures Wakeup(s.metas[o]).1 == FifoReleased(fs[o], t)
    ensures FifoOk(fs[o]) && Increasing(Flat(fs[o].waiting))
  {
    ObjectAt(p, s.frames, s.metas, fs, o);
    ObjRelease(p, o, s.metas[o], fs[o], IssuedBy(s.frames, o), ReleasedBy(s.frames, o), t);
    ReleasedByUpdate(s.frames, t, f, o);
    ObjectsUpdate(p, s.frames, s.frames[t := f], s.metas, Wakeup(s.metas[o]).0, fs, FifoRelease(fs[o], t), o);
  }

  lemma ReleaseSplit(f: Fifo<nat>, t: nat)
    requires FifoOk(f) && Increasing(Flat(f.waiting))
    ensures Distinct(FifoReleased(f, t))
    ensures forall u: nat :: u in Flat(f.waiting) <==> u in FifoReleased(f, t) || u in Flat(FifoRelease(f, t).waiting)
    ensures forall u: nat :: u in FifoReleased(f, t) ==> u !in Flat(FifoRelease(f, t).waiting)
  {
    FlatFifo(f, t, READ);
    SplitIncreasing(FifoReleased(f, t), Flat(FifoRelease(f, t).waiting));
    var a := FifoReleased(f, t) + Flat(FifoRelease(f, t).waiting);
    forall i, j | 0 <= i < j < |FifoReleased(f, t)| ensures FifoReleased(f, t)[i] != FifoReleased(f, t)[j] {
      assert a[i] < a[j];
    }
  }

  lemma ReleaseFrame(fs: seq<Fifo<nat>>, t: nat, o: nat, u: nat)
    requires o < |fs| && FifoOk(fs[o]) && Increasing(Flat(fs[o].waiting))
    ensures var rel := FifoReleased(fs[o], t);
            |Blocked(fs[o := FifoRelease(fs[o], t)], u)| == if u in rel then |Blocked(fs, u)| - 1 else |Blocked(fs, u)|
    ensures u in FifoReleased(fs[o], t) ==> o in Blocked(fs, u)
  {
    var q := FifoRelease(fs[o], t);
    ReleaseSplit(fs[o], t);
    BlockedUpdate(fs, o, q, u);
    if u in FifoReleased(fs[o], t) {
    } else {
      assert Blocked(fs[o := q], u) == Blocked(fs, u);
    }
  }

  lemma ReleaseFrames<V>(p: Program, frames: seq<Frame<V>>, frames': seq<Frame<V>>, fs: seq<Fifo<nat>>, t: nat, o: nat)
    requires |frames| == |frames'| == |p.tasks| && o < |fs|
    requires FramesOk(p, frames, fs)
    requires FifoOk(fs[o]) && Increasing(Flat(fs[o].waiting))
    requires forall u: nat :: u < |frames| ==>
               frames'[u] == if u in FifoReleased(fs[o], t) then frames[u].(incoming := frames[u].incoming - 1) else frames[u]
    ensures FramesOk(p, frames', fs[o := FifoRelease(fs[o], t)])
  {
    forall u: nat | u < |frames|
      ensures FrameOk(p, frames'[u], u, Blocked(fs[o := FifoRelease(fs[o], t)], u)) {
      assert FrameOk(p, frames[u], u, Blocked(fs, u));
      ReleaseFrame(fs, t, o, u);
    }
  }

  lemma Waits<V>(p: Program, frames: seq<Frame<V>>, fs: seq<Fifo<nat>>, o: nat, u: nat)
    requires |frames| == |p.tasks| && u < |frames| && o < |fs| && FramesOk(p, frames, fs)
    requires o in Blocked(fs, u)
    ensures frames[u].incoming >= 1 && !frames[u].started
  {
    assert FrameOk(p, frames[u], u, Blocked(fs, u));
    assert |Blocked(fs, u)| >= 1;
  }

  // The state after a release of the tasks `rel`.
  lemma ReleaseNext<V>(c: Code<V>, s: State<V>, t: nat, o: nat, w: nat, rel: seq<nat>)
    requires Enabled(c, s, Release(t, o, w)) && rel == Wakeup(s.metas[o]).1
    ensures forall i :: 0 <= i < |rel| ==> rel[i] < |s.frames|
    ensures var s' := Next(c, s, Release(t, o, w));
            var mid := s.frames[t := s.frames[t].(released := s.frames[t].released + {o})];
            && s'.frames == Grant(mid, [], rel).0
            && s'.lists == s.lists[w := Publish(s.lists[w], Grant(mid, [], rel).1)]
            && s'.lost == s.lost + Lost(s.lists[w], Grant(mid, [], rel).1)
            && s'.metas == s.metas[o := Wakeup(s.metas[o]).0] && s'.store == s.store
  {
  }

  // The frames, `mid` being those before the tasks `rel` are released.
  lemma ReleaseGrant<V>(p: Program, mid: seq<Frame<V>>, fs: seq<Fifo<nat>>, t: nat, o: nat, rel: seq<nat>)
    requires |mid| == |p.tasks| && o < |fs| && FifoOk(fs[o]) && Increasing(Flat(fs[o].waiting))
    requires FramesOk(p, mid, fs)
    requires rel == FifoReleased(fs[o], t) && forall i :: 0 <= i < |rel| ==> rel[i] < |mid|
    ensures FramesOk(p, Grant(mid, [], rel).0, fs[o := FifoRelease(fs[o], t)])
    ensures Ripen(mid, Grant(mid, [], rel).0, Grant(mid, [], rel).1)
    ensures forall u: nat :: u < |mid| ==> Grant(mid, [], rel).0[u].issued == mid[u].issued
    ensures forall u: nat :: u < |mid| ==> Grant(mid, [], rel).0[u].released == mid[u].released
  {
    ReleaseSplit(fs[o], t);
    forall u | u in rel ensures mid[u].incoming >= 1 && !mid[u].started {
      ReleaseFrame(fs, t, o, u);
      Waits(p, mid, fs, o, u);
    }
    forall u: nat | u < |mid|
      ensures Grant(mid, [], rel).0[u] == if u in rel then mid[u].(incoming := mid[u].incoming - 1) else mid[u] {
      GrantFrames(mid, [], rel, u);
    }
    GrantRipens(mid, rel);
    ReleaseFrames(p, mid, Grant(mid, [], rel).0, fs, t, o);
  }

  // Once the body is over, noting a release leaves the frame in order.
  lemma ReleasedFrame<V>(p: Program, f: Frame<V>, t: nat, o: nat, blocked: set<nat>)
    requires t < |p.tasks| && FrameOk(p, f, t, blocked) && Names(p, t, o)
    requires f.started && f.pc == p.length(t)
    ensures FrameOk(p, f.(released := f.released + {o}), t, blocked)
  {
  }

  lemma SameAccesses<V>(p: Program, frames: seq<Frame<V>>, frames': seq<Frame<V>>, metas: seq<Meta<nat>>, fs: seq<Fifo<nat>>)
    requires |metas| == |fs| && |frames| == |frames'| == |p.tasks|
    requires ObjectsOk(p, frames, metas, fs) && InProgramOrder(p, frames)
    requires forall u: nat :: u < |frames| ==> frames'[u].issued == frames[u].issued
    requires forall u: nat :: u < |frames| ==> frames'[u].released == frames[u].released
    ensures ObjectsOk(p, frames', metas, fs) && InProgramOrder(p, frames')
  {
    SameSets(frames, frames');
    forall o: nat | o < |fs| ensures ObjOk(p, o, metas[o], fs[o], IssuedBy(frames', o), ReleasedBy(frames', o)) {
      assert ObjOk(p, o, metas[o], fs[o], IssuedBy(frames, o), ReleasedBy(frames, o));
    }
  }

  lemma ReleaseKeeps<V>(c: Code<V>, s: State<V>, fs: seq<Fifo<nat>>, t: nat, o: nat, w: nat)
    requires Inv(c.prog, s, fs) && Enabled(c, s, Release(t, o, w))
    ensures Inv(c.prog, Next(c, s, Release(t, o, w)), NextFifos(c.prog, fs, Release(t, o, w)))
  {
    var p, rel := c.prog, Wakeup(s.metas[o]).1;
    var f := s.frames[t].(released := s.frames[t].released + {o});
    StartedRuns(p, s, fs, t, o);
    ReleaseNext(c, s, t, o, w, rel);
    ReleaseObjects(p, s, fs, t, o, f);
    FrameAt(p, s, fs, t);
    ReleasedFrame(p, s.frames[t], t, o, Blocked(fs, t));
    ReleaseInv(p, s, fs, t, o, w, f, rel, Wakeup(s.metas[o]).0);
  }

  lemma ReleaseInv<V>(p: Program, s: State<V>, fs: seq<Fifo<nat>>, t: nat, o: nat, w: nat, f: Frame<V>, rel: seq<nat>,
                      m: Meta<nat>)
    requires Inv(p, s, fs) && t < |s.frames| && o < |fs| && w < p.workers
    requires FifoOk(fs[o]) && Increasing(Flat(fs[o].waiting))
    requires f == s.frames[t].(released := f.released) && FrameOk(p, f, t, Blocked(fs, t))
    requires rel == FifoReleased(fs[o], t) && forall i :: 0 <= i < |rel| ==> rel[i] < |s.frames|
    requires ObjectsOk(p, s.frames[t := f], s.metas[o := m], fs[o := FifoRelease(fs[o], t)])
    ensures var (frames, ready) := Grant(s.frames[t := f], [], rel);
            Inv(p, PublishAt(s.(frames := frames, metas := s.metas[o := m]), w, ready), fs[o := FifoRelease(fs[o], t)])
  {
    var mid := s.frames[t := f];
    FramesUpdate(p, s.frames, t, f, fs);
    ReadySame(s.frames, s.lists, s.lost, t, f);
    OrderSame(p, s.frames, t, f);
    ReleaseGrant(p, mid, fs, t, o, rel);
    ReadyPublish(mid, Grant(mid, [], rel).0, s.lists, s.lost, w, Grant(mid, [], rel).1);
    SameAccesses(p, mid, Grant(mid, [], rel).0, s.metas[o := m], fs[o := FifoRelease(fs[o], t)]);
  }

  /** Every step keeps the invariant. */
  lemma StepKeeps<V>(c: Code<V>, s: State<V>, fs: seq<Fifo<nat>>, l: Label)
    requires Inv(c.prog, s, fs) && Enabled(c, s, l)
    ensures Inv(c.prog, Next(c, s, l), NextFifos(c.prog, fs, l))
  {
    match l
    case Issue(t, o) => IssueKeeps(c, s, fs, t, o);
    case DropGuard(t, w) => DropGuardKeeps(c, s, fs, t, w);
    case Start(t, v, w) => StartKeeps(c, s, fs, t, v, w);
    case Body(t) => BodyKeeps(c, s, fs, t);
    case Release(t, o, w) => ReleaseKeeps(c, s, fs, t, o, w);
  }
}
