/** The per-object dependency metadata of Swan: what one critical section on
    `__cilkrts_obj_metadata` computes, as a function of the metadata before it.

    Two descriptions are given. `Meta` is the runtime's own: counters plus one flat
    list whose nodes carry a "last in generation" bit. `Fifo` is the intended one:
    a set of running tasks and a queue of generations. The theorems at the end
    say that the first refines the second.
 */
module ObjMetadata {
  import opened Sequences

  // ---------------------------------------------------------------------------
  // Access groups
  // ---------------------------------------------------------------------------

  const NOT_WRITE: bv4 := 11

  datatype Group = EMPTY | READ | WRITE | COMMUT {
    function Bits(): bv4 {
      match this
      case EMPTY => 1
      case READ => 2
      case WRITE => 4
      case COMMUT => 8
    }
  }

  // Does an access of group `g` join the youngest generation?
  predicate Joins(youngest: Group, g: Group) {
    youngest.Bits() & ((g.Bits() | EMPTY.Bits()) & NOT_WRITE) != 0
  }

  // Does an access of group `g` open a generation of its own?
  predicate Pushes(youngest: Group, g: Group) {
    g.Bits() & (youngest.Bits() & NOT_WRITE) == 0
  }

  // Two accesses may be in flight together.
  predicate Compatible(g: Group, h: Group) {
    g == h && g != WRITE
  }

  /** The meaning of the two bit tests: anything joins an idle object and pushes;
      otherwise exactly the compatible accesses join, and exactly the others push. */
  lemma GroupTable(youngest: Group, g: Group)
    requires g != EMPTY
    ensures Joins(youngest, g) <==> youngest == EMPTY || Compatible(youngest, g)
    ensures Pushes(youngest, g) <==> !Compatible(youngest, g)
    ensures Compatible(youngest, g) <==> youngest == g && (g == READ || g == COMMUT)
  {
    match youngest {
      case EMPTY => match g { case READ => case WRITE => case COMMUT => case EMPTY => }
      case READ => match g { case READ => case WRITE => case COMMUT => case EMPTY => }
      case WRITE => match g { case READ => case WRITE => case COMMUT => case EMPTY => }
      case COMMUT => match g { case READ => case WRITE => case COMMUT => case EMPTY => }
    }
  }

  // ---------------------------------------------------------------------------
  // The runtime's metadata
  // ---------------------------------------------------------------------------

  datatype Node<T> = Node(task: T, last: bool)

  datatype Meta<T> = Meta(oldestNumTasks: int, youngestGroup: Group, numGens: int, tasks: seq<Node<T>>)

  function Init<T>(): Meta<T> {
    Meta(0, EMPTY, 0, [])
  }

  // An access of group `g` would be granted at once.
  predicate IniReady<T>(m: Meta<T>, g: Group) {
    (m.numGens == 1 && Joins(m.youngestGroup, g)) || m.numGens == 0
  }

  // Overwrites the bit of the tail node. In an empty list the tail is the sentinel,
  // whose bit is never read.
  function SetLast<T>(q: seq<Node<T>>, last: bool): (r: seq<Node<T>>)
    ensures |r| == |q|
  {
    if q == [] then [] else q[|q| - 1 := q[|q| - 1].(last := last)]
  }

  // What `add_task` leaves, told from the two decisions it takes.
  function Issued<T>(m: Meta<T>, t: T, g: Group, ready: bool, pushg: bool): Meta<T> {
    Meta(if ready then m.oldestNumTasks + 1 else m.oldestNumTasks,
         g,
         if pushg then m.numGens + 1 else m.numGens,
         if ready then m.tasks else SetLast(m.tasks, pushg) + [Node(t, false)])
  }

  // `add_task` for a pending frame: the new metadata, and whether the access is granted.
  function AddTask<T>(m: Meta<T>, t: T, g: Group): (Meta<T>, bool) {
    var ready := Joins(m.youngestGroup, g) && m.numGens <= 1;
    (Issued(m, t, g, ready, Pushes(m.youngestGroup, g)), ready)
  }

  // `add_task` with a null frame: the task is already running.
  function AddRunning<T>(m: Meta<T>, g: Group): Meta<T> {
    m.(numGens := 1, oldestNumTasks := m.oldestNumTasks + 1, youngestGroup := g)
  }

  // How many nodes the release loop visits: up to the first marked node, or all.
  function GenLength<T>(q: seq<Node<T>>): (n: nat)
    ensures n <= |q|
    ensures q != [] ==> 0 < n
  {
    if q == [] then 0
    else if q[0].last then 1
    else 1 + GenLength(q[1..])
  }

  function TasksOf<T>(q: seq<Node<T>>): (r: seq<T>)
    ensures |r| == |q|
    ensures forall i :: 0 <= i < |q| ==> r[i] == q[i].task
  {
    seq(|q|, i requires 0 <= i < |q| => q[i].task)
  }

  // Retires the oldest generation and releases the next one.
  function WakeupHard<T>(m: Meta<T>): (Meta<T>, seq<T>) {
    var n := GenLength(m.tasks);
    var rest := m.tasks[n..];
    (Meta(n,
          if rest == [] && m.numGens - 1 == 0 then EMPTY else m.youngestGroup,
          m.numGens - 1,
          rest),
     TasksOf(m.tasks)[..n])
  }

  // One running task gives the object up: the new metadata, and the tasks released by it.
  function Wakeup<T>(m: Meta<T>): (w: (Meta<T>, seq<T>))
    ensures w.1 <= TasksOf(m.tasks) && w.0.tasks == m.tasks[|w.1|..]
  {
    var n := m.oldestNumTasks - 1;
    if n > 0 then (m.(oldestNumTasks := n), [])
    else if m.numGens == 1 then (m.(oldestNumTasks := n, numGens := 0, youngestGroup := EMPTY), [])
    else WakeupHard(m.(oldestNumTasks := n))
  }

  // ---------------------------------------------------------------------------
  // The intended reading: a queue of generations
  // ---------------------------------------------------------------------------

  datatype Gen<T> = Gen(group: Group, tasks: seq<T>)

  datatype Fifo<T(==)> = Fifo(running: set<T>, group: Group, waiting: seq<Gen<T>>)

  ghost function Idle<T>(): Fifo<T> {
    Fifo({}, EMPTY, [])
  }

  ghost predicate GenOk<T>(g: Gen<T>) {
    g.group != EMPTY && g.tasks != [] && (g.group == WRITE ==> |g.tasks| == 1)
  }

  ghost predicate FifoOk<T>(f: Fifo<T>) {
    && (f.running == {} <==> f.group == EMPTY)
    && (f.running == {} ==> f.waiting == [])
    && (f.group == WRITE ==> |f.running| == 1)
    && (forall i :: 0 <= i < |f.waiting| ==> GenOk(f.waiting[i]))
  }

  function Youngest<T>(f: Fifo<T>): Group {
    if f.waiting == [] then f.group else f.waiting[|f.waiting| - 1].group
  }

  ghost predicate Granted<T>(f: Fifo<T>, g: Group) {
    f.running == {} || (f.waiting == [] && Compatible(f.group, g))
  }

  // `w` with task `t` added to its last generation
  ghost function JoinLast<T>(w: seq<Gen<T>>, t: T): seq<Gen<T>>
    requires w != []
  {
    var k := |w| - 1;
    w[..k] + [w[k].(tasks := w[k].tasks + [t])]
  }

  ghost function FifoAdd<T>(f: Fifo<T>, t: T, g: Group): Fifo<T> {
    if Granted(f, g) then f.(running := f.running + {t}, group := g)
    else if f.waiting != [] && Compatible(Youngest(f), g) then
      f.(waiting := JoinLast(f.waiting, t))
    else f.(waiting := f.waiting + [Gen(g, [t])])
  }

  ghost function FifoReleased<T>(f: Fifo<T>, t: T): seq<T> {
    if f.running == {t} && f.waiting != [] then f.waiting[0].tasks else []
  }

  ghost function FifoRelease<T>(f: Fifo<T>, t: T): Fifo<T> {
    if f.running != {t} then f.(running := f.running - {t})
    else if f.waiting == [] then Idle()
    else Fifo(SetOf(f.waiting[0].tasks), f.waiting[0].group, f.waiting[1..])
  }

  /** What an issue means: on an idle object, or beside running accesses of the same group that is not
      WRITE when nobody waits, the task runs; else it joins the youngest waiting generation if that is of
      the same group and this is not WRITE, and else opens a new one behind all others. */
  lemma AddMeans<T>(f: Fifo<T>, t: T, g: Group)
    requires FifoOk(f) && g != EMPTY
    ensures var (f', n) := (FifoAdd(f, t, g), |f.waiting|);
            if f.running == {} || (n == 0 && f.group == g && g != WRITE) then
              f' == Fifo(f.running + {t}, g, f.waiting)
            else
              && f'.running == f.running && f'.group == f.group
              && if n > 0 && f.waiting[n - 1].group == g && g != WRITE
                 then f'.waiting == f.waiting[..n - 1] + [Gen(g, f.waiting[n - 1].tasks + [t])]
                 else f'.waiting == f.waiting + [Gen(g, [t])]
  {
  }

  /** What a release means: the task no longer runs; if it was the last one, exactly the tasks of the
      oldest waiting generation run next, and these are released in order. */
  lemma ReleaseMeans<T>(f: Fifo<T>, t: T)
    requires t in f.running
    ensures var (f', ts) := (FifoRelease(f, t), FifoReleased(f, t));
            if f.running != {t} then f' == f.(running := f.running - {t}) && ts == []
            else if f.waiting == [] then f' == Fifo({}, EMPTY, []) && ts == []
            else
              && f'.waiting == f.waiting[1..] && f'.group == f.waiting[0].group && ts == f.waiting[0].tasks
              && forall x :: x in f'.running <==> x in f.waiting[0].tasks
  {
  }

  // All waiting tasks, oldest first.
  ghost function Flat<T>(w: seq<Gen<T>>): seq<T> {
    if w == [] then [] else w[0].tasks + Flat(w[1..])
  }

  // A generation as list nodes, the last of them marked by `last`.
  ghost function Mark<T>(ts: seq<T>, last: bool): (r: seq<Node<T>>)
    ensures |r| == |ts|
    ensures forall i :: 0 <= i < |ts| ==> r[i] == Node(ts[i], last && i == |ts| - 1)
  {
    if ts == [] then [] else [Node(ts[0], last && |ts| == 1)] + Mark(ts[1..], last)
  }

  ghost function EncodeList<T>(w: seq<Gen<T>>): seq<Node<T>> {
    if w == [] then [] else Mark(w[0].tasks, |w| > 1) + EncodeList(w[1..])
  }

  // The metadata that represents a queue of generations.
  ghost function Encode<T>(f: Fifo<T>): Meta<T> {
    Meta(|f.running|, Youngest(f), (if f.running == {} then 0 else 1) + |f.waiting|, EncodeList(f.waiting))
  }

  // ---------------------------------------------------------------------------
  // Refinement
  // ---------------------------------------------------------------------------

  lemma SetLastConcat<T>(a: seq<Node<T>>, b: seq<Node<T>>, last: bool)
    requires b != []
    ensures SetLast(a + b, last) == a + SetLast(b, last)
  {
    assert (a + b)[..|a + b| - 1] == a + b[..|b| - 1];
  }

  lemma SetLastMark<T>(ts: seq<T>, last: bool, last': bool)
    ensures SetLast(Mark(ts, last), last') == Mark(ts, last')
  {
  }

  lemma MarkAppend<T>(ts: seq<T>, t: T)
    ensures Mark(ts + [t], false) == Mark(ts, false) + [Node(t, false)]
  {
  }

  lemma EncodeOne<T>(g: Gen<T>)
    ensures EncodeList([g]) == Mark(g.tasks, false)
  {
    assert EncodeList([g]) == Mark(g.tasks, false) + EncodeList<T>([]);
  }

  lemma EncodeCons<T>(g: Gen<T>, w: seq<Gen<T>>)
    requires w != []
    ensures EncodeList([g] + w) == Mark(g.tasks, true) + EncodeList(w)
  {
    assert ([g] + w)[1..] == w;
  }

  lemma EncodeNonempty<T>(w: seq<Gen<T>>)
    requires w != [] && GenOk(w[0])
    ensures EncodeList(w) != []
  {
    assert |Mark(w[0].tasks, |w| > 1)| > 0;
  }

  lemma {:induction false} EncodePush<T>(w: seq<Gen<T>>, t: T, g: Group)
    requires forall i :: 0 <= i < |w| ==> GenOk(w[i])
    ensures EncodeList(w + [Gen(g, [t])]) == SetLast(EncodeList(w), true) + [Node(t, false)]
  {
    var one := [Gen(g, [t])];
    EncodeOne(Gen(g, [t]));
    if w == [] {
      assert w + one == one;
    } else {
      var r := w[1..];
      assert w == [w[0]] + r;
      assert w + one == [w[0]] + (r + one);
      EncodeCons(w[0], r + one);
      if r == [] {
        EncodeOne(w[0]);
        assert r + one == one;
        SetLastMark(w[0].tasks, false, true);
      } else {
        EncodePush(r, t, g);
        EncodeCons(w[0], r);
        EncodeNonempty(r);
        SetLastConcat(Mark(w[0].tasks, true), EncodeList(r), true);
      }
    }
  }

  lemma {:induction false} EncodeJoin<T>(w: seq<Gen<T>>, t: T)
    requires w != [] && forall i :: 0 <= i < |w| ==> GenOk(w[i])
    ensures EncodeList(JoinLast(w, t)) == SetLast(EncodeList(w), false) + [Node(t, false)]
  {
    var r := w[1..];
    assert w == [w[0]] + r;
    if r == [] {
      EncodeOne(w[0]);
      EncodeOne(w[0].(tasks := w[0].tasks + [t]));
      SetLastMark(w[0].tasks, false, false);
      MarkAppend(w[0].tasks, t);
      assert JoinLast(w, t) == [w[0].(tasks := w[0].tasks + [t])];
    } else {
      assert JoinLast(w, t) == [w[0]] + JoinLast(r, t);
      EncodeJoin(r, t);
      EncodeCons(w[0], JoinLast(r, t));
      EncodeCons(w[0], r);
      EncodeNonempty(r);
      SetLastConcat(Mark(w[0].tasks, true), EncodeList(r), false);
    }
  }

  lemma {:induction false} FirstGeneration<T>(ts: seq<T>, last: bool, rest: seq<Node<T>>)
    requires ts != [] && (last || rest == [])
    ensures GenLength(Mark(ts, last) + rest) == |ts|
  {
    var q := Mark(ts, last) + rest;
    if |ts| == 1 {
      assert q[1..] == rest;
    } else {
      assert q[1..] == Mark(ts[1..], last) + rest by {
        assert Mark(ts, last) == [Node(ts[0], false)] + Mark(ts[1..], last);
      }
      FirstGeneration(ts[1..], last, rest);
    }
  }

  lemma FifoAddOk<T>(f: Fifo<T>, t: T, g: Group)
    requires FifoOk(f) && g != EMPTY && t !in f.running
    ensures FifoOk(FifoAdd(f, t, g))
  {
    var f' := FifoAdd(f, t, g);
    if Granted(f, g) {
      assert t in f'.running;
      if f.running == {} {
        assert f'.running == {t};
      }
    }
  }

  lemma GrantRefines<T>(f: Fifo<T>, t: T, g: Group)
    requires FifoOk(f) && g != EMPTY && t !in f.running && Granted(f, g)
    ensures Issued(Encode(f), t, g, true, !Compatible(Youngest(f), g)) == Encode(FifoAdd(f, t, g))
  {
    var f' := FifoAdd(f, t, g);
    assert f' == Fifo(f.running + {t}, g, []);
    assert t in f'.running;
    assert |f'.running| == |f.running| + 1;
  }

  lemma JoinRefines<T>(f: Fifo<T>, t: T, g: Group)
    requires FifoOk(f) && !Granted(f, g) && f.waiting != [] && Compatible(Youngest(f), g)
    ensures Issued(Encode(f), t, g, false, false) == Encode(FifoAdd(f, t, g))
  {
    EncodeJoin(f.waiting, t);
    assert FifoAdd(f, t, g) == f.(waiting := JoinLast(f.waiting, t));
  }

  lemma PushRefines<T>(f: Fifo<T>, t: T, g: Group)
    requires FifoOk(f) && !Granted(f, g) && !(f.waiting != [] && Compatible(Youngest(f), g))
    ensures Issued(Encode(f), t, g, false, true) == Encode(FifoAdd(f, t, g))
  {
    EncodePush(f.waiting, t, g);
    assert FifoAdd(f, t, g) == f.(waiting := f.waiting + [Gen(g, [t])]);
  }

  lemma Decisions<T>(f: Fifo<T>, g: Group)
    requires FifoOk(f) && g != EMPTY
    ensures Joins(Youngest(f), g) && Encode(f).numGens <= 1 <==> Granted(f, g)
    ensures Pushes(Youngest(f), g) <==> !Compatible(Youngest(f), g)
  {
    GroupTable(Youngest(f), g);
  }

  /** Issuing an access: the counters, the bit marks and the list that `add_task` leaves
      represent exactly the queue of generations with the access added, and the
      access is granted exactly when the object is idle or in a compatible only generation. */
  lemma AddTaskRefines<T>(f: Fifo<T>, t: T, g: Group)
    requires FifoOk(f) && g != EMPTY && t !in f.running
    ensures AddTask(Encode(f), t, g) == (Encode(FifoAdd(f, t, g)), Granted(f, g))
    ensures FifoOk(FifoAdd(f, t, g))
  {
    FifoAddOk(f, t, g);
    Decisions(f, g);
    if Granted(f, g) {
      GrantRefines(f, t, g);
    } else if f.waiting != [] && Compatible(Youngest(f), g) {
      JoinRefines(f, t, g);
    } else {
      PushRefines(f, t, g);
    }
  }

  lemma {:induction false} SetOfSize<T>(s: seq<T>)
    requires Distinct(s)
    ensures |SetOf(s)| == |s|
  {
    if s != [] {
      SetOfSize(s[1..]);
      assert SetOf(s) == {s[0]} + SetOf(s[1..]);
      assert s[0] !in s[1..];
    }
  }

  lemma TasksOfMark<T>(ts: seq<T>, last: bool)
    ensures TasksOf(Mark(ts, last)) == ts
  {
  }

  lemma SplitFirst<T>(w: seq<Gen<T>>)
    requires w != [] && GenOk(w[0])
    ensures var q, n := EncodeList(w), |w[0].tasks|;
            GenLength(q) == n && TasksOf(q)[..n] == w[0].tasks && q[n..] == EncodeList(w[1..])
  {
    var ts, rest := w[0].tasks, EncodeList(w[1..]);
    FirstGeneration(ts, |w| > 1, rest);
    TasksOfMark(ts, |w| > 1);
    assert (Mark(ts, |w| > 1) + rest)[|ts|..] == rest;
  }

  lemma WakeupNext<T>(f: Fifo<T>, t: T)
    requires FifoOk(f) && f.running == {t} && f.waiting != [] && Distinct(f.waiting[0].tasks)
    ensures Wakeup(Encode(f)) == (Encode(FifoRelease(f, t)), FifoReleased(f, t))
  {
    var w := f.waiting;
    SplitFirst(w);
    SetOfSize(w[0].tasks);
    assert w[0].tasks[0] in SetOf(w[0].tasks);
    if |w| > 1 {
      assert w[1..][|w| - 2] == w[|w| - 1];
      EncodeNonempty(w[1..]);
    }
    assert Wakeup(Encode(f)) == WakeupHard(Encode(f).(oldestNumTasks := 0));
  }

  lemma WakeupSome<T>(f: Fifo<T>, t: T)
    requires FifoOk(f) && t in f.running && f.running != {t}
    ensures Wakeup(Encode(f)) == (Encode(FifoRelease(f, t)), FifoReleased(f, t))
  {
    assert |f.running - {t}| == |f.running| - 1;
    assert f.running - {t} != {};
  }

  lemma WakeupLast<T>(f: Fifo<T>, t: T)
    requires FifoOk(f) && f.running == {t} && f.waiting == []
    ensures Wakeup(Encode(f)) == (Encode(FifoRelease(f, t)), FifoReleased(f, t))
  {
    assert Encode(f) == Meta(1, f.group, 1, []);
    assert FifoRelease(f, t) == Idle<T>();
    assert Encode(Idle<T>()) == Init();
  }

  lemma DistinctHead<T>(w: seq<Gen<T>>)
    requires w != [] && Distinct(Flat(w))
    ensures Distinct(w[0].tasks)
  {
    forall i, j | 0 <= i < j < |w[0].tasks| ensures w[0].tasks[i] != w[0].tasks[j] {
      assert Flat(w)[i] == w[0].tasks[i] && Flat(w)[j] == w[0].tasks[j];
    }
  }

  lemma FifoReleaseOk<T>(f: Fifo<T>, t: T)
    requires FifoOk(f) && t in f.running
    ensures FifoOk(FifoRelease(f, t))
  {
    if f.running != {t} {
      assert f.running - {t} != {};
      assert |f.running - {t}| == |f.running| - 1;
    } else if f.waiting != [] {
      var ts := f.waiting[0].tasks;
      assert ts[0] in SetOf(ts);
      if |ts| == 1 {
        assert SetOf(ts) == {ts[0]};
      }
    }
  }

  /** Releasing: `wakeup` leaves the representation of the queue with `t` retired, and
      the tasks it releases are exactly the next generation, in issue order, when `t` was
      the last one running, and none otherwise. */
  lemma WakeupRefines<T>(f: Fifo<T>, t: T)
    requires FifoOk(f) && t in f.running && Distinct(Flat(f.waiting))
    ensures Wakeup(Encode(f)) == (Encode(FifoRelease(f, t)), FifoReleased(f, t))
    ensures FifoOk(FifoRelease(f, t))
  {
    FifoReleaseOk(f, t);
    if f.running == {t} && f.waiting != [] {
      DistinctHead(f.waiting);
      WakeupNext(f, t);
    } else if f.running != {t} {
      WakeupSome(f, t);
    } else {
      WakeupLast(f, t);
    }
  }

  /** The list is empty exactly when at most the running generation is left, the test the
      runtime asserts after every issue. */
  lemma ListEmptyIff<T>(f: Fifo<T>)
    requires FifoOk(f)
    ensures Encode(f).numGens <= 1 <==> Encode(f).tasks == []
    ensures Encode(f).numGens == 0 <==> f.running == {}
    ensures Encode(f).youngestGroup == EMPTY <==> Encode(f).numGens == 0
  {
    if f.waiting != [] {
      EncodeNonempty(f.waiting);
    }
  }

  /** `ini_ready` answers exactly whether `add_task` would grant the access, and when it
      does, the null-frame fast path leaves the same metadata as the general path. */
  lemma FastPath<T>(f: Fifo<T>, t: T, g: Group)
    requires FifoOk(f) && g != EMPTY
    ensures IniReady(Encode(f), g) <==> AddTask(Encode(f), t, g).1
    ensures IniReady(Encode(f), g) ==> AddRunning(Encode(f), g) == AddTask(Encode(f), t, g).0
  {
    GroupTable(Youngest(f), g);
    ListEmptyIff(f);
  }

  lemma {:induction false} FlatAppend<T>(v: seq<Gen<T>>, w: seq<Gen<T>>)
    ensures Flat(v + w) == Flat(v) + Flat(w)
  {
    if v == [] {
      assert v + w == w;
    } else {
      assert (v + w)[1..] == v[1..] + w;
      FlatAppend(v[1..], w);
    }
  }

  /** First in, first out: an issue appends to the waiting tasks or leaves them alone, a
      release drops from the front exactly what it released. */
  lemma FlatFifo<T>(f: Fifo<T>, t: T, g: Group)
    requires FifoOk(f)
    ensures Flat(FifoAdd(f, t, g).waiting) == if Granted(f, g) then Flat(f.waiting) else Flat(f.waiting) + [t]
    ensures Flat(f.waiting) == FifoReleased(f, t) + Flat(FifoRelease(f, t).waiting)
  {
    var w := f.waiting;
    if !Granted(f, g) {
      if w != [] && Compatible(Youngest(f), g) {
        var k := |w| - 1;
        var last := w[k].(tasks := w[k].tasks + [t]);
        FlatAppend(w[..k], [last]);
        FlatAppend(w[..k], [w[k]]);
        assert w == w[..k] + [w[k]];
        assert Flat([last]) == last.tasks + Flat([]) && Flat([w[k]]) == w[k].tasks + Flat([]);
      } else {
        FlatAppend(w, [Gen(g, [t])]);
        assert Flat([Gen(g, [t])]) == [t] + Flat([]);
      }
    }
  }
}
