/** The metadata of one object as the runtime keeps it: a sentinel-headed linked list of
    task nodes, updated in place. Every operation is proved against the function of
    `ObjMetadata` that describes it. */
module TaskList {
  import opened ObjMetadata
  import opened ReadyFrames
  import opened Sequences
  import opened Unfolding

  /** A list node. The runtime packs the frame pointer and the "last in generation" bit into
      one word; frames are aligned, so the bit is free. */
  class TaskNode {
    var next: TaskNode?
    var task: PendingFrame?
    var last: bool

    constructor ()
      ensures next == null && task == null && !last
    {
      next, task, last := null, null, false;
    }
  }

  // Those of the first `n` frames whose count was at one, in order.
  ghost function Published(ts: seq<PendingFrame>, counts: seq<int>, n: nat): seq<PendingFrame>
    requires n <= |ts| == |counts|
  {
    if n == 0 then []
    else Published(ts, counts, n - 1) + if counts[n - 1] == 1 then [ts[n - 1]] else []
  }

  /** The first `n` of the waiting frames `ts` have been counted down once each and the others
      not, and those that were at one have been appended to the ready list in order. */
  ghost predicate Released(rlist: ReadyList, was: seq<PendingFrame>, ts: seq<PendingFrame>, counts: seq<int>, n: nat)
    reads rlist, rlist.head, rlist.frames, ts
  {
    && rlist.Valid() && n <= |ts| == |counts|
    && (forall j :: 0 <= j < |ts| ==> ts[j].incomingCount == counts[j] - (if j < n then 1 else 0))
    && rlist.frames == was + Published(ts, counts, n)
  }

  /** From `was` to `now` exactly those of the first `n` frames have been appended whose count is now
      zero, each once and in the order of `ts`. */
  ghost predicate Gathered(was: seq<PendingFrame>, now: seq<PendingFrame>, ts: seq<PendingFrame>, n: nat)
    reads ts
  {
    && was <= now && n <= |ts|
    && (forall j :: 0 <= j < |ts| ==> (ts[j] in now[|was|..] <==> j < n && ts[j].incomingCount == 0))
    && (forall a :: |was| <= a < |now| ==> now[a] in ts)
    && (forall a, b :: |was| <= a < b < |now| ==> exists i, j :: 0 <= i < j < n && now[a] == ts[i] && now[b] == ts[j])
  }

  lemma {:induction false} PublishedIs(ts: seq<PendingFrame>, counts: seq<int>, n: nat)
    requires n <= |ts| == |counts| && Distinct(ts)
    ensures var ps := Published(ts, counts, n);
            && (forall j :: 0 <= j < |ts| ==> (ts[j] in ps <==> j < n && counts[j] == 1))
            && (forall a :: 0 <= a < |ps| ==> exists i :: 0 <= i < n && ps[a] == ts[i])
            && (forall a, b :: 0 <= a < b < |ps| ==> exists i, j :: 0 <= i < j < n && ps[a] == ts[i] && ps[b] == ts[j])
  {
    if n > 0 {
      PublishedIs(ts, counts, n - 1);
      var was, ps := Published(ts, counts, n - 1), Published(ts, counts, n);
      forall a, b | 0 <= a < b < |ps|
        ensures exists i, j :: 0 <= i < j < n && ps[a] == ts[i] && ps[b] == ts[j]
      {
        assert ps[a] == was[a];
        if b == |was| {
          var i :| 0 <= i < n - 1 && was[a] == ts[i];
          assert ps[b] == ts[n - 1];
        } else {
          var i, j :| 0 <= i < j < n - 1 && was[a] == ts[i] && was[b] == ts[j];
          assert ps[b] == ts[j];
        }
      }
    }
  }

  lemma ReleasedGathers(rlist: ReadyList, was: seq<PendingFrame>, ts: seq<PendingFrame>, counts: seq<int>, n: nat)
    requires Released(rlist, was, ts, counts, n) && Distinct(ts)
    ensures Gathered(was, rlist.frames, ts, n)
  {
    PublishedIs(ts, counts, n);
    var ps, now := Published(ts, counts, n), rlist.frames;
    assert now[|was|..] == ps;
    forall a, b | |was| <= a < b < |now|
      ensures exists i, j :: 0 <= i < j < n && now[a] == ts[i] && now[b] == ts[j]
    {
      var i, j :| 0 <= i < j < n && ps[a - |was|] == ts[i] && ps[b - |was|] == ts[j];
    }
  }

  // From the `n`-th on, the frames `ts` are not on the ready list.
  ghost predicate Unlisted(rlist: ReadyList, ts: seq<PendingFrame>, n: nat)
    reads rlist
  {
    forall j :: n <= j < |ts| ==> ts[j] != rlist.head && ts[j] !in rlist.frames
  }

  // The release loop stops after `n` nodes exactly when these are the first generation.
  lemma {:induction false} GenLengthIs<T>(q: seq<Node<T>>, n: nat)
    requires n <= |q|
    requires forall j :: 0 <= j < n - 1 ==> !q[j].last
    requires n == |q| || (n > 0 && q[n - 1].last)
    ensures GenLength(q) == n
  {
    if n > 0 && !q[0].last {
      GenLengthIs(q[1..], n - 1);
    }
  }

  class Metadata {
    var oldestNumTasks: int
    var youngestGroup: Group
    var numGens: int
    const head: TaskNode
    var tail: TaskNode
    ghost var nodes: seq<TaskNode>
    ghost var list: seq<Node<PendingFrame>>  // what the nodes hold

    ghost function LastNode(): TaskNode
      reads `nodes
    {
      if nodes == [] then head else nodes[|nodes| - 1]
    }

    // The links run from the head through `nodes`, which hold `list`, to the tail.
    ghost predicate Wired()
      reads `tail, `nodes, `list, head, nodes
    {
      && head !in nodes
      && head.next == (if nodes == [] then null else nodes[0])
      && (forall i, j :: 0 <= i < j < |nodes| && j == i + 1 ==> nodes[i].next == nodes[j])
      && LastNode().next == null
      && tail == LastNode()
      && |list| == |nodes|
      && (forall i :: 0 <= i < |nodes| ==> list[i].task == nodes[i].task && list[i].last == nodes[i].last)
    }

    ghost predicate Valid()
      reads `tail, `nodes, `list, head, nodes
    {
      |list| == |nodes| && forall n: nat {:trigger Marker(list, n)} :: Marker(list, n) ==> Wired()
    }

    lemma ValidMeans()
      ensures Valid() <==> Wired()
    {
      assert Marker(list, 0);
    }

    lemma FirstNode()
      requires Valid()
      ensures head.next == if nodes == [] then null else nodes[0]
    {
      ValidMeans();
    }

    lemma NodeAt(i: nat)
      requires Valid() && i < |nodes|
      ensures nodes[i].task == list[i].task && nodes[i].last == list[i].last
      ensures nodes[i].next == if i + 1 == |nodes| then null else nodes[i + 1]
    {
      ValidMeans();
    }

    // The metadata as a value.
    ghost function View(): Meta<PendingFrame>
      reads this
    {
      Meta(oldestNumTasks, youngestGroup, numGens, list)
    }

    constructor ()
      ensures Valid() && View() == Init() && fresh(head)
    {
      oldestNumTasks, youngestGroup, numGens := 0, EMPTY, 0;
      var h := new TaskNode();
      head, tail, nodes, list := h, h, [], [];
      new;
      ValidMeans();
    }

    // Issues one access of group `g`; `tags` is the node reserved in the frame's arguments.
    method AddTask(t: PendingFrame?, tags: TaskNode, g: Group)
      requires Valid() && tags != head && tags !in nodes
      modifies this, tags, tail, if t == null then {} else {t as object}
      ensures Valid()
      ensures t == null ==> View() == AddRunning(old(View()), g)
      ensures t != null ==>
                && View() == ObjMetadata.AddTask(old(View()), t, g).0
                && t.incomingCount == old(t.incomingCount) + (if ObjMetadata.AddTask(old(View()), t, g).1 then 0 else 1)
                && t.nextReadyFrame == old(t.nextReadyFrame)
    {
      tags.task, tags.last := t, false;
      if t == null {
        numGens := 1;
        oldestNumTasks := oldestNumTasks + 1;
        youngestGroup := g;
      } else {
        AddPending(t, tags, g);
      }
    }

    // The general path: the task is a frame that may have to wait.
    method AddPending(t: PendingFrame, tags: TaskNode, g: Group)
      requires Valid() && tags != head && tags !in nodes && tags.task == t && !tags.last
      modifies this, tags`next, tail`next, tail`last, t`incomingCount
      ensures Valid()
      ensures View() == ObjMetadata.AddTask(old(View()), t, g).0
      ensures t.incomingCount == old(t.incomingCount) + (if ObjMetadata.AddTask(old(View()), t, g).1 then 0 else 1)
    {
      ghost var m := View();
      var pushg := Pushes(youngestGroup, g);
      var ready := Joins(youngestGroup, g) && numGens <= 1;
      numGens := numGens + if pushg then 1 else 0;
      oldestNumTasks := oldestNumTasks + if ready then 1 else 0;
      youngestGroup := g;
      if !ready {
        t.incomingCount := t.incomingCount + 1;
        Enqueue(tags, pushg);
      }
      assert View() == Issued(m, t, g, ready, pushg);
    }

    // Links `tags` behind the tail, after marking the old tail as told by `pushg`.
    method Enqueue(tags: TaskNode, pushg: bool)
      requires Valid() && tags != head && tags !in nodes && tags.task != null && !tags.last
      modifies this`tail, this`nodes, this`list, tags`next, tail`next, tail`last
      ensures Valid() && nodes == old(nodes) + [tags]
      ensures list == SetLast(old(list), pushg) + [Node(tags.task, false)]
    {
      ValidMeans();
      var oldTail := tail;
      forall i | 0 <= i < |nodes| - 1 ensures nodes[i] != oldTail {
        assert nodes[i].next == nodes[i + 1];
      }
      tags.next := null;
      oldTail.next := tags;
      oldTail.last := pushg;
      tail := tags;
      nodes := nodes + [tags];
      list := SetLast(list, pushg) + [Node(tags.task, false)];
      ValidMeans();
    }

    /** The waiting frames `ts`, with counts `counts`, are all different, none of them is on
        the ready list, and `ws` contains them. */
    ghost predicate Releasable(rlist: ReadyList, ws: set<PendingFrame>, ts: seq<PendingFrame>, counts: seq<int>)
      reads `tail, `nodes, `list, head, nodes, rlist, rlist.head, rlist.frames, ts
    {
      && Valid() && ts == TasksOf(list) && Distinct(ts)
      && (forall t :: t in ts ==> t in ws && t != rlist.head && t !in rlist.frames)
      && Released(rlist, rlist.frames, ts, counts, 0)
    }

    // One running task gives the object up; frames released by that go to `rlist`.
    method Wakeup(rlist: ReadyList, ghost ws: set<PendingFrame>, ghost ts: seq<PendingFrame>, ghost counts: seq<int>)
      requires Releasable(rlist, ws, ts, counts)
      modifies this, head`next, rlist`tail, rlist`frames, rlist.tail`nextReadyFrame
      modifies ws`incomingCount, ws`nextReadyFrame
      ensures Valid() && View() == ObjMetadata.Wakeup(old(View())).0
      ensures Released(rlist, old(rlist.frames), ts, counts, |ObjMetadata.Wakeup(old(View())).1|)
      ensures Gathered(old(rlist.frames), rlist.frames, ts, |ObjMetadata.Wakeup(old(View())).1|)
    {
      ghost var m := View();
      oldestNumTasks := oldestNumTasks - 1;
      if oldestNumTasks > 0 {
      } else if numGens == 1 {
        numGens := 0;
        youngestGroup := EMPTY;
      } else {
        assert ObjMetadata.Wakeup(m) == ObjMetadata.WakeupHard(View());
        WakeupHard(rlist, ws, ts, counts);
      }
    }

    // Releases the oldest waiting generation.
    method WakeupHard(rlist: ReadyList, ghost ws: set<PendingFrame>, ghost ts: seq<PendingFrame>, ghost counts: seq<int>)
      requires Releasable(rlist, ws, ts, counts)
      modifies this, head`next, rlist`tail, rlist`frames, rlist.tail`nextReadyFrame
      modifies ws`incomingCount, ws`nextReadyFrame
      ensures Valid() && View() == ObjMetadata.WakeupHard(old(View())).0
      ensures Released(rlist, old(rlist.frames), ts, counts, |ObjMetadata.WakeupHard(old(View())).1|)
      ensures Gathered(old(rlist.frames), rlist.frames, ts, |ObjMetadata.WakeupHard(old(View())).1|)
    {
      ghost var was := rlist.frames;
      var newTasks, iNext := ReleaseLoop(rlist, ws, ts, counts);
      PopGeneration(newTasks, iNext);
      ReleasedGathers(rlist, was, ts, counts, newTasks);
    }

    // The first `n` nodes have been released: their generation is now the oldest.
    method PopGeneration(n: nat, iNext: TaskNode?)
      requires Valid() && n <= |nodes| && iNext == if n == |nodes| then null else nodes[n]
      modifies this, head`next
      ensures Valid()
      ensures View() == Meta(n,
                             if old(list)[n..] == [] && old(numGens) - 1 == 0 then EMPTY else old(youngestGroup),
                             old(numGens) - 1,
                             old(list)[n..])
    {
      ValidMeans();
      oldestNumTasks := n;
      numGens := numGens - 1;
      if iNext != null {
        head.next := iNext;
      } else {
        head.next := null;
        tail := head;
        if numGens == 0 {
          youngestGroup := EMPTY;
        }
      }
      nodes, list := nodes[n..], list[n..];
      ValidMeans();
    }

    // One iteration of the release loop.
    method Visit(rlist: ReadyList, t: PendingFrame, ghost was: seq<PendingFrame>, ghost ts: seq<PendingFrame>,
                 ghost counts: seq<int>, ghost n: nat)
      requires Released(rlist, was, ts, counts, n) && n < |ts| && t == ts[n]
      requires Distinct(ts) && Unlisted(rlist, ts, n)
      modifies rlist`tail, rlist`frames, rlist.tail`nextReadyFrame, t`incomingCount, t`nextReadyFrame
      ensures t.incomingCount == old(t.incomingCount) - 1
      ensures rlist.frames == old(rlist.frames) + if t.incomingCount == 0 then [t] else []
      ensures Released(rlist, was, ts, counts, n + 1)
      ensures Unlisted(rlist, ts, n + 1)
      ensures rlist.tail == old(rlist.tail) || rlist.tail == t
    {
      t.incomingCount := t.incomingCount - 1;
      if t.incomingCount == 0 {
        rlist.Append(t);
      }
    }

    // Walks the first generation, counting its frames down and publishing those at zero.
    method ReleaseLoop(rlist: ReadyList, ghost ws: set<PendingFrame>, ghost ts: seq<PendingFrame>, ghost counts: seq<int>)
      returns (newTasks: nat, iNext: TaskNode?)
      requires Releasable(rlist, ws, ts, counts)
      modifies rlist`tail, rlist`frames, rlist.tail`nextReadyFrame
      modifies ws`incomingCount, ws`nextReadyFrame
      ensures newTasks == GenLength(list)
      ensures iNext == if newTasks == |nodes| then null else nodes[newTasks]
      ensures Released(rlist, old(rlist.frames), ts, counts, newTasks)
      ensures Gathered(old(rlist.frames), rlist.frames, ts, newTasks)
    {
      FirstNode();
      var i := head.next;
      iNext := null;
      newTasks := 0;
      ghost var was := rlist.frames;
      while i != null
        invariant newTasks <= |nodes|
        invariant i == if newTasks == |nodes| then null else nodes[newTasks]
        invariant forall j :: 0 <= j < newTasks ==> !list[j].last
        invariant newTasks == 0 ==> iNext == null
        invariant newTasks > 0 ==> iNext == i
        invariant rlist.tail == old(rlist.tail) || rlist.tail in ws
        invariant Unlisted(rlist, ts, newTasks)
        invariant Released(rlist, was, ts, counts, newTasks)
        decreases |nodes| - newTasks
      {
        NodeAt(newTasks);
        var t := i.task;
        iNext := i.next;
        Visit(rlist, t, was, ts, counts, newTasks);
        newTasks := newTasks + 1;
        if i.last {
          break;
        }
        i := iNext;
      }
      GenLengthIs(list, newTasks);
      ReleasedGathers(rlist, was, ts, counts, newTasks);
    }
  }
}
