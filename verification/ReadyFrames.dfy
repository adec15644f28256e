/** Lists of ready pending frames, linked through the frames themselves. */
module ReadyFrames {
  import opened ReadyQueues
  import opened Sequences

  // The fields of a pending frame that the dataflow engine uses.
  class PendingFrame {
    var incomingCount: int
    var nextReadyFrame: PendingFrame?

    // The count starts at 1: the issue guard.
    constructor ()
      ensures incomingCount == 1 && nextReadyFrame == null
    {
      incomingCount := 1;
      nextReadyFrame := null;
    }
  }

  // Each frame links to the next one in `c`, the last one to nothing.
  ghost predicate Chain(c: seq<PendingFrame>)
    reads c
  {
    && (forall i, j :: 0 <= i < j < |c| && j == i + 1 ==> c[i].nextReadyFrame == c[j])
    && (c != [] ==> c[|c| - 1].nextReadyFrame == null)
  }

  // A chain that ends does not visit a frame twice.
  lemma {:induction false} ChainDiffers(c: seq<PendingFrame>, i: nat, j: nat)
    requires Chain(c) && i < j < |c|
    ensures c[i] != c[j]
    decreases |c| - j
  {
    assert c[i].nextReadyFrame == c[i + 1];
    if j + 1 < |c| {
      ChainDiffers(c, i + 1, j + 1);
      assert c[j].nextReadyFrame == c[j + 1];
    }
  }

  lemma LinkedDiffers(c: seq<PendingFrame>)
    requires Chain(c)
    ensures Distinct(c)
  {
    forall i, j | 0 <= i < j < |c| ensures c[i] != c[j] {
      ChainDiffers(c, i, j);
    }
  }

  /** The list structure doubles as a frame whose only field is the link to the first
      ready frame: `head` is that frame, so that an append never tests for emptiness. */
  class ReadyList {
    const head: PendingFrame
    var tail: PendingFrame
    ghost var frames: seq<PendingFrame>

    // The links from the head run through `frames`, and through nothing else.
    ghost predicate Linked()
      reads this, head, frames
    {
      && head !in frames && Chain(frames)
      && head.nextReadyFrame == (if frames == [] then null else frames[0])
    }

    ghost predicate Attached()
      reads this
    {
      tail == (if frames == [] then head else frames[|frames| - 1])
    }

    ghost predicate Valid()
      reads this, head, frames
    {
      Linked() && Attached()
    }

    // The tail has been left on a frame outside the list.
    ghost predicate Detached()
      reads this, tail
    {
      frames != [] && tail != head && tail !in frames && tail.nextReadyFrame == null
    }

    ghost predicate Usable()
      reads this, head, frames, tail
    {
      Linked() && (Attached() || Detached())
    }

    // The list as a value.
    ghost function View(): Queue<PendingFrame>
      reads this
    {
      Queue(frames, Attached())
    }

    constructor (head: PendingFrame)
      requires head.nextReadyFrame == null
      ensures Valid() && this.head == head && View() == EmptyQueue()
    {
      this.head, tail, frames := head, head, [];
    }

    // Appends one frame.
    method Append(t: PendingFrame)
      requires Usable() && t != head && t !in frames && t != tail
      modifies this`tail, this`frames, t`nextReadyFrame, tail`nextReadyFrame
      ensures Usable() && View() == Publish(old(View()), [t]) && tail == t
      ensures if old(Attached()) then frames == old(frames) + [t] && Valid() else frames == old(frames) && !Attached()
    {
      t.nextReadyFrame := null;
      tail.nextReadyFrame := t;
      if Attached() {
        frames := frames + [t];
      }
      tail := t;
    }

    // Appends a whole list, keeping the order of both.
    method MoveFrom(rlist: ReadyList)
      requires Usable() && rlist.Valid() && rlist != this
      requires forall t :: t in rlist.frames ==> t != head && t !in frames && t != tail
      modifies this`tail, this`frames, tail`nextReadyFrame
      ensures Usable() && View() == Publish(old(View()), rlist.frames)
      ensures if old(Attached()) then frames == old(frames) + rlist.frames && Valid() else frames == old(frames)
      ensures tail == if rlist.frames == [] then old(tail) else rlist.tail
    {
      if rlist.head.nextReadyFrame != null {
        assert rlist.tail in rlist.frames;
        tail.nextReadyFrame := rlist.head.nextReadyFrame;
        if Attached() {
          frames := frames + rlist.frames;
        }
        tail := rlist.tail;
      }
    }

    // Unlinks the first frame that may run here, if there is one, and returns it.
    method Steal(mayRun: PendingFrame -> bool) returns (pf: PendingFrame?)
      requires Usable() && frames != []
      modifies this`tail, this`frames, head, frames
      ensures Usable()
      ensures var k := FirstMatch(old(frames), mayRun);
              if k == |old(frames)| then pf == null && View() == old(View()) && tail == old(tail)
              else
                && pf == old(frames)[k] && View() == Take(old(View()), k)
                && tail == if frames == [] then head else old(tail)
      ensures pf == null ==> frames == old(frames) && forall i :: 0 <= i < |frames| ==> !mayRun(frames[i])
      ensures pf != null ==>
                && mayRun(pf)
                && exists k ::
                     && 0 <= k < |old(frames)| && pf == old(frames)[k]
                     && frames == old(frames)[..k] + old(frames)[k + 1..]
                     && forall i :: 0 <= i < k ==> !mayRun(old(frames)[i])
      ensures pf != null && old(Valid()) ==>
                (Valid() <==> |old(frames)| == 1 || exists i :: 0 <= i < |old(frames)| - 1 && mayRun(old(frames)[i]))
    {
      var qf;
      ghost var k;
      qf, pf, k := Find(mayRun);
      if pf == null {
        return;
      }
      TakeAttached(View(), mayRun);
      TakeOut(qf, pf, k);
    }

    // Unlinks the frame at position `k`; only an empty list gets its tail back.
    method TakeOut(qf: PendingFrame, pf: PendingFrame, ghost k: nat)
      requires Usable() && k < |frames| && pf == frames[k] && qf == if k == 0 then head else frames[k - 1]
      modifies this`tail, this`frames, qf`nextReadyFrame
      ensures Usable() && View() == Take(old(View()), k)
      ensures tail == if frames == [] then head else old(tail)
    {
      LinkedDiffers(frames);
      CutLast(frames, k);
      Unlink(qf, pf, k);
      if head.nextReadyFrame == null {
        tail := head;
      }
    }

    // The first frame that may run here, at position `k`, and the one before it.
    method Find(mayRun: PendingFrame -> bool) returns (qf: PendingFrame, pf: PendingFrame?, ghost k: nat)
      requires Linked()
      ensures k == FirstMatch(frames, mayRun)
      ensures qf == (if k == 0 then head else frames[k - 1])
      ensures pf == if k == |frames| then null else frames[k]
    {
      qf := head;
      pf := head.nextReadyFrame;
      k := 0;
      while pf != null && !mayRun(pf)
        invariant k <= |frames|
        invariant qf == if k == 0 then head else frames[k - 1]
        invariant pf == if k == |frames| then null else frames[k]
        invariant forall i :: 0 <= i < k ==> !mayRun(frames[i])
        decreases |frames| - k
      {
        qf := pf;
        pf := pf.nextReadyFrame;
        k := k + 1;
      }
    }

    // Takes the frame at position `k` out of the links; the tail stays where it is.
    method Unlink(qf: PendingFrame, pf: PendingFrame, ghost k: nat)
      requires Linked() && k < |frames| && pf == frames[k] && qf == if k == 0 then head else frames[k - 1]
      modifies this`frames, qf`nextReadyFrame
      ensures Linked() && frames == CutAt(old(frames), k)
      ensures head.nextReadyFrame == null <==> frames == []
    {
      forall i | 0 <= i < |frames| && i + 1 != k ensures frames[i] != qf {
        if 0 < k {
          if i < k - 1 {
            ChainDiffers(frames, i, k - 1);
          } else {
            ChainDiffers(frames, k - 1, i);
          }
        }
      }
      qf.nextReadyFrame := pf.nextReadyFrame;
      frames := CutAt(frames, k);
    }
  }

  /** The failing case of `Steal` on concrete frames: when a worker may run only the second
      of two ready frames, taking it leaves the tail pointing to the frame taken. */
  method StealLast(first: PendingFrame, second: PendingFrame, head: PendingFrame) returns (l: ReadyList)
    requires first != second && first != head && second != head && head.nextReadyFrame == null
    modifies first, second, head
    ensures fresh(l) && l.head == head && l.frames == [first] && l.Usable()
    ensures l.tail == second && !l.Valid()
  {
    l := new ReadyList(head);
    l.Append(first);
    l.Append(second);
    var pf := l.Steal(t => t == second);
  }

  /** The next append is then lost: the links from the head still end at the first frame. */
  method LostAppend(first: PendingFrame, second: PendingFrame, third: PendingFrame, head: PendingFrame)
    returns (l: ReadyList)
    requires first != second && first != head && second != head && head.nextReadyFrame == null
    requires third != first && third != second && third != head
    modifies first, second, third, head
    ensures l.Linked() && l.head == head && l.frames == [first]
    ensures head.nextReadyFrame == first && first.nextReadyFrame == null && l.tail == third
  {
    l := StealLast(first, second, head);
    l.Append(third);
  }
}
