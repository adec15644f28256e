/** A worker's ready list as a value. Whoever appends writes through the tail pointer; when the
    tail has been left on a frame that is no longer in the list, what is appended cannot be reached
    from the head. */
module ReadyQueues {
  import opened Sequences

  // `attached`: the tail is the last frame of the list, or its head if there is none.
  datatype Queue<T> = Queue(frames: seq<T>, attached: bool)

  function EmptyQueue<T>(): Queue<T> {
    Queue([], true)
  }

  // The list after the frames `ts` have been appended.
  function Publish<T>(q: Queue<T>, ts: seq<T>): Queue<T> {
    if q.attached then q.(frames := q.frames + ts) else q
  }

  // Which of them are not in it.
  ghost function Lost<T>(q: Queue<T>, ts: seq<T>): set<T> {
    if q.attached then {} else SetOf(ts)
  }

  // The position of the first frame that fits a worker; the length of the list if none does.
  function FirstMatch<T>(ts: seq<T>, fits: T -> bool): (k: nat)
    ensures k <= |ts| && (forall i :: 0 <= i < k ==> !fits(ts[i])) && (k < |ts| ==> fits(ts[k]))
  {
    if ts == [] || fits(ts[0]) then 0 else 1 + FirstMatch(ts[1..], fits)
  }

  // The list after the frame at position `k` has been taken: the tail is repaired only when the
  // list is empty.
  function Take<T>(q: Queue<T>, k: nat): Queue<T>
    requires k < |q.frames|
  {
    var rest := CutAt(q.frames, k);
    Queue(rest, rest == [] || (q.attached && k < |rest|))
  }

  /** Exactly when taking the first frame that fits leaves the tail where it should be: there
      is only one frame, or the tail was right before and a frame other than the last fits. */
  lemma TakeAttached<T>(q: Queue<T>, fits: T -> bool)
    requires FirstMatch(q.frames, fits) < |q.frames|
    ensures Take(q, FirstMatch(q.frames, fits)).attached <==>
            |q.frames| == 1 || (q.attached && exists i :: 0 <= i < |q.frames| - 1 && fits(q.frames[i]))
  {
    var k := FirstMatch(q.frames, fits);
    assert |CutAt(q.frames, k)| == |q.frames| - 1;
    if k < |q.frames| - 1 {
      assert fits(q.frames[k]);
    }
  }

  /** When every frame fits, the first one is taken and the tail stays right. */
  lemma TakeAny<T>(q: Queue<T>, fits: T -> bool)
    requires q.attached && q.frames != [] && forall i :: 0 <= i < |q.frames| ==> fits(q.frames[i])
    ensures FirstMatch(q.frames, fits) == 0
    ensures Take(q, 0) == Queue(q.frames[1..], true)
  {
    assert CutAt(q.frames, 0) == q.frames[1..];
  }
}
