/** The release loop that walks the list in place does what the release step of the engine does. */
module ReleaseInPlace {
  import opened Dataflow
  import opened ReadyFrames
  import opened Sequences
  import opened TaskList

  // Granting one more frame.
  lemma {:induction false} GrantMore<V>(frames: seq<Frame<V>>, ready: seq<nat>, rel: seq<nat>, t: nat)
    requires t < |frames| && forall i :: 0 <= i < |rel| ==> rel[i] < |frames|
    ensures var (fs, rs) := Grant(frames, ready, rel);
            Grant(frames, ready, rel + [t]) ==
            (fs[t := fs[t].(incoming := fs[t].incoming - 1)], if fs[t].incoming == 1 then rs + [t] else rs)
    decreases |rel|
  {
    if rel == [] {
      assert (rel + [t])[1..] == [];
    } else {
      var u := rel[0];
      var f := frames[u];
      assert (rel + [t])[1..] == rel[1..] + [t];
      GrantMore(frames[u := f.(incoming := f.incoming - 1)], if f.incoming == 1 then ready + [u] else ready, rel[1..], t);
    }
  }

  // A frame not granted before is gathered if its count is one.
  lemma GrantLast<V>(frames: seq<Frame<V>>, rel: seq<nat>, t: nat)
    requires t < |frames| && t !in rel && Distinct(rel) && forall i :: 0 <= i < |rel| ==> rel[i] < |frames|
    ensures Grant(frames, [], rel + [t]).1 ==
            Grant(frames, [], rel).1 + if frames[t].incoming == 1 then [t] else []
  {
    GrantMore(frames, [], rel, t);
    GrantFrames(frames, [], rel, t);
  }

  // The frame object `x` and the frame `t` of the engine are the same one of the first `n`.
  ghost predicate Same(ts: seq<PendingFrame>, rel: seq<nat>, n: nat, x: PendingFrame, t: nat) {
    exists i :: 0 <= i < n && i < |ts| && i < |rel| && x == ts[i] && t == rel[i]
  }

  // One more pair.
  lemma SameMore(ts: seq<PendingFrame>, init: seq<nat>, t: nat, n: nat, ps: seq<PendingFrame>, rs: seq<nat>, more: bool)
    requires 0 < n == |init| + 1 <= |ts| && |ps| == |rs|
    requires forall a :: 0 <= a < |ps| ==> Same(ts, init, n - 1, ps[a], rs[a])
    ensures var ps', rs' := ps + (if more then [ts[n - 1]] else []), rs + if more then [t] else [];
            |ps'| == |rs'| && forall a :: 0 <= a < |ps'| ==> Same(ts, init + [t], n, ps'[a], rs'[a])
  {
    var ps', rs' := ps + (if more then [ts[n - 1]] else []), rs + if more then [t] else [];
    forall a | 0 <= a < |ps'| ensures Same(ts, init + [t], n, ps'[a], rs'[a]) {
      if a < |ps| {
        assert Same(ts, init, n - 1, ps[a], rs[a]);
        var i :| 0 <= i < n - 1 && ps[a] == ts[i] && rs[a] == init[i];
        assert (init + [t])[i] == init[i];
      } else {
        assert (init + [t])[n - 1] == t;
      }
    }
  }

  lemma {:induction false} PublishedGranted<V>(ts: seq<PendingFrame>, counts: seq<int>, n: nat, frames: seq<Frame<V>>,
                                               rel: seq<nat>)
    requires n == |rel| <= |ts| == |counts| && Distinct(rel)
    requires forall i :: 0 <= i < n ==> rel[i] < |frames| && frames[rel[i]].incoming == counts[i]
    ensures var ps, rs := Published(ts, counts, n), Grant(frames, [], rel).1;
            |ps| == |rs| && forall a :: 0 <= a < |ps| ==> Same(ts, rel, n, ps[a], rs[a])
    decreases n
  {
    if n > 0 {
      var init, t := rel[..n - 1], rel[n - 1];
      assert rel == init + [t];
      PublishedGranted(ts, counts, n - 1, frames, init);
      GrantLast(frames, init, t);
      SameMore(ts, init, t, n, Published(ts, counts, n - 1), Grant(frames, [], init).1, counts[n - 1] == 1);
    }
  }

  /** Whoever has been released in place has been released in the engine: where the counts of the
      waiting frames `ts` were those of the frames `rel` of the engine, the counts agree afterwards,
      and the frames appended to the ready list are, one by one, those that the engine gathers. */
  lemma GrantInPlace<V>(rlist: ReadyList, was: seq<PendingFrame>, ts: seq<PendingFrame>, counts: seq<int>, n: nat,
                        frames: seq<Frame<V>>, rel: seq<nat>)
    requires Released(rlist, was, ts, counts, n) && n == |rel| && Distinct(rel)
    requires forall i :: 0 <= i < n ==> rel[i] < |frames| && frames[rel[i]].incoming == counts[i]
    ensures var (fs, rs) := Grant(frames, [], rel);
            && (forall i :: 0 <= i < n ==> fs[rel[i]].incoming == ts[i].incomingCount)
            && |rlist.frames| == |was| + |rs| && was <= rlist.frames
            && forall a :: 0 <= a < |rs| ==> Same(ts, rel, n, rlist.frames[|was| + a], rs[a])
  {
    PublishedGranted(ts, counts, n, frames, rel);
    forall i | 0 <= i < n ensures Grant(frames, [], rel).0[rel[i]].incoming == ts[i].incomingCount {
      GrantFrames(frames, [], rel, rel[i]);
      assert rel[i] in rel;
    }
  }
}
