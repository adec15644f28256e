/** The hierarchy of fiber pools: fibers are kept for reuse in bounded pools, pools that
    overflow give fibers to their parent or back to the heap, and each pool limits how many
    fibers may exist. */
module FiberPool {
  import opened Sequences
  import opened Unfolding

  const BUFFER := 10  // fibers taken out of a pool under one lock

  // ---------------------------------------------------------------------------
  // Fibers and where they are
  // ---------------------------------------------------------------------------

  // `place[f]` is the pool of the existing fiber `f`, -1 if it is in use.
  ghost predicate ListOk(l: seq<nat>, place: map<nat, int>, p: int) {
    && Distinct(l)
    && (forall f: nat :: f in l <==> f in place && place[f] == p)
  }

  // Each list holds the fibers of its pool, and every fiber has a place.
  ghost predicate Listed(fibers: seq<seq<nat>>, place: map<nat, int>) {
    && (forall p: nat {:trigger ListOk(fibers[p], place, p)} :: p < |fibers| ==> ListOk(fibers[p], place, p))
    && (forall f :: f in place ==> -1 <= place[f] < |fibers|)
  }

  ghost predicate ListsOk(fibers: seq<seq<nat>>, place: map<nat, int>) {
    forall n: nat {:trigger Marker(place, n)} :: Marker(place, n) ==> Listed(fibers, place)
  }

  lemma ListsMean(fibers: seq<seq<nat>>, place: map<nat, int>)
    ensures ListsOk(fibers, place) <==> Listed(fibers, place)
  {
    assert Marker(place, 0);
  }

  lemma Pushed(fibers: seq<seq<nat>>, place: map<nat, int>, p: nat, f: nat)
    requires ListsOk(fibers, place) && p < |fibers| && f in place && place[f] == -1
    ensures ListsOk(fibers[p := fibers[p] + [f]], place[f := p])
  {
    var fibers', place' := fibers[p := fibers[p] + [f]], place[f := p];
    ListsMean(fibers, place);
    ListsMean(fibers', place');
    forall q: nat | q < |fibers| ensures ListOk(fibers'[q], place', q) {
      assert ListOk(fibers[q], place, q);
      assert f in fibers[q] <==> f in place && place[f] == q;
    }
  }

  lemma Popped(fibers: seq<seq<nat>>, place: map<nat, int>, p: nat)
    requires ListsOk(fibers, place) && p < |fibers| && fibers[p] != []
    ensures var n := |fibers[p]| - 1;
            var f := fibers[p][n];
            f in place && place[f] == p && ListsOk(fibers[p := fibers[p][..n]], place[f := -1])
  {
    var n := |fibers[p]| - 1;
    var f := fibers[p][n];
    var fibers', place' := fibers[p := fibers[p][..n]], place[f := -1];
    ListsMean(fibers, place);
    ListsMean(fibers', place');
    assert ListOk(fibers[p], place, p);
    assert f in fibers[p] && fibers[p] == fibers[p][..n] + [f];
    forall q: nat | q < |fibers| ensures ListOk(fibers'[q], place', q) {
      assert ListOk(fibers[q], place, q);
      forall g: nat ensures g in fibers'[q] <==> g in place' && place'[g] == q {
        assert g in fibers[q] <==> g in place && place[g] == q;
      }
    }
  }

  lemma Created(fibers: seq<seq<nat>>, place: map<nat, int>, f: nat)
    requires ListsOk(fibers, place) && f !in place
    ensures ListsOk(fibers, place[f := -1])
  {
    ListsMean(fibers, place);
    ListsMean(fibers, place[f := -1]);
    forall q: nat | q < |fibers| ensures ListOk(fibers[q], place[f := -1], q) {
      assert ListOk(fibers[q], place, q);
    }
  }

  lemma Destroyed(fibers: seq<seq<nat>>, place: map<nat, int>, f: nat)
    requires ListsOk(fibers, place) && f in place && place[f] == -1
    ensures ListsOk(fibers, place - {f}) && |place - {f}| == |place| - 1
  {
    assert place == (place - {f})[f := -1];
    ListsMean(fibers, place);
    ListsMean(fibers, place - {f});
    forall q: nat | q < |fibers| ensures ListOk(fibers[q], place - {f}, q) {
      assert ListOk(fibers[q], place, q);
    }
  }

  // ---------------------------------------------------------------------------
  // Totals
  // ---------------------------------------------------------------------------

  function Sum(t: seq<int>): int {
    if t == [] then 0 else Sum(t[..|t| - 1]) + t[|t| - 1]
  }

  lemma {:induction false} SumUpdate(t: seq<int>, i: nat, x: int)
    requires i < |t|
    ensures Sum(t[i := x]) == Sum(t) + x - t[i]
  {
    var n := |t| - 1;
    if i < n {
      SumUpdate(t[..n], i, x);
      assert t[i := x][..n] == t[..n][i := x];
    } else {
      assert t[i := x][..n] == t[..n];
    }
  }

  lemma SumTransfer(t: seq<int>, p: nat, q: nat)
    requires p < |t| && q < |t| && p != q
    ensures Sum(t[q := t[q] + t[p]][p := 0]) == Sum(t)
  {
    SumUpdate(t, q, t[q] + t[p]);
    SumUpdate(t[q := t[q] + t[p]], p, 0);
  }

  lemma {:induction false} SumBound(t: seq<int>, u: seq<int>)
    requires |t| == |u| && forall i :: 0 <= i < |t| ==> t[i] <= u[i]
    ensures Sum(t) <= Sum(u)
  {
    if t != [] {
      SumBound(t[..|t| - 1], u[..|u| - 1]);
    }
  }

  // The totals count the existing fibers but for those on their way to the heap.
  ghost predicate Balanced(total: seq<int>, pending: nat, place: map<nat, int>) {
    forall n: nat {:trigger Marker(total, n)} :: Marker(total, n) ==> Sum(total) + pending == |place|
  }

  lemma BalancedMeans(total: seq<int>, pending: nat, place: map<nat, int>)
    ensures Balanced(total, pending, place) <==> Sum(total) + pending == |place|
  {
    assert Marker(total, 0);
  }

  // Fibers that change their place stay as many.
  lemma BalancedMove(total: seq<int>, pending: nat, place: map<nat, int>, f: nat, p: int)
    requires Balanced(total, pending, place) && f in place
    ensures Balanced(total, pending, place[f := p])
  {
    BalancedMeans(total, pending, place);
    BalancedMeans(total, pending, place[f := p]);
    assert place[f := p].Keys == place.Keys;
    assert |place| == |place.Keys| && |place[f := p]| == |place[f := p].Keys|;
  }

  lemma BalancedUpdate(total: seq<int>, pending: nat, place: map<nat, int>, p: nat, x: int, pending': nat,
                       place': map<nat, int>)
    requires Balanced(total, pending, place) && p < |total|
    requires x - total[p] + pending' - pending == |place'| - |place|
    ensures Balanced(total[p := x], pending', place')
  {
    SumUpdate(total, p, x);
    BalancedMeans(total, pending, place);
    BalancedMeans(total[p := x], pending', place');
  }

  lemma BalancedTransfer(total: seq<int>, pending: nat, place: map<nat, int>, p: nat, q: nat)
    requires Balanced(total, pending, place) && p < |total| && q < |total| && p != q
    ensures Balanced(total[q := total[q] + total[p]][p := 0], pending, place)
  {
    SumTransfer(total, p, q);
    BalancedMeans(total, pending, place);
    BalancedMeans(total[q := total[q] + total[p]][p := 0], pending, place);
  }

  class Pools {
    const parent: seq<int>     // -1 for the root
    const maxSize: seq<nat>
    const allocMax: seq<int>
    var fibers: seq<seq<nat>>  // `size` is the length
    var total: seq<int>
    var highWater: seq<int>
    ghost var place: map<nat, int>
    ghost var pending: nat     // fibers no longer counted that have yet to be returned to the heap

    ghost predicate Valid()
      reads this
    {
      && |parent| == |maxSize| == |allocMax| == |fibers| == |total| == |highWater|
      && (forall p :: 0 <= p < |parent| ==> -1 <= parent[p] < p && maxSize[p] >= 1 && allocMax[p] >= 0)
      && (forall p :: 0 <= p < |parent| ==> |fibers[p]| <= maxSize[p] && total[p] <= allocMax[p])
      && (forall p :: 0 <= p < |parent| ==> highWater[p] >= 0 && total[p] <= highWater[p])
      && ListsOk(fibers, place)
      && Balanced(total, pending, place)
    }

    constructor (parent: seq<int>, maxSize: seq<nat>, allocMax: seq<int>)
      requires |parent| == |maxSize| == |allocMax|
      requires forall p :: 0 <= p < |parent| ==> -1 <= parent[p] < p && maxSize[p] >= 1 && allocMax[p] >= 0
      ensures Valid() && pending == 0 && place == map[] && total == seq(|parent|, _ => 0)
      ensures forall p :: 0 <= p < |highWater| ==> highWater[p] == 0
      ensures this.parent == parent && this.maxSize == maxSize && this.allocMax == allocMax
    {
      this.parent, this.maxSize, this.allocMax := parent, maxSize, allocMax;
      fibers := seq(|parent|, _ => []);
      total := seq(|parent|, _ => 0);
      highWater := seq(|parent|, _ => 0);
      place, pending := map[], 0;
      new;
      NoTotal(total);
      BalancedMeans(total, pending, place);
      ListsMean(fibers, place);
    }

    static lemma {:induction false} NoTotal(t: seq<int>)
      requires forall i :: 0 <= i < |t| ==> t[i] == 0
      ensures Sum(t) == 0
    {
      if t != [] {
        NoTotal(t[..|t| - 1]);
      }
    }

    /** Never more fibers exist than the limits of all pools together allow, although totals
        of single pools may be negative. */
    lemma FibersBounded()
      requires Valid() && pending == 0
      ensures |place| == Sum(total) <= Sum(allocMax)
    {
      BalancedMeans(total, pending, place);
      SumBound(total, allocMax);
    }

    // Takes the last fiber out of a pool; it is in use then.
    method Take(p: nat) returns (f: nat)
      requires Valid() && p < |fibers| && fibers[p] != []
      modifies this`fibers, this`place
      ensures Valid() && f in old(place) && old(place)[f] == p && place == old(place)[f := -1]
      ensures f == old(fibers)[p][|old(fibers)[p]| - 1]
      ensures fibers == old(fibers)[p := old(fibers)[p][..|old(fibers)[p]| - 1]]
    {
      Popped(fibers, place, p);
      var n := |fibers[p]| - 1;
      f := fibers[p][n];
      BalancedMove(total, pending, place, f, -1);
      place := place[f := -1];
      fibers := fibers[p := fibers[p][..n]];
    }

    // Puts a fiber that is in use into a pool with room for it.
    method Put(p: nat, f: nat)
      requires Valid() && p < |fibers| && |fibers[p]| < maxSize[p] && f in place && place[f] == -1
      modifies this`fibers, this`place
      ensures Valid() && place == old(place)[f := p] && fibers == old(fibers)[p := old(fibers)[p] + [f]]
    {
      Pushed(fibers, place, p, f);
      BalancedMove(total, pending, place, f, p);
      place := place[f := p];
      fibers := fibers[p := fibers[p] + [f]];
    }

    /** What serving from pool `q` leaves: the fiber `f`, the last one of the pool or a new one
        counted there. */
    ghost predicate Served(fibers0: seq<seq<nat>>, total0: seq<int>, place0: map<nat, int>, heap: nat -> int, q: int,
                           f: int)
      reads this
    {
      && 0 <= q < |fibers0| && q < |total0| && q < |allocMax| && f >= 0 && place == place0[f := -1]
      && if fibers0[q] != [] then
           && f == fibers0[q][|fibers0[q]| - 1] && total == total0
           && fibers == fibers0[q := fibers0[q][..|fibers0[q]| - 1]]
           && f in place0 && place0[f] == q
         else
           && total0[q] < allocMax[q] && f == heap(q) && f !in place0
           && fibers == fibers0 && total == total0[q := total0[q] + 1]
    }

    /** A fiber that nobody uses, from the pool, from the heap if the limit of the pool allows it,
        or from the ancestors. `heap` is what the heap returns for the pool, -1 if it fails. `chain`
        are the pools asked, each the parent of the one before: all but the last can serve nobody,
        and if the last cannot either, it is the root and nothing changes. */
    method Allocate(p: nat, heap: nat -> int) returns (f: int, ghost chain: seq<nat>)
      requires Valid() && p < |fibers|
      requires forall q: nat :: heap(q) >= -1 && heap(q) !in place
      modifies this`fibers, this`total, this`highWater, this`place
      ensures Valid()
      ensures chain != [] && chain[0] == p
      ensures forall i :: 0 <= i < |chain| ==> chain[i] < |parent|
      ensures forall i :: 1 <= i < |chain| ==> chain[i] == parent[chain[i - 1]]
      ensures forall i :: 0 <= i < |chain| - 1 ==>
                old(fibers)[chain[i]] == [] && (old(total)[chain[i]] >= allocMax[chain[i]] || heap(chain[i]) < 0)
      ensures var q := chain[|chain| - 1];
              if f >= 0 then Served(old(fibers), old(total), old(place), heap, q, f)
              else
                && f == -1 && parent[q] == -1
                && old(fibers)[q] == [] && (old(total)[q] >= allocMax[q] || heap(q) < 0)
                && fibers == old(fibers) && total == old(total) && place == old(place)
      decreases p
    {
      chain := [p];
      f := FromPool(p, heap);
      if f < 0 && parent[p] >= 0 {
        ghost var rest;
        f, rest := Allocate(parent[p], heap);
        chain := [p] + rest;
        assert chain[|chain| - 1] == rest[|rest| - 1];
      }
    }

    // A fiber from this pool or created on its behalf.
    method FromPool(p: nat, heap: nat -> int) returns (f: int)
      requires Valid() && p < |fibers| && heap(p) >= -1 && heap(p) !in place
      modifies this`fibers, this`total, this`highWater, this`place
      ensures Valid() && f >= -1
      ensures f < 0 <==> old(fibers)[p] == [] && (old(total)[p] >= allocMax[p] || heap(p) < 0)
      ensures if f >= 0 then Served(old(fibers), old(total), old(place), heap, p, f)
              else fibers == old(fibers) && total == old(total) && place == old(place)
    {
      if fibers[p] != [] {
        f := Take(p);
      } else {
        f := FromHeap(p, heap(p));
      }
    }

    // A fiber from the heap, `got` being what the heap returns, if the limit of the pool allows it.
    method FromHeap(p: nat, got: int) returns (f: int)
      requires Valid() && p < |fibers| && got >= -1 && got !in place
      modifies this`total, this`highWater, this`place
      ensures Valid()
      ensures if old(total)[p] < allocMax[p] && got >= 0
              then f == got && place == old(place)[f := -1] && total == old(total)[p := old(total)[p] + 1]
              else f == -1 && place == old(place) && total == old(total)
      ensures highWater == if old(total)[p] < allocMax[p] then Raised(old(highWater), p, old(total)[p] + 1)
                           else old(highWater)
    {
      f := -1;
      if total[p] < allocMax[p] {
        if got >= 0 {
          Create(p, got);
          return got;
        }
        Fail(p);
      }
    }

    // A fiber created on behalf of a pool.
    method Create(p: nat, f: nat)
      requires Valid() && p < |fibers| && total[p] < allocMax[p] && f !in place
      modifies this`total, this`highWater, this`place
      ensures Valid() && place == old(place)[f := -1] && total == old(total)[p := old(total)[p] + 1]
      ensures highWater == Raised(old(highWater), p, old(total)[p] + 1)
    {
      Created(fibers, place, f);
      BalancedUpdate(total, pending, place, p, total[p] + 1, pending, place[f := -1]);
      total := total[p := total[p] + 1];
      if highWater[p] < total[p] {
        highWater := highWater[p := total[p]];
      }
      place := place[f := -1];
    }

    // The heap has failed: the increment of the total is undone.
    method Fail(p: nat)
      requires Valid() && p < |fibers| && total[p] < allocMax[p]
      modifies this`total, this`highWater
      ensures Valid() && total == old(total) && highWater == Raised(old(highWater), p, old(total)[p] + 1)
    {
      total := total[p := total[p] + 1];
      if highWater[p] < total[p] {
        highWater := highWater[p := total[p]];
      }
      total := total[p := total[p] - 1];
      assert total == old(total);
    }

    /** Moves fibers to the parent until it is full or `keep` are left, not more and not fewer, and
        hands over a negative total, so that the parent may create more. */
    method MoveToParent(p: nat, keep: nat)
      requires Valid() && p < |fibers| && parent[p] >= 0
      modifies this`fibers, this`place, this`total
      ensures Valid() && Elsewhere(old(place), place, p) && place.Keys == old(place).Keys
      ensures var q := parent[p];
              var n := Moved(|old(fibers)[p]|, keep, |old(fibers)[q]|, maxSize[q]);
              && Shifted(old(fibers), fibers, p, q, n)
              && total == if |old(fibers)[q]| < maxSize[q] && old(total)[p] < 0
                          then old(total)[q := old(total)[q] + old(total)[p]][p := 0] else old(total)
      ensures |fibers[parent[p]]| == maxSize[parent[p]] || |fibers[p]| <= keep
      ensures fibers[p] != old(fibers)[p] ==> |fibers[p]| >= keep
    {
      var q := parent[p];
      ghost var n := 0;
      ShiftNone(fibers, fibers, p, q);
      if |fibers[q]| >= maxSize[q] {
        return;
      }
      while |fibers[q]| < maxSize[q] && |fibers[p]| > keep
        invariant Valid() && Elsewhere(old(place), place, p) && place.Keys == old(place).Keys && total == old(total)
        invariant n <= Moved(|old(fibers)[p]|, keep, |old(fibers)[q]|, maxSize[q])
        invariant Shifted(old(fibers), fibers, p, q, n)
        decreases |fibers[p]|
      {
        ShiftSizes(old(fibers), fibers, p, q, n);
        MoveMore(p, q, old(fibers), n);
        n := n + 1;
      }
      ShiftSizes(old(fibers), fibers, p, q, n);
      if total[p] < 0 {
        HandOver(p, q);
      }
    }

    // One more fiber after `n` others.
    method MoveMore(p: nat, q: nat, ghost was: seq<seq<nat>>, ghost n: nat)
      requires Valid() && p < |fibers| && q < |fibers| && p != q && fibers[p] != [] && |fibers[q]| < maxSize[q]
      requires Shifted(was, fibers, p, q, n)
      modifies this`fibers, this`place
      ensures Valid() && Elsewhere(old(place), place, p) && place.Keys == old(place).Keys
      ensures Shifted(was, fibers, p, q, n + 1)
      ensures |fibers| == |old(fibers)| && |fibers[p]| == |old(fibers)[p]| - 1
    {
      ShiftOne(was, fibers, p, q, n);
      MoveOne(p, q);
    }

    method MoveOne(p: nat, q: nat)
      requires Valid() && p < |fibers| && q < |fibers| && p != q && fibers[p] != [] && |fibers[q]| < maxSize[q]
      modifies this`fibers, this`place
      ensures Valid() && Elsewhere(old(place), place, p) && place.Keys == old(place).Keys
      ensures var k := |old(fibers)[p]| - 1;
              var mid := old(fibers)[p := old(fibers)[p][..k]];
              fibers == mid[q := mid[q] + [old(fibers)[p][k]]]
    {
      var f := Take(p);
      Put(q, f);
    }

    // Moves a negative total to another pool.
    method HandOver(p: nat, q: nat)
      requires Valid() && p < |fibers| && q < |fibers| && p != q && total[p] < 0
      modifies this`total
      ensures Valid() && total == old(total)[q := old(total)[q] + old(total)[p]][p := 0]
    {
      BalancedTransfer(total, pending, place, p, q);
      total := total[q := total[q] + total[p]];
      total := total[p := 0];
    }

    // Gives fibers back to the heap until at most `keep` are left in the pool, and then puts
    // the fiber `back` into it.
    method FreeFibers(p: nat, keep: nat, back: nat)
      requires Valid() && pending == 0 && p < |fibers| && keep < maxSize[p] && back in place && place[back] == -1
      modifies this`fibers, this`place, this`total, this`pending
      ensures Valid() && pending == 0 && Only(old(fibers), fibers, p)
      ensures back in place && place[back] == p && ElsewhereBut(old(place), place, p, back)
      ensures var n := |old(fibers)[p]|;
              var kept := if n > keep then keep else n;
              fibers[p] == old(fibers)[p][..kept] + [back] && total == old(total)[p := old(total)[p] - (n - kept)]
    {
      var returned := false;
      while !returned
        invariant Valid() && pending == 0 && back in place
        invariant place[back] == if returned then p else -1
        invariant ElsewhereBut(old(place), place, p, back) && Only(old(fibers), fibers, p)
        invariant Freed(|old(fibers)[p]|, |fibers[p]|, keep, returned)
        invariant fibers[p] == if returned then old(fibers)[p][..|fibers[p]| - 1] + [back] else old(fibers)[p][..|fibers[p]|]
        invariant total == old(total)[p := old(total)[p] - (|old(fibers)[p]| - |fibers[p]| + if returned then 1 else 0)]
        decreases !returned, |fibers[p]|
      {
        ghost var before := total;
        ghost var n;
        returned, n := FreeSome(p, keep, back);
        assert total == before[p := before[p] - n];
      }
    }

    // One iteration: at most a buffer full is freed; `back` is put back if that was enough.
    method FreeSome(p: nat, keep: nat, back: nat) returns (returned: bool, ghost n: nat)
      requires Valid() && pending == 0 && p < |fibers| && keep < maxSize[p] && back in place && place[back] == -1
      modifies this`fibers, this`place, this`total, this`pending
      ensures Valid() && pending == 0 && Only(old(fibers), fibers, p)
      ensures back in place && place[back] == (if returned then p else -1) && ElsewhereBut(old(place), place, p, back)
      ensures Freed(|old(fibers)[p]|, |fibers[p]|, keep, returned)
      ensures !returned ==> keep < |fibers[p]| && n == BUFFER
      ensures fibers[p] == if returned then old(fibers)[p][..|fibers[p]| - 1] + [back] else old(fibers)[p][..|fibers[p]|]
      ensures n == |old(fibers)[p]| - |fibers[p]| + if returned then 1 else 0
      ensures total == old(total)[p := old(total)[p] - n]
    {
      var buffer := TakeOut(p, keep, back);
      ghost var mid := place;
      n := |buffer|;
      returned := |fibers[p]| <= keep;
      if returned {
        Put(p, back);
      }
      DestroyAll(buffer);
      BackElsewhere(old(place), mid, place, buffer, p, back, returned);
    }

    // Fibers that leave the pool and its count.
    method TakeOut(p: nat, keep: nat, ghost back: nat) returns (buffer: seq<nat>)
      requires Valid() && pending == 0 && p < |fibers| && back in place && place[back] == -1
      modifies this`fibers, this`place, this`total, this`pending
      ensures Valid() && |buffer| + |fibers[p]| == |old(fibers)[p]| && Only(old(fibers), fibers, p)
      ensures |fibers[p]| <= keep || |buffer| == BUFFER
      ensures |fibers[p]| == |old(fibers)[p]| || |fibers[p]| >= keep
      ensures fibers[p] == old(fibers)[p][..|fibers[p]|]
      ensures forall i :: 0 <= i < |buffer| ==> buffer[i] == old(fibers)[p][|old(fibers)[p]| - 1 - i]
      ensures Loose(buffer, place) && Elsewhere(old(place), place, p) && back !in buffer
      ensures From(buffer, old(place), p)
      ensures pending == |buffer| && total == old(total)[p := old(total)[p] - |buffer|]
    {
      buffer := TakeBatch(p, keep, back);
      Discount(p, |buffer|);
    }

    // Takes fibers out of the pool until `keep` are left or the buffer is full.
    method TakeBatch(p: nat, keep: nat, ghost back: nat) returns (buffer: seq<nat>)
      requires Valid() && p < |fibers| && back in place && place[back] == -1
      modifies this`fibers, this`place
      ensures Valid() && |buffer| + |fibers[p]| == |old(fibers)[p]| && Only(old(fibers), fibers, p)
      ensures |fibers[p]| <= keep || |buffer| == BUFFER
      ensures |fibers[p]| == |old(fibers)[p]| || |fibers[p]| >= keep
      ensures fibers[p] == old(fibers)[p][..|fibers[p]|]
      ensures forall i :: 0 <= i < |buffer| ==> buffer[i] == old(fibers)[p][|old(fibers)[p]| - 1 - i]
      ensures Loose(buffer, place) && Elsewhere(old(place), place, p) && back !in buffer
      ensures From(buffer, old(place), p)
    {
      buffer := [];
      while |fibers[p]| > keep && |buffer| < BUFFER
        invariant Valid() && |buffer| + |fibers[p]| == |old(fibers)[p]| && |buffer| <= BUFFER
        invariant Only(old(fibers), fibers, p)
        invariant |fibers[p]| == |old(fibers)[p]| || |fibers[p]| >= keep
        invariant fibers[p] == old(fibers)[p][..|fibers[p]|]
        invariant forall i :: 0 <= i < |buffer| ==> buffer[i] == old(fibers)[p][|old(fibers)[p]| - 1 - i]
        invariant Loose(buffer, place) && Elsewhere(old(place), place, p) && back !in buffer
        invariant From(buffer, old(place), p)
        invariant forall f :: f in place && place[f] != -1 ==> f in old(place) && old(place)[f] == place[f]
        decreases |fibers[p]|
      {
        var f := Take(p);
        buffer := buffer + [f];
      }
    }

    // Fibers leave the count of their pool before they are returned to the heap.
    method Discount(p: nat, n: nat)
      requires Valid() && p < |fibers|
      modifies this`total, this`pending
      ensures Valid() && pending == old(pending) + n && total == old(total)[p := old(total)[p] - n]
    {
      BalancedUpdate(total, pending, place, p, total[p] - n, pending + n, place);
      total := total[p := total[p] - n];
      pending := pending + n;
    }

    method Destroy(f: nat)
      requires Valid() && pending > 0 && f in place && place[f] == -1
      modifies this`place, this`pending
      ensures Valid() && pending == old(pending) - 1 && place == old(place) - {f}
    {
      Destroyed(fibers, place, f);
      BalancedMeans(total, pending, place);
      BalancedMeans(total, pending - 1, place - {f});
      place := place - {f};
      pending := pending - 1;
    }

    // Returns fibers to the heap.
    method DestroyAll(buffer: seq<nat>)
      requires Valid() && pending == |buffer| && Loose(buffer, place)
      modifies this`place, this`pending
      ensures Valid() && pending == 0
      ensures Gone(old(place), place, buffer)
    {
      var i := 0;
      while i < |buffer|
        invariant i <= |buffer| && Valid() && pending == |buffer| - i && Loose(buffer[i..], place)
        invariant Gone(old(place), place, buffer[..i])
      {
        assert buffer[i..] == [buffer[i]] + buffer[i + 1..];
        assert buffer[..i + 1] == buffer[..i] + [buffer[i]];
        Destroy(buffer[i]);
        i := i + 1;
      }
      assert buffer[..i] == buffer;
    }

    // How many fibers a full pool gives to its parent.
    ghost function Given(p: nat): (n: nat)
      requires Valid() && p < |fibers|
      reads this
    {
      if parent[p] < 0 then 0
      else Moved(|fibers[p]|, maxSize[p] / 2 + maxSize[p] / 4, |fibers[parent[p]]|, maxSize[parent[p]])
    }

    // A full pool gives fibers to its parent, if it has one.
    method GiveToParent(p: nat)
      requires Valid() && p < |fibers| && |fibers[p]| == maxSize[p]
      modifies this`fibers, this`place, this`total
      ensures Valid() && Elsewhere(old(place), place, p) && place.Keys == old(place).Keys
      ensures |fibers[p]| == maxSize[p] - old(Given(p)) && Sum(total) == Sum(old(total)) && pending == old(pending)
      ensures old(Given(p)) == 0 ==> total == old(total) && fibers == old(fibers)
      ensures parent[p] >= 0 ==> Shifted(old(fibers), fibers, p, parent[p], old(Given(p)))
      ensures old(Given(p)) > 0 ==>
                parent[p] >= 0 && |fibers[parent[p]]| == |old(fibers)[parent[p]]| + old(Given(p))
      ensures old(Given(p)) == 0 <==> parent[p] < 0 || |old(fibers)[parent[p]]| == maxSize[parent[p]]
      ensures old(Given(p)) > 0 ==>
                && (|fibers[parent[p]]| == maxSize[parent[p]] || |fibers[p]| == maxSize[p] / 2 + maxSize[p] / 4)
                && |fibers[p]| >= maxSize[p] / 2 + maxSize[p] / 4
    {
      if parent[p] >= 0 {
        MoveToParent(p, maxSize[p] / 2 + maxSize[p] / 4);
        ShiftSizes(old(fibers), fibers, p, parent[p], old(Given(p)));
        ShiftNone(old(fibers), fibers, p, parent[p]);
      }
      assert |place| == |place.Keys| && |old(place)| == |old(place).Keys|;
      BalancedMeans(old(total), pending, old(place));
      BalancedMeans(total, pending, place);
    }

    // Puts a fiber into a pool that has been full; one fiber goes to the heap if it still is.
    method PutBack(p: nat, f: nat)
      requires Valid() && pending == 0 && p < |fibers| && |fibers[p]| <= maxSize[p] && f in place && place[f] == -1
      modifies this`fibers, this`place, this`total, this`pending
      ensures Valid() && pending == 0 && Only(old(fibers), fibers, p)
      ensures f in place && place[f] == p && ElsewhereBut(old(place), place, p, f)
      ensures var n := if |old(fibers)[p]| == maxSize[p] then 1 else 0;
              && fibers == old(fibers)[p := old(fibers)[p][..|old(fibers)[p]| - n] + [f]]
              && total == old(total)[p := old(total)[p] - n]
    {
      FreeFibers(p, maxSize[p] - 1, f);
    }

    /** A fiber whose last reference is gone goes back to its pool. A full pool first gives fibers
        to its parent, and only if it could give none, one to the heap. No other fiber in use is
        touched. */
    method DeallocateSelf(p: nat, f: nat)
      requires Valid() && pending == 0 && p < |fibers| && f in place && place[f] == -1
      modifies this`fibers, this`place, this`total, this`pending
      ensures Valid() && pending == 0
      ensures f in place && place[f] == p && ElsewhereBut(old(place), place, p, f)
      ensures |old(fibers)[p]| < maxSize[p] ==>
                fibers == old(fibers)[p := old(fibers)[p] + [f]] && total == old(total) && place == old(place)[f := p]
      ensures |old(fibers)[p]| == maxSize[p] ==>
                (old(Given(p)) == 0 <==> parent[p] < 0 || |old(fibers)[parent[p]]| == maxSize[parent[p]])
      ensures |old(fibers)[p]| == maxSize[p] && old(Given(p)) == 0 ==>
                && fibers == old(fibers)[p := old(fibers)[p][..maxSize[p] - 1] + [f]]
                && total == old(total)[p := old(total)[p] - 1]
      ensures |old(fibers)[p]| == maxSize[p] && old(Given(p)) > 0 ==>
                && fibers[p] == old(fibers)[p][..maxSize[p] - old(Given(p))] + [f] && Sum(total) == Sum(old(total))
                && Shifted(old(fibers), fibers[p := fibers[p][..|fibers[p]| - 1]], p, parent[p], old(Given(p)))
                && parent[p] >= 0 && |fibers[parent[p]]| == |old(fibers)[parent[p]]| + old(Given(p))
      ensures |old(fibers)[p]| == maxSize[p] && old(Given(p)) > 0 ==>
                && (|fibers[parent[p]]| == maxSize[parent[p]] || |fibers[p]| == maxSize[p] / 2 + maxSize[p] / 4 + 1)
                && |fibers[p]| >= maxSize[p] / 2 + maxSize[p] / 4 + 1
    {
      if |fibers[p]| < maxSize[p] {
        Put(p, f);
        return;
      }
      GiveToParent(p);
      ghost var before, mid := total, fibers;
      if old(Given(p)) > 0 {
        ShiftSizes(old(fibers), fibers, p, parent[p], old(Given(p)));
      }
      PutBack(p, f);
      assert before[p := before[p] - 0] == before;
      if old(Given(p)) > 0 {
        TakenBack(mid, fibers, p, f);
      }
    }
  }

  // A pool of `was` fibers of which `keep` are to stay now has `now`; `returned`: one of them has
  // been added.
  ghost predicate Freed(was: nat, now: nat, keep: nat, returned: bool) {
    var left := now - if returned then 1 else 0;
    (left == was || keep <= left <= was) && (returned ==> left <= keep)
  }

  // The last `n` fibers have moved from pool `p` to pool `q`, the last one first.
  ghost predicate Shift(was: seq<seq<nat>>, now: seq<seq<nat>>, p: nat, q: nat, n: nat) {
    && |now| == |was| && p < |was| && q < |was| && n <= |was[p]|
    && now[p] == was[p][..|was[p]| - n]
    && |now[q]| == |was[q]| + n && now[q][..|was[q]|] == was[q]
    && (forall i :: |was[q]| <= i < |now[q]| ==> now[q][i] == was[p][|was[p]| - 1 - (i - |was[q]|)])
    && (forall r :: 0 <= r < |was| && r != p && r != q ==> now[r] == was[r])
  }

  ghost predicate Shifted(was: seq<seq<nat>>, now: seq<seq<nat>>, p: nat, q: nat, n: nat) {
    forall i: nat {:trigger Marker(now, i)} :: Marker(now, i) ==> Shift(was, now, p, q, n)
  }

  lemma ShiftedMeans(was: seq<seq<nat>>, now: seq<seq<nat>>, p: nat, q: nat, n: nat)
    ensures Shifted(was, now, p, q, n) <==> Shift(was, now, p, q, n)
  {
    assert Marker(now, 0);
  }

  lemma ShiftNone(was: seq<seq<nat>>, now: seq<seq<nat>>, p: nat, q: nat)
    requires p < |was| && q < |was| && p != q
    ensures Shifted(was, now, p, q, 0) <==> now == was
  {
    ShiftedMeans(was, now, p, q, 0);
  }

  // Without the last fiber of pool `p` it is as before.
  lemma TakenBack(was: seq<seq<nat>>, now: seq<seq<nat>>, p: nat, f: nat)
    requires p < |was| && now == was[p := was[p][..|was[p]|] + [f]]
    ensures now[p] == was[p] + [f] && now[p := now[p][..|now[p]| - 1]] == was
  {
    assert now[p][..|now[p]| - 1] == was[p];
  }

  lemma ShiftSizes(was: seq<seq<nat>>, now: seq<seq<nat>>, p: nat, q: nat, n: nat)
    requires Shifted(was, now, p, q, n)
    ensures |now| == |was| && p < |was| && q < |was| && n <= |was[p]|
    ensures now[p] == was[p][..|was[p]| - n] && |now[q]| == |was[q]| + n
  {
    ShiftedMeans(was, now, p, q, n);
  }

  lemma ShiftOne(was: seq<seq<nat>>, now: seq<seq<nat>>, p: nat, q: nat, n: nat)
    requires Shifted(was, now, p, q, n) && p < |now| && q < |now| && p != q && now[p] != []
    ensures var k := |now[p]| - 1;
            var mid := now[p := now[p][..k]];
            Shifted(was, mid[q := mid[q] + [now[p][k]]], p, q, n + 1)
  {
    var k := |now[p]| - 1;
    var mid := now[p := now[p][..k]];
    var next := mid[q := mid[q] + [now[p][k]]];
    ShiftedMeans(was, now, p, q, n);
    ShiftedMeans(was, next, p, q, n + 1);
    assert next[q][..|was[q]|] == now[q][..|was[q]|];
  }

  // Only the fibers of pool `p` have changed.
  ghost predicate Only(was: seq<seq<nat>>, now: seq<seq<nat>>, p: nat) {
    |now| == |was| && forall r :: 0 <= r < |was| && r != p ==> now[r] == was[r]
  }

  // How many of `size` fibers move to a parent that has `there` of at most `max`.
  function Moved(size: nat, keep: nat, there: nat, max: nat): (n: nat)
    ensures n <= size
  {
    if size <= keep || there >= max then 0 else if size - keep < max - there then size - keep else max - there
  }

  // The largest total each pool ever had, after pool `p` has had `x`.
  function Raised(high: seq<int>, p: nat, x: int): (r: seq<int>)
    requires p < |high|
    ensures |r| == |high| && r[p] >= x
  {
    if high[p] < x then high[p := x] else high
  }

  // Fibers that are in use, all different.
  ghost predicate Loose(buffer: seq<nat>, place: map<nat, int>) {
    && Distinct(buffer)
    && (forall f :: f in buffer ==> f in place && place[f] == -1)
  }

  ghost predicate From(buffer: seq<nat>, was: map<nat, int>, p: nat) {
    forall f :: f in buffer ==> f in was && was[f] == p
  }

  // The fibers in `buffer` are no more.
  ghost predicate Gone(was: map<nat, int>, now: map<nat, int>, buffer: seq<nat>) {
    && (forall f :: f in now <==> f in was && f !in buffer)
    && (forall f :: f in now ==> now[f] == was[f])
  }

  lemma BackElsewhere(was: map<nat, int>, mid: map<nat, int>, now: map<nat, int>, buffer: seq<nat>, p: nat, back: nat,
                      returned: bool)
    requires Elsewhere(was, mid, p) && From(buffer, was, p) && back in was && was[back] == -1 && back !in buffer
    requires Gone(if returned then mid[back := p] else mid, now, buffer)
    ensures back in now && now[back] == (if returned then p else -1) && ElsewhereBut(was, now, p, back)
  {
  }

  // What was not in pool `p` is where it was.
  ghost predicate Elsewhere(was: map<nat, int>, now: map<nat, int>, p: nat) {
    forall f :: f in was && was[f] != p ==> f in now && now[f] == was[f]
  }

  ghost predicate ElsewhereBut(was: map<nat, int>, now: map<nat, int>, p: nat, back: nat) {
    forall f :: f in was && was[f] != p && f != back ==> f in now && now[f] == was[f]
  }
}
