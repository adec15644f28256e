/** The frame allocator: per-worker free lists over a global pool that is carved into blocks,
    with a collector that gives surplus blocks back. */
module FrameMalloc {
  import opened FrameSizes
  import opened FrameBlocks
  import opened Sequences
  import opened Unfolding

  const BATCH_SIZE := 8000
  const POTENTIAL_LIMIT := 4 * BATCH_SIZE

  /** The cost of a worker's bucket: `units` is its potential in blocks, `len` the length of its
      list, `pushes` how often a block was put on the list, `counted` and `freed` how many
      nodes the two loops of the collector have visited. */
  datatype Cost = Cost(units: nat, pushes: nat, counted: nat, freed: nat)

  ghost predicate CostOk(c: Cost, potential: int, size: nat, len: nat) {
    && potential == c.units * size && c.units <= c.pushes
    && c.counted <= 2 * (c.pushes - c.units)
    && c.freed + len <= c.pushes
  }

  ghost predicate CostAt(cost: seq<seq<Cost>>, potential: seq<seq<int>>, free: seq<seq<seq<nat>>>, w: nat, b: nat) {
    && w < |potential| && w < |cost| && w < |free| && b < N_BUCKETS
    && b < |potential[w]| && b < |cost[w]| && b < |free[w]|
    && CostOk(cost[w][b], potential[w][b], BucketToSize(b), |free[w][b]|)
  }

  // The costs of all buckets of all workers.
  ghost predicate CostsOk(cost: seq<seq<Cost>>, potential: seq<seq<int>>, free: seq<seq<seq<nat>>>) {
    && |potential| == |cost| == |free|
    && (forall w :: 0 <= w < |free| ==> |potential[w]| == |cost[w]| == |free[w]| == N_BUCKETS)
    && (forall w: nat, b: nat {:trigger CostAt(cost, potential, free, w, b)} ::
          w < |free| && b < N_BUCKETS ==> CostAt(cost, potential, free, w, b))
  }

  lemma NoCosts(cost: seq<seq<Cost>>, potential: seq<seq<int>>, free: seq<seq<seq<nat>>>)
    requires |potential| == |cost| == |free|
    requires forall w :: 0 <= w < |free| ==> |potential[w]| == |cost[w]| == |free[w]| == N_BUCKETS
    requires forall w, b :: 0 <= w < |free| && 0 <= b < N_BUCKETS ==>
               potential[w][b] == 0 && cost[w][b] == Cost(0, 0, 0, 0) && free[w][b] == []
    ensures CostsOk(cost, potential, free)
  {
  }

  lemma CostsUpdate(cost: seq<seq<Cost>>, potential: seq<seq<int>>, free: seq<seq<seq<nat>>>, w: nat, b: nat, c: Cost,
                    p: int, l: seq<nat>)
    requires CostsOk(cost, potential, free) && w < |free| && b < N_BUCKETS && CostOk(c, p, BucketToSize(b), |l|)
    ensures CostsOk(cost[w := cost[w][b := c]], potential[w := potential[w][b := p]], free[w := free[w][b := l]])
  {
    var cost', potential', free' := cost[w := cost[w][b := c]], potential[w := potential[w][b := p]], free[w := free[w][b := l]];
    forall v: nat, d: nat | v < |free| && d < N_BUCKETS ensures CostAt(cost', potential', free', v, d) {
      assert CostAt(cost, potential, free, v, d);
    }
  }

  // The bucket has been charged `pushes` pushes and the visits of the collector's two loops.
  ghost predicate Charged(was: seq<seq<Cost>>, now: seq<seq<Cost>>, w: nat, b: nat, pushes: nat, counted: nat, freed: int) {
    && w < |was| && w < |now| && b < |was[w]| && b < |now[w]|
    && now[w][b].pushes == was[w][b].pushes + pushes
    && now[w][b].counted == was[w][b].counted + counted
    && now[w][b].freed == was[w][b].freed + freed
  }

  // The free lists before and after a change of one bucket of one worker.
  ghost predicate OnlyList(was: seq<seq<seq<nat>>>, now: seq<seq<seq<nat>>>, w: nat, bucket: nat) {
    && |now| == |was| && w < |now| && bucket < |now[w]| == |was[w]|
    && (forall v {:trigger now[v]} :: 0 <= v < |now| && v != w ==> now[v] == was[v])
    && (forall b {:trigger now[w][b]} :: 0 <= b < |now[w]| && b != bucket ==> now[w][b] == was[w][b])
  }

  lemma OnlyListStep(was: seq<seq<seq<nat>>>, now: seq<seq<seq<nat>>>, w: nat, bucket: nat, l: seq<nat>)
    requires OnlyList(was, now, w, bucket)
    ensures OnlyList(was, now[w := now[w][bucket := l]], w, bucket)
  {
  }

  // Updates of one entry of a table.
  lemma SetAgain(s: seq<seq<int>>, w: nat, b: nat, x: int, y: int)
    requires w < |s| && b < |s[w]|
    ensures s[w := s[w][b := s[w][b]]] == s
    ensures var t := s[w := s[w][b := x]]; t[w][b] == x && t[w := t[w][b := y]] == s[w := s[w][b := y]]
  {
    assert s[w][b := s[w][b]] == s[w];
    assert s[w][b := x][b := y] == s[w][b := y];
  }

  /** From `was` to `now` the first `k` blocks of the global list have become the first `k` of the
      list, the last one first; further ones, in front of these, come from the pool. */
  ghost predicate Fetched(was: seq<seq<nat>>, now: seq<seq<nat>>, bucket: nat, rest: seq<nat>, l: seq<nat>, k: nat) {
    && bucket < |was|
    && var m := if k < |was[bucket]| then k else |was[bucket]|;
       && now == was[bucket := was[bucket][m..]]
       && |l| == k + |rest| && l[k..] == rest
       && forall i :: k - m <= i < k ==> l[i] == was[bucket][k - 1 - i]
  }

  lemma FetchOne(was: seq<seq<nat>>, now: seq<seq<nat>>, bucket: nat, rest: seq<nat>, l: seq<nat>, k: nat, mem: nat,
                 next: seq<seq<nat>>)
    requires Fetched(was, now, bucket, rest, l, k)
    requires bucket < |next|
    requires if now[bucket] != [] then now[bucket] == [mem] + next[bucket] && next == now[bucket := next[bucket]]
             else next == now
    ensures Fetched(was, next, bucket, rest, [mem] + l, k + 1)
  {
    assert ([mem] + l)[k + 1..] == l[k..];
    if now[bucket] != [] {
      assert next[bucket] == now[bucket][1..];
    }
  }

  /** The blocks of `l` are on the global list, the last one first. */
  ghost predicate GivenBack(was: seq<seq<nat>>, now: seq<seq<nat>>, bucket: nat, l: seq<nat>) {
    && bucket < |was| == |now| && now == was[bucket := now[bucket]]
    && |now[bucket]| == |l| + |was[bucket]| && now[bucket][|l|..] == was[bucket]
    && forall i :: 0 <= i < |l| ==> now[bucket][i] == l[|l| - 1 - i]
  }

  // Taking out the first of the elements that are left behind the first `c`.
  lemma CutBehind(l: seq<nat>, c: nat, n: nat)
    requires c + n < |l|
    ensures var left := l[..c] + l[c + n..];
            && left[c] == l[c + n] && CutAt(left, c) == l[..c] + l[c + n + 1..]
            && l[c..c + n] + [l[c + n]] == l[c..c + n + 1]
  {
  }

  lemma GiveOne(was: seq<seq<nat>>, now: seq<seq<nat>>, bucket: nat, l: seq<nat>, mem: nat)
    requires GivenBack(was, now, bucket, l)
    ensures GivenBack(was, now[bucket := [mem] + now[bucket]], bucket, l + [mem])
  {
  }

  class FrameAllocator {
    const os: Chunks  // what the operating system returns for the n-th chunk
    var nChunks: nat
    var poolBegin: nat
    var poolEnd: nat
    var fromOs: int
    var fromGlobal: int
    var wasted: int
    var globalFree: seq<seq<nat>>
    var free: seq<seq<seq<nat>>>
    var potential: seq<seq<int>>
    ghost var live: seq<seq<nat>>         // the blocks in use
    ghost var transit: nat                // bytes between two lists
    ghost var blocks: map<nat, Block>
    ghost var cost: seq<seq<Cost>>

    ghost predicate Lists()
      reads this
    {
      && ListsOk(globalFree, blocks, InGlobal)
      && ListsOk(live, blocks, InUse)
      && (forall w: nat {:trigger ListsOk(free[w], blocks, InWorker(w))} :: w < |free| ==> ListsOk(free[w], blocks, InWorker(w)))
    }

    // The chunks and what is left of the last one.
    ghost function Pool(): (nat, nat, nat, int, int)
      reads `nChunks, `poolBegin, `poolEnd, `fromOs, `wasted
    {
      (nChunks, poolBegin, poolEnd, fromOs, wasted)
    }

    // The accounts: bytes from the operating system, and bytes given out by the global pool.
    ghost predicate Accounts()
      reads this
      requires Shape()
    {
      && fromOs == CHUNK * nChunks
      && fromOs == wasted + (poolEnd - poolBegin) + Bytes(globalFree) + fromGlobal
      && fromGlobal == Bytes(live) + WorkerBytes(free, |free|) + transit
    }

    // One list for each size class.
    ghost predicate Shape()
      reads this
    {
      |globalFree| == |live| == N_BUCKETS && forall w :: 0 <= w < |free| ==> |free[w]| == N_BUCKETS
    }

    ghost predicate InOrder()
      reads this
      requires Shape()
    {
      ChunksOk(os) && Geometry(os, nChunks, poolBegin, poolEnd, blocks) && Lists() && Accounts()
    }

    /** The blocks do not overlap, each is on the one list that its place says, and the
        accounts are right. */
    ghost predicate Valid()
      reads this
    {
      Shape() && forall n: nat {:trigger Marker(blocks, n)} :: Marker(blocks, n) ==> InOrder()
    }

    lemma ValidMeans()
      requires Shape()
      ensures Valid() <==> InOrder()
    {
      assert Marker(blocks, 0);
    }

    constructor (os: Chunks, workers: nat)
      requires ChunksOk(os)
      ensures Valid() && Costs() && transit == 0 && blocks == map[] && |free| == workers
      ensures forall w, b :: 0 <= w < workers && 0 <= b < N_BUCKETS ==> potential[w][b] == 0 && cost[w][b] == Cost(0, 0, 0, 0)
    {
      this.os := os;
      nChunks, poolBegin, poolEnd, fromOs, fromGlobal, wasted := 0, 0, 0, 0, 0, 0;
      globalFree := seq(N_BUCKETS, _ => []);
      free := seq(workers, _ => seq(N_BUCKETS, _ => []));
      potential := seq(workers, _ => seq(N_BUCKETS, _ => 0));
      live := seq(N_BUCKETS, _ => []);
      transit, blocks := 0, map[];
      cost := seq(workers, _ => seq(N_BUCKETS, _ => Cost(0, 0, 0, 0)));
      new;
      Unused();
      NoCosts(cost, potential, free);
    }

    // An allocator that has done nothing is in order.
    lemma Unused()
      requires ChunksOk(os) && nChunks == poolBegin == poolEnd == 0 && fromOs == fromGlobal == wasted == 0
      requires transit == 0 && blocks == map[] && globalFree == live == seq(N_BUCKETS, _ => [])
      requires forall w :: 0 <= w < |free| ==> free[w] == seq(N_BUCKETS, _ => [])
      ensures Valid()
    {
      NoWorkerBytes(|free|);
      ValidMeans();
    }

    lemma {:induction false} NoWorkerBytes(n: nat)
      requires n <= |free| && forall w :: 0 <= w < |free| ==> |free[w]| == N_BUCKETS
      requires forall w, b :: 0 <= w < |free| && 0 <= b < N_BUCKETS ==> free[w][b] == []
      ensures WorkerBytes(free, n) == 0
    {
      if n > 0 {
        NoWorkerBytes(n - 1);
      }
    }

    // A new chunk; the rest of the old one is lost.
    method ExtendGlobalPool()
      requires Valid()
      modifies this`nChunks, this`poolBegin, this`poolEnd, this`fromOs, this`wasted
      ensures wasted == old(wasted) + old(poolEnd - poolBegin)
      ensures Valid() && nChunks == old(nChunks) + 1 && poolBegin == os(old(nChunks)) && poolEnd - poolBegin == CHUNK
    {
      ValidMeans();
      ExtendGeometry(os, nChunks, poolBegin, poolEnd, blocks);
      wasted := wasted + (poolEnd - poolBegin);
      poolBegin := os(nChunks);
      poolEnd := poolBegin + CHUNK;
      fromOs := fromOs + CHUNK;
      nChunks := nChunks + 1;
    }

    // A block that is and was on no list.
    lemma OnNoList(a: nat, blk: Block)
      requires Valid() && blk.place == Transit && (a in blocks ==> blocks[a].place == Transit)
      ensures ListsOk(globalFree, blocks[a := blk], InGlobal) && ListsOk(live, blocks[a := blk], InUse)
      ensures forall w: nat {:trigger ListsOk(free[w], blocks[a := blk], InWorker(w))} :: w < |free| ==>
                ListsOk(free[w], blocks[a := blk], InWorker(w))
    {
      ValidMeans();
      ListsSame(globalFree, blocks, InGlobal, a, blk);
      ListsSame(live, blocks, InUse, a, blk);
      WorkersSame(a, blk);
    }

    lemma WorkersSame(a: nat, blk: Block)
      requires Valid() && !blk.place.InWorker? && (a in blocks ==> !blocks[a].place.InWorker?)
      ensures forall w: nat {:trigger ListsOk(free[w], blocks[a := blk], InWorker(w))} :: w < |free| ==>
                ListsOk(free[w], blocks[a := blk], InWorker(w))
    {
      ValidMeans();
      forall w: nat | w < |free| ensures ListsOk(free[w], blocks[a := blk], InWorker(w)) {
        assert ListsOk(free[w], blocks, InWorker(w));
        ListsSame(free[w], blocks, InWorker(w), a, blk);
      }
    }

    lemma CarveFacts(bucket: nat, blk: Block)
      requires Valid() && bucket < N_BUCKETS && poolBegin + BucketToSize(bucket) <= poolEnd
      requires nChunks > 0 ==> blk == Block(bucket, Transit, nChunks - 1)
      ensures poolBegin !in blocks && nChunks > 0
      ensures Geometry(os, nChunks, poolBegin + BucketToSize(bucket), poolEnd, blocks[poolBegin := blk])
      ensures ListsOk(globalFree, blocks[poolBegin := blk], InGlobal) && ListsOk(live, blocks[poolBegin := blk], InUse)
      ensures forall w: nat {:trigger ListsOk(free[w], blocks[poolBegin := blk], InWorker(w))} :: w < |free| ==>
                ListsOk(free[w], blocks[poolBegin := blk], InWorker(w))
    {
      ValidMeans();
      CarveGeometry(os, nChunks, poolBegin, poolEnd, blocks, bucket, Transit);
      OnNoList(poolBegin, blk);
    }

    // Carves a block off the pool.
    method Carve(bucket: nat) returns (mem: nat)
      requires Valid() && transit == 0 && bucket < N_BUCKETS && poolBegin + BucketToSize(bucket) <= poolEnd
      modifies this`poolBegin, this`fromGlobal, this`blocks, this`transit
      ensures Valid() && transit == BucketToSize(bucket) && At(blocks, mem, bucket, Transit)
      ensures mem == old(poolBegin)
    {
      ValidMeans();
      mem := poolBegin;
      ghost var blk := Block(bucket, Transit, if nChunks > 0 then nChunks - 1 else 0);
      CarveFacts(bucket, blk);
      blocks := blocks[mem := blk];
      fromGlobal := fromGlobal + BucketToSize(bucket);
      poolBegin := poolBegin + BucketToSize(bucket);
      transit := BucketToSize(bucket);
    }

    // Takes the first block off a global list.
    method PopGlobal(bucket: nat) returns (mem: nat)
      requires Valid() && transit == 0 && bucket < N_BUCKETS && globalFree[bucket] != []
      modifies this`globalFree, this`fromGlobal, this`blocks, this`transit
      ensures Valid() && transit == BucketToSize(bucket) && At(blocks, mem, bucket, Transit)
      ensures old(globalFree)[bucket] == [mem] + globalFree[bucket]
      ensures globalFree == old(globalFree)[bucket := globalFree[bucket]]
    {
      ValidMeans();
      mem := globalFree[bucket][0];
      ListsCut(globalFree, blocks, InGlobal, bucket, 0, Transit);
      assert CutAt(globalFree[bucket], 0) == globalFree[bucket][1..];
      ghost var blk := blocks[mem].(place := Transit);
      ListsSame(live, blocks, InUse, mem, blk);
      WorkersSame(mem, blk);
      PlaceGeometry(os, nChunks, poolBegin, poolEnd, blocks, mem, Transit);
      BytesUpdate(globalFree, bucket, globalFree[bucket][1..]);
      globalFree := globalFree[bucket := globalFree[bucket][1..]];
      blocks := blocks[mem := blk];
      fromGlobal := fromGlobal + BucketToSize(bucket);
      transit := BucketToSize(bucket);
    }

    // Takes a block out of the global pool, which is extended if need be.
    method GlobalAlloc(bucket: nat) returns (mem: nat)
      requires Valid() && transit == 0 && bucket < N_BUCKETS
      modifies this`nChunks, this`poolBegin, this`poolEnd, this`fromOs, this`wasted
      modifies this`globalFree, this`fromGlobal, this`blocks, this`transit
      ensures Valid() && transit == BucketToSize(bucket) && At(blocks, mem, bucket, Transit)
      ensures old(globalFree)[bucket] != [] ==>
                && old(globalFree)[bucket] == [mem] + globalFree[bucket]
                && globalFree == old(globalFree)[bucket := globalFree[bucket]]
                && Pool() == old(Pool())
      ensures old(globalFree)[bucket] == [] ==>
                && globalFree == old(globalFree)
                && if old(poolBegin) + BucketToSize(bucket) <= old(poolEnd)
                   then nChunks == old(nChunks) && wasted == old(wasted) && mem == old(poolBegin)
                   else nChunks == old(nChunks) + 1 && mem == os(old(nChunks)) && wasted == old(wasted) + old(poolEnd - poolBegin)
    {
      if globalFree[bucket] != [] {
        mem := PopGlobal(bucket);
      } else {
        if poolBegin + BucketToSize(bucket) > poolEnd {
          ExtendGlobalPool();
        }
        mem := Carve(bucket);
      }
    }

    // Puts a block on a global list.
    method GlobalFree(mem: nat, bucket: nat)
      requires Valid() && bucket < N_BUCKETS && transit == BucketToSize(bucket) && At(blocks, mem, bucket, Transit)
      modifies this`globalFree, this`fromGlobal, this`blocks, this`transit
      ensures Valid() && transit == 0
      ensures globalFree == old(globalFree)[bucket := [mem] + old(globalFree)[bucket]]
    {
      ValidMeans();
      ghost var blk := blocks[mem].(place := InGlobal);
      ListsPush(globalFree, blocks, InGlobal, mem, blk);
      ListsSame(live, blocks, InUse, mem, blk);
      WorkersSame(mem, blk);
      PlaceGeometry(os, nChunks, poolBegin, poolEnd, blocks, mem, InGlobal);
      BytesUpdate(globalFree, bucket, [mem] + globalFree[bucket]);
      fromGlobal := fromGlobal - BucketToSize(bucket);
      globalFree := globalFree[bucket := [mem] + globalFree[bucket]];
      blocks := blocks[mem := blk];
      transit := 0;
    }

    lemma WorkerFacts(w: nat, ls: seq<seq<nat>>, a: nat, blk: Block)
      requires Valid() && w < |free| && ListsOk(ls, blocks[a := blk], InWorker(w))
      requires blk.place == InWorker(w) || blk.place == Transit
      requires a in blocks && (blocks[a].place == Transit || blocks[a].place == InWorker(w))
      requires blk == blocks[a].(place := blk.place)
      ensures Geometry(os, nChunks, poolBegin, poolEnd, blocks[a := blk])
      ensures ListsOk(globalFree, blocks[a := blk], InGlobal) && ListsOk(live, blocks[a := blk], InUse)
      ensures forall v: nat {:trigger ListsOk(free[w := ls][v], blocks[a := blk], InWorker(v))} :: v < |free| ==>
                ListsOk(free[w := ls][v], blocks[a := blk], InWorker(v))
      ensures WorkerBytes(free[w := ls], |free|) == WorkerBytes(free, |free|) + Bytes(ls) - Bytes(free[w])
    {
      ValidMeans();
      PlaceGeometry(os, nChunks, poolBegin, poolEnd, blocks, a, blk.place);
      ListsSame(globalFree, blocks, InGlobal, a, blk);
      ListsSame(live, blocks, InUse, a, blk);
      forall v: nat | v < |free| ensures ListsOk(free[w := ls][v], blocks[a := blk], InWorker(v)) {
        assert ListsOk(free[v], blocks, InWorker(v));
        if v != w {
          ListsSame(free[v], blocks, InWorker(v), a, blk);
        }
      }
      WorkerBytesUpdate(free, |free|, w, ls);
    }

    // The costs of all buckets are in order.
    ghost predicate Costs()
      reads this
    {
      CostsOk(cost, potential, free)
    }

    // Puts a block on a worker's list.
    method Push(w: nat, bucket: nat, mem: nat)
      requires Valid() && w < |free| && bucket < N_BUCKETS
      requires transit == BucketToSize(bucket) && At(blocks, mem, bucket, Transit)
      modifies this`free, this`blocks, this`transit
      ensures Valid() && transit == 0
      ensures free == old(free)[w := old(free)[w][bucket := [mem] + old(free)[w][bucket]]]
    {
      ValidMeans();
      ghost var blk := blocks[mem].(place := InWorker(w));
      ghost var ls := free[w][bucket := [mem] + free[w][bucket]];
      assert ListsOk(free[w], blocks, InWorker(w));
      ListsPush(free[w], blocks, InWorker(w), mem, blk);
      WorkerFacts(w, ls, mem, blk);
      BytesUpdate(free[w], bucket, [mem] + free[w][bucket]);
      free := free[w := free[w][bucket := [mem] + free[w][bucket]]];
      blocks := blocks[mem := blk];
      transit := 0;
    }

    // Takes the block at position `i` off a worker's list.
    method Pop(w: nat, bucket: nat, i: nat) returns (mem: nat)
      requires Valid() && transit == 0 && w < |free| && bucket < N_BUCKETS && i < |free[w][bucket]|
      modifies this`free, this`blocks, this`transit
      ensures Valid() && transit == BucketToSize(bucket) && At(blocks, mem, bucket, Transit)
      ensures mem == old(free)[w][bucket][i]
      ensures free == old(free)[w := old(free)[w][bucket := CutAt(old(free)[w][bucket], i)]]
    {
      ValidMeans();
      mem := free[w][bucket][i];
      assert ListsOk(free[w], blocks, InWorker(w));
      ListsCut(free[w], blocks, InWorker(w), bucket, i, Transit);
      ghost var blk := blocks[mem].(place := Transit);
      ghost var ls := free[w][bucket := CutAt(free[w][bucket], i)];
      WorkerFacts(w, ls, mem, blk);
      BytesUpdate(free[w], bucket, CutAt(free[w][bucket], i));
      free := free[w := free[w][bucket := CutAt(free[w][bucket], i)]];
      blocks := blocks[mem := blk];
      transit := BucketToSize(bucket);
    }

    // Puts a block on a worker's list and adds it to the potential.
    method WorkerPush(w: nat, bucket: nat, mem: nat)
      requires Valid() && Costs() && w < |free| && bucket < N_BUCKETS
      requires transit == BucketToSize(bucket) && At(blocks, mem, bucket, Transit)
      modifies this`free, this`blocks, this`transit, this`potential, this`cost
      ensures Valid() && Costs() && transit == 0
      ensures free == old(free)[w := old(free)[w][bucket := [mem] + old(free)[w][bucket]]]
      ensures potential == old(potential)[w := old(potential)[w][bucket := old(potential)[w][bucket] + BucketToSize(bucket)]]
      ensures Charged(old(cost), cost, w, bucket, 1, 0, 0)
    {
      ghost var c := cost[w][bucket];
      assert CostAt(cost, potential, free, w, bucket);
      CostsUpdate(cost, potential, free, w, bucket, c.(units := c.units + 1, pushes := c.pushes + 1),
                  potential[w][bucket] + BucketToSize(bucket), [mem] + free[w][bucket]);
      Push(w, bucket, mem);
      potential := potential[w := potential[w][bucket := potential[w][bucket] + BucketToSize(bucket)]];
      cost := cost[w := cost[w][bucket := c.(units := c.units + 1, pushes := c.pushes + 1)]];
    }

    // Takes a block off a worker's list; `gc`: it is the collector that does.
    method WorkerPop(w: nat, bucket: nat, i: nat, ghost gc: bool) returns (mem: nat)
      requires Valid() && Costs() && transit == 0 && w < |free| && bucket < N_BUCKETS && i < |free[w][bucket]|
      modifies this`free, this`blocks, this`transit, this`cost
      ensures Valid() && Costs() && transit == BucketToSize(bucket) && At(blocks, mem, bucket, Transit)
      ensures mem == old(free)[w][bucket][i]
      ensures free == old(free)[w := old(free)[w][bucket := CutAt(old(free)[w][bucket], i)]]
      ensures Charged(old(cost), cost, w, bucket, 0, 0, if gc then 1 else 0)
    {
      ghost var c := cost[w][bucket];
      assert CostAt(cost, potential, free, w, bucket);
      CostsUpdate(cost, potential, free, w, bucket, c.(freed := c.freed + if gc then 1 else 0), potential[w][bucket],
                  CutAt(free[w][bucket], i));
      assert potential[w][bucket := potential[w][bucket]] == potential[w];
      assert potential[w := potential[w]] == potential;
      mem := Pop(w, bucket, i);
      cost := cost[w := cost[w][bucket := c.(freed := c.freed + if gc then 1 else 0)]];
    }

    // Fetches one more block for a worker, after `k` others.
    method FetchNext(w: nat, bucket: nat, ghost k: nat, ghost was: seq<seq<nat>>, ghost rest: seq<nat>)
      requires Valid() && Costs() && transit == 0 && w < |free| && bucket < N_BUCKETS
      requires Fetched(was, globalFree, bucket, rest, free[w][bucket], k)
      modifies this`nChunks, this`poolBegin, this`poolEnd, this`fromOs, this`wasted, this`globalFree, this`fromGlobal
      modifies this`free, this`blocks, this`transit, this`potential, this`cost
      ensures Valid() && Costs() && transit == 0
      ensures |free| == |old(free)| && |free[w]| == N_BUCKETS
      ensures free == old(free)[w := old(free)[w][bucket := free[w][bucket]]]
      ensures Fetched(was, globalFree, bucket, rest, free[w][bucket], k + 1)
      ensures k < |was[bucket]| ==> Pool() == old(Pool())
      ensures potential == old(potential)[w := old(potential)[w][bucket := old(potential)[w][bucket] + BucketToSize(bucket)]]
      ensures Charged(old(cost), cost, w, bucket, 1, 0, 0)
    {
      ghost var lists := globalFree;
      var mem := GlobalAlloc(bucket);
      FetchOne(was, lists, bucket, rest, free[w][bucket], k, mem, globalFree);
      WorkerPush(w, bucket, mem);
    }

    // Fetches a batch of `k` blocks for a worker from the global pool.
    method AllocateBatch(w: nat, bucket: nat) returns (ghost k: nat)
      requires Valid() && Costs() && transit == 0 && w < |free| && bucket < N_BUCKETS
      modifies this`nChunks, this`poolBegin, this`poolEnd, this`fromOs, this`wasted, this`globalFree, this`fromGlobal
      modifies this`free, this`blocks, this`transit, this`potential, this`cost
      ensures Valid() && Costs() && transit == 0 && OnlyList(old(free), free, w, bucket)
      ensures |free[w][bucket]| == |old(free)[w][bucket]| + k
      ensures BATCH_SIZE <= k * BucketToSize(bucket) < BATCH_SIZE + BucketToSize(bucket)
      ensures Fetched(old(globalFree), globalFree, bucket, old(free)[w][bucket], free[w][bucket], k)
      ensures k <= |old(globalFree)[bucket]| ==> Pool() == old(Pool())
      ensures potential == old(potential)[w := old(potential)[w][bucket :=
                                                 old(potential)[w][bucket] + k * BucketToSize(bucket)]]
      ensures Charged(old(cost), cost, w, bucket, k, 0, 0)
    {
      var size := BucketToSize(bucket);
      var bytesAllocated := 0;
      k := 0;
      ghost var pot := potential[w][bucket];
      assert CostAt(cost, potential, free, w, bucket);
      SetAgain(potential, w, bucket, pot, pot);
      while bytesAllocated < BATCH_SIZE
        invariant Valid() && Costs() && transit == 0 && OnlyList(old(free), free, w, bucket)
        invariant |free[w][bucket]| == |old(free)[w][bucket]| + k
        invariant bytesAllocated == k * size < BATCH_SIZE + size
        invariant Fetched(old(globalFree), globalFree, bucket, old(free)[w][bucket], free[w][bucket], k)
        invariant k <= |old(globalFree)[bucket]| ==> Pool() == old(Pool())
        invariant potential == old(potential)[w := old(potential)[w][bucket := old(potential)[w][bucket] + k * size]]
        invariant Charged(old(cost), cost, w, bucket, k, 0, 0)
      {
        SetAgain(old(potential), w, bucket, pot + k * size, pot + k * size + size);
        ghost var lists := free;
        FetchNext(w, bucket, k, old(globalFree), old(free)[w][bucket]);
        OnlyListStep(old(free), lists, w, bucket, free[w][bucket]);
        bytesAllocated := bytesAllocated + size;
        k := k + 1;
      }
    }

    // Keeps as many blocks as half the potential pays for and gives the others back.
    method GcBucket(w: nat, bucket: nat) returns (k: nat)
      requires Valid() && Costs() && transit == 0 && w < |free| && bucket < N_BUCKETS
      requires potential[w][bucket] > POTENTIAL_LIMIT
      modifies this`globalFree, this`fromGlobal, this`free, this`blocks, this`transit, this`potential, this`cost
      ensures Valid() && Costs() && transit == 0 && OnlyList(old(free), free, w, bucket)
      ensures k <= |old(free)[w][bucket]|
      ensures free[w][bucket] == if k < |old(free)[w][bucket]| then old(free)[w][bucket][..k + 1] else old(free)[w][bucket]
      ensures GivenBack(old(globalFree), globalFree, bucket, old(free)[w][bucket][|free[w][bucket]|..])
      ensures potential == old(potential)[w := old(potential)[w][bucket := k * BucketToSize(bucket)]]
      ensures k < |old(free)[w][bucket]| ==> 2 * potential[w][bucket] >= old(potential)[w][bucket]
      ensures 2 * potential[w][bucket] < old(potential)[w][bucket] + 2 * BucketToSize(bucket)
      ensures Charged(old(cost), cost, w, bucket, 0, k, |old(free)[w][bucket]| - |free[w][bucket]|)
    {
      k := CountKept(w, bucket);
      assert free[w][bucket][|free[w][bucket]|..] == [];
      if k < |free[w][bucket]| {
        FreeBehind(w, bucket, k);
      }
    }

    // The first loop of the collector.
    method CountKept(w: nat, bucket: nat) returns (k: nat)
      requires Costs() && w < |free| && bucket < N_BUCKETS && potential[w][bucket] > POTENTIAL_LIMIT
      modifies this`potential, this`cost
      ensures Costs() && k <= |free[w][bucket]|
      ensures potential == old(potential)[w := old(potential)[w][bucket := k * BucketToSize(bucket)]]
      ensures k < |free[w][bucket]| ==> 2 * potential[w][bucket] >= old(potential)[w][bucket]
      ensures 2 * potential[w][bucket] < old(potential)[w][bucket] + 2 * BucketToSize(bucket)
      ensures Charged(old(cost), cost, w, bucket, 0, k, 0)
    {
      var size, pot := BucketToSize(bucket), potential[w][bucket];
      var newpot := 0;
      k := 0;
      while k < |free[w][bucket]| && 2 * newpot < pot
        invariant k <= |free[w][bucket]| && newpot == k * size && 2 * newpot < pot + 2 * size
      {
        newpot := newpot + size;
        k := k + 1;
      }
      assert CostAt(cost, potential, free, w, bucket);
      CountCost(cost[w][bucket], pot, bucket, |free[w][bucket]|, k);
      SetPotential(w, bucket, newpot, k);
    }

    // Sets the potential, to that of `k` blocks; `k` nodes have been visited for that.
    method SetPotential(w: nat, bucket: nat, pot: int, ghost k: nat)
      requires Costs() && w < |free| && bucket < N_BUCKETS
      requires var c := cost[w][bucket];
               CostOk(c.(units := k, counted := c.counted + k), pot, BucketToSize(bucket), |free[w][bucket]|)
      modifies this`potential, this`cost
      ensures Costs() && potential == old(potential)[w := old(potential)[w][bucket := pot]]
      ensures Charged(old(cost), cost, w, bucket, 0, k, 0)
    {
      ghost var c := cost[w][bucket].(units := k, counted := cost[w][bucket].counted + k);
      CostsUpdate(cost, potential, free, w, bucket, c, pot, free[w][bucket]);
      assert free[w][bucket := free[w][bucket]] == free[w];
      assert free[w := free[w]] == free;
      potential := potential[w := potential[w][bucket := pot]];
      cost := cost[w := cost[w][bucket := c]];
    }

    // Gives back the first block behind the first `c`, after `n` of the others there.
    method GiveNext(w: nat, bucket: nat, c: nat, ghost gc: bool, ghost l: seq<nat>, ghost n: nat, ghost was: seq<seq<nat>>)
      requires Valid() && Costs() && transit == 0 && w < |free| && bucket < N_BUCKETS
      requires c + n < |l| && free[w][bucket] == l[..c] + l[c + n..] && GivenBack(was, globalFree, bucket, l[c..c + n])
      modifies this`globalFree, this`fromGlobal, this`free, this`blocks, this`transit, this`cost
      ensures Valid() && Costs() && transit == 0
      ensures free == old(free)[w := old(free)[w][bucket := l[..c] + l[c + n + 1..]]]
      ensures GivenBack(was, globalFree, bucket, l[c..c + n + 1])
      ensures Charged(old(cost), cost, w, bucket, 0, 0, if gc then 1 else 0)
    {
      CutBehind(l, c, n);
      GiveOne(was, globalFree, bucket, l[c..c + n], l[c + n]);
      var mem := WorkerPop(w, bucket, c, gc);
      GlobalFree(mem, bucket);
    }

    // Its second loop: the blocks behind position `k` go back to the global pool.
    method FreeBehind(w: nat, bucket: nat, k: nat)
      requires Valid() && Costs() && transit == 0 && w < |free| && bucket < N_BUCKETS && k < |free[w][bucket]|
      modifies this`globalFree, this`fromGlobal, this`free, this`blocks, this`transit, this`cost
      ensures Valid() && Costs() && transit == 0 && OnlyList(old(free), free, w, bucket)
      ensures free[w][bucket] == old(free)[w][bucket][..k + 1]
      ensures GivenBack(old(globalFree), globalFree, bucket, old(free)[w][bucket][k + 1..])
      ensures Charged(old(cost), cost, w, bucket, 0, 0, |old(free)[w][bucket]| - |free[w][bucket]|)
    {
      ghost var l, n := free[w][bucket], 0;
      assert l == l[..k + 1] + l[k + 1..];
      while k + 1 < |free[w][bucket]|
        invariant Valid() && Costs() && transit == 0 && OnlyList(old(free), free, w, bucket)
        invariant k + 1 + n <= |l| && free[w][bucket] == l[..k + 1] + l[k + 1 + n..]
        invariant GivenBack(old(globalFree), globalFree, bucket, l[k + 1..k + 1 + n])
        invariant Charged(old(cost), cost, w, bucket, 0, 0, n)
        decreases |free[w][bucket]|
      {
        OnlyListStep(old(free), free, w, bucket, l[..k + 1] + l[k + 2 + n..]);
        GiveNext(w, bucket, k + 1, true, l, n, old(globalFree));
        n := n + 1;
      }
    }

    // A block goes from transit to the client, or the other way round.
    method HandOut(mem: nat, bucket: nat)
      requires Valid() && bucket < N_BUCKETS && transit == BucketToSize(bucket) && At(blocks, mem, bucket, Transit)
      modifies this`live, this`blocks, this`transit
      ensures Valid() && transit == 0 && live == old(live)[bucket := [mem] + old(live)[bucket]]
      ensures At(blocks, mem, bucket, InUse)
    {
      ValidMeans();
      ghost var blk := blocks[mem].(place := InUse);
      ListsPush(live, blocks, InUse, mem, blk);
      ListsSame(globalFree, blocks, InGlobal, mem, blk);
      WorkersSame(mem, blk);
      PlaceGeometry(os, nChunks, poolBegin, poolEnd, blocks, mem, InUse);
      BytesUpdate(live, bucket, [mem] + live[bucket]);
      live := live[bucket := [mem] + live[bucket]];
      blocks := blocks[mem := blk];
      transit := 0;
    }

    method TakeBack(mem: nat, bucket: nat)
      requires Valid() && bucket < N_BUCKETS && transit == 0 && At(blocks, mem, bucket, InUse)
      modifies this`live, this`blocks, this`transit
      ensures Valid() && transit == BucketToSize(bucket) && At(blocks, mem, bucket, Transit)
      ensures live == old(live)[bucket := Without(old(live)[bucket], mem)]
    {
      ValidMeans();
      ghost var blk := blocks[mem].(place := Transit);
      ListsWithout(live, blocks, InUse, bucket, mem, Transit);
      ListsSame(globalFree, blocks, InGlobal, mem, blk);
      WorkersSame(mem, blk);
      PlaceGeometry(os, nChunks, poolBegin, poolEnd, blocks, mem, Transit);
      BytesUpdate(live, bucket, Without(live[bucket], mem));
      live := live[bucket := Without(live[bucket], mem)];
      blocks := blocks[mem := blk];
      transit := BucketToSize(bucket);
    }

    /** Allocates a frame. Requests above the largest size class go to the system allocator and change
        nothing here. The block is the first of the worker's list, nothing else being touched; only if
        that is empty, exactly one batch, of `k` blocks, is fetched first. */
    method Malloc(w: nat, size: nat) returns (small: bool, mem: nat, bucket: nat, ghost k: nat)
      requires Valid() && Costs() && transit == 0 && w < |free|
      modifies this
      ensures Valid() && Costs() && transit == 0
      ensures small <==> size <= MAX_SIZE
      ensures !small ==> unchanged(this)
      ensures small ==>
                && bucket < N_BUCKETS && size <= BucketToSize(bucket)
                && (forall b: nat :: b < bucket ==> BucketToSize(b) < size)
                && live == old(live)[bucket := [mem] + old(live)[bucket]] && At(blocks, mem, bucket, InUse)
                && OnlyList(old(free), free, w, bucket)
      ensures small && old(free)[w][bucket] != [] ==>
                && old(free)[w][bucket] == [mem] + free[w][bucket]
                && globalFree == old(globalFree) && potential == old(potential) && Pool() == old(Pool())
      ensures small && old(free)[w][bucket] == [] ==>
                && BATCH_SIZE <= k * BucketToSize(bucket) < BATCH_SIZE + BucketToSize(bucket)
                && Fetched(old(globalFree), globalFree, bucket, [], [mem] + free[w][bucket], k)
                && potential == old(potential)[w := old(potential)[w][bucket :=
                                                      old(potential)[w][bucket] + k * BucketToSize(bucket)]]
                && (k <= |old(globalFree)[bucket]| ==> Pool() == old(Pool()))
    {
      small, mem, bucket, k := size <= MAX_SIZE, 0, 0, 0;
      if small {
        bucket := BucketOfSize(size);
        while free[w][bucket] == []
          invariant Valid() && Costs() && transit == 0 && live == old(live)
          invariant OnlyList(old(free), free, w, bucket)
          invariant k == 0 ==>
                      free == old(free) && globalFree == old(globalFree) && potential == old(potential) && Pool() == old(Pool())
          invariant k > 0 ==>
                      && old(free)[w][bucket] == [] && free[w][bucket] != []
                      && BATCH_SIZE <= k * BucketToSize(bucket) < BATCH_SIZE + BucketToSize(bucket)
                      && Fetched(old(globalFree), globalFree, bucket, [], free[w][bucket], k)
                      && potential == old(potential)[w := old(potential)[w][bucket :=
                                                            old(potential)[w][bucket] + k * BucketToSize(bucket)]]
                      && (k <= |old(globalFree)[bucket]| ==> Pool() == old(Pool()))
          decreases free[w][bucket] == []
        {
          k := AllocateBatch(w, bucket);
          assert k > 0;
        }
        mem := WorkerPop(w, bucket, 0, false);
        HandOut(mem, bucket);
      }
    }

    /** Frees a frame of the given size. It becomes the first of the worker's list and the potential
        grows by it; if that is too large now, the collector keeps the first `k` blocks, as many as
        half the potential pays for, and one more, and gives the others back. */
    method Free(w: nat, mem: nat, size: nat, ghost b: nat) returns (ghost k: nat)
      requires Valid() && Costs() && transit == 0 && w < |free|
      requires size <= MAX_SIZE ==> b < N_BUCKETS && At(blocks, mem, b, InUse) && InClass(size, b)
      modifies this
      ensures Valid() && Costs() && transit == 0
      ensures size > MAX_SIZE ==> unchanged(this)
      ensures size <= MAX_SIZE ==>
                && live == old(live)[b := Without(old(live)[b], mem)]
                && OnlyList(old(free), free, w, b) && Pool() == old(Pool())
      ensures size <= MAX_SIZE && old(potential)[w][b] + BucketToSize(b) <= POTENTIAL_LIMIT ==>
                && free[w][b] == [mem] + old(free)[w][b] && globalFree == old(globalFree)
                && potential == old(potential)[w := old(potential)[w][b := old(potential)[w][b] + BucketToSize(b)]]
      ensures size <= MAX_SIZE && old(potential)[w][b] + BucketToSize(b) > POTENTIAL_LIMIT ==>
                var l, p := [mem] + old(free)[w][b], old(potential)[w][b] + BucketToSize(b);
                && k <= |l| && (k < |l| ==> 2 * (k * BucketToSize(b)) >= p)
                && 2 * (k * BucketToSize(b)) < p + 2 * BucketToSize(b)
                && free[w][b] == (if k < |l| then l[..k + 1] else l)
                && GivenBack(old(globalFree), globalFree, b, l[|free[w][b]|..])
                && potential == old(potential)[w := old(potential)[w][b := k * BucketToSize(b)]]
    {
      k := 0;
      if size <= MAX_SIZE {
        var bucket := BucketOfSize(size);
        OneClass(size, bucket, b);
        TakeBack(mem, bucket);
        assert CostAt(cost, potential, free, w, bucket);
        WorkerPush(w, bucket, mem);
        if potential[w][bucket] > POTENTIAL_LIMIT {
          k := GcBucket(w, bucket);
          SetAgain(old(potential), w, b, old(potential)[w][b] + BucketToSize(b), k * BucketToSize(b));
        }
      }
    }

    // Gives the blocks of a worker's bucket back to the global pool.
    method Drain(w: nat, bucket: nat)
      requires Valid() && Costs() && transit == 0 && w < |free| && bucket < N_BUCKETS
      modifies this`globalFree, this`fromGlobal, this`free, this`blocks, this`transit, this`cost
      ensures Valid() && Costs() && transit == 0 && OnlyList(old(free), free, w, bucket) && free[w][bucket] == []
      ensures GivenBack(old(globalFree), globalFree, bucket, old(free)[w][bucket])
    {
      ghost var l, n := free[w][bucket], 0;
      assert l == l[..0] + l[0..];
      while free[w][bucket] != []
        invariant Valid() && Costs() && transit == 0 && OnlyList(old(free), free, w, bucket)
        invariant n <= |l| && free[w][bucket] == l[..0] + l[0 + n..]
        invariant GivenBack(old(globalFree), globalFree, bucket, l[0..0 + n])
        decreases |free[w][bucket]|
      {
        OnlyListStep(old(free), free, w, bucket, l[..0] + l[1 + n..]);
        GiveNext(w, bucket, 0, false, l, n, old(globalFree));
        n := n + 1;
      }
      assert l[0..0 + n] == l;
    }

    // A worker's bucket is given up.
    method MoveBucket(w: nat, bucket: nat)
      requires Valid() && Costs() && transit == 0 && w < |free| && bucket < N_BUCKETS
      modifies this`globalFree, this`fromGlobal, this`free, this`blocks, this`transit, this`potential, this`cost
      ensures Valid() && Costs() && transit == 0 && OnlyList(old(free), free, w, bucket) && free[w][bucket] == []
      ensures GivenBack(old(globalFree), globalFree, bucket, old(free)[w][bucket])
      ensures potential == old(potential)[w := old(potential)[w][bucket := 0]]
    {
      Drain(w, bucket);
      assert CostAt(cost, potential, free, w, bucket);
      SetPotential(w, bucket, 0, 0);
    }

    // What happens when a worker is destroyed.
    method WorkerCleanup(w: nat)
      requires Valid() && Costs() && transit == 0 && w < |free|
      modifies this`globalFree, this`fromGlobal, this`free, this`blocks, this`transit, this`potential, this`cost
      ensures Valid() && Costs() && transit == 0 && |free| == old(|free|)
      ensures forall v :: 0 <= v < |free| && v != w ==> free[v] == old(free)[v]
      ensures forall b :: 0 <= b < N_BUCKETS ==> free[w][b] == [] && potential[w][b] == 0
      ensures forall b: nat :: b < N_BUCKETS ==>
                GivenBack(old(globalFree), old(globalFree)[b := globalFree[b]], b, old(free)[w][b])
    {
      var i := 0;
      while i < N_BUCKETS
        invariant i <= N_BUCKETS && Valid() && Costs() && transit == 0 && |free| == old(|free|)
        invariant forall v :: 0 <= v < |free| && v != w ==> free[v] == old(free)[v]
        invariant forall b :: 0 <= b < i ==> free[w][b] == [] && potential[w][b] == 0
        invariant forall b :: i <= b < N_BUCKETS ==> free[w][b] == old(free)[w][b] && globalFree[b] == old(globalFree)[b]
        invariant forall b: nat :: b < i ==>
                    GivenBack(old(globalFree), old(globalFree)[b := globalFree[b]], b, old(free)[w][b])
      {
        MoveBucket(w, i);
        i := i + 1;
      }
    }

    /** No leak: once every block has been freed and every worker cleaned up, the counter that
        is checked at the end is zero, and every byte is wasted, in the pool or on a global list. */
    lemma NoLeak()
      requires Valid() && transit == 0
      requires forall b :: 0 <= b < N_BUCKETS ==> live[b] == []
      requires forall w, b :: 0 <= w < |free| && 0 <= b < N_BUCKETS ==> free[w][b] == []
      ensures fromGlobal == 0 && fromOs == wasted + (poolEnd - poolBegin) + Bytes(globalFree)
    {
      ValidMeans();
      NoWorkerBytes(|free|);
    }

    /** Two blocks never overlap, and none overlaps the rest of the pool. */
    lemma Disjoint(a: nat, c: nat)
      requires Valid() && a in blocks && c in blocks && a != c
      ensures a + Size(blocks[a]) <= c || c + Size(blocks[c]) <= a
      ensures a + Size(blocks[a]) <= poolBegin || poolEnd <= a
    {
      ValidMeans();
      assert !Overlap(blocks, a, c) && !Overlap(blocks, c, a);
      assert Inside(os, nChunks, poolBegin, poolEnd, a, blocks[a]);
    }

    /** A block is on one list: the one of the place and the size class it has. */
    lemma OnePlace(a: nat, w: nat, b: nat)
      requires Valid() && transit == 0 && w < |free| && b < N_BUCKETS
      ensures a in globalFree[b] <==> At(blocks, a, b, InGlobal)
      ensures a in live[b] <==> At(blocks, a, b, InUse)
      ensures a in free[w][b] <==> At(blocks, a, b, InWorker(w))
    {
      ValidMeans();
      assert ListsOk(free[w], blocks, InWorker(w));
      assert ListOk(free[w][b], blocks, b, InWorker(w));
      assert ListOk(globalFree[b], blocks, b, InGlobal) && ListOk(live[b], blocks, b, InUse);
    }

    /** The collector is amortised: the nodes its loops have visited in a bucket are at most
        three times the blocks that were ever put on it. */
    lemma CollectorAmortised(w: nat, b: nat)
      requires Costs() && w < |free| && b < N_BUCKETS
      ensures cost[w][b].counted + cost[w][b].freed <= 3 * cost[w][b].pushes
    {
      assert CostAt(cost, potential, free, w, b);
    }
  }

  // The size class of a request.
  ghost predicate InClass(size: nat, b: nat) {
    b < N_BUCKETS && size <= BucketToSize(b) && forall c: nat :: c < b ==> BucketToSize(c) < size
  }

  lemma OneClass(size: nat, a: nat, b: nat)
    requires InClass(size, a) && InClass(size, b)
    ensures a == b
  {
  }

  // Counting `k` nodes is paid for by the potential that is given up.
  lemma CountCost(c: Cost, pot: int, bucket: nat, len: nat, k: nat)
    requires bucket < N_BUCKETS && pot > POTENTIAL_LIMIT
    requires CostOk(c, pot, BucketToSize(bucket), len)
    requires 2 * (k * BucketToSize(bucket)) < pot + 2 * BucketToSize(bucket)
    ensures CostOk(c.(units := k, counted := c.counted + k), k * BucketToSize(bucket), BucketToSize(bucket), len)
  {
  }
}
