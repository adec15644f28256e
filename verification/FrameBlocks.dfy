/** The memory of the frame allocator as values: the blocks carved from chunks, the free lists
    they are on, and the bytes these hold. */
module FrameBlocks {
  import opened FrameSizes
  import opened Sequences

  const CHUNK := 32 * 1024 - 128

  // Where a block is. `Transit`: taken from one list and not yet on another.
  datatype Place = InGlobal | InWorker(w: nat) | InUse | Transit

  datatype Block = Block(bucket: nat, place: Place, chunk: nat)

  // The address of the n-th chunk that the operating system hands out.
  type Chunks = nat -> nat

  ghost predicate ChunksOk(os: Chunks) {
    forall i: nat, j: nat :: i != j ==> os(i) + CHUNK <= os(j) || os(j) + CHUNK <= os(i)
  }

  function Size(b: Block): nat {
    if b.bucket < N_BUCKETS then BucketToSize(b.bucket) else 0
  }

  // ---------------------------------------------------------------------------
  // Geometry
  // ---------------------------------------------------------------------------

  // The block at `a` lies in its chunk, one of the first `n`, and not in the pool.
  ghost predicate Inside(os: Chunks, n: nat, poolBegin: nat, poolEnd: nat, a: nat, b: Block) {
    && b.bucket < N_BUCKETS && b.chunk < n
    && os(b.chunk) <= a && a + Size(b) <= os(b.chunk) + CHUNK
    && (a + Size(b) <= poolBegin || poolEnd <= a)
  }

  ghost predicate Overlap(blocks: map<nat, Block>, a: nat, c: nat) {
    a in blocks && c in blocks && a < c < a + Size(blocks[a])
  }

  // The pool is the rest of the last chunk.
  ghost predicate PoolOk(os: Chunks, n: nat, poolBegin: nat, poolEnd: nat) {
    if n == 0 then poolBegin == poolEnd == 0
    else os(n - 1) <= poolBegin <= poolEnd == os(n - 1) + CHUNK
  }

  /** Blocks do not overlap each other or the unused rest of the pool. */
  ghost predicate Geometry(os: Chunks, n: nat, poolBegin: nat, poolEnd: nat, blocks: map<nat, Block>) {
    && PoolOk(os, n, poolBegin, poolEnd)
    && (forall a {:trigger Inside(os, n, poolBegin, poolEnd, a, blocks[a])} ::
          a in blocks ==> Inside(os, n, poolBegin, poolEnd, a, blocks[a]))
    && (forall a, c {:trigger Overlap(blocks, a, c)} :: !Overlap(blocks, a, c))
  }

  lemma CarveGeometry(os: Chunks, n: nat, poolBegin: nat, poolEnd: nat, blocks: map<nat, Block>, bucket: nat, p: Place)
    requires Geometry(os, n, poolBegin, poolEnd, blocks)
    requires bucket < N_BUCKETS && poolBegin + BucketToSize(bucket) <= poolEnd
    ensures poolBegin !in blocks && n > 0
    ensures Geometry(os, n, poolBegin + BucketToSize(bucket), poolEnd, blocks[poolBegin := Block(bucket, p, n - 1)])
  {
    var size := BucketToSize(bucket);
    var blocks' := blocks[poolBegin := Block(bucket, p, n - 1)];
    forall a | a in blocks ensures a != poolBegin {
      assert Inside(os, n, poolBegin, poolEnd, a, blocks[a]);
    }
    forall a | a in blocks' ensures Inside(os, n, poolBegin + size, poolEnd, a, blocks'[a]) {
      if a != poolBegin {
        assert Inside(os, n, poolBegin, poolEnd, a, blocks[a]);
      }
    }
    forall a, c ensures !Overlap(blocks', a, c) {
      assert !Overlap(blocks, a, c);
      if a in blocks { assert Inside(os, n, poolBegin, poolEnd, a, blocks[a]); }
      if c in blocks { assert Inside(os, n, poolBegin, poolEnd, c, blocks[c]); }
    }
  }

  lemma ExtendGeometry(os: Chunks, n: nat, poolBegin: nat, poolEnd: nat, blocks: map<nat, Block>)
    requires ChunksOk(os) && Geometry(os, n, poolBegin, poolEnd, blocks)
    ensures Geometry(os, n + 1, os(n), os(n) + CHUNK, blocks)
  {
    forall a | a in blocks ensures Inside(os, n + 1, os(n), os(n) + CHUNK, a, blocks[a]) {
      assert Inside(os, n, poolBegin, poolEnd, a, blocks[a]);
    }
  }

  // A block that changes its place stays where it is in memory.
  lemma PlaceGeometry(os: Chunks, n: nat, poolBegin: nat, poolEnd: nat, blocks: map<nat, Block>, a: nat, p: Place)
    requires Geometry(os, n, poolBegin, poolEnd, blocks) && a in blocks
    ensures Geometry(os, n, poolBegin, poolEnd, blocks[a := blocks[a].(place := p)])
  {
    var blocks' := blocks[a := blocks[a].(place := p)];
    forall c | c in blocks' ensures Inside(os, n, poolBegin, poolEnd, c, blocks'[c]) {
      assert Inside(os, n, poolBegin, poolEnd, c, blocks[c]);
    }
    forall c, d ensures !Overlap(blocks', c, d) {
      assert !Overlap(blocks, c, d);
    }
  }

  // ---------------------------------------------------------------------------
  // Free lists
  // ---------------------------------------------------------------------------

  ghost predicate At(blocks: map<nat, Block>, a: nat, bucket: nat, p: Place) {
    a in blocks && blocks[a].bucket == bucket && blocks[a].place == p
  }

  // The list `l` holds exactly the blocks of the bucket that are at `p`, once each.
  ghost predicate ListOk(l: seq<nat>, blocks: map<nat, Block>, bucket: nat, p: Place) {
    Distinct(l) && forall a: nat :: a in l <==> At(blocks, a, bucket, p)
  }

  // One list for each bucket.
  ghost predicate ListsOk(ls: seq<seq<nat>>, blocks: map<nat, Block>, p: Place) {
    |ls| == N_BUCKETS && forall b: nat {:trigger ListOk(ls[b], blocks, b, p)} :: b < N_BUCKETS ==> ListOk(ls[b], blocks, b, p)
  }

  lemma ListPush(l: seq<nat>, blocks: map<nat, Block>, bucket: nat, p: Place, a: nat, blk: Block)
    requires ListOk(l, blocks, bucket, p) && !At(blocks, a, bucket, p) && blk.bucket == bucket && blk.place == p
    ensures ListOk([a] + l, blocks[a := blk], bucket, p)
  {
    forall c: nat ensures c in [a] + l <==> At(blocks[a := blk], c, bucket, p) {
      assert c in l <==> At(blocks, c, bucket, p);
    }
    assert a in l <==> At(blocks, a, bucket, p);
  }

  // A block that was and is elsewhere.
  lemma ListSame(l: seq<nat>, blocks: map<nat, Block>, bucket: nat, p: Place, a: nat, blk: Block)
    requires ListOk(l, blocks, bucket, p) && !At(blocks, a, bucket, p) && (blk.bucket != bucket || blk.place != p)
    ensures ListOk(l, blocks[a := blk], bucket, p)
  {
    forall c: nat ensures c in l <==> At(blocks[a := blk], c, bucket, p) {
      assert c in l <==> At(blocks, c, bucket, p);
    }
  }

  lemma ListsPush(ls: seq<seq<nat>>, blocks: map<nat, Block>, p: Place, a: nat, blk: Block)
    requires ListsOk(ls, blocks, p) && blk.place == p && blk.bucket < N_BUCKETS && (a in blocks ==> blocks[a].place != p)
    ensures ListsOk(ls[blk.bucket := [a] + ls[blk.bucket]], blocks[a := blk], p)
  {
    var ls' := ls[blk.bucket := [a] + ls[blk.bucket]];
    forall b: nat | b < N_BUCKETS ensures ListOk(ls'[b], blocks[a := blk], b, p) {
      assert ListOk(ls[b], blocks, b, p);
      if b == blk.bucket {
        ListPush(ls[b], blocks, b, p, a, blk);
      } else {
        ListSame(ls[b], blocks, b, p, a, blk);
      }
    }
  }

  lemma {:induction false} CutIsWithout(l: seq<nat>, i: nat)
    requires Distinct(l) && i < |l|
    ensures CutAt(l, i) == Without(l, l[i])
  {
    if i > 0 {
      CutIsWithout(l[1..], i - 1);
      assert CutAt(l, i) == [l[0]] + CutAt(l[1..], i - 1);
    }
  }

  lemma ListsCut(ls: seq<seq<nat>>, blocks: map<nat, Block>, p: Place, bucket: nat, i: nat, q: Place)
    requires ListsOk(ls, blocks, p) && bucket < N_BUCKETS && i < |ls[bucket]| && q != p
    ensures var a := ls[bucket][i];
            && At(blocks, a, bucket, p)
            && ListsOk(ls[bucket := CutAt(ls[bucket], i)], blocks[a := blocks[a].(place := q)], p)
  {
    assert ListOk(ls[bucket], blocks, bucket, p);
    assert ls[bucket][i] in ls[bucket];
    CutIsWithout(ls[bucket], i);
    ListsWithout(ls, blocks, p, bucket, ls[bucket][i], q);
  }

  lemma ListsWithout(ls: seq<seq<nat>>, blocks: map<nat, Block>, p: Place, bucket: nat, a: nat, q: Place)
    requires ListsOk(ls, blocks, p) && At(blocks, a, bucket, p) && bucket < N_BUCKETS && q != p
    ensures ListsOk(ls[bucket := Without(ls[bucket], a)], blocks[a := blocks[a].(place := q)], p)
    ensures |Without(ls[bucket], a)| + 1 == |ls[bucket]|
  {
    var ls', blocks' := ls[bucket := Without(ls[bucket], a)], blocks[a := blocks[a].(place := q)];
    assert ListOk(ls[bucket], blocks, bucket, p);
    WithoutMembers(ls[bucket], a);
    forall b: nat | b < N_BUCKETS ensures ListOk(ls'[b], blocks', b, p) {
      assert ListOk(ls[b], blocks, b, p);
      forall c: nat ensures c in ls'[b] <==> At(blocks', c, b, p) {
        assert c in ls[b] <==> At(blocks, c, b, p);
      }
    }
  }

  lemma ListsSame(ls: seq<seq<nat>>, blocks: map<nat, Block>, p: Place, a: nat, blk: Block)
    requires ListsOk(ls, blocks, p) && blk.place != p && (a in blocks ==> blocks[a].place != p)
    ensures ListsOk(ls, blocks[a := blk], p)
  {
    forall b: nat | b < N_BUCKETS ensures ListOk(ls[b], blocks[a := blk], b, p) {
      assert ListOk(ls[b], blocks, b, p);
      ListSame(ls[b], blocks, b, p, a, blk);
    }
  }

  // ---------------------------------------------------------------------------
  // Bytes
  // ---------------------------------------------------------------------------

  function Bytes(ls: seq<seq<nat>>): nat
    requires |ls| == N_BUCKETS
  {
    64 * |ls[0]| + 128 * |ls[1]| + 256 * |ls[2]| + 512 * |ls[3]| + 1024 * |ls[4]| + 2048 * |ls[5]|
  }

  lemma BytesUpdate(ls: seq<seq<nat>>, b: nat, l: seq<nat>)
    requires |ls| == N_BUCKETS && b < N_BUCKETS
    ensures |l| == |ls[b]| + 1 ==> Bytes(ls[b := l]) == Bytes(ls) + BucketToSize(b)
    ensures |l| + 1 == |ls[b]| ==> Bytes(ls[b := l]) == Bytes(ls) - BucketToSize(b)
  {
  }

  // Bytes on the lists of the first `n` workers.
  function WorkerBytes(free: seq<seq<seq<nat>>>, n: nat): nat
    requires n <= |free| && forall w :: 0 <= w < |free| ==> |free[w]| == N_BUCKETS
  {
    if n == 0 then 0 else WorkerBytes(free, n - 1) + Bytes(free[n - 1])
  }

  lemma {:induction false} WorkerBytesUpdate(free: seq<seq<seq<nat>>>, n: nat, w: nat, ls: seq<seq<nat>>)
    requires n <= |free| && w < |free| && |ls| == N_BUCKETS
    requires forall w :: 0 <= w < |free| ==> |free[w]| == N_BUCKETS
    ensures WorkerBytes(free[w := ls], n) == WorkerBytes(free, n) + if w < n then Bytes(ls) - Bytes(free[w]) else 0
  {
    if n > 0 {
      WorkerBytesUpdate(free, n - 1, w, ls);
    }
  }
}
