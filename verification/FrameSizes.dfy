/** The size classes of the frame allocator. */
module FrameSizes {

  const N_BUCKETS := 6

  const MAX_SIZE := 2048

  function BucketToSize(bucket: nat): (size: nat)
    requires bucket < N_BUCKETS
    ensures 64 <= size <= MAX_SIZE
  {
    match bucket
    case 0 => 64
    case 1 => 128
    case 2 => 256
    case 3 => 512
    case 4 => 1024
    case _ => 2048
  }

  // The classes are the powers of two from 64 to 2048.
  lemma SizeClasses(b: nat)
    requires b < N_BUCKETS
    ensures b == 0 ==> BucketToSize(b) == 64
    ensures b > 0 ==> BucketToSize(b) == 2 * BucketToSize(b - 1)
    ensures b + 1 == N_BUCKETS ==> BucketToSize(b) == MAX_SIZE == 2048
  {
  }

  /** The first class that is large enough. */
  method BucketOfSize(size: nat) returns (bucket: nat)
    requires size <= MAX_SIZE
    ensures bucket < N_BUCKETS && size <= BucketToSize(bucket)
    ensures forall b: nat :: b < bucket ==> BucketToSize(b) < size
  {
    bucket := 0;
    while bucket < N_BUCKETS
      invariant bucket <= N_BUCKETS
      invariant forall b: nat :: b < bucket ==> BucketToSize(b) < size
      invariant bucket == N_BUCKETS ==> MAX_SIZE < size
    {
      if size <= BucketToSize(bucket) {
        return;
      }
      bucket := bucket + 1;
    }
    assert false;
  }

  // The size of the block that a request of `size` bytes gets.
  function RoundUp(size: nat): (r: nat)
    ensures size <= r
    ensures size <= MAX_SIZE ==> exists b: nat :: b < N_BUCKETS && r == BucketToSize(b)
    ensures forall b: nat :: b < N_BUCKETS && size <= BucketToSize(b) ==> r <= BucketToSize(b)
    ensures size > MAX_SIZE ==> r == size
  {
    if size > MAX_SIZE then size
    else if size <= 64 then BucketToSize(0)
    else if size <= 128 then BucketToSize(1)
    else if size <= 256 then BucketToSize(2)
    else if size <= 512 then BucketToSize(3)
    else if size <= 1024 then BucketToSize(4)
    else BucketToSize(5)
  }
}
