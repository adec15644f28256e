/** Reducer maps as the runtime keeps them: an array of growable buckets, each a block of
    slots that ends in one that is never used. */
module ReducerMap {
  import opened Bits
  import opened HashTable
  import opened Sequences

  // The memory of a bucket; [] is the null pointer.
  type Bucket = seq<Elem>

  // The slots `b` of a bucket hold the elements `l`, densely, and nothing else; the last
  // slot is never used.
  ghost predicate Slots(b: Bucket, l: seq<Elem>) {
    if b == [] then l == []
    else
      && |l| < |b|
      && (forall j :: 0 <= j < |l| ==> b[j] == l[j] && l[j].key != 0)
      && (forall j :: |l| <= j < |b| ==> b[j].key == 0)
  }

  // The first unused slot, the last one excluded.
  method FindEmpty(b: Bucket, ghost l: seq<Elem>) returns (j: nat)
    requires b != [] && Slots(b, l)
    ensures j == if |l| < |b| - 1 then |l| else |b| - 1
  {
    j := 0;
    while j < |b| - 1 && b[j].key != 0
      invariant j <= |b| - 1 && j <= |l|
    {
      j := j + 1;
    }
  }

  // A larger bucket with the same elements.
  method Enlarge(b: Bucket, ghost l: seq<Elem>) returns (nb: Bucket)
    requires Slots(b, l) && (b != [] ==> |l| == |b| - 1)
    ensures Slots(nb, l) && |l| < |nb| - 1
    ensures |nb| - 1 == RoundUpSlots(2 * |l|)
  {
    var nmax := if b == [] then 0 else |b| - 1;
    var nnmax := RoundUpSlots(2 * nmax);
    nb := seq(nnmax + 1, _ => Elem(0, 0));
    var i := 0;
    while i < nmax
      invariant i <= nmax && |nb| == nnmax + 1
      invariant forall j :: 0 <= j < i ==> nb[j] == l[j]
      invariant forall j :: i <= j < |nb| ==> nb[j].key == 0
    {
      nb := nb[i := b[i]];
      i := i + 1;
    }
  }

  // A slot for another element of a bucket: the bucket, reallocated if it was full, and the
  // position, which is below the last slot.
  method Grow(b: Bucket, ghost l: seq<Elem>) returns (nb: Bucket, j: nat)
    requires Slots(b, l)
    ensures Slots(nb, l) && j == |l| < |nb| - 1
    ensures if |l| < |b| - 1 then nb == b else |nb| - 1 == RoundUpSlots(2 * |l|)
  {
    if b != [] {
      j := FindEmpty(b, l);
      if j < |b| - 1 {
        return b, j;
      }
    }
    nb := Enlarge(b, l);
    j := if b == [] then 0 else |b| - 1;
  }

  // The position of a key in a bucket, or that of the first unused slot.
  method Find(b: Bucket, ghost l: seq<Elem>, key: nat) returns (j: nat)
    requires b != [] && Slots(b, l)
    ensures j <= |l| && (j < |l| ==> l[j].key == key)
    ensures j == |l| ==> forall a :: 0 <= a < |l| ==> l[a].key != key
  {
    j := 0;
    while b[j].key != 0
      invariant j <= |l|
      invariant forall a :: 0 <= a < j ==> l[a].key != key
      decreases |l| - j
    {
      if b[j].key == key {
        return;
      }
      j := j + 1;
    }
  }

  // Moves the elements behind position `j` one slot forward.
  method Remove(b: Bucket, ghost l: seq<Elem>, j: nat) returns (nb: Bucket)
    requires b != [] && Slots(b, l) && j < |l|
    ensures nb != [] && Slots(nb, CutAt(l, j))
  {
    ghost var r := CutAt(l, j);
    nb := b[j := b[j + 1]];
    var a := j + 1;
    while nb[a].key != 0
      invariant j < a <= |l| && |nb| == |b|
      invariant forall i :: 0 <= i < a && i < |r| ==> nb[i] == r[i]
      invariant forall i :: |r| <= i < a ==> nb[i].key == 0
      invariant forall i :: a <= i < |b| ==> nb[i] == b[i]
      decreases |l| - a
    {
      nb := nb[a := nb[a + 1]];
      a := a + 1;
    }
  }

  // The next element to reinsert is new, and there is room for it.
  lemma ReinsertOne(lists: seq<seq<Elem>>, place: Places, views: map<nat, nat>, i: nat, j: nat, views': map<nat, nat>,
                    nbuckets: nat)
    requires TableOk(lists, place, views) && i < |lists| && j < |lists[i]|
    requires views' == Restrict(views, Walked(lists, place, views, i, j)) && LoadOk(|views|, nbuckets)
    ensures var e := lists[i][j];
            && e.key != 0 && e.key !in views' && MinSize(|views'|) <= nbuckets
            && views'[e.key := e.view] == Restrict(views, Walked(lists, place, views, i, j + 1))
  {
    WalkedStep(lists, place, views, i, j);
    RestrictSize(views, Walked(lists, place, views, i, j), lists[i][j].key);
  }

  // A key is in the table exactly if it is in its hash bucket.
  lemma LookupIn(lists: seq<seq<Elem>>, place: Places, views: map<nat, nat>, key: nat)
    requires TableOk(lists, place, views)
    ensures place(key) < |lists|
    ensures key in views <==> exists j :: 0 <= j < |lists[place(key)]| && lists[place(key)][j].key == key
    ensures forall j :: 0 <= j < |lists[place(key)]| && lists[place(key)][j].key == key ==>
              key in views && lists[place(key)][j] == Elem(key, views[key])
  {
    var l := lists[place(key)];
    TableAt(lists, place, views, place(key));
    if key in views {
      assert KeyIn(lists, place, key, views[key]);
    }
    forall j | 0 <= j < |l| && l[j].key == key ensures key in views && l[j] == Elem(key, views[key]) {
      assert ElemOk(l[j], place(key), place, views);
    }
  }

  class CilkredMap {
    var nelem: nat
    var nbuckets: nat
    var buckets: seq<Bucket>
    var isLeftmost: bool
    ghost var lists: seq<seq<Elem>>   // what the buckets hold
    ghost var place: Places           // the hash function
    ghost var views: map<nat, nat>    // the table they stand for

    ghost predicate Stored()
      reads this
    {
      && nbuckets == |buckets| == |lists|
      && forall i :: 0 <= i < nbuckets ==> Slots(buckets[i], lists[i])
    }

    ghost predicate Valid()
      reads this
    {
      Stored() && Sized(place, views, nelem, nbuckets) && TableOk(lists, place, views)
    }

    constructor ()
      ensures Valid() && views == map[] && !isLeftmost
    {
      nbuckets := 1;
      buckets := [[]];
      nelem, isLeftmost := 0, false;
      assert 1 == Pow2(0);
      ghost var p := HashPlaces(1);
      lists, place, views := [[]], p, map[];
      new;
      SizedMeans(place, map[], 0, 1);
      TableEmpty(lists, place);
    }

    // Adds a new key; returns the slot it got.
    method InsertNoRehash(key: nat, view: nat) returns (h: nat, j: nat)
      requires Valid() && key != 0 && key !in views && MinSize(nelem) <= nbuckets
      modifies this`nelem, this`buckets, this`lists, this`views
      ensures Valid() && views == old(views)[key := view]
      ensures h < nbuckets && j < |lists[h]| && lists[h][j] == Elem(key, view)
      ensures h == Hash(key, nbuckets) && j == |old(lists)[h]|
      ensures lists == old(lists)[h := old(lists)[h] + [Elem(key, view)]]
    {
      SizedMeans(place, views, nelem, nbuckets);
      SizedMeans(place, views[key := view], nelem + 1, nbuckets);
      HashInRange(key, nbuckets);
      h := Hash(key, nbuckets);
      TableInsert(lists, place, views, key, view);
      var b;
      b, j := Grow(buckets[h], lists[h]);
      buckets := buckets[h := b[j := Elem(key, view)]];
      lists := lists[h := lists[h] + [Elem(key, view)]];
      nelem := nelem + 1;
      views := views[key := view];
    }

    // A fresh array of empty buckets.
    method MakeBuckets(n: nat)
      requires PowerOfTwo(n)
      modifies this`nelem, this`nbuckets, this`buckets, this`lists, this`place, this`views
      ensures Valid() && nbuckets == n && views == map[]
    {
      nbuckets := n;
      buckets := seq(n, _ => []);
      nelem := 0;
      lists := seq(n, _ => []);
      views := map[];
      place := HashPlaces(n);
      TableEmpty(lists, place);
      HashInRange(0, n);
      SizedMeans(place, map[], 0, n);
    }

    // Reinserts the elements of the old bucket `b`, number `i` of a table that held `oviews`.
    method Reinsert(b: Bucket, ghost olists: seq<seq<Elem>>, ghost oplace: Places, ghost oviews: map<nat, nat>, ghost i: nat)
      requires Valid() && TableOk(olists, oplace, oviews) && i < |olists| && b != [] && Slots(b, olists[i])
      requires views == Restrict(oviews, Walked(olists, oplace, oviews, i, 0)) && LoadOk(|oviews|, nbuckets)
      modifies this`nelem, this`buckets, this`lists, this`views
      ensures Valid() && views == Restrict(oviews, Walked(olists, oplace, oviews, i + 1, 0))
    {
      var j := 0;
      while b[j].key != 0
        invariant j <= |olists[i]| && Valid()
        invariant views == Restrict(oviews, Walked(olists, oplace, oviews, i, j))
        decreases |olists[i]| - j
      {
        SizedMeans(place, views, nelem, nbuckets);
        ReinsertOne(olists, oplace, oviews, i, j, views, nbuckets);
        var _, _ := InsertNoRehash(b[j].key, b[j].view);
        j := j + 1;
      }
      WalkedBucket(olists, oplace, oviews, i);
    }

    // Doubles the number of buckets.
    method Rehash()
      requires Valid()
      modifies this`nelem, this`nbuckets, this`buckets, this`lists, this`place, this`views
      ensures Valid() && views == old(views) && nbuckets == 2 * old(nbuckets)
    {
      var obuckets, onbuckets := buckets, nbuckets;
      ghost var olists, oplace, oviews := lists, place, views;
      SizedMeans(place, views, nelem, nbuckets);
      Doubled(nbuckets);
      MakeBuckets(NextSize(nbuckets));
      WalkedStart(olists, oplace, oviews);
      var i := 0;
      while i < onbuckets
        invariant i <= onbuckets && nbuckets == NextSize(onbuckets) && Valid()
        invariant views == Restrict(oviews, Walked(olists, oplace, oviews, i, 0))
      {
        var b := obuckets[i];
        if b != [] {
          Reinsert(b, olists, oplace, oviews, i);
        } else {
          WalkedBucket(olists, oplace, oviews, i);
        }
        i := i + 1;
      }
      WalkedAll(olists, oplace, oviews);
    }

    /** Adds a new key. The number of buckets is doubled first if there are too few for one more
        element, and else stays. */
    method RehashAndInsert(key: nat, view: nat) returns (h: nat, j: nat)
      requires Valid() && key != 0 && key !in views
      modifies this`nelem, this`nbuckets, this`buckets, this`lists, this`place, this`views
      ensures Valid() && views == old(views)[key := view]
      ensures h < nbuckets && j < |lists[h]| && lists[h][j] == Elem(key, view)
      ensures nbuckets == if 1 + old(nelem) + old(nelem) / 8 > old(nbuckets) then 2 * old(nbuckets) else old(nbuckets)
    {
      SizedMeans(place, views, nelem, nbuckets);
      OneDoubling(nelem, nbuckets);
      if MinSize(nelem) > nbuckets {
        Rehash();
        SizedMeans(place, views, nelem, nbuckets);
      }
      h, j := InsertNoRehash(key, view);
    }

    // The bucket and the position of a key, if it is there.
    method Lookup(key: nat) returns (found: bool, h: nat, j: nat)
      requires Valid()
      ensures found <==> key in views
      ensures found ==> h < nbuckets && j < |lists[h]| && lists[h][j] == Elem(key, views[key])
    {
      SizedMeans(place, views, nelem, nbuckets);
      HashInRange(key, nbuckets);
      h := Hash(key, nbuckets);
      found, j := false, 0;
      LookupIn(lists, place, views, key);
      if buckets[h] != [] {
        j := Find(buckets[h], lists[h], key);
        found := buckets[h][j].key != 0;
      }
    }

    // Registers a hyperobject; its leftmost view is at the address that is its key.
    method HyperCreate(key: nat)
      requires Valid() && key != 0 && key !in views
      modifies this`nelem, this`nbuckets, this`buckets, this`lists, this`place, this`views
      ensures Valid() && views == old(views)[key := key]
    {
      var _, _ := RehashAndInsert(key, key);
    }

    // The view of this strand, created if need be; `spare` is the address that the allocator
    // would return.
    method HyperLookup(key: nat, spare: nat) returns (view: nat)
      requires Valid() && key != 0
      modifies this`nelem, this`nbuckets, this`buckets, this`lists, this`place, this`views
      ensures Valid() && view == (if key in old(views) then old(views)[key] else if isLeftmost then key else spare)
      ensures views == old(views)[key := view]
      ensures key in old(views) ==> unchanged(this)
    {
      var found, h, j := Lookup(key);
      if found {
        view := buckets[h][j].view;
      } else {
        view := if isLeftmost then key else spare;
        h, j := RehashAndInsert(key, view);
      }
    }

    // Unregisters a hyperobject; an error if this strand does not hold its leftmost view.
    method HyperDestroy(key: nat) returns (ok: bool)
      requires Valid()
      modifies this`nelem, this`buckets, this`lists, this`views
      ensures Valid() && (ok <==> key in old(views) && old(views)[key] == key)
      ensures views == if ok then old(views) - {key} else old(views)
    {
      var found, h, j := Lookup(key);
      ok := found && buckets[h][j].view == key;
      if ok {
        TableRemove(lists, place, views, h, j);
        SizedMeans(place, views, nelem, nbuckets);
        SizedMeans(place, views - {key}, nelem - 1, nbuckets);
        var b := Remove(buckets[h], lists[h], j);
        buckets := buckets[h := b];
        lists := lists[h := CutAt(lists[h], j)];
        nelem := nelem - 1;
        views := views - {key};
      }
    }

    // The keys in buckets before bucket `i` and in the first `j` slots of bucket `i`.
    ghost function Before(i: nat, j: nat): set<nat>
      reads this
    {
      Walked(lists, place, views, i, j)
    }

    // The test that ends a walk over a bucket: there is one, and slot `j` is used.
    method InUse(h: nat, j: nat) returns (used: bool)
      requires Valid() && h < nbuckets && j <= |lists[h]|
      ensures used <==> j < |lists[h]|
    {
      assert Slots(buckets[h], lists[h]);
      used := buckets[h] != [] && buckets[h][j].key != 0;
    }

    // Replaces the view in a slot.
    method SetView(h: nat, j: nat, view: nat)
      requires Valid() && h < nbuckets && j < |lists[h]|
      modifies this`buckets, this`lists, this`views
      ensures Valid() && views == old(views)[old(lists)[h][j].key := view]
      ensures |lists[h]| == old(|lists[h]|) && Before(h, j + 1) == old(Before(h, j + 1))
    {
      TableSet(lists, place, views, h, j, view);
      SizedMeans(place, views, nelem, nbuckets);
      SizedMeans(place, views[lists[h][j].key := view], nelem, nbuckets);
      WalkedSet(lists, place, views, h, j, view, h, j + 1);
      TableAt(lists, place, views, h);
      assert ElemOk(lists[h][j], h, place, views);
      var key := buckets[h][j].key;
      buckets := buckets[h := buckets[h][j := Elem(key, view)]];
      lists := lists[h := lists[h][j := Elem(key, view)]];
      views := views[key := view];
    }
  }
}
