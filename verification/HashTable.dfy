/** The open hash table of reducer maps as a value: one list of elements per bucket. */
module HashTable {
  import opened Bits
  import opened FrameSizes
  import opened Sequences
  import opened Unfolding

  // A slot; key 0 marks an unused one.
  datatype Elem = Elem(key: nat, view: nat)

  // ---------------------------------------------------------------------------
  // Sizes and hashing
  // ---------------------------------------------------------------------------

  // sizeof(bucket) and sizeof(elem) on a 64-bit machine.
  const BUCKET_BYTES := 32
  const ELEM_BYTES := 24

  // The number of slots, besides the terminator, in the block that holds `nmax` of them.
  function RoundUpSlots(nmax: nat): (r: nat)
    ensures r >= nmax && r >= 1
    ensures var block := RoundUp(BUCKET_BYTES + nmax * ELEM_BYTES);
            BUCKET_BYTES + r * ELEM_BYTES <= block < BUCKET_BYTES + (r + 1) * ELEM_BYTES
  {
    (RoundUp(BUCKET_BYTES + nmax * ELEM_BYTES) - BUCKET_BYTES) / ELEM_BYTES
  }

  // Buckets wanted before another element goes in.
  function MinSize(nelem: nat): nat {
    1 + nelem + nelem / 8
  }

  function NextSize(nbuckets: nat): nat {
    2 * nbuckets
  }

  function Mix(key: nat): nat {
    var a := Xor(key, key / 0x20_0000);
    var b := Xor(a, a / 0x100);
    Xor(b, b / 8)
  }

  function Hash(key: nat, nbuckets: nat): nat
    requires nbuckets > 0
  {
    And(Mix(key), nbuckets - 1)
  }

  // Dividing by the constants is shifting.
  lemma {:induction false} HalfDown(a: nat, s: nat)
    ensures Down(a, s) / 2 == Down(a, s + 1)
    decreases s
  {
    if s > 0 {
      HalfDown(a / 2, s - 1);
    }
  }

  lemma SevenDown(a: nat)
    ensures a / 8 == Down(a, 3) && a / 0x80 == Down(a, 7)
  {
    HalfDown(a, 0);
    HalfDown(a, 1);
    HalfDown(a, 2);
    HalfDown(a, 3);
    HalfDown(a, 4);
    HalfDown(a, 5);
    HalfDown(a, 6);
  }

  lemma EightDown(a: nat)
    ensures a / 0x100 == Down(a, 8)
  {
    SevenDown(a);
    HalfDown(a, 7);
  }

  lemma FarDown(a: nat)
    ensures a / 0x20_0000 == Down(a, 21)
  {
    var b := Down(a, 7);
    var c := Down(b, 7);
    SevenDown(a);
    SevenDown(b);
    SevenDown(c);
    DownTwice(a, 7, 7);
    DownTwice(a, 14, 7);
  }

  // What a shift and an exclusive or do to bit `i`.
  lemma MixStep(a: nat, s: nat, b: nat, i: nat)
    requires b == Xor(a, Down(a, s))
    ensures Bit(b, i) <==> Bit(a, i) != Bit(a, i + s)
  {
    XorBit(a, Down(a, s), i);
    ShiftBit(a, s, i);
  }

  // The three steps together.
  lemma MixBits(key: nat, a: nat, b: nat, c: nat, i: nat)
    requires a == Xor(key, Down(key, 21)) && b == Xor(a, Down(a, 8)) && c == Xor(b, Down(b, 3))
    ensures Bit(c, i) <==>
            ((Bit(key, i) != Bit(key, i + 3)) != (Bit(key, i + 8) != Bit(key, i + 11))) !=
            ((Bit(key, i + 21) != Bit(key, i + 24)) != (Bit(key, i + 29) != Bit(key, i + 32)))
  {
    MixStep(b, 3, c, i);
    MixStep(a, 8, b, i);
    MixStep(a, 8, b, i + 3);
    MixStep(key, 21, a, i);
    MixStep(key, 21, a, i + 3);
    MixStep(key, 21, a, i + 8);
    MixStep(key, 21, a, i + 11);
  }

  /** The hash is the remainder of the mix, in which every bit is the parity of eight bits of the key. */
  lemma HashMeans(key: nat, e: nat, i: nat)
    ensures Hash(key, Pow2(e)) == Mix(key) % Pow2(e)
    ensures Bit(Mix(key), i) <==>
            ((Bit(key, i) != Bit(key, i + 3)) != (Bit(key, i + 8) != Bit(key, i + 11))) !=
            ((Bit(key, i + 21) != Bit(key, i + 24)) != (Bit(key, i + 29) != Bit(key, i + 32)))
  {
    var a := Xor(key, key / 0x20_0000);
    var b := Xor(a, a / 0x100);
    FarDown(key);
    EightDown(a);
    SevenDown(b);
    MixBits(key, a, b, Xor(b, b / 8), i);
    AndMask(Mix(key), e);
  }

  ghost predicate PowerOfTwo(n: nat) {
    exists e: nat :: n == Pow2(e)
  }

  /** Every hash is a bucket number. */
  lemma HashInRange(key: nat, n: nat)
    requires PowerOfTwo(n)
    ensures n > 0 && Hash(key, n) < n
  {
    var e: nat :| n == Pow2(e);
    AndMask(Mix(key), e);
  }

  // The bucket of every key.
  type Places = nat -> nat

  // `place` is the hash function of a table with `n` buckets.
  ghost predicate PlacesOf(place: Places, n: nat) {
    && PowerOfTwo(n)
    && (forall k: nat {:trigger place(k)} :: place(k) < n)
    && (forall k: nat {:trigger Hash(k, n)} :: n > 0 && place(k) == Hash(k, n))
  }

  lemma HashPlaces(n: nat) returns (place: Places)
    requires PowerOfTwo(n)
    ensures PlacesOf(place, n)
  {
    HashInRange(0, n);
    place := k => Hash(k, n);
    forall k: nat ensures place(k) < n {
      HashInRange(k, n);
    }
  }

  lemma Doubled(n: nat)
    requires PowerOfTwo(n)
    ensures PowerOfTwo(NextSize(n))
  {
    var e: nat :| n == Pow2(e);
    assert NextSize(n) == Pow2(e + 1);
  }

  // Room was made before the last element went in.
  ghost predicate LoadOk(nelem: nat, nbuckets: nat) {
    nbuckets > 0 && (nelem > 0 ==> MinSize(nelem - 1) <= nbuckets)
  }

  /** One doubling always makes room for the next element, and there are never more elements
      than buckets. */
  lemma OneDoubling(nelem: nat, nbuckets: nat)
    requires LoadOk(nelem, nbuckets)
    ensures nelem <= nbuckets && MinSize(nelem) <= NextSize(nbuckets)
  {
  }

  /** The table has a power of two of buckets and `place` is its hash function; the number of
      elements is known, and room was made for them in time. */
  ghost predicate Sized(place: Places, views: map<nat, nat>, nelem: nat, nbuckets: nat) {
    forall n: nat {:trigger Marker(views, n)} :: Marker(views, n) ==>
      PlacesOf(place, nbuckets) && LoadOk(nelem, nbuckets) && nelem == |views|
  }

  lemma SizedMeans(place: Places, views: map<nat, nat>, nelem: nat, nbuckets: nat)
    ensures Sized(place, views, nelem, nbuckets) <==> PlacesOf(place, nbuckets) && LoadOk(nelem, nbuckets) && nelem == |views|
  {
    assert Marker(views, 0);
  }

  // ---------------------------------------------------------------------------
  // The table
  // ---------------------------------------------------------------------------

  // Element `e` belongs to bucket `i` of `n` and carries what the table `views` maps its key to.
  ghost predicate ElemOk(e: Elem, i: nat, place: Places, views: map<nat, nat>) {
    e.key != 0 && place(e.key) == i && e.key in views && views[e.key] == e.view
  }

  ghost predicate NoTwice(l: seq<Elem>) {
    forall i, j :: 0 <= i < j < |l| ==> l[i].key != l[j].key
  }

  ghost predicate ListOk(l: seq<Elem>, i: nat, place: Places, views: map<nat, nat>) {
    NoTwice(l) && forall j :: 0 <= j < |l| ==> ElemOk(l[j], i, place, views)
  }

  ghost predicate KeyIn(lists: seq<seq<Elem>>, place: Places, k: nat, v: nat) {
    place(k) < |lists| && Elem(k, v) in lists[place(k)]
  }

  /** The lists hold exactly the entries of `views`, each once and in its hash bucket. */
  ghost predicate TableOk(lists: seq<seq<Elem>>, place: Places, views: map<nat, nat>) {
    && (forall k: nat {:trigger place(k)} :: place(k) < |lists|)
    && (forall i: nat {:trigger ListOk(lists[i], i, place, views)} :: i < |lists| ==> ListOk(lists[i], i, place, views))
    && (forall k: nat {:trigger KeyIn(lists, place, k, views[k])} :: k in views ==> KeyIn(lists, place, k, views[k]))
  }

  lemma TableAt(lists: seq<seq<Elem>>, place: Places, views: map<nat, nat>, i: nat)
    requires TableOk(lists, place, views) && i < |lists|
    ensures ListOk(lists[i], i, place, views)
  {
    assert ListOk(lists[i], i, place, views);
  }

  lemma TableInsert(lists: seq<seq<Elem>>, place: Places, views: map<nat, nat>, k: nat, v: nat)
    requires TableOk(lists, place, views) && k !in views && k != 0
    ensures place(k) < |lists|
    ensures var h := place(k); TableOk(lists[h := lists[h] + [Elem(k, v)]], place, views[k := v])
  {
    var n := |lists|;
    var h := place(k);
    var lists', views' := lists[h := lists[h] + [Elem(k, v)]], views[k := v];
    forall i: nat | i < n ensures ListOk(lists'[i], i, place, views') {
      TableAt(lists, place, views, i);
      forall j | 0 <= j < |lists[i]| ensures lists[i][j].key != k {
        assert ElemOk(lists[i][j], i, place, views);
      }
    }
    forall l: nat | l in views' ensures KeyIn(lists', place, l, views'[l]) {
      assert l != k ==> KeyIn(lists, place, l, views[l]);
    }
  }

  lemma ListRemove(l: seq<Elem>, i: nat, place: Places, views: map<nat, nat>, j: nat)
    requires ListOk(l, i, place, views) && j < |l|
    ensures ListOk(CutAt(l, j), i, place, views - {l[j].key})
  {
    var r := CutAt(l, j);
    forall a | 0 <= a < |r| ensures ElemOk(r[a], i, place, views - {l[j].key}) {
      assert ElemOk(l[if a < j then a else a + 1], i, place, views);
    }
  }

  lemma OtherList(l: seq<Elem>, i: nat, place: Places, views: map<nat, nat>, k: nat)
    requires ListOk(l, i, place, views) && place(k) != i
    ensures ListOk(l, i, place, views - {k})
  {
    forall a | 0 <= a < |l| ensures ElemOk(l[a], i, place, views - {k}) {
      assert ElemOk(l[a], i, place, views);
    }
  }

  lemma RemoveKeeps(l: seq<Elem>, j: nat, e: Elem)
    requires j < |l| && e in l && e != l[j]
    ensures e in CutAt(l, j)
  {
    var a :| 0 <= a < |l| && l[a] == e;
    assert CutAt(l, j)[if a < j then a else a - 1] == e;
  }

  lemma TableRemove(lists: seq<seq<Elem>>, place: Places, views: map<nat, nat>, i: nat, j: nat)
    requires TableOk(lists, place, views) && i < |lists| && j < |lists[i]|
    ensures lists[i][j].key in views
    ensures TableOk(lists[i := CutAt(lists[i], j)], place, views - {lists[i][j].key})
  {
    var n, k := |lists|, lists[i][j].key;
    TableAt(lists, place, views, i);
    assert ElemOk(lists[i][j], i, place, views);
    var lists', views' := lists[i := CutAt(lists[i], j)], views - {k};
    forall b: nat | b < n ensures ListOk(lists'[b], b, place, views') {
      TableAt(lists, place, views, b);
      if b == i {
        ListRemove(lists[i], i, place, views, j);
      } else {
        OtherList(lists[b], b, place, views, k);
      }
    }
    forall l: nat | l in views' ensures KeyIn(lists', place, l, views'[l]) {
      assert KeyIn(lists, place, l, views[l]);
      if place(l) == i {
        RemoveKeeps(lists[i], j, Elem(l, views[l]));
      }
    }
  }

  lemma TableSet(lists: seq<seq<Elem>>, place: Places, views: map<nat, nat>, i: nat, j: nat, v: nat)
    requires TableOk(lists, place, views) && i < |lists| && j < |lists[i]|
    ensures lists[i][j].key in views
    ensures TableOk(lists[i := lists[i][j := Elem(lists[i][j].key, v)]], place, views[lists[i][j].key := v])
  {
    var n, k := |lists|, lists[i][j].key;
    TableAt(lists, place, views, i);
    assert ElemOk(lists[i][j], i, place, views);
    var lists', views' := lists[i := lists[i][j := Elem(k, v)]], views[k := v];
    forall b: nat | b < n ensures ListOk(lists'[b], b, place, views') {
      TableAt(lists, place, views, b);
      forall a | 0 <= a < |lists[b]| && (b != i || a != j) ensures ElemOk(lists[b][a], b, place, views') {
        assert ElemOk(lists[b][a], b, place, views);
      }
    }
    forall l: nat | l in views' ensures KeyIn(lists', place, l, views'[l]) {
      if l == k {
        assert lists'[i][j] == Elem(k, v);
      } else {
        assert KeyIn(lists, place, l, views[l]);
        if place(l) == i {
          var a :| 0 <= a < |lists[i]| && lists[i][a] == Elem(l, views[l]);
          assert lists'[i][a] == lists[i][a];
        }
      }
    }
  }

  lemma TableEmpty(lists: seq<seq<Elem>>, place: Places)
    requires (forall k: nat {:trigger place(k)} :: place(k) < |lists|) && forall i :: 0 <= i < |lists| ==> lists[i] == []
    ensures TableOk(lists, place, map[])
  {
  }

  // ---------------------------------------------------------------------------
  // Walking all buckets
  // ---------------------------------------------------------------------------

  ghost predicate Prefix(l: seq<Elem>, j: nat, k: nat) {
    exists a :: 0 <= a < j && a < |l| && l[a].key == k
  }

  // The keys in buckets before bucket `i` and in the first `j` slots of bucket `i`.
  ghost function Walked(lists: seq<seq<Elem>>, place: Places, views: map<nat, nat>, i: nat, j: nat): set<nat> {
    set k | k in views && (place(k) < i || (place(k) == i && i < |lists| && Prefix(lists[i], j, k)))
  }

  lemma WalkedStart(lists: seq<seq<Elem>>, place: Places, views: map<nat, nat>)
    ensures Walked(lists, place, views, 0, 0) == {}
  {
  }

  lemma WalkedStep(lists: seq<seq<Elem>>, place: Places, views: map<nat, nat>, i: nat, j: nat)
    requires TableOk(lists, place, views) && i < |lists| && j < |lists[i]|
    ensures var e := lists[i][j];
            && e.key != 0 && e.key in views && views[e.key] == e.view
            && e.key !in Walked(lists, place, views, i, j)
            && Walked(lists, place, views, i, j + 1) == Walked(lists, place, views, i, j) + {e.key}
  {
    TableAt(lists, place, views, i);
    assert ElemOk(lists[i][j], i, place, views);
    forall k: nat ensures Prefix(lists[i], j + 1, k) <==> Prefix(lists[i], j, k) || k == lists[i][j].key {
      if k == lists[i][j].key {
        assert Prefix(lists[i], j + 1, k);
      }
    }
  }

  // Replacing a view does not change which keys are where.
  lemma WalkedSet(lists: seq<seq<Elem>>, place: Places, views: map<nat, nat>, h: nat, a: nat, v: nat, i: nat, j: nat)
    requires h < |lists| && a < |lists[h]| && lists[h][a].key in views
    ensures var e := lists[h][a];
            Walked(lists[h := lists[h][a := Elem(e.key, v)]], place, views[e.key := v], i, j) == Walked(lists, place, views, i, j)
  {
    if i < |lists| {
      var l, l' := lists[i], lists[h := lists[h][a := Elem(lists[h][a].key, v)]][i];
      assert |l'| == |l| && forall b :: 0 <= b < |l| ==> l'[b].key == l[b].key;
      forall k: nat ensures Prefix(l', j, k) <==> Prefix(l, j, k) {
        if Prefix(l, j, k) {
          var b :| 0 <= b < j && b < |l| && l[b].key == k;
          assert l'[b].key == k;
        }
      }
    }
  }

  lemma WalkedBucket(lists: seq<seq<Elem>>, place: Places, views: map<nat, nat>, i: nat)
    requires TableOk(lists, place, views) && i < |lists|
    ensures Walked(lists, place, views, i, |lists[i]|) == Walked(lists, place, views, i + 1, 0)
  {
    forall k | k in views && place(k) == i ensures Prefix(lists[i], |lists[i]|, k) {
      assert KeyIn(lists, place, k, views[k]);
      var a :| 0 <= a < |lists[i]| && lists[i][a] == Elem(k, views[k]);
      assert lists[i][a].key == k;
    }
  }

  lemma WalkedAll(lists: seq<seq<Elem>>, place: Places, views: map<nat, nat>)
    requires TableOk(lists, place, views)
    ensures Walked(lists, place, views, |lists|, 0) == views.Keys
  {
  }

  // The entries for the keys `ks`.
  function Restrict(views: map<nat, nat>, ks: set<nat>): map<nat, nat> {
    map k | k in views && k in ks :: views[k]
  }

  lemma RestrictSize(views: map<nat, nat>, ks: set<nat>, k: nat)
    requires ks <= views.Keys && k in views && k !in ks
    ensures |Restrict(views, ks)| < |views|
    ensures Restrict(views, ks + {k}) == Restrict(views, ks)[k := views[k]]
  {
    assert Restrict(views, ks).Keys == ks;
    SmallerSet(ks, views.Keys, k);
    assert |Restrict(views, ks)| == |ks| && |views| == |views.Keys|;
  }

  lemma {:induction false} SmallerSet(a: set<nat>, b: set<nat>, k: nat)
    requires a <= b && k in b && k !in a
    ensures |a| < |b|
    decreases a
  {
    if a != {} {
      var x :| x in a;
      SmallerSet(a - {x}, b - {x}, k);
    }
  }
}
