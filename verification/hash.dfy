/** The chained hash table. A client brings a hash function and a less-than order; key names
    the class of elements that compare equal, so the table can be read as a map from keys. */
module Hash {
  import opened Bits
  import opened Common

  const MIN_BUCKETS := 4

  /** The order is consistent: two elements compare equal exactly when their keys agree, and
      then they hash alike. */
  ghost predicate Consistent<E(!new), K(!new)>(hash: E -> nat, less: (E, E) -> bool, key: E -> K) {
    && (forall a, b :: !less(a, b) && !less(b, a) <==> key(a) == key(b))
    && (forall a, b :: key(a) == key(b) ==> hash(a) == hash(b))
  }

  /** find_bucket: hash & (bucket_cnt - 1). */
  function BucketOf<E>(hash: E -> nat, cnt: nat, e: E): nat
    requires cnt > 0
  {
    And(hash(e), cnt - 1)
  }

  ghost predicate PowerOfTwo(n: nat) {
    exists k: nat :: n == Pow2(k)
  }

  lemma BucketInRange<E>(hash: E -> nat, cnt: nat, e: E)
    requires cnt > 0
    ensures BucketOf(hash, cnt, e) < cnt
    ensures PowerOfTwo(cnt) ==> BucketOf(hash, cnt, e) == hash(e) % cnt
  {
    AndBound(hash(e), cnt - 1);
    if PowerOfTwo(cnt) {
      var k: nat :| cnt == Pow2(k);
      AndMask(hash(e), k);
    }
  }

  ghost predicate ElemAt<E, K>(hash: E -> nat, key: E -> K, bs: seq<seq<E>>, m: map<K, E>, b: nat, i: nat)
    requires |bs| > 0 && b < |bs| && i < |bs[b]|
  {
    var e := bs[b][i];
    BucketOf(hash, |bs|, e) == b && key(e) in m && m[key(e)] == e
  }

  ghost predicate Held<E, K>(hash: E -> nat, key: E -> K, bs: seq<seq<E>>, m: map<K, E>, k: K)
    requires |bs| > 0 && k in m
  {
    && key(m[k]) == k
    && BucketOf(hash, |bs|, m[k]) < |bs|
    && m[k] in bs[BucketOf(hash, |bs|, m[k])]
  }

  /** The chains hold exactly the map: every element is in its bucket and in the map, every
      entry of the map is in a bucket, and no chain has a key twice. */
  ghost predicate Represents<E, K>(hash: E -> nat, key: E -> K, bs: seq<seq<E>>, m: map<K, E>) {
    && |bs| > 0
    && (forall b: nat, i: nat :: b < |bs| && i < |bs[b]| ==> ElemAt(hash, key, bs, m, b, i))
    && (forall k :: k in m ==> Held(hash, key, bs, m, k))
    && (forall b: nat, i: nat, j: nat :: b < |bs| && i < j < |bs[b]| ==> key(bs[b][i]) != key(bs[b][j]))
  }

  /** push_front into the bucket an element belongs to. */
  function Pushed<E>(hash: E -> nat, bs: seq<seq<E>>, e: E): seq<seq<E>>
    requires |bs| > 0 && BucketOf(hash, |bs|, e) < |bs|
  {
    var b := BucketOf(hash, |bs|, e);
    bs[b := [e] + bs[b]]
  }

  lemma PushedRepresents<E, K>(hash: E -> nat, key: E -> K, bs: seq<seq<E>>, m: map<K, E>, e: E)
    requires Represents(hash, key, bs, m) && key(e) !in m
    ensures BucketOf(hash, |bs|, e) < |bs|
    ensures Represents(hash, key, Pushed(hash, bs, e), m[key(e) := e])
  {
    hide And;
    BucketInRange(hash, |bs|, e);
    var bs', m', b := Pushed(hash, bs, e), m[key(e) := e], BucketOf(hash, |bs|, e);
    forall c: nat, i: nat | c < |bs'| && i < |bs'[c]|
      ensures ElemAt(hash, key, bs', m', c, i)
    {
      if c != b {
        assert ElemAt(hash, key, bs, m, c, i);
      } else if i > 0 {
        assert ElemAt(hash, key, bs, m, c, i - 1);
      }
    }
    forall c: nat, i: nat, j: nat | c < |bs'| && i < j < |bs'[c]|
      ensures key(bs'[c][i]) != key(bs'[c][j])
    {
      if c == b {
        assert ElemAt(hash, key, bs, m, c, j - 1);
        if i > 0 { assert key(bs[c][i - 1]) != key(bs[c][j - 1]); }
      }
    }
    forall k | k in m'
      ensures Held(hash, key, bs', m', k)
    {
      if k != key(e) { assert Held(hash, key, bs, m, k); }
    }
  }

  /** list_remove of element i of bucket b. */
  function Unchained<E>(bs: seq<seq<E>>, b: nat, i: nat): seq<seq<E>>
    requires b < |bs| && i < |bs[b]|
  {
    bs[b := bs[b][..i] + bs[b][i + 1..]]
  }

  lemma UnchainedRepresents<E, K>(hash: E -> nat, key: E -> K, bs: seq<seq<E>>, m: map<K, E>, b: nat, i: nat)
    requires Represents(hash, key, bs, m) && b < |bs| && i < |bs[b]|
    ensures Represents(hash, key, Unchained(bs, b, i), m - {key(bs[b][i])})
  {
    hide And;
    var e := bs[b][i];
    var bs', m' := Unchained(bs, b, i), m - {key(e)};
    assert ElemAt(hash, key, bs, m, b, i);
    forall c: nat, x: nat | c < |bs'| && x < |bs'[c]|
      ensures ElemAt(hash, key, bs', m', c, x)
    {
      var y := if c == b && x >= i then x + 1 else x;
      assert bs'[c][x] == bs[c][y];
      assert ElemAt(hash, key, bs, m, c, y);
      if c == b {
        if y < i { assert key(bs[c][y]) != key(bs[c][i]); } else { assert key(bs[c][i]) != key(bs[c][y]); }
      }
    }
    forall c: nat, x: nat, y: nat | c < |bs'| && x < y < |bs'[c]|
      ensures key(bs'[c][x]) != key(bs'[c][y])
    {
      var x', y' := if c == b && x >= i then x + 1 else x, if c == b && y >= i then y + 1 else y;
      assert bs'[c][x] == bs[c][x'] && bs'[c][y] == bs[c][y'];
    }
    forall k | k in m'
      ensures Held(hash, key, bs', m', k)
    {
      assert Held(hash, key, bs, m, k);
      var c := BucketOf(hash, |bs|, m[k]);
      if c == b {
        var x :| 0 <= x < |bs[b]| && bs[b][x] == m[k];
        assert x != i;
        assert bs'[b][if x < i then x else x - 1] == m[k];
      }
    }
  }

  /** In the bucket of e, the element of the map that compares equal to e is there to find. */
  lemma FoundInBucket<E(!new), K(!new)>(hash: E -> nat, less: (E, E) -> bool, key: E -> K, bs: seq<seq<E>>,
                                        m: map<K, E>, e: E)
    requires Consistent(hash, less, key) && Represents(hash, key, bs, m)
    ensures var b := BucketOf(hash, |bs|, e);
            && b < |bs|
            && (key(e) in m ==> m[key(e)] in bs[b] && key(m[key(e)]) == key(e))
            && forall i: nat :: i < |bs[b]| && !less(bs[b][i], e) && !less(e, bs[b][i]) ==>
                 key(e) in m && bs[b][i] == m[key(e)]
  {
    hide And;
    BucketInRange(hash, |bs|, e);
    var b := BucketOf(hash, |bs|, e);
    if key(e) in m {
      assert Held(hash, key, bs, m, key(e));
    }
    forall i: nat | i < |bs[b]| && !less(bs[b][i], e) && !less(e, bs[b][i])
      ensures key(e) in m && bs[b][i] == m[key(e)]
    {
      assert ElemAt(hash, key, bs, m, b, i);
    }
  }

  // ----- the plain map the table must agree with

  datatype Op<E> = Insert(e: E) | Replace(e: E) | Find(e: E) | Delete(e: E)

  function Lookup<E, K>(m: map<K, E>, k: K): Option<E> {
    if k in m then Some(m[k]) else None
  }

  /** insert keeps an equal element that is there, replace puts the new one in its place;
      every operation returns the equal element found beforehand. */
  function MapStep<E, K>(key: E -> K, m: map<K, E>, op: Op<E>): (map<K, E>, Option<E>) {
    var k := key(op.e);
    (match op
     case Insert(e) => if k in m then m else m[k := e]
     case Replace(e) => m[k := e]
     case Find(_) => m
     case Delete(_) => m - {k},
     Lookup(m, k))
  }

  function MapRun<E, K>(key: E -> K, m: map<K, E>, ops: seq<Op<E>>): (map<K, E>, seq<Option<E>>)
    decreases |ops|
  {
    if ops == [] then (m, [])
    else
      var (m1, os) := MapRun(key, m, ops[..|ops| - 1]);
      var (m2, o) := MapStep(key, m1, ops[|ops| - 1]);
      (m2, os + [o])
  }

  /** The runs again, without the map: what is there for a key is decided by the last operation on
      it that is no find. After a replace it is the element given, after a delete nothing, after an
      insert the element that was there, and the one given only if there was none. All finds from
      then on return it. */
  lemma {:induction false} LastDecides<E, K>(key: E -> K, m: map<K, E>, ops: seq<Op<E>>, j: nat)
    requires j < |ops|
    requires forall i :: j < i < |ops| && key(ops[i].e) == key(ops[j].e) ==> ops[i].Find?
    ensures |MapRun(key, m, ops).1| == |ops|
    ensures var (after, results) := MapRun(key, m, ops);
            var k := key(ops[j].e);
            && (ops[j].Replace? ==> k in after && after[k] == ops[j].e)
            && (ops[j].Delete? ==> k !in after)
            && (ops[j].Insert? ==>
                  k in after && after[k] == match results[j] case Some(before) => before case None => ops[j].e)
            && forall i :: j < i < |ops| && key(ops[i].e) == k ==>
                 results[i] == if k in after then Some(after[k]) else None
    decreases |ops|
  {
    var n := |ops| - 1;
    var before := ops[..n];
    RunResults(key, m, before);
    if j < n {
      assert forall i :: 0 <= i < n ==> before[i] == ops[i];
      LastDecides(key, m, before, j);
    }
  }

  lemma {:induction false} RunResults<E, K>(key: E -> K, m: map<K, E>, ops: seq<Op<E>>)
    ensures |MapRun(key, m, ops).1| == |ops|
    decreases |ops|
  {
    if ops != [] { RunResults(key, m, ops[..|ops| - 1]); }
  }

  /** What is there for a key on which all operations are finds is what was there at first. */
  lemma {:induction false} OthersUndisturbed<E, K>(key: E -> K, m: map<K, E>, ops: seq<Op<E>>, k: K)
    requires forall i :: 0 <= i < |ops| && key(ops[i].e) == k ==> ops[i].Find?
    ensures |MapRun(key, m, ops).1| == |ops|
    ensures var (after, results) := MapRun(key, m, ops);
            && (k in after <==> k in m) && (k in m ==> after[k] == m[k])
            && forall i :: 0 <= i < |ops| && key(ops[i].e) == k ==> results[i] == if k in m then Some(m[k]) else None
    decreases |ops|
  {
    RunResults(key, m, ops);
    if ops != [] {
      var n := |ops| - 1;
      assert forall i :: 0 <= i < n ==> ops[..n][i] == ops[i];
      OthersUndisturbed(key, m, ops[..n], k);
    }
  }

  // ----- choosing the number of buckets

  lemma {:induction false} TopBit(n: nat) returns (k: nat)
    requires n > 0
    ensures Pow2(k) <= n < Pow2(k + 1)
  {
    if n == 1 {
      k := 0;
    } else {
      k := TopBit(n / 2);
      k := k + 1;
    }
  }

  /** Turning off the lowest one-bit of a word that is no power of two keeps its highest. */
  lemma {:induction false} TurnOffKeepsTop(n: nat, k: nat)
    requires Pow2(k) < n < Pow2(k + 1)
    ensures Pow2(k) <= And(n, n - 1) < n
  {
    ClearLowest(n);
    if n % 2 == 0 {
      assert Pow2(k + 1) == 2 * Pow2(k);
      assert k > 0;
      TurnOffKeepsTop(n / 2, k - 1);
    }
  }

  /** What rehash calls the ideal: the largest power of two within half the elements, or 4. */
  ghost predicate IdealBuckets(elemCnt: nat, n: nat) {
    && PowerOfTwo(n) && n >= 4
    && n <= (if elemCnt / 2 < 4 then 4 else elemCnt / 2) < 2 * n
  }

  method NewBucketCnt(elemCnt: nat) returns (n: nat)
    ensures IdealBuckets(elemCnt, n)
  {
    n := elemCnt / 2;
    if n < 4 { n := 4; }
    ghost var full := n;
    ghost var k := TopBit(n);
    assert Pow2(2) == 4;
    if k < 2 { Pow2Mono(k + 1, 2); }
    Pow2Mono(2, k);
    while !IsPowerOf2(n)
      invariant Pow2(k) <= n <= full < Pow2(k + 1)
      decreases n
    {
      PowersPassTheTest(k);
      TurnOffKeepsTop(n, k);
      n := And(n, n - 1);
    }
    var j := TestFindsPowers(n);
    if j > k { Pow2Mono(k + 1, j); }
    if j < k { Pow2Below(j, k); }
  }

  // ----- moving the elements to new buckets

  /** e comes before position p of bucket i in the old chains. */
  ghost predicate Behind<E>(hash: E -> nat, bs: seq<seq<E>>, e: E, i: nat, p: nat) {
    && |bs| > 0
    && var b := BucketOf(hash, |bs|, e);
       b < i || (b == i && b < |bs| && p <= |bs[b]| && e in bs[b][..p])
  }

  /** done is the part of m that has been moved. */
  ghost predicate MovedPart<E, K>(hash: E -> nat, bs: seq<seq<E>>, m: map<K, E>, done: map<K, E>, i: nat, p: nat) {
    && (forall k :: k in done ==> k in m && done[k] == m[k])
    && (forall k :: k in m ==> (k in done <==> Behind(hash, bs, m[k], i, p)))
  }

  lemma MoveOne<E, K>(hash: E -> nat, key: E -> K, bs: seq<seq<E>>, m: map<K, E>, done: map<K, E>, i: nat, p: nat)
    requires Represents(hash, key, bs, m) && i < |bs| && p < |bs[i]| && MovedPart(hash, bs, m, done, i, p)
    ensures var e := bs[i][p];
            key(e) !in done && MovedPart(hash, bs, m, done[key(e) := e], i, p + 1)
  {
    hide And;
    var e := bs[i][p];
    assert ElemAt(hash, key, bs, m, i, p);
    assert bs[i][..p + 1] == bs[i][..p] + [e];
    assert !Behind(hash, bs, e, i, p) by {
      assert forall q: nat :: q < p ==> key(bs[i][q]) != key(bs[i][p]);
    }
    forall k | k in m && k != key(e)
      ensures Behind(hash, bs, m[k], i, p + 1) <==> Behind(hash, bs, m[k], i, p)
    {
      assert Held(hash, key, bs, m, k);
    }
  }

  lemma MoveBucketEnd<E, K>(hash: E -> nat, key: E -> K, bs: seq<seq<E>>, m: map<K, E>, done: map<K, E>, i: nat)
    requires Represents(hash, key, bs, m) && i < |bs| && MovedPart(hash, bs, m, done, i, |bs[i]|)
    ensures MovedPart(hash, bs, m, done, i + 1, 0)
  {
    hide And;
    assert bs[i][..|bs[i]|] == bs[i];
    forall k | k in m
      ensures Behind(hash, bs, m[k], i + 1, 0) <==> Behind(hash, bs, m[k], i, |bs[i]|)
    {
      assert Held(hash, key, bs, m, k);
    }
  }

  lemma AllMoved<E, K>(hash: E -> nat, key: E -> K, bs: seq<seq<E>>, m: map<K, E>, done: map<K, E>)
    requires Represents(hash, key, bs, m) && MovedPart(hash, bs, m, done, |bs|, 0)
    ensures done == m
  {
    hide And;
    forall k | k in m
      ensures k in done
    {
      assert Held(hash, key, bs, m, k);
    }
  }

  lemma NothingMoved<E, K>(hash: E -> nat, bs: seq<seq<E>>, m: map<K, E>)
    ensures MovedPart(hash, bs, m, map[], 0, 0)
  {
  }

  lemma EmptyRepresents<E, K>(hash: E -> nat, key: E -> K, bs: seq<seq<E>>)
    requires |bs| > 0 && forall b :: 0 <= b < |bs| ==> bs[b] == []
    ensures Represents(hash, key, bs, map[])
  {
  }

  // ----- the table

  lemma InMap<E, K>(hash: E -> nat, key: E -> K, bs: seq<seq<E>>, m: map<K, E>, b: nat, i: nat)
    requires Represents(hash, key, bs, m) && b < |bs| && i < |bs[b]|
    ensures key(bs[b][i]) in m && |m - {key(bs[b][i])}| == |m| - 1
  {
    assert ElemAt(hash, key, bs, m, b, i);
    var k := key(bs[b][i]);
    assert (m - {k}).Keys == m.Keys - {k};
    assert |(m - {k}).Keys| == |m.Keys| - 1;
  }

  class HashTable<E(!new), K(!new)> {
    const hash: E -> nat
    const less: (E, E) -> bool
    ghost const key: E -> K
    var elemCnt: nat
    var buckets: array<seq<E>>
    ghost var contents: map<K, E>

    ghost predicate Valid()
      reads this, buckets
    {
      && Consistent(hash, less, key)
      && Represents(hash, key, buckets[..], contents)
      && PowerOfTwo(buckets.Length) && buckets.Length >= MIN_BUCKETS
      && elemCnt == |contents|
    }

    /** hash_init */
    constructor (hash: E -> nat, less: (E, E) -> bool, ghost key: E -> K)
      requires Consistent(hash, less, key)
      ensures Valid() && contents == map[] && fresh(buckets)
      ensures this.hash == hash && this.less == less && this.key == key
    {
      this.hash, this.less, this.key := hash, less, key;
      elemCnt := 0;
      buckets := new seq<E>[4](_ => []);
      contents := map[];
      new;
      assert Pow2(2) == 4;
    }

    /** find_elem in the bucket of e. */
    method FindElem(e: E) returns (found: Option<E>, b: nat, i: nat)
      requires Valid()
      ensures found == if key(e) in contents then Some(contents[key(e)]) else None
      ensures b == BucketOf(hash, buckets.Length, e) < buckets.Length
      ensures found.Some? ==> i < |buckets[b]| && buckets[b][i] == found.value
    {
      hide And, Represents;
      FoundInBucket(hash, less, key, buckets[..], contents, e);
      b := And(hash(e), buckets.Length - 1);
      i := 0;
      while i < |buckets[b]|
        invariant i <= |buckets[b]|
        invariant forall j: nat :: j < i ==> less(buckets[b][j], e) || less(e, buckets[b][j])
      {
        var hi := buckets[b][i];
        if !less(hi, e) && !less(e, hi) {
          return Some(hi), b, i;
        }
        i := i + 1;
      }
      assert forall x :: x in buckets[b] ==> key(x) != key(e);
      found := None;
    }

    /** rehash. The allocation of new buckets may fail; then the table stays as it is. */
    method Rehash(canAlloc: bool)
      requires Consistent(hash, less, key) && Represents(hash, key, buckets[..], contents) && elemCnt == |contents|
      requires PowerOfTwo(buckets.Length) && buckets.Length >= MIN_BUCKETS
      modifies this`buckets
      ensures Valid() && (buckets == old(buckets) || fresh(buckets))
      ensures canAlloc ==> IdealBuckets(elemCnt, buckets.Length)
      ensures !canAlloc ==> buckets == old(buckets)
    {
      hide And, Represents, PowerOfTwo, MovedPart;
      var newCnt := NewBucketCnt(elemCnt);
      if newCnt == buckets.Length { return; }
      if !canAlloc { return; }
      var oldBuckets := buckets;
      ghost var bs := buckets[..];
      var grown := MakeBuckets(newCnt);
      ghost var done := map[];
      NothingMoved(hash, bs, contents);
      EmptyRepresents(hash, key, grown[..]);
      var i := 0;
      while i < oldBuckets.Length
        invariant i <= oldBuckets.Length && oldBuckets[..] == bs && grown.Length == newCnt
        invariant MovedPart(hash, bs, contents, done, i, 0) && Represents(hash, key, grown[..], done)
      {
        var chain := oldBuckets[i];
        var p := 0;
        while p < |chain|
          invariant p <= |chain| && oldBuckets[..] == bs && grown.Length == newCnt && chain == bs[i]
          invariant MovedPart(hash, bs, contents, done, i, p) && Represents(hash, key, grown[..], done)
        {
          var elem := chain[p];
          MoveOne(hash, key, bs, contents, done, i, p);
          PushedRepresents(hash, key, grown[..], done, elem);
          BucketInRange(hash, newCnt, elem);
          var b := And(hash(elem), newCnt - 1);
          ghost var before := grown[..];
          grown[b] := [elem] + grown[b];
          assert grown[..] == Pushed(hash, before, elem);
          done := done[key(elem) := elem];
          p := p + 1;
        }
        MoveBucketEnd(hash, key, bs, contents, done, i);
        i := i + 1;
      }
      AllMoved(hash, key, bs, contents, done);
      buckets := grown;
    }

    /** hash_first, and hash_next until it returns nothing: each entry is visited once. */
    method Elements() returns (seen: seq<E>)
      requires Valid()
      ensures Lists(key, seen, contents)
    {
      hide And, Represents, MovedPart, Lists, PowerOfTwo, Consistent;
      var it := new HashIterator(this);
      seen := [];
      while true
        invariant it.Valid() && it.h == this && fresh(it) && it.seen == seen
        decreases |contents| - |seen|
      {
        var r := it.HashNext();
        if r.None? { return; }
        ListsAtMost(key, hash, buckets[..], it.seen, contents, it.done, it.bucket, it.pos);
        seen := seen + [r.value];
      }
    }

    method MakeBuckets(n: nat) returns (a: array<seq<E>>)
      ensures fresh(a) && a.Length == n && forall b :: 0 <= b < n ==> a[b] == []
    {
      a := new seq<E>[n](_ => []);
    }

    /** insert_elem at the front of the bucket of e. */
    method InsertElem(e: E, b: nat)
      requires Valid() && key(e) !in contents && b == BucketOf(hash, buckets.Length, e) && b < buckets.Length
      modifies this`elemCnt, this`contents, buckets
      ensures Valid() && contents == old(contents)[key(e) := e] && buckets == old(buckets)
    {
      hide And, Represents, PowerOfTwo;
      PushedRepresents(hash, key, buckets[..], contents, e);
      elemCnt := elemCnt + 1;
      ghost var before := buckets[..];
      buckets[b] := [e] + buckets[b];
      assert buckets[..] == Pushed(hash, before, e);
      contents := contents[key(e) := e];
    }

    /** remove_elem of element i of bucket b. */
    method RemoveElem(b: nat, i: nat)
      requires Valid() && b < buckets.Length && i < |buckets[b]|
      modifies this`elemCnt, this`contents, buckets
      ensures Valid() && contents == old(contents) - {key(old(buckets[b][i]))} && buckets == old(buckets)
      ensures forall c :: 0 <= c < buckets.Length && c != b ==> buckets[c] == old(buckets[c])
    {
      hide And, Represents, PowerOfTwo;
      UnchainedRepresents(hash, key, buckets[..], contents, b, i);
      InMap(hash, key, buckets[..], contents, b, i);
      elemCnt := elemCnt - 1;
      ghost var before, e := buckets[..], buckets[b][i];
      buckets[b] := buckets[b][..i] + buckets[b][i + 1..];
      assert buckets[..] == Unchained(before, b, i);
      contents := contents - {key(e)};
    }

    /** remove_elem of the element of bucket b that find_elem found equal to e. */
    method RemoveFound(e: E, b: nat, i: nat)
      requires Valid() && b < buckets.Length && i < |buckets[b]| && b == BucketOf(hash, buckets.Length, e)
      requires key(e) in contents && buckets[b][i] == contents[key(e)]
      modifies this`elemCnt, this`contents, buckets
      ensures Valid() && contents == old(contents) - {key(e)} && buckets == old(buckets)
    {
      hide And, Represents, PowerOfTwo, Consistent, BucketOf;
      FoundInBucket(hash, less, key, buckets[..], contents, e);
      RemoveElem(b, i);
    }

    /** hash_insert */
    method HashInsert(e: E, canAlloc: bool) returns (old': Option<E>)
      requires Valid()
      modifies this, buckets
      ensures Valid() && (buckets == old(buckets) || fresh(buckets))
      ensures (contents, old') == MapStep(key, old(contents), Insert(e))
      ensures contents == if key(e) in old(contents) then old(contents) else old(contents)[key(e) := e]
      ensures old' == if key(e) in old(contents) then Some(old(contents)[key(e)]) else None
      ensures canAlloc ==> IdealBuckets(elemCnt, buckets.Length)
    {
      hide And, Represents, PowerOfTwo, Consistent, BucketOf, IdealBuckets;
      var b, i;
      old', b, i := FindElem(e);
      if old'.None? { InsertElem(e, b); }
      Rehash(canAlloc);
    }

    /** hash_replace */
    method HashReplace(e: E, canAlloc: bool) returns (old': Option<E>)
      requires Valid()
      modifies this, buckets
      ensures Valid() && (buckets == old(buckets) || fresh(buckets))
      ensures (contents, old') == MapStep(key, old(contents), Replace(e))
      ensures contents == old(contents)[key(e) := e]
      ensures old' == if key(e) in old(contents) then Some(old(contents)[key(e)]) else None
      ensures canAlloc ==> IdealBuckets(elemCnt, buckets.Length)
    {
      hide And, Represents, PowerOfTwo, Consistent, BucketOf, IdealBuckets;
      var b, i;
      old', b, i := FindElem(e);
      if old'.Some? {
        RemoveFound(e, b, i);
      }
      assert old(contents)[key(e) := e] == contents[key(e) := e];
      InsertElem(e, b);
      Rehash(canAlloc);
    }

    /** hash_delete */
    method HashDelete(e: E, canAlloc: bool) returns (found: Option<E>)
      requires Valid()
      modifies this, buckets
      ensures Valid() && (buckets == old(buckets) || fresh(buckets))
      ensures (contents, found) == MapStep(key, old(contents), Delete(e))
      ensures contents == old(contents) - {key(e)}
      ensures found == if key(e) in old(contents) then Some(old(contents)[key(e)]) else None
      ensures canAlloc && found.Some? ==> IdealBuckets(elemCnt, buckets.Length)
    {
      hide And, Represents, PowerOfTwo, Consistent, BucketOf, IdealBuckets;
      var b, i;
      found, b, i := FindElem(e);
      if found.Some? {
        RemoveFound(e, b, i);
        Rehash(canAlloc);
      } else {
        assert contents - {key(e)} == contents;
      }
    }

    /** hash_find */
    method HashFind(e: E) returns (found: Option<E>)
      requires Valid()
      ensures (contents, found) == MapStep(key, contents, Find(e))
    {
      var b, i;
      found, b, i := FindElem(e);
    }

    /** Any sequence of operations, with any of rehash's allocations failing, returns what the
        plain map returns and ends up holding what it holds. */
    method Run(ops: seq<Op<E>>, canAlloc: nat -> bool) returns (results: seq<Option<E>>)
      requires Valid()
      modifies this, buckets
      ensures Valid() && (contents, results) == MapRun(key, old(contents), ops)
    {
      hide Consistent, Represents, PowerOfTwo, MapStep, IdealBuckets;
      results := [];
      var i := 0;
      while i < |ops|
        invariant i <= |ops| && Valid() && (buckets == old(buckets) || fresh(buckets))
        invariant (contents, results) == MapRun(key, old(contents), ops[..i])
      {
        assert ops[..i + 1][..i] == ops[..i];
        var r;
        match ops[i] {
          case Insert(e) => r := HashInsert(e, canAlloc(i));
          case Replace(e) => r := HashReplace(e, canAlloc(i));
          case Find(e) => r := HashFind(e);
          case Delete(e) => r := HashDelete(e, canAlloc(i));
        }
        results := results + [r];
        i := i + 1;
      }
      assert ops[..i] == ops;
    }
  }

  // ----- iteration

  /** xs lists every entry of m, each once. */
  ghost predicate Lists<E, K>(key: E -> K, xs: seq<E>, m: map<K, E>) {
    && |xs| == |m|
    && (forall i: nat :: i < |xs| ==> key(xs[i]) in m && m[key(xs[i])] == xs[i])
    && (forall i: nat, j: nat :: i < j < |xs| ==> key(xs[i]) != key(xs[j]))
    && (forall k :: k in m ==> m[k] in xs)
  }

  lemma ListsOneMore<E, K>(key: E -> K, xs: seq<E>, m: map<K, E>, e: E)
    requires Lists(key, xs, m) && key(e) !in m
    ensures Lists(key, xs + [e], m[key(e) := e])
  {
    var xs', m' := xs + [e], m[key(e) := e];
    assert m'.Keys == m.Keys + {key(e)} && |m'| == |m'.Keys|;
    assert xs'[|xs|] == e;
    forall k | k in m'
      ensures m'[k] in xs'
    {
      if k != key(e) { assert m[k] in xs; }
    }
  }

  class HashIterator<E(!new), K(!new)> {
    const h: HashTable<E, K>
    var bucket: nat
    /** 0 stands for the list head, i + 1 for element i of the bucket. */
    var pos: nat
    ghost var done: map<K, E>
    ghost var seen: seq<E>

    ghost predicate Valid()
      reads this, h, h.buckets
    {
      && h.Valid()
      && bucket < h.buckets.Length && pos <= |h.buckets[bucket]|
      && MovedPart(h.hash, h.buckets[..], h.contents, done, bucket, pos)
      && Lists(h.key, seen, done)
    }

    /** hash_first */
    constructor (h: HashTable<E, K>)
      requires h.Valid()
      ensures Valid() && this.h == h && seen == []
    {
      this.h, bucket, pos, done, seen := h, 0, 0, map[], [];
      new;
      NothingMoved(h.hash, h.buckets[..], h.contents);
    }

    /** hash_next */
    method HashNext() returns (r: Option<E>)
      requires Valid()
      modifies this
      ensures r.Some? ==> Valid() && seen == old(seen) + [r.value]
      ensures r.None? ==> seen == old(seen) && Lists(h.key, seen, h.contents)
    {
      hide And, Represents, MovedPart, Lists, PowerOfTwo, Consistent;
      pos := pos + 1;
      while pos == |h.buckets[bucket]| + 1
        invariant h.Valid() && bucket < h.buckets.Length && 0 < pos <= |h.buckets[bucket]| + 1
        invariant MovedPart(h.hash, h.buckets[..], h.contents, done, bucket, pos - 1)
        invariant Lists(h.key, seen, done) && seen == old(seen)
        decreases h.buckets.Length - bucket
      {
        MoveBucketEnd(h.hash, h.key, h.buckets[..], h.contents, done, bucket);
        if bucket + 1 >= h.buckets.Length {
          AllMoved(h.hash, h.key, h.buckets[..], h.contents, done);
          return None;
        }
        bucket := bucket + 1;
        pos := 1;
      }
      var e := h.buckets[bucket][pos - 1];
      MoveOne(h.hash, h.key, h.buckets[..], h.contents, done, bucket, pos - 1);
      ListsOneMore(h.key, seen, done, e);
      done := done[h.key(e) := e];
      seen := seen + [e];
      r := Some(e);
    }
  }

  /** What has been visited is never more than what there is to visit. */
  lemma ListsAtMost<E, K>(key: E -> K, hash: E -> nat, bs: seq<seq<E>>, xs: seq<E>, m: map<K, E>, done: map<K, E>,
                          b: nat, p: nat)
    requires Lists(key, xs, done) && MovedPart(hash, bs, m, done, b, p)
    ensures |xs| <= |m|
  {
    SubsetSize(done.Keys, m.Keys);
  }
}
