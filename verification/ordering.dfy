/** Sequences compared by a less-than function: sortedness, runs, and rearrangements that keep
    equal elements in order. */
module Ordering {

  type Less<!T> = (T, T) -> bool

  /** less is a strict weak order on the elements of s: asymmetric, and "not less" chains. */
  ghost predicate StrictWeak<T>(less: Less<T>, s: seq<T>) {
    && (forall x, y :: x in s && y in s && less(x, y) ==> !less(y, x))
    && (forall x, y, z :: x in s && y in s && z in s && !less(x, y) && !less(y, z) ==> !less(x, z))
  }

  predicate Equivalent<T>(less: Less<T>, x: T, y: T) {
    !less(x, y) && !less(y, x)
  }

  predicate Sorted<T>(less: Less<T>, s: seq<T>) {
    forall i, j :: 0 <= i < j < |s| ==> !less(s[j], s[i])
  }

  /** The elements of s that compare equal to g, in order. */
  function Class<T>(less: Less<T>, g: T, s: seq<T>): seq<T> {
    if s == [] then []
    else if Equivalent(less, g, s[0]) then [s[0]] + Class(less, g, s[1..])
    else Class(less, g, s[1..])
  }

  /** b rearranges a and keeps the order of elements that compare equal. */
  ghost predicate StableRearrangement<T>(less: Less<T>, a: seq<T>, b: seq<T>) {
    multiset(a) == multiset(b) && forall g :: g in a ==> Class(less, g, a) == Class(less, g, b)
  }

  lemma {:induction false} ClassSplit<T>(less: Less<T>, g: T, a: seq<T>, b: seq<T>)
    ensures Class(less, g, a + b) == Class(less, g, a) + Class(less, g, b)
  {
    if a == [] {
      assert a + b == b;
    } else {
      assert (a + b)[1..] == a[1..] + b;
      ClassSplit(less, g, a[1..], b);
    }
  }

  lemma SameMembers<T>(a: seq<T>, b: seq<T>)
    requires multiset(a) == multiset(b)
    ensures forall x :: x in a <==> x in b
    ensures |a| == |b|
  {
    forall x ensures x in a <==> x in b {
      assert x in multiset(a) <==> x in multiset(b);
    }
    assert |multiset(a)| == |multiset(b)|;
  }

  lemma StableTrans<T>(less: Less<T>, a: seq<T>, b: seq<T>, c: seq<T>)
    requires StableRearrangement(less, a, b) && StableRearrangement(less, b, c)
    ensures StableRearrangement(less, a, c)
  {
    SameMembers(a, b);
  }

  lemma StableRefl<T>(less: Less<T>, a: seq<T>)
    ensures StableRearrangement(less, a, a)
  {
  }

  /** Rearranging in the middle rearranges the whole. */
  lemma StableInside<T>(less: Less<T>, p: seq<T>, a: seq<T>, b: seq<T>, r: seq<T>)
    requires multiset(a) == multiset(b) && forall g :: g in p + a + r ==> Class(less, g, a) == Class(less, g, b)
    ensures StableRearrangement(less, p + a + r, p + b + r)
  {
    assert multiset(p + a + r) == multiset(p) + multiset(a) + multiset(r);
    assert multiset(p + b + r) == multiset(p) + multiset(b) + multiset(r);
    forall g | g in p + a + r
      ensures Class(less, g, p + a + r) == Class(less, g, p + b + r)
    {
      ClassSplit(less, g, p + a, r); ClassSplit(less, g, p, a);
      ClassSplit(less, g, p + b, r); ClassSplit(less, g, p, b);
    }
  }

  /** The step of a merge: an element below everything in a may move in front of a. */
  lemma MoveInFront<T>(less: Less<T>, p: seq<T>, a: seq<T>, x: T, r: seq<T>)
    requires StrictWeak(less, p + a + [x] + r) && forall y :: y in a ==> less(x, y)
    ensures StableRearrangement(less, p + (a + [x]) + r, p + ([x] + a) + r)
  {
    assert multiset(a + [x]) == multiset([x] + a);
    forall g | g in p + (a + [x]) + r
      ensures Class(less, g, a + [x]) == Class(less, g, [x] + a)
    {
      ClassSplit(less, g, a, [x]);
      ClassSplit(less, g, [x], a);
      assert forall z :: z in p + a + [x] + r <==> z in p + (a + [x]) + r;
      if Equivalent(less, g, x) {
        forall y | y in a ensures !Equivalent(less, g, y) {
          assert less(x, y);
        }
        ClassEmpty(less, g, a);
      } else {
        assert Class(less, g, [x]) == [];
      }
    }
    StableInside(less, p, a + [x], [x] + a, r);
  }

  lemma {:induction false} ClassEmpty<T>(less: Less<T>, g: T, a: seq<T>)
    requires forall y :: y in a ==> !Equivalent(less, g, y)
    ensures Class(less, g, a) == []
  {
    if a != [] {
      assert a[0] in a;
      ClassEmpty(less, g, a[1..]);
    }
  }

  // ----- runs

  /** The number of maximal nondecreasing runs. */
  function Runs<T>(less: Less<T>, s: seq<T>): nat {
    if |s| <= 1 then |s|
    else Runs(less, s[1..]) + if less(s[1], s[0]) then 1 else 0
  }

  lemma {:induction false} RunsSplit<T>(less: Less<T>, a: seq<T>, b: seq<T>)
    requires a != [] && b != []
    ensures Runs(less, a + b) + 1 == Runs(less, a) + Runs(less, b) + if less(b[0], a[|a| - 1]) then 1 else 0
  {
    if |a| == 1 {
      assert (a + b)[1..] == b;
    } else {
      assert (a + b)[1..] == a[1..] + b;
      RunsSplit(less, a[1..], b);
    }
  }

  lemma {:induction false} RunsPositive<T>(less: Less<T>, s: seq<T>)
    ensures s != [] ==> Runs(less, s) >= 1
  {
    if |s| > 1 { RunsPositive(less, s[1..]); }
  }

  lemma {:induction false} SortedIsOneRun<T>(less: Less<T>, s: seq<T>)
    requires s != [] && Sorted(less, s)
    ensures Runs(less, s) == 1
  {
    if |s| > 1 { SortedIsOneRun(less, s[1..]); }
  }

  lemma {:induction false} OneRunIsSorted<T>(less: Less<T>, s: seq<T>)
    requires Runs(less, s) <= 1 && StrictWeak(less, s)
    ensures Sorted(less, s)
  {
    if |s| > 1 {
      RunsPositive(less, s[1..]);
      assert !less(s[1], s[0]);
      OneRunIsSorted(less, s[1..]);
      forall j | 1 <= j < |s|
        ensures !less(s[j], s[0])
      {
        if j > 1 { assert !less(s[1..][j - 1], s[1..][0]); }
      }
      forall i, j | 0 <= i < j < |s|
        ensures !less(s[j], s[i])
      {
        if i > 0 { assert s[i] == s[1..][i - 1] && s[j] == s[1..][j - 1]; }
      }
    }
  }

  /** A pass that leaves more than one run makes the next pass output strictly fewer. */
  lemma PassesShrink(runsBefore: nat, runsAfter: nat)
    requires runsAfter <= (runsBefore + 1) / 2
    ensures (runsBefore + 1) / 2 > 1 ==> (runsAfter + 1) / 2 < (runsBefore + 1) / 2 && runsAfter < runsBefore
  {
  }

  // ----- the in-place merge

  predicate SortedFrom<T>(less: Less<T>, s: seq<T>, i: nat, j: nat)
    requires i <= j <= |s|
  {
    forall x, y :: i <= x < y < j ==> !less(s[y], s[x])
  }

  /** Between steps of a merge of [i, j): merged up to lo, first run up to mid, second after. */
  ghost predicate Merging<T>(less: Less<T>, s: seq<T>, i: nat, lo: nat, mid: nat, j: nat) {
    && i <= lo <= mid <= j <= |s|
    && SortedFrom(less, s, i, lo) && SortedFrom(less, s, lo, mid) && SortedFrom(less, s, mid, j)
    && forall x, y :: i <= x < lo <= y < j ==> !less(s[y], s[x])
  }

  lemma MergeKeeps<T>(less: Less<T>, s: seq<T>, i: nat, lo: nat, mid: nat, j: nat)
    requires Merging(less, s, i, lo, mid, j) && lo < mid < j && !less(s[mid], s[lo]) && StrictWeak(less, s)
    ensures Merging(less, s, i, lo + 1, mid, j)
  {
    forall y | lo < y < j
      ensures !less(s[y], s[lo])
    {
      if y > mid { assert !less(s[y], s[mid]); }
    }
  }

  /** s with element mid moved in front of element lo. */
  function MovedUp<T>(s: seq<T>, lo: nat, mid: nat): seq<T>
    requires lo <= mid < |s|
  {
    s[..lo] + [s[mid]] + s[lo..mid] + s[mid + 1..]
  }

  function MovedUpAt<T>(s: seq<T>, lo: nat, mid: nat, x: nat): T
    requires lo <= mid < |s| && x < |s|
  {
    if x < lo || x > mid then s[x] else if x == lo then s[mid] else s[x - 1]
  }

  lemma MovedUpIndex<T>(s: seq<T>, lo: nat, mid: nat)
    requires lo <= mid < |s|
    ensures |MovedUp(s, lo, mid)| == |s|
    ensures forall x :: 0 <= x < |s| ==> MovedUp(s, lo, mid)[x] == MovedUpAt(s, lo, mid, x)
  {
  }

  lemma MergeMoves<T>(less: Less<T>, s: seq<T>, i: nat, lo: nat, mid: nat, j: nat)
    requires Merging(less, s, i, lo, mid, j) && lo < mid < j && less(s[mid], s[lo]) && StrictWeak(less, s)
    ensures Merging(less, MovedUp(s, lo, mid), i, lo + 1, mid + 1, j)
    ensures StableRearrangement(less, s, MovedUp(s, lo, mid))
  {
    var t := MovedUp(s, lo, mid);
    MovedUpIndex(s, lo, mid);
    assert !less(s[lo], s[mid]);
    forall y | lo < y < mid
      ensures less(s[mid], s[y])
    {
      assert !less(s[y], s[lo]);
    }
    forall y | lo < y < j
      ensures !less(t[y], t[lo])
    {
      assert t[y] == MovedUpAt(s, lo, mid, y);
      if y <= mid { assert less(s[mid], s[y - 1]); }
    }
    forall x | i <= x < lo
      ensures !less(t[lo], t[x])
    {
      assert !less(s[mid], s[x]);
    }
    MovedUpStable(less, s, lo, mid);
  }

  lemma MovedUpStable<T>(less: Less<T>, s: seq<T>, lo: nat, mid: nat)
    requires lo < mid < |s| && StrictWeak(less, s) && forall y :: lo <= y < mid ==> less(s[mid], s[y])
    ensures StableRearrangement(less, s, MovedUp(s, lo, mid))
  {
    var p, a, x, r := s[..lo], s[lo..mid], s[mid], s[mid + 1..];
    assert s == p + a + [x] + r == p + (a + [x]) + r;
    assert MovedUp(s, lo, mid) == p + ([x] + a) + r;
    MoveInFront(less, p, a, x, r);
  }

  /** When one of the two runs is used up, the whole range is sorted. */
  lemma MergeDone<T>(less: Less<T>, s: seq<T>, i: nat, lo: nat, mid: nat, j: nat)
    requires Merging(less, s, i, lo, mid, j) && (lo == mid || mid == j)
    ensures SortedFrom(less, s, i, j)
  {
  }

  // ----- ordered insertion and duplicate removal

  /** Where list_insert_ordered puts e: in front of the first element above it. */
  function OrderedPos<T>(less: Less<T>, xs: seq<T>, e: T): (k: nat)
    ensures k <= |xs|
    ensures forall i :: 0 <= i < k ==> !less(e, xs[i])
    ensures k < |xs| ==> less(e, xs[k])
  {
    if xs == [] || less(e, xs[0]) then 0 else 1 + OrderedPos(less, xs[1..], e)
  }

  lemma OrderedInsertSorted<T>(less: Less<T>, xs: seq<T>, e: T)
    requires Sorted(less, xs) && StrictWeak(less, xs + [e])
    ensures var k := OrderedPos(less, xs, e);
            Sorted(less, xs[..k] + [e] + xs[k..])
  {
    var k := OrderedPos(less, xs, e);
    forall i | k <= i < |xs|
      ensures !less(xs[i], e)
    {
      assert xs[i] in xs + [e] && xs[k] in xs + [e] && e in xs + [e];
      assert !less(xs[k], e);
      if i > k { assert !less(xs[i], xs[k]); }
    }
  }

  /** What list_unique keeps after cur: the elements that do not equal the one kept before. */
  function KeptAfter<T>(less: Less<T>, cur: T, xs: seq<T>): seq<T> {
    if xs == [] then []
    else if Equivalent(less, cur, xs[0]) then KeptAfter(less, cur, xs[1..])
    else [xs[0]] + KeptAfter(less, xs[0], xs[1..])
  }

  function DroppedAfter<T>(less: Less<T>, cur: T, xs: seq<T>): seq<T> {
    if xs == [] then []
    else if Equivalent(less, cur, xs[0]) then [xs[0]] + DroppedAfter(less, cur, xs[1..])
    else DroppedAfter(less, xs[0], xs[1..])
  }

  /** Nothing is lost, and every dropped element equals a kept one. */
  lemma {:induction false} UniqueLosesNothing<T>(less: Less<T>, cur: T, xs: seq<T>)
    ensures var kept, dropped := KeptAfter(less, cur, xs), DroppedAfter(less, cur, xs);
            && multiset(kept) + multiset(dropped) == multiset(xs)
            && forall d :: d in dropped ==> exists k :: k in [cur] + kept && Equivalent(less, k, d)
  {
    if xs != [] {
      var rest := xs[1..];
      assert xs == [xs[0]] + rest;
      var next := if Equivalent(less, cur, xs[0]) then cur else xs[0];
      UniqueLosesNothing(less, next, rest);
      forall d | d in DroppedAfter(less, cur, xs)
        ensures exists k :: k in [cur] + KeptAfter(less, cur, xs) && Equivalent(less, k, d)
      {
        if d in DroppedAfter(less, next, rest) {
          var k :| k in [next] + KeptAfter(less, next, rest) && Equivalent(less, k, d);
          assert k in [cur] + KeptAfter(less, cur, xs);
        } else {
          assert cur in [cur] + KeptAfter(less, cur, xs);
        }
      }
    }
  }

  lemma {:induction false} KeptAreMembers<T>(less: Less<T>, cur: T, xs: seq<T>)
    ensures forall k :: k in KeptAfter(less, cur, xs) ==> k in xs
  {
    if xs != [] {
      KeptAreMembers(less, if Equivalent(less, cur, xs[0]) then cur else xs[0], xs[1..]);
    }
  }

  predicate Increasing<T>(less: Less<T>, s: seq<T>) {
    forall i, j :: 0 <= i < j < |s| ==> less(s[i], s[j])
  }

  lemma IncreasingCons<T>(less: Less<T>, x: T, s: seq<T>)
    requires Increasing(less, s) && forall k :: k in s ==> less(x, k)
    ensures Increasing(less, [x] + s)
  {
  }

  /** On a sorted list, what is kept is strictly increasing: no two of its elements are equal. */
  lemma {:induction false} UniqueOfSorted<T>(less: Less<T>, cur: T, xs: seq<T>)
    requires Sorted(less, xs) && (forall x :: x in xs ==> !less(x, cur)) && StrictWeak(less, [cur] + xs)
    ensures forall k :: k in KeptAfter(less, cur, xs) ==> less(cur, k)
    ensures Increasing(less, KeptAfter(less, cur, xs))
  {
    if xs != [] {
      var rest := xs[1..];
      assert xs == [xs[0]] + rest;
      forall x | x in rest ensures !less(x, xs[0]) && x in xs {
        var i :| 0 <= i < |rest| && rest[i] == x;
        assert x == xs[i + 1];
      }
      if Equivalent(less, cur, xs[0]) {
        UniqueOfSorted(less, cur, rest);
      } else {
        UniqueOfSorted(less, xs[0], rest);
        KeptAreMembers(less, xs[0], rest);
        forall k | k in KeptAfter(less, xs[0], rest)
          ensures less(cur, k)
        {
          assert cur in [cur] + xs && k in [cur] + xs && xs[0] in [cur] + xs;
        }
        IncreasingCons(less, xs[0], KeptAfter(less, xs[0], rest));
      }
    }
  }

  // ----- one pass of the sort

  lemma NotLessTrans<T>(less: Less<T>, s: seq<T>, x: nat, y: nat, z: nat)
    requires StrictWeak(less, s) && x < |s| && y < |s| && z < |s| && !less(s[x], s[y]) && !less(s[y], s[z])
    ensures !less(s[x], s[z])
  {
  }

  /** A maximal run ends where it meets a smaller element or the end. */
  lemma RunSorted<T>(less: Less<T>, s: seq<T>, i: nat, r: nat)
    requires StrictWeak(less, s) && i < r <= |s| && forall x :: i < x < r ==> !less(s[x], Prev(s, x))
    ensures SortedFrom(less, s, i, r)
    decreases r - i
  {
    hide StrictWeak;
    if i + 1 < r {
      RunSorted(less, s, i + 1, r);
      assert !less(s[i + 1], Prev(s, i + 1));
      forall y | i < y < r
        ensures !less(s[y], s[i])
      {
        if y > i + 1 { NotLessTrans(less, s, y, i + 1, i); }
      }
    }
  }

  function Prev<T>(s: seq<T>, x: int): T
    requires 0 < x <= |s|
  {
    s[x - 1]
  }

  lemma SortedSlice<T>(less: Less<T>, s: seq<T>, i: nat, j: nat)
    requires i <= j <= |s| && SortedFrom(less, s, i, j)
    ensures Sorted(less, s[i..j])
  {
  }

  /** Cutting a maximal run off the front of what is left takes one off the number of runs. */
  lemma RunsCut<T>(less: Less<T>, s: seq<T>, i: nat, r: nat)
    requires StrictWeak(less, s) && i < r <= |s| && SortedFrom(less, s, i, r) && (r < |s| ==> less(s[r], s[r - 1]))
    ensures Runs(less, s[i..]) == 1 + Runs(less, s[r..])
  {
    SortedSlice(less, s, i, r);
    SortedIsOneRun(less, s[i..r]);
    if r < |s| {
      assert s[i..] == s[i..r] + s[r..];
      RunsSplit(less, s[i..r], s[r..]);
    } else {
      assert s[i..] == s[i..r] && s[r..] == [];
    }
  }

  /** Appending a sorted stretch adds at most one run. */
  lemma RunsGrow<T>(less: Less<T>, s: seq<T>, i: nat, j: nat)
    requires i < j <= |s| && SortedFrom(less, s, i, j)
    ensures Runs(less, s[..j]) <= Runs(less, s[..i]) + 1
  {
    SortedSlice(less, s, i, j);
    SortedIsOneRun(less, s[i..j]);
    assert s[..j] == s[..i] + s[i..j];
    if i > 0 {
      RunsSplit(less, s[..i], s[i..j]);
    } else {
      assert s[..j] == s[i..j];
    }
  }

  lemma StableKeepsWeak<T>(less: Less<T>, s: seq<T>, t: seq<T>)
    requires StrictWeak(less, s) && StableRearrangement(less, s, t)
    ensures StrictWeak(less, t) && |t| == |s|
  {
    SameMembers(s, t);
  }
}
