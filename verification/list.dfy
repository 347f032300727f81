/** The intrusive doubly linked list: elements carry only links, and a list owns a head and a
    tail sentinel. */
module Lists {
  import opened Ordering

  class ListElem {
    var prev: ListElem?
    var next: ListElem?
  }

  ghost predicate LinkAt(s: seq<ListElem>, i: int)
    reads s
  {
    0 <= i < |s| - 1 ==> s[i].next == s[i + 1] && s[i + 1].prev == s[i]
  }

  predicate Distinct(s: seq<ListElem>) {
    forall i, j :: 0 <= i < j < |s| ==> s[i] != s[j]
  }

  /** next and prev are mutually inverse along s. */
  ghost predicate Linked(s: seq<ListElem>)
    reads s
  {
    Distinct(s) && forall i :: 0 <= i < |s| - 1 ==> LinkAt(s, i)
  }

  /** Elements i to j moved in front of element k. */
  function Spliced<T>(xs: seq<T>, k: nat, i: nat, j: nat): seq<T>
    requires i <= j <= |xs| && k <= |xs| && (k < i || j <= k || i == j)
  {
    if i == j then xs
    else if k < i then xs[..k] + xs[i..j] + xs[k..i] + xs[j..]
    else xs[..i] + xs[j..k] + xs[i..j] + xs[k..]
  }

  /** Node x after elements i to j moved in front of element k. */
  function SplicedFrom(k: nat, i: nat, j: nat, x: nat): int {
    if k < i then
      if x <= k || x > j then x
      else if x <= k + (j - i) then x - k + i
      else x - (j - i)
    else
      if x <= i || x > k then x
      else if x <= i + (k - j) then x - i + j
      else x - (k - j)
  }

  /** The list s after list_splice wrote its six links: the three seams are crossed, every
      other link is as it was. */
  ghost predicate Rerouted(s: seq<ListElem>, k: nat, i: nat, j: nat)
    requires i < j <= |s| - 2 && k <= |s| - 2
    reads s
  {
    && (forall x :: 0 <= x < |s| - 1 && x != i && x != k && x != j ==> LinkAt(s, x))
    && (if k == j then LinkAt(s, i) && LinkAt(s, j) else
          && s[i].next == s[j + 1] && s[j + 1].prev == s[i]
          && s[k].next == s[i + 1] && s[i + 1].prev == s[k]
          && s[j].next == s[k + 1] && s[k + 1].prev == s[j])
  }

  lemma SpliceLinked(s: seq<ListElem>, t: seq<ListElem>, k: nat, i: nat, j: nat)
    requires Distinct(s) && |s| == |t| >= 2 && i < j <= |s| - 2 && k <= |s| - 2 && (k < i || j <= k)
    requires forall x :: 0 <= x < |t| ==> 0 <= SplicedFrom(k, i, j, x) < |s| && t[x] == s[SplicedFrom(k, i, j, x)]
    requires Rerouted(s, k, i, j)
    ensures Linked(t)
  {
    forall x | 0 <= x < |t| - 1
      ensures LinkAt(t, x)
    {
      SpliceLinkAt(s, t, k, i, j, x);
    }
    forall x, y | 0 <= x < y < |t|
      ensures t[x] != t[y]
    {
      assert SplicedFrom(k, i, j, x) != SplicedFrom(k, i, j, y);
    }
  }

  lemma SpliceLinkAt(s: seq<ListElem>, t: seq<ListElem>, k: nat, i: nat, j: nat, x: nat)
    requires |s| == |t| >= 2 && i < j <= |s| - 2 && k <= |s| - 2 && (k < i || j <= k) && x < |t| - 1
    requires forall x :: 0 <= x < |t| ==> 0 <= SplicedFrom(k, i, j, x) < |s| && t[x] == s[SplicedFrom(k, i, j, x)]
    requires Rerouted(s, k, i, j)
    ensures LinkAt(t, x)
  {
    var y, z := SplicedFrom(k, i, j, x), SplicedFrom(k, i, j, x + 1);
    assert t[x] == s[y] && t[x + 1] == s[z];
    assert y != i && y != j && y != k && y < |s| - 1 ==> LinkAt(s, y);
  }

  lemma FourAt<T>(a: seq<T>, b: seq<T>, c: seq<T>, d: seq<T>, x: nat)
    requires x < |a| + |b| + |c| + |d|
    ensures |a + b + c + d| == |a| + |b| + |c| + |d|
    ensures (a + b + c + d)[x] ==
            if x < |a| then a[x]
            else if x < |a| + |b| then b[x - |a|]
            else if x < |a| + |b| + |c| then c[x - |a| - |b|]
            else d[x - |a| - |b| - |c|]
  {
  }

  lemma SplicedUp<T>(xs: seq<T>, k: nat, i: nat, j: nat, x: nat)
    requires k < i < j <= |xs| && x < |xs|
    ensures |Spliced(xs, k, i, j)| == |xs|
    ensures 1 <= SplicedFrom(k, i, j, x + 1) <= |xs|
    ensures Spliced(xs, k, i, j)[x] == xs[SplicedFrom(k, i, j, x + 1) - 1]
  {
    FourAt(xs[..k], xs[i..j], xs[k..i], xs[j..], x);
  }

  lemma SplicedDown<T>(xs: seq<T>, k: nat, i: nat, j: nat, x: nat)
    requires i < j <= k <= |xs| && x < |xs|
    ensures |Spliced(xs, k, i, j)| == |xs|
    ensures 1 <= SplicedFrom(k, i, j, x + 1) <= |xs|
    ensures Spliced(xs, k, i, j)[x] == xs[SplicedFrom(k, i, j, x + 1) - 1]
  {
    FourAt(xs[..i], xs[j..k], xs[i..j], xs[k..], x);
  }

  /** Where each element of the result comes from. */
  lemma SplicedAt<T>(xs: seq<T>, k: nat, i: nat, j: nat, x: nat)
    requires i < j <= |xs| && k <= |xs| && (k < i || j <= k) && x < |xs|
    ensures |Spliced(xs, k, i, j)| == |xs|
    ensures 1 <= SplicedFrom(k, i, j, x + 1) <= |xs|
    ensures Spliced(xs, k, i, j)[x] == xs[SplicedFrom(k, i, j, x + 1) - 1]
  {
    hide Spliced, SplicedFrom;
    if k < i { SplicedUp(xs, k, i, j, x); } else { SplicedDown(xs, k, i, j, x); }
  }

  lemma SplicedNodes<T>(h: T, xs: seq<T>, t: T, k: nat, i: nat, j: nat)
    requires i < j <= |xs| && k <= |xs| && (k < i || j <= k)
    ensures var s, r := [h] + xs + [t], [h] + Spliced(xs, k, i, j) + [t];
            |r| == |s| && forall x :: 0 <= x < |r| ==>
              0 <= SplicedFrom(k, i, j, x) < |s| && r[x] == s[SplicedFrom(k, i, j, x)]
  {
    var s, r := [h] + xs + [t], [h] + Spliced(xs, k, i, j) + [t];
    hide Spliced, SplicedFrom;
    SplicedAt(xs, k, i, j, 0);
    SplicedEnds(k, i, j, |xs|);
    forall x | 0 <= x < |r|
      ensures 0 <= SplicedFrom(k, i, j, x) < |s| && r[x] == s[SplicedFrom(k, i, j, x)]
    {
      if 0 < x < |r| - 1 {
        SplicedAt(xs, k, i, j, x - 1);
        NodeAt(h, Spliced(xs, k, i, j), t, x);
        NodeAt(h, xs, t, SplicedFrom(k, i, j, x));
      }
    }
  }

  lemma NodeAt<T>(h: T, xs: seq<T>, t: T, x: nat)
    requires 0 < x <= |xs|
    ensures ([h] + xs + [t])[x] == xs[x - 1]
  {
  }

  lemma SplicedEnds(k: nat, i: nat, j: nat, n: nat)
    requires i < j <= n && k <= n && (k < i || j <= k)
    ensures SplicedFrom(k, i, j, 0) == 0 && SplicedFrom(k, i, j, n + 1) == n + 1
  {
  }

  /** The writes of list_splice. */
  method Reroute(before: ListElem, first: ListElem, last: ListElem, ghost s: seq<ListElem>, ghost k: nat, ghost i: nat,
                 ghost j: nat)
    requires Linked(s) && i < j <= |s| - 2 && k <= |s| - 2 && (k < i || j <= k)
    requires before == s[k + 1] && first == s[i + 1] && last == s[j + 1]
    modifies s[i], s[j], s[k], s[i + 1], s[j + 1], s[k + 1]
    ensures Rerouted(s, k, i, j)
    ensures s[0].prev == old(s[0].prev) && s[|s| - 1].next == old(s[|s| - 1].next)
  {
    assert LinkAt(s, i) && LinkAt(s, j) && LinkAt(s, k);
    var end := last.prev;
    first.prev.next := end.next;
    end.next.prev := first.prev;
    first.prev := before.prev;
    end.next := before;
    before.prev.next := first;
    before.prev := end;
    forall x | 0 <= x < |s| - 1 && x != i && x != k && x != j
      ensures LinkAt(s, x)
    {
      assert old(LinkAt(s, x));
    }
  }

  function Reversed<T>(xs: seq<T>): (r: seq<T>)
    ensures |r| == |xs| && forall i :: 0 <= i < |xs| ==> r[i] == xs[|xs| - 1 - i]
  {
    seq(|xs|, i requires 0 <= i < |xs| => xs[|xs| - 1 - i])
  }

  lemma ReversedLinked(s: seq<ListElem>, t: seq<ListElem>, n: nat)
    requires Distinct(s) && |s| == |t| == n + 2 && n > 0
    requires forall x :: 0 <= x < |t| ==> t[x] == s[if 0 < x <= n then n + 1 - x else x]
    requires s[0].next == s[n] && s[n].prev == s[0] && s[n + 1].prev == s[1] && s[1].next == s[n + 1]
    requires forall x :: 0 < x <= n && x != 1 ==> s[x].next == Prev(s, x)
    requires forall x :: 0 < x <= n && x != n ==> s[x].prev == After(s, x)
    ensures Linked(t)
  {
    forall x | 0 <= x < |t| - 1
      ensures LinkAt(t, x)
    {
      assert t[x] == s[if 0 < x <= n then n + 1 - x else x];
      assert t[x + 1] == s[if x + 1 <= n then n - x else x + 1];
      if 0 < x < n {
        assert s[n + 1 - x].next == Prev(s, n + 1 - x) && s[n - x].prev == After(s, n - x);
      }
    }
  }

  lemma ReversedNodes<T>(h: T, xs: seq<T>, t: T)
    ensures var s, r, n := [h] + xs + [t], [h] + Reversed(xs) + [t], |xs|;
            |r| == |s| == n + 2 && forall x :: 0 <= x < |r| ==> r[x] == s[if 0 < x <= n then n + 1 - x else x]
  {
  }

  lemma Occupied(s: seq<ListElem>, n: nat)
    requires Linked(s) && |s| == n + 2
    ensures s[0].next == s[1] && s[n + 1].prev == s[n]
    ensures s[0].next == s[n + 1] <==> n == 0
    ensures s[0] !in s[1..n + 1] && s[n + 1] !in s[1..n + 1]
  {
    assert LinkAt(s, 0) && LinkAt(s, n);
  }

  function After<T>(s: seq<T>, x: int): T
    requires 0 <= x < |s| - 1
  {
    s[x + 1]
  }

  lemma ReversedTwice<T>(xs: seq<T>)
    ensures Reversed(Reversed(xs)) == xs && multiset(Reversed(xs)) == multiset(xs)
  {
    ReversedMultiset(xs);
  }

  lemma {:induction false} ReversedMultiset<T>(xs: seq<T>)
    ensures multiset(Reversed(xs)) == multiset(xs)
  {
    if xs == [] {
      assert Reversed(xs) == [];
    } else {
      assert xs == [xs[0]] + xs[1..];
      assert Reversed(xs) == Reversed(xs[1..]) + [xs[0]];
      ReversedMultiset(xs[1..]);
    }
  }

  /** Element x has the elements around it as prev and next. */
  ghost predicate Unflipped(s: seq<ListElem>, x: int)
    requires 0 < x < |s| - 1
    reads s[x]
  {
    s[x].prev == Prev(s, x) && s[x].next == After(s, x)
  }

  ghost predicate Flipped(s: seq<ListElem>, x: int)
    requires 0 < x < |s| - 1
    reads s[x]
  {
    s[x].prev == After(s, x) && s[x].next == Prev(s, x)
  }

  lemma InteriorLinks(s: seq<ListElem>)
    requires Linked(s)
    ensures forall x :: 0 < x < |s| - 1 ==> Unflipped(s, x)
  {
    forall x | 0 < x < |s| - 1
      ensures Unflipped(s, x)
    {
      assert LinkAt(s, x - 1) && LinkAt(s, x);
    }
  }

  /** The loop of list_reverse: every element's links change places. */
  method FlipElements(begin: ListElem, end: ListElem, ghost s: seq<ListElem>)
    requires Distinct(s) && |s| >= 2 && begin == s[1] && end == s[|s| - 1]
    requires forall x :: 0 < x < |s| - 1 ==> Unflipped(s, x)
    modifies s[1..|s| - 1]
    ensures forall x :: 0 < x < |s| - 1 ==> Flipped(s, x)
  {
    var e := begin;
    ghost var i := 0;
    while e != end
      invariant 0 <= i <= |s| - 2 && e == s[i + 1]
      invariant forall x :: 0 < x <= i ==> Flipped(s, x)
      invariant forall x :: i < x < |s| - 1 ==> Unflipped(s, x)
      decreases |s| - i
    {
      assert Unflipped(s, i + 1);
      assert e == s[1..|s| - 1][i];
      e.prev, e.next := e.next, e.prev;
      e := e.prev;
      i := i + 1;
    }
  }

  lemma MergeStart<T>(less: Less<T>, s: seq<T>, i: nat, m: nat, j: nat)
    requires i <= m <= j <= |s| && SortedFrom(less, s, i, m) && SortedFrom(less, s, m, j)
    ensures Merging(less, s, i, i, m, j)
  {
  }

  lemma MergingRange<T>(less: Less<T>, s: seq<T>, i: nat, lo: nat, mid: nat, j: nat)
    requires Merging(less, s, i, lo, mid, j)
    ensures i <= lo <= mid <= j <= |s|
  {
  }

  lemma MovedUpIsSplice<T>(h: T, s: seq<T>, t: T, lo: nat, mid: nat)
    requires lo < mid < |s|
    ensures Spliced(s, lo, mid, mid + 1) == MovedUp(s, lo, mid) && |MovedUp(s, lo, mid)| == |s|
    ensures var n, n' := [h] + s + [t], [h] + MovedUp(s, lo, mid) + [t];
            n'[lo + 2] == n[lo + 1] && n'[mid + 2] == n[mid + 2]
  {
    MovedUpIndex(s, lo, mid);
  }

  lemma MovedUpSlices<T>(s: seq<T>, i: nat, lo: nat, mid: nat, j: nat)
    requires i <= lo < mid < j <= |s|
    ensures var t := MovedUp(s, lo, mid);
            |t| == |s| && t[..i] == s[..i] && t[j..] == s[j..]
  {
    MovedUpIndex(s, lo, mid);
  }

  lemma StableMembers<T>(less: Less<T>, xs: seq<T>, ys: seq<T>)
    requires StableRearrangement(less, xs, ys)
    ensures multiset(xs) == multiset(ys)
  {
  }

  lemma SameRepr(h: ListElem, t: ListElem, xs: seq<ListElem>, ys: seq<ListElem>)
    requires multiset(xs) == multiset(ys)
    ensures (set e | e in [h] + xs + [t]) == (set e | e in [h] + ys + [t])
  {
    SameMembers(xs, ys);
  }

  lemma NoRuns<T>(less: Less<T>, s: seq<T>)
    ensures Runs(less, s[..0]) == 0 && Runs(less, []) == 0 && s[0..] == s
  {
  }

  /** The run that find_end_of_run found is sorted, and cutting it off leaves one run fewer. */
  lemma RunFound<T>(less: Less<T>, s: seq<T>, i: nat, r: nat)
    requires StrictWeak(less, s) && i < r <= |s| && forall x :: i < x < r ==> !less(s[x], Prev(s, x))
    requires r < |s| ==> less(s[r], s[r - 1])
    ensures SortedFrom(less, s, i, r) && Runs(less, s[i..]) == 1 + Runs(less, s[r..])
    ensures Runs(less, s[..r]) <= Runs(less, s[..i]) + 1
    ensures r == |s| ==> Runs(less, s[r..]) == 0
  {
    hide StrictWeak;
    RunSorted(less, s, i, r);
    RunsCut(less, s, i, r);
    RunsGrow(less, s, i, r);
  }

  /** The end of list_reverse: the sentinels' links, and those of the two end elements. */
  method FlipEnds(head: ListElem, tail: ListElem, ghost s: seq<ListElem>, ghost n: nat)
    requires Distinct(s) && |s| == n + 2 && n > 0 && head == s[0] && tail == s[n + 1]
    requires head.next == s[1] && tail.prev == s[n]
    requires forall x :: 0 < x <= n ==> Flipped(s, x)
    modifies head, tail, s[1], s[n]
    ensures head.prev == old(head.prev) && tail.next == old(tail.next)
    ensures s[0].next == s[n] && s[n].prev == s[0] && s[n + 1].prev == s[1] && s[1].next == s[n + 1]
    ensures forall x :: 0 < x <= n && x != 1 ==> s[x].next == Prev(s, x)
    ensures forall x :: 0 < x <= n && x != n ==> s[x].prev == After(s, x)
  {
    assert Flipped(s, 1) && Flipped(s, n);
    head.next, tail.prev := tail.prev, head.next;
    head.next.prev, tail.prev.next := tail.prev.next, head.next.prev;
    forall x | 0 < x <= n
      ensures x != 1 ==> s[x].next == Prev(s, x)
      ensures x != n ==> s[x].prev == After(s, x)
    {
      assert old(Flipped(s, x));
    }
  }

  /** What list_unique keeps and drops of a whole list. */
  function KeptOf<T>(less: Less<T>, xs: seq<T>): seq<T> {
    if xs == [] then [] else [xs[0]] + KeptAfter(less, xs[0], xs[1..])
  }

  function DroppedOf<T>(less: Less<T>, xs: seq<T>): seq<T> {
    if xs == [] then [] else DroppedAfter(less, xs[0], xs[1..])
  }

  lemma UniqueUnfold<T>(less: Less<T>, xs: seq<T>, dropped: seq<T>, k: nat)
    requires k + 1 < |xs|
    ensures var next, rest := xs[k + 1], xs[k + 2..];
            if Equivalent(less, xs[k], next) then
              && KeptAfter(less, xs[k], xs[k + 1..]) == KeptAfter(less, xs[k], rest)
              && dropped + DroppedAfter(less, xs[k], xs[k + 1..]) == dropped + [next] + DroppedAfter(less, xs[k], rest)
              && var ys := xs[..k + 1] + xs[k + 2..];
                 ys[..k + 1] == xs[..k + 1] && ys[k] == xs[k] && ys[k + 1..] == rest
            else
              && xs[..k + 1] + KeptAfter(less, xs[k], xs[k + 1..]) == xs[..k + 2] + KeptAfter(less, next, rest)
              && DroppedAfter(less, xs[k], xs[k + 1..]) == DroppedAfter(less, next, rest)
  {
    assert xs[k + 1..][0] == xs[k + 1] && xs[k + 1..][1..] == xs[k + 2..];
    if Equivalent(less, xs[k], xs[k + 1]) {
      var d := DroppedAfter(less, xs[k], xs[k + 2..]);
      assert dropped + ([xs[k + 1]] + d) == dropped + [xs[k + 1]] + d;
    } else {
      assert xs[..k + 2] == xs[..k + 1] + [xs[k + 1]];
      var kept := KeptAfter(less, xs[k + 1], xs[k + 2..]);
      assert xs[..k + 1] + ([xs[k + 1]] + kept) == xs[..k + 2] + kept;
    }
  }

  lemma UniqueEnd<T>(less: Less<T>, xs: seq<T>, k: nat)
    requires k + 1 == |xs|
    ensures xs[..k + 1] + KeptAfter(less, xs[k], xs[k + 1..]) == xs && DroppedAfter(less, xs[k], xs[k + 1..]) == []
  {
  }

  /** The writes of list_splice when the range comes from another list. */
  method RerouteFrom(before: ListElem, first: ListElem, last: ListElem, ghost s: seq<ListElem>, ghost o: seq<ListElem>,
                     ghost k: nat, ghost i: nat, ghost j: nat)
    requires Linked(s) && Linked(o) && i < j <= |o| - 2 && k <= |s| - 2
    requires forall x, y :: 0 <= x < |s| && 0 <= y < |o| ==> s[x] != o[y]
    requires before == s[k + 1] && first == o[i + 1] && last == o[j + 1]
    modifies s[k], s[k + 1], o[i], o[i + 1], o[j], o[j + 1]
    ensures forall x :: 0 <= x < |s| - 1 && x != k ==> LinkAt(s, x)
    ensures forall x :: 0 <= x < |o| - 1 && x != i && x != j ==> LinkAt(o, x)
    ensures o[i].next == o[j + 1] && o[j + 1].prev == o[i]
    ensures s[k].next == o[i + 1] && o[i + 1].prev == s[k] && o[j].next == s[k + 1] && s[k + 1].prev == o[j]
    ensures s[0].prev == old(s[0].prev) && s[|s| - 1].next == old(s[|s| - 1].next)
    ensures o[0].prev == old(o[0].prev) && o[|o| - 1].next == old(o[|o| - 1].next)
  {
    assert LinkAt(s, k) && LinkAt(o, i) && LinkAt(o, j);
    var end := last.prev;
    first.prev.next := end.next;
    end.next.prev := first.prev;
    first.prev := before.prev;
    end.next := before;
    before.prev.next := first;
    before.prev := end;
    forall x | 0 <= x < |s| - 1 && x != k ensures LinkAt(s, x) { assert old(LinkAt(s, x)); }
    forall x | 0 <= x < |o| - 1 && x != i && x != j ensures LinkAt(o, x) { assert old(LinkAt(o, x)); }
  }

  lemma JoinLinked(s: seq<ListElem>, o: seq<ListElem>, k: nat, i: nat, j: nat, s': seq<ListElem>, o': seq<ListElem>)
    requires Distinct(s) && Distinct(o) && i < j <= |o| - 2 && k <= |s| - 2
    requires forall x, y :: 0 <= x < |s| && 0 <= y < |o| ==> s[x] != o[y]
    requires forall x :: 0 <= x < |s| - 1 && x != k ==> LinkAt(s, x)
    requires forall x :: 0 <= x < |o| - 1 && x != i && x != j ==> LinkAt(o, x)
    requires o[i].next == o[j + 1] && o[j + 1].prev == o[i]
    requires s[k].next == o[i + 1] && o[i + 1].prev == s[k] && o[j].next == s[k + 1] && s[k + 1].prev == o[j]
    requires s' == s[..k + 1] + o[i + 1..j + 1] + s[k + 1..] && o' == o[..i + 1] + o[j + 1..]
    ensures Linked(s') && Linked(o')
  {
    forall x | 0 <= x < |s'| - 1
      ensures LinkAt(s', x)
    {
      if x < k {
        assert LinkAt(s, x);
      } else if x > k + (j - i) {
        assert LinkAt(s, x - (j - i));
      } else if k < x < k + (j - i) {
        assert LinkAt(o, x - k + i);
      }
    }
    forall x | 0 <= x < |o'| - 1
      ensures LinkAt(o', x)
    {
      assert LinkAt(o, if x < i then x else if x == i then |o| else x + (j - i));
    }
  }

  class List {
    const head: ListElem
    const tail: ListElem
    ghost var elems: seq<ListElem>

    ghost function Nodes(): seq<ListElem>
      reads this
    {
      [head] + elems + [tail]
    }

    ghost function Repr(): set<ListElem>
      reads this
    {
      set e | e in Nodes()
    }

    ghost predicate Valid()
      reads this, Repr()
    {
      Linked(Nodes()) && head.prev == null && tail.next == null
    }

    /** list_init */
    constructor ()
      ensures Valid() && elems == [] && fresh(head) && fresh(tail)
    {
      var h, t := new ListElem, new ListElem;
      head, tail := h, t;
      elems := [];
      new;
      h.prev, h.next, t.prev, t.next := null, t, h, null;
      assert Nodes() == [h, t];
      assert LinkAt([h, t], 0);
    }

    method Begin() returns (e: ListElem)
      requires Valid()
      ensures e == Nodes()[1]
    {
      assert LinkAt(Nodes(), 0);
      e := head.next;
    }

    /** list_insert: elem goes in front of before, which is node k + 1. */
    method Insert(before: ListElem, elem: ListElem, ghost k: nat)
      requires Valid() && k <= |elems| && before == Nodes()[k + 1] && elem !in Nodes()
      modifies this`elems, elem, before, before.prev
      ensures Valid() && elems == old(elems[..k] + [elem] + elems[k..])
    {
      ghost var s := Nodes();
      assert LinkAt(s, k);
      elem.prev := before.prev;
      elem.next := before;
      before.prev.next := elem;
      before.prev := elem;
      elems := elems[..k] + [elem] + elems[k..];
      ghost var t := Nodes();
      assert t == s[..k + 1] + [elem] + s[k + 1..];
      forall i | 0 <= i < |t| - 1
        ensures LinkAt(t, i)
      {
        if i < k { assert old(LinkAt(s, i)); }
        if i > k + 1 { assert old(LinkAt(s, i - 1)); }
      }
    }

    /** list_remove of element k. */
    method Remove(elem: ListElem, ghost k: nat) returns (next: ListElem)
      requires Valid() && k < |elems| && elem == elems[k]
      modifies this`elems, elem.prev, elem.next
      ensures Valid() && elems == old(elems[..k] + elems[k + 1..]) && next == old(Nodes())[k + 2]
      ensures elem !in Nodes() && unchanged(elem)
    {
      ghost var s := Nodes();
      assert s[k + 1] == elem;
      assert LinkAt(s, k) && LinkAt(s, k + 1);
      elem.prev.next := elem.next;
      elem.next.prev := elem.prev;
      next := elem.next;
      elems := elems[..k] + elems[k + 1..];
      ghost var t := Nodes();
      assert t == s[..k + 1] + s[k + 2..];
      forall i | 0 <= i < |t| - 1
        ensures LinkAt(t, i)
      {
        if i < k { assert old(LinkAt(s, i)); }
        if i > k { assert old(LinkAt(s, i + 1)); }
      }
    }

    /** list_splice inside one list: elements i to j move in front of element k. */
    method Splice(before: ListElem, first: ListElem, last: ListElem, ghost k: nat, ghost i: nat, ghost j: nat)
      requires Valid() && i <= j <= |elems| && k <= |elems| && (k < i || j <= k || i == j)
      requires before == Nodes()[k + 1] && first == Nodes()[i + 1] && last == Nodes()[j + 1]
      modifies this`elems, Repr()
      ensures Valid()
      ensures elems == Spliced(old(elems), k, i, j)
    {
      ghost var s := Nodes();
      if first == last {
        assert i == j;
        return;
      }
      Reroute(before, first, last, s, k, i, j);
      SplicedNodes(head, elems, tail, k, i, j);
      elems := Spliced(elems, k, i, j);
      SpliceLinked(s, Nodes(), k, i, j);
      assert Nodes()[0] == head && Nodes()[|Nodes()| - 1] == tail;
    }

    /** list_reverse: swap every element's links in place, then the sentinels'. */
    method Reverse()
      requires Valid()
      modifies this`elems, Nodes()
      ensures Valid() && elems == Reversed(old(elems))
    {
      ghost var s, n := Nodes(), |elems|;
      Occupied(s, n);
      if head.next == tail {
        assert elems == [] == Reversed(elems);
        return;
      }
      InteriorLinks(s);
      FlipElements(head.next, tail, s);
      FlipEnds(head, tail, s, n);
      ReversedNodes(head, elems, tail);
      elems := Reversed(elems);
      ReversedLinked(s, Nodes(), n);
    }

    /** list_insert_ordered */
    method InsertOrdered(elem: ListElem, less: Less<ListElem>)
      requires Valid() && elem !in Nodes()
      modifies this`elems, elem, Nodes()
      ensures Valid()
      ensures var k := OrderedPos(less, old(elems), elem);
              elems == old(elems)[..k] + [elem] + old(elems)[k..]
    {
      var e := Begin();
      ghost var k := 0;
      while e != tail && !less(elem, e)
        invariant 0 <= k <= |elems| && e == Nodes()[k + 1]
        invariant OrderedPos(less, elems, elem) == k + OrderedPos(less, elems[k..], elem)
        decreases |elems| - k
      {
        assert e == elems[k];
        assert LinkAt(Nodes(), k + 1);
        assert elems[k..][1..] == elems[k + 1..];
        e := e.next;
        k := k + 1;
      }
      assert e == tail ==> k == |elems| by { assert Nodes()[|elems| + 1] == tail; }
      assert k < |elems| ==> e == elems[k];
      assert LinkAt(Nodes(), k);
      Insert(e, elem, k);
    }

    /** find_end_of_run from element i, not past element j. */
    method FindEndOfRun(a: ListElem, b: ListElem, less: Less<ListElem>, ghost i: nat, ghost j: nat)
      returns (e: ListElem, ghost r: nat)
      requires Valid() && i < j <= |elems| && a == Nodes()[i + 1] && b == Nodes()[j + 1]
      ensures i < r <= j && e == Nodes()[r + 1]
      ensures forall x :: i < x < r ==> !less(elems[x], Prev(elems, x))
      ensures r < j ==> less(elems[r], elems[r - 1])
    {
      ghost var s := Nodes();
      assert LinkAt(s, i + 1);
      e, r := a.next, i + 1;
      assert LinkAt(s, i + 1);
      while e != b && !less(e, e.prev)
        invariant i < r <= j && e == s[r + 1] && e.prev == s[r]
        invariant forall x :: i < x < r ==> !less(elems[x], Prev(elems, x))
        decreases j - r
      {
        assert LinkAt(s, r + 1);
        assert elems[r] == s[r + 1] && elems[r - 1] == s[r];
        e, r := e.next, r + 1;
      }
      if r < j { assert elems[r] == s[r + 1] && elems[r - 1] == s[r]; }
    }

    /** list_next */
    method Next(e: ListElem, ghost x: nat) returns (n: ListElem)
      requires Valid() && x <= |elems| && e == Nodes()[x]
      ensures n == Nodes()[x + 1] && n.prev == e
    {
      assert LinkAt(Nodes(), x);
      n := e.next;
    }

    lemma NodesDistinct(x: nat, y: nat, z: nat)
      requires Valid() && x <= y <= z <= |elems|
      ensures Nodes()[x + 1] == Nodes()[y + 1] <==> x == y
      ensures Nodes()[y + 1] == Nodes()[z + 1] <==> y == z
      ensures x < |elems| ==> Nodes()[x + 1] == elems[x]
      ensures y < |elems| ==> Nodes()[y + 1] == elems[y]
    {
    }

    /** Splicing element mid in front of element lo. */
    method MoveUp(a0: ListElem, a1b0: ListElem, ghost lo: nat, ghost mid: nat) returns (next: ListElem)
      requires Valid() && lo < mid < |elems| && a0 == Nodes()[lo + 1] && a1b0 == Nodes()[mid + 1]
      modifies this`elems, Repr()
      ensures Valid() && elems == MovedUp(old(elems), lo, mid)
      ensures Nodes()[lo + 2] == a0 && Nodes()[mid + 2] == next == old(Nodes())[mid + 2]
    {
      hide LinkAt, Distinct, Linked, MovedUp, Spliced;
      MovedUpIsSplice(head, elems, tail, lo, mid);
      next := Next(a1b0, mid + 1);
      var first := next.prev;
      Splice(a0, first, next, lo, mid, mid + 1);
    }

    /** What a merge of elements i to j of elems0 keeps while it goes on. */
    ghost predicate MergeInv(less: Less<ListElem>, elems0: seq<ListElem>, i: nat, lo: nat, mid: nat, j: nat,
                             a0: ListElem, a1b0: ListElem, b: ListElem)
      reads this, head, tail, Nodes()
    {
      && Valid() && |elems| == |elems0| && Merging(less, elems, i, lo, mid, j)
      && StrictWeak(less, elems) && StableRearrangement(less, elems0, elems)
      && a0 == Nodes()[lo + 1] && a1b0 == Nodes()[mid + 1] && b == Nodes()[j + 1]
      && elems[..i] == elems0[..i] && elems[j..] == elems0[j..]
    }

    /** The step of inplace_merge that keeps the first run's element in place. */
    method KeepStep(a0: ListElem, a1b0: ListElem, b: ListElem, less: Less<ListElem>, ghost elems0: seq<ListElem>,
                    ghost i: nat, ghost lo: nat, ghost mid: nat, ghost j: nat) returns (a0': ListElem)
      requires MergeInv(less, elems0, i, lo, mid, j, a0, a1b0, b) && lo < mid < j && !less(a1b0, a0)
      ensures MergeInv(less, elems0, i, lo + 1, mid, j, a0', a1b0, b)
    {
      hide LinkAt, Distinct, StrictWeak, StableRearrangement, Linked, Merging;
      MergingRange(less, elems, i, lo, mid, j);
      NodesDistinct(lo, mid, j);
      MergeKeeps(less, elems, i, lo, mid, j);
      a0' := Next(a0, lo + 1);
    }

    /** The step of inplace_merge that splices the second run's element in front. */
    method MoveStep(a0: ListElem, a1b0: ListElem, b: ListElem, less: Less<ListElem>, ghost elems0: seq<ListElem>,
                    ghost i: nat, ghost lo: nat, ghost mid: nat, ghost j: nat) returns (a1b0': ListElem)
      requires MergeInv(less, elems0, i, lo, mid, j, a0, a1b0, b) && lo < mid < j && less(a1b0, a0)
      modifies this`elems, Repr()
      ensures MergeInv(less, elems0, i, lo + 1, mid + 1, j, a0, a1b0', b)
      ensures Repr() == old(Repr())
    {
      hide LinkAt, Distinct, StrictWeak, StableRearrangement, MovedUp, Linked, Merging;
      MergingRange(less, elems, i, lo, mid, j);
      NodesDistinct(lo, mid, j);
      MergeMoves(less, elems, i, lo, mid, j);
      StableTrans(less, elems0, elems, MovedUp(elems, lo, mid));
      StableKeepsWeak(less, elems, MovedUp(elems, lo, mid));
      MovedUpSlices(elems, i, lo, mid, j);
      StableMembers(less, elems, MovedUp(elems, lo, mid));
      a1b0' := MoveUp(a0, a1b0, lo, mid);
      SameRepr(head, tail, old(elems), elems);
    }

    /** One step of inplace_merge. */
    method MergeStep(a0: ListElem, a1b0: ListElem, b: ListElem, less: Less<ListElem>, ghost elems0: seq<ListElem>,
                     ghost i: nat, ghost lo: nat, ghost mid: nat, ghost j: nat)
      returns (a0': ListElem, a1b0': ListElem, ghost mid': nat)
      requires MergeInv(less, elems0, i, lo, mid, j, a0, a1b0, b) && lo < mid < j
      modifies this`elems, Repr()
      ensures lo < mid' <= j && mid <= mid' && MergeInv(less, elems0, i, lo + 1, mid', j, a0', a1b0', b)
      ensures Repr() == old(Repr())
    {
      hide MergeInv, Repr;
      a0', a1b0', mid' := a0, a1b0, mid;
      if !less(a1b0, a0) {
        a0' := KeepStep(a0, a1b0, b, less, elems0, i, lo, mid, j);
      } else {
        a1b0' := MoveStep(a0, a1b0, b, less, elems0, i, lo, mid, j);
        mid' := mid + 1;
      }
    }

    /** Comparing the merge's pointers compares its positions. */
    lemma MergePointers(less: Less<ListElem>, elems0: seq<ListElem>, i: nat, lo: nat, mid: nat, j: nat,
                        a0: ListElem, a1b0: ListElem, b: ListElem)
      requires MergeInv(less, elems0, i, lo, mid, j, a0, a1b0, b)
      ensures lo <= mid <= j && (a0 == a1b0 <==> lo == mid) && (a1b0 == b <==> mid == j)
    {
      hide LinkAt, Distinct, StrictWeak, StableRearrangement, Linked, Merging;
      MergingRange(less, elems, i, lo, mid, j);
      NodesDistinct(lo, mid, j);
    }

    lemma MergeEnd(less: Less<ListElem>, elems0: seq<ListElem>, i: nat, lo: nat, mid: nat, j: nat,
                   a0: ListElem, a1b0: ListElem, b: ListElem)
      requires MergeInv(less, elems0, i, lo, mid, j, a0, a1b0, b) && (lo == mid || mid == j)
      ensures Valid() && j <= |elems| == |elems0|
      ensures elems[..i] == elems0[..i] && elems[j..] == elems0[j..]
      ensures SortedFrom(less, elems, i, j) && StableRearrangement(less, elems0, elems) && StrictWeak(less, elems)
      ensures Nodes()[j + 1] == b
    {
      hide LinkAt, Distinct, StrictWeak, StableRearrangement, Linked, Merging;
      MergingRange(less, elems, i, lo, mid, j);
      MergeDone(less, elems, i, lo, mid, j);
    }

    /** inplace_merge of elements i to m with elements m to j, both sorted. */
    method InplaceMerge(a: ListElem, ab: ListElem, b: ListElem, less: Less<ListElem>, ghost i: nat, ghost m: nat,
                        ghost j: nat)
      requires Valid() && i <= m <= j <= |elems| && a == Nodes()[i + 1] && ab == Nodes()[m + 1] && b == Nodes()[j + 1]
      requires StrictWeak(less, elems) && SortedFrom(less, elems, i, m) && SortedFrom(less, elems, m, j)
      modifies this`elems, Repr()
      ensures Valid() && Repr() == old(Repr())
      ensures |elems| == |old(elems)| && elems[..i] == old(elems)[..i] && elems[j..] == old(elems)[j..]
      ensures SortedFrom(less, elems, i, j) && StableRearrangement(less, old(elems), elems) && StrictWeak(less, elems)
      ensures Nodes()[j + 1] == b
    {
      hide LinkAt, Distinct, StrictWeak, StableRearrangement, Linked, Merging, SortedFrom;
      MergeStart(less, elems, i, m, j);
      ghost var elems0 := elems;
      var a0, a1b0 := a, ab;
      ghost var lo: nat, mid: nat := i, m;
      StableRefl(less, elems);
      assert MergeInv(less, elems0, i, lo, mid, j, a0, a1b0, b);
      hide MergeInv, Repr;
      MergePointers(less, elems0, i, lo, mid, j, a0, a1b0, b);
      while a0 != a1b0 && a1b0 != b
        invariant MergeInv(less, elems0, i, lo, mid, j, a0, a1b0, b) && Repr() == old(Repr())
        invariant lo <= mid <= j && (a0 == a1b0 <==> lo == mid) && (a1b0 == b <==> mid == j)
        decreases j - lo
      {
        a0, a1b0, mid := MergeStep(a0, a1b0, b, less, elems0, i, lo, mid, j);
        lo := lo + 1;
        MergePointers(less, elems0, i, lo, mid, j, a0, a1b0, b);
      }
      MergeEnd(less, elems0, i, lo, mid, j, a0, a1b0, b);
    }

    /** What a pass of list_sort that began with elems0 keeps: runs output and runs left add up,
        what was output has no more runs than were counted. */
    ghost predicate PassInv(less: Less<ListElem>, elems0: seq<ListElem>, d: nat, cnt: nat)
      reads this, head, tail, Nodes()
    {
      && Valid() && |elems| == |elems0| && d <= |elems|
      && StrictWeak(less, elems) && StableRearrangement(less, elems0, elems)
      && 2 * cnt + Runs(less, elems[d..]) == Runs(less, elems0) && Runs(less, elems[..d]) <= cnt
    }

    /** The body of a pass: one output run, from one run that is the last or from two. */
    method PassStep(a0: ListElem, less: Less<ListElem>, ghost elems0: seq<ListElem>, ghost d: nat, ghost cnt: nat)
      returns (last: bool, b1: ListElem, ghost j: nat)
      requires PassInv(less, elems0, d, cnt) && d < |elems| && a0 == Nodes()[d + 1]
      modifies this`elems, Repr()
      ensures Valid() && Repr() == old(Repr())
      ensures last ==> elems == old(elems) && 2 * cnt + 1 == Runs(less, elems0) && Runs(less, elems) <= cnt + 1
      ensures !last ==> d < j <= |elems| && PassInv(less, elems0, j, cnt + 1) && b1 == Nodes()[j + 1]
    {
      hide LinkAt, Distinct, StrictWeak, StableRearrangement, Linked, SortedFrom, Runs;
      LastNode(d);
      var a1b0;
      ghost var m;
      a1b0, m := FindEndOfRun(a0, tail, less, d, |elems|);
      RunFound(less, elems, d, m);
      LastNode(m);
      last, b1, j := a1b0 == tail, a1b0, m;
      if last {
        assert elems[..m] == elems;
        return;
      }
      b1, j := FindEndOfRun(a1b0, tail, less, m, |elems|);
      RunFound(less, elems, m, j);
      ghost var before := elems;
      InplaceMerge(a0, a1b0, b1, less, d, m, j);
      StableTrans(less, elems0, before, elems);
      RunsGrow(less, elems, d, j);
    }

    /** One pass of list_sort: pairs of neighbouring runs become one run each. */
    method Pass(less: Less<ListElem>) returns (cnt: nat)
      requires Valid() && StrictWeak(less, elems)
      modifies this`elems, Repr()
      ensures Valid() && Repr() == old(Repr())
      ensures StableRearrangement(less, old(elems), elems) && StrictWeak(less, elems)
      ensures cnt == (Runs(less, old(elems)) + 1) / 2 && Runs(less, elems) <= cnt
    {
      hide LinkAt, Distinct, StrictWeak, StableRearrangement, Linked, SortedFrom, Runs, Repr;
      ghost var elems0 := elems;
      StableRefl(less, elems);
      NoRuns(less, elems);
      cnt := 0;
      var a0 := Begin();
      ghost var d := 0;
      LastNode(d);
      while a0 != tail
        invariant PassInv(less, elems0, d, cnt) && Repr() == old(Repr())
        invariant a0 == Nodes()[d + 1] && (a0 == tail <==> d == |elems|)
        decreases |elems0| - d
      {
        var last;
        last, a0, d := PassStep(a0, less, elems0, d, cnt);
        cnt := cnt + 1;
        if last { return; }
        LastNode(d);
      }
      assert elems[..d] == elems && elems[d..] == [];
      NoRuns(less, elems);
    }

    lemma LastNode(d: nat)
      requires Valid() && d <= |elems|
      ensures |Nodes()| == |elems| + 2 && Nodes()[|elems| + 1] == tail && (Nodes()[d + 1] == tail <==> d == |elems|)
    {
    }

    /** list_sort: passes until one output run is left. Each pass after the first outputs
        strictly fewer runs than the one before, so the loop ends. */
    method Sort(less: Less<ListElem>)
      requires Valid() && StrictWeak(less, elems)
      modifies this`elems, Repr()
      ensures Valid() && Repr() == old(Repr())
      ensures Sorted(less, elems) && StableRearrangement(less, old(elems), elems)
    {
      hide LinkAt, Distinct, StrictWeak, StableRearrangement, Linked, Sorted, Runs, Repr, Valid;
      ghost var elems0 := elems;
      var cnt := Pass(less);
      while cnt > 1
        invariant Valid() && Repr() == old(Repr())
        invariant StableRearrangement(less, elems0, elems) && StrictWeak(less, elems) && Runs(less, elems) <= cnt
        decreases cnt
      {
        ghost var before := elems;
        PassesShrink(2 * cnt - 1, Runs(less, elems));
        cnt := Pass(less);
        StableTrans(less, elems0, before, elems);
      }
      OneRunIsSorted(less, elems);
    }

    /** list_push_back */
    method PushBack(elem: ListElem)
      requires Valid() && elem !in Nodes()
      modifies this`elems, Repr(), elem
      ensures Valid() && elems == old(elems) + [elem]
    {
      LastNode(|elems|);
      assert LinkAt(Nodes(), |elems|);
      Insert(tail, elem, |elems|);
    }

    /** The links to the element after position k. */
    lemma Follow(e: ListElem, k: nat)
      requires Valid() && k < |elems| && e == elems[k]
      ensures e.next == Nodes()[k + 2] && (e.next == tail <==> k + 1 == |elems|)
      ensures (k + 1 < |elems| ==> e.next == elems[k + 1])
    {
      LastNode(k + 1);
      assert LinkAt(Nodes(), k + 1);
    }

    lemma First()
      requires Valid()
      ensures head.next == Nodes()[1]
    {
      assert LinkAt(Nodes(), 0);
    }

    ghost function Joint(other: List?): set<ListElem>
      reads this, other
    {
      Repr() + if other != null then other.Repr() else {}
    }

    /** Two lists, the second possibly absent, that share nothing. */
    ghost predicate Apart(other: List?)
      reads this, other, Repr(), if other != null then other.Repr() else {}
    {
      && Valid()
      && (other != null ==> other.Valid() && other != this && Repr() !! other.Repr())
    }

    /** Element k goes from this list to the end of duplicates. */
    method Drop(elem: ListElem, ghost k: nat, duplicates: List?)
      requires Apart(duplicates) && k < |elems| && elem == elems[k]
      modifies this`elems, duplicates, Joint(duplicates)
      ensures Apart(duplicates) && Joint(duplicates) <= old(Joint(duplicates))
      ensures elems == old(elems)[..k] + old(elems)[k + 1..]
      ensures duplicates != null ==> duplicates.elems == old(duplicates.elems) + [elem]
    {
      hide LinkAt, Distinct, Linked, Valid;
      if duplicates != null {
        MoveTo(elem, k, duplicates);
      } else {
        var next := TakeOut(elem, k);
      }
    }

    method MoveTo(elem: ListElem, ghost k: nat, duplicates: List)
      requires Valid() && duplicates.Valid() && duplicates != this && Repr() !! duplicates.Repr()
      requires k < |elems| && elem == elems[k]
      modifies this`elems, duplicates`elems, Repr(), duplicates.Repr()
      ensures Valid() && duplicates.Valid()
      ensures Repr() == old(Repr()) - {elem} && duplicates.Repr() == old(duplicates.Repr()) + {elem}
      ensures elems == old(elems)[..k] + old(elems)[k + 1..]
      ensures duplicates.elems == old(duplicates.elems) + [elem]
    {
      hide LinkAt, Distinct, Linked;
      InRepr(k);
      var next := TakeOut(elem, k);
      duplicates.PushNew(elem);
    }

    /** list_remove, and what it does to the set of nodes. */
    method TakeOut(elem: ListElem, ghost k: nat) returns (next: ListElem)
      requires Valid() && k < |elems| && elem == elems[k]
      modifies this`elems, Repr()
      ensures Valid() && elems == old(elems)[..k] + old(elems)[k + 1..]
      ensures Repr() == old(Repr()) - {elem}
    {
      hide LinkAt, Distinct, Linked;
      InRepr(k);
      ElemsInNodes();
      next := Remove(elem, k);
      ElemsInNodes();
    }

    method PushNew(elem: ListElem)
      requires Valid() && elem !in Repr()
      modifies this`elems, Repr(), elem
      ensures Valid() && elems == old(elems) + [elem]
      ensures Repr() == old(Repr()) + {elem}
    {
      hide LinkAt, Distinct, Linked;
      ElemsInNodes();
      PushBack(elem);
      ElemsInNodes();
    }

    lemma ElemsInNodes()
      ensures forall x :: x in Nodes() <==> x == head || x == tail || x in elems
      ensures Repr() == {head, tail} + set x | x in elems
    {
    }

    /** What list_unique keeps: kept up to k, the rest to go, dropped behind what was in
        duplicates before. */
    ghost predicate UniqueInv(duplicates: List?, less: Less<ListElem>, elems0: seq<ListElem>, base: seq<ListElem>,
                              dropped: seq<ListElem>, k: nat, elem: ListElem)
      reads this, duplicates, Repr(), if duplicates != null then duplicates.Repr() else {}
    {
      && Apart(duplicates) && k < |elems| && elem == elems[k]
      && (duplicates != null ==> duplicates.elems == base + dropped)
      && KeptOf(less, elems0) == elems[..k + 1] + KeptAfter(less, elems[k], elems[k + 1..])
      && DroppedOf(less, elems0) == dropped + DroppedAfter(less, elems[k], elems[k + 1..])
    }

    method UniqueStep(elem: ListElem, next: ListElem, duplicates: List?, less: Less<ListElem>,
                      ghost elems0: seq<ListElem>,
                      ghost base: seq<ListElem>, ghost dropped: seq<ListElem>, ghost k: nat)
      returns (elem': ListElem, ghost k': nat, ghost dropped': seq<ListElem>)
      requires UniqueInv(duplicates, less, elems0, base, dropped, k, elem) && k + 1 < |elems| && next == elems[k + 1]
      modifies this`elems, duplicates, Joint(duplicates)
      ensures UniqueInv(duplicates, less, elems0, base, dropped', k', elem')
      ensures Joint(duplicates) <= old(Joint(duplicates))
      ensures |elems| - k' < old(|elems|) - k
    {
      hide Apart, Joint, KeptAfter, DroppedAfter, KeptOf, DroppedOf;
      UniqueUnfold(less, elems, dropped, k);
      elem', k', dropped' := elem, k, dropped;
      if !less(elem, next) && !less(next, elem) {
        Drop(next, k + 1, duplicates);
        dropped' := dropped + [next];
        assert duplicates != null ==> base + dropped + [next] == base + dropped';
      } else {
        elem', k' := next, k + 1;
      }
    }

    lemma UniqueStart(duplicates: List?, less: Less<ListElem>, base: seq<ListElem>, elem: ListElem)
      requires Apart(duplicates) && elem == Nodes()[1]
      requires duplicates != null ==> base == duplicates.elems
      ensures Valid() && (elem == tail <==> elems == [])
      ensures elem == tail ==> KeptOf(less, elems) == [] && base + DroppedOf(less, elems) == base
      ensures elem != tail ==> UniqueInv(duplicates, less, elems, base, [], 0, elem)
    {
      hide LinkAt, Distinct, Linked, KeptAfter, DroppedAfter;
      LastNode(0);
      assert base + [] == base;
    }

    lemma UniqueMiddle(duplicates: List?, less: Less<ListElem>, elems0: seq<ListElem>, base: seq<ListElem>,
                       dropped: seq<ListElem>, k: nat, elem: ListElem)
      requires UniqueInv(duplicates, less, elems0, base, dropped, k, elem)
      ensures Valid() && k < |elems| && elem == elems[k]
      ensures k + 1 == |elems| ==>
                && Apart(duplicates) && elems == KeptOf(less, elems0)
                && (duplicates != null ==> duplicates.elems == base + DroppedOf(less, elems0))
    {
      hide LinkAt, Distinct, Linked, KeptAfter, DroppedAfter;
      if k + 1 == |elems| { UniqueEnd(less, elems, k); }
    }

    /** list_unique: all but the first of each stretch of equal neighbours is removed, and
        appended to duplicates if that is a list. */
    method Unique(duplicates: List?, less: Less<ListElem>)
      requires Apart(duplicates)
      modifies this`elems, duplicates, Joint(duplicates)
      ensures Apart(duplicates) && elems == KeptOf(less, old(elems))
      ensures duplicates != null ==> duplicates.elems == old(duplicates.elems) + DroppedOf(less, old(elems))
    {
      hide Apart, UniqueInv, Valid, KeptOf, DroppedOf, Joint;
      ghost var elems0, base := elems, if duplicates != null then duplicates.elems else [];
      assert Valid() by { ApartValid(duplicates); }
      First();
      var elem: ListElem := head.next;
      UniqueStart(duplicates, less, base, elem);
      if elem == tail { return; }
      ghost var k: nat := 0;
      ghost var dropped := [];
      Follow(elem, 0);
      var next: ListElem := elem.next;
      while next != tail
        invariant UniqueInv(duplicates, less, elems0, base, dropped, k, elem)
        invariant Joint(duplicates) <= old(Joint(duplicates))
        invariant (next == tail <==> k + 1 == |elems|) && (k + 1 < |elems| ==> next == elems[k + 1])
        invariant k < |elems|
        decreases |elems| - k
      {
        elem, k, dropped := UniqueStep(elem, next, duplicates, less, elems0, base, dropped, k);
        UniqueMiddle(duplicates, less, elems0, base, dropped, k, elem);
        Follow(elem, k);
        next := elem.next;
      }
      UniqueMiddle(duplicates, less, elems0, base, dropped, k, elem);
    }

    lemma ApartValid(duplicates: List?)
      requires Apart(duplicates)
      ensures Valid()
    {
    }

    lemma InRepr(k: nat)
      requires Valid() && k < |elems|
      ensures elems[k] in Repr() && elems[k].prev in Repr() && elems[k].next in Repr()
    {
      assert LinkAt(Nodes(), k) && LinkAt(Nodes(), k + 1);
      assert Nodes()[k + 1] == elems[k];
    }

    /** list_splice between lists: elements i to j of other move in front of element k here. */
    method SpliceFrom(other: List, before: ListElem, first: ListElem, last: ListElem, ghost k: nat, ghost i: nat,
                      ghost j: nat)
      requires Valid() && other.Valid() && other != this && Repr() !! other.Repr()
      requires i <= j <= |other.elems| && k <= |elems|
      requires before == Nodes()[k + 1] && first == other.Nodes()[i + 1] && last == other.Nodes()[j + 1]
      modifies this`elems, other`elems, Repr(), other.Repr()
      ensures Valid() && elems == old(elems[..k] + other.elems[i..j] + elems[k..])
      ensures other.Valid() && other.elems == old(other.elems[..i] + other.elems[j..])
    {
      if first == last {
        NoneToMove(other, k, i, j);
        return;
      }
      ghost var s, o := Nodes(), other.Nodes();
      NodesApart(other);
      RerouteFrom(before, first, last, s, o, k, i, j);
      NodesJoined(elems, other.elems, head, tail, other.head, other.tail, k, i, j);
      JoinLinked(s, o, k, i, j, s[..k + 1] + o[i + 1..j + 1] + s[k + 1..], o[..i + 1] + o[j + 1..]);
      elems := elems[..k] + other.elems[i..j] + elems[k..];
      other.elems := other.elems[..i] + other.elems[j..];
      assert Nodes() == s[..k + 1] + o[i + 1..j + 1] + s[k + 1..] && other.Nodes() == o[..i + 1] + o[j + 1..];
    }

    lemma NoneToMove(other: List, k: nat, i: nat, j: nat)
      requires Valid() && other.Valid() && i <= j <= |other.elems| && k <= |elems|
      requires other.Nodes()[i + 1] == other.Nodes()[j + 1]
      ensures elems == elems[..k] + other.elems[i..j] + elems[k..]
      ensures other.elems == other.elems[..i] + other.elems[j..]
    {
      assert i == j;
    }

    lemma NodesApart(other: List)
      requires Repr() !! other.Repr()
      ensures forall x, y :: 0 <= x < |Nodes()| && 0 <= y < |other.Nodes()| ==> Nodes()[x] != other.Nodes()[y]
    {
      assert forall x :: 0 <= x < |Nodes()| ==> Nodes()[x] in Repr();
      assert forall y :: 0 <= y < |other.Nodes()| ==> other.Nodes()[y] in other.Repr();
    }
  }

  lemma NodesJoined<T>(xs: seq<T>, ys: seq<T>, h: T, t: T, h': T, t': T, k: nat, i: nat, j: nat)
    requires i <= j <= |ys| && k <= |xs|
    ensures var s, o := [h] + xs + [t], [h'] + ys + [t'];
            && [h] + (xs[..k] + ys[i..j] + xs[k..]) + [t] == s[..k + 1] + o[i + 1..j + 1] + s[k + 1..]
            && [h'] + (ys[..i] + ys[j..]) + [t'] == o[..i + 1] + o[j + 1..]
  {
    SliceOfNodes(h, xs, t, 0, k);
    SliceOfNodes(h, xs, t, k, |xs|);
    SliceOfNodes(h', ys, t', i, j);
  }

  lemma SliceOfNodes<T>(h: T, xs: seq<T>, t: T, i: nat, j: nat)
    requires i <= j <= |xs|
    ensures var s := [h] + xs + [t];
            s[..i + 1] == [h] + xs[..i] && s[i + 1..j + 1] == xs[i..j] && s[j + 1..] == xs[j..] + [t]
  {
  }
}
