/** Runs of equal bits in a bitmap, as the sequence of its bits. */
module BitRuns {

  import opened Common

  predicate AllAre(bits: seq<bool>, i: nat, cnt: nat, v: bool)
    requires i + cnt <= |bits|
  {
    forall k :: i <= k < i + cnt ==> bits[k] == v
  }

  /** The first index at or after start where cnt bits in a row equal v. */
  function FirstRun(bits: seq<bool>, start: nat, cnt: nat, v: bool): (r: Option<nat>)
    ensures r.Some? ==>
              && start <= r.value && r.value + cnt <= |bits| && AllAre(bits, r.value, cnt, v)
              && forall j: nat :: start <= j < r.value ==> !AllAre(bits, j, cnt, v)
    ensures r.None? ==> forall j: nat :: start <= j && j + cnt <= |bits| ==> !AllAre(bits, j, cnt, v)
    decreases |bits| - start
  {
    if start + cnt > |bits| then None
    else if AllAre(bits, start, cnt, v) then Some(start)
    else if start == |bits| then None
    else FirstRun(bits, start + 1, cnt, v)
  }

  /** The bits with cnt of them, from i on, set to v. */
  function SetRun(bits: seq<bool>, i: nat, cnt: nat, v: bool): (r: seq<bool>)
    requires i + cnt <= |bits|
    ensures |r| == |bits|
    ensures forall k :: 0 <= k < |bits| ==> r[k] == if i <= k < i + cnt then v else bits[k]
  {
    seq(|bits|, k requires 0 <= k < |bits| => if i <= k < i + cnt then v else bits[k])
  }

  /** How many of the bits equal v. */
  function CountOf(bits: seq<bool>, v: bool): nat {
    if bits == [] then 0
    else CountOf(bits[..|bits| - 1], v) + (if bits[|bits| - 1] == v then 1 else 0)
  }

  lemma CountOfNext(bits: seq<bool>, i: nat, v: bool)
    requires i < |bits|
    ensures CountOf(bits[..i + 1], v) == CountOf(bits[..i], v) + (if bits[i] == v then 1 else 0)
  {
    assert bits[..i + 1][..i] == bits[..i];
  }

  lemma {:induction false} CountOfUpdate(bits: seq<bool>, k: nat, b: bool, v: bool)
    requires k < |bits|
    ensures CountOf(bits[k := b], v) == CountOf(bits, v) - (if bits[k] == v then 1 else 0) + (if b == v then 1 else 0)
  {
    var n := |bits| - 1;
    if k < n {
      CountOfUpdate(bits[..n], k, b, v);
      assert bits[k := b][..n] == bits[..n][k := b];
    } else {
      assert bits[k := b][..n] == bits[..n];
    }
  }

  lemma {:induction false} CountOfPositive(bits: seq<bool>, v: bool)
    ensures CountOf(bits, v) > 0 <==> exists k :: 0 <= k < |bits| && bits[k] == v
  {
    if bits != [] {
      var n := |bits| - 1;
      CountOfPositive(bits[..n], v);
      if bits[n] != v && exists k :: 0 <= k < |bits| && bits[k] == v {
        var k :| 0 <= k < |bits| && bits[k] == v;
        assert bits[..n][k] == v;
      }
    }
  }
}
