/** Bitmaps packed into 32-bit words. */
module Bitmaps {
  import opened Bits
  import opened BitRuns
  import opened Common

  const ELEM_BITS := 32

  function ElemIdx(bit: nat): nat { bit / ELEM_BITS }

  function BitMask(bit: nat): nat { Pow2(bit % ELEM_BITS) }

  function ElemCnt(bits: nat): nat { (bits + ELEM_BITS - 1) / ELEM_BITS }

  lemma IdxInRange(cnt: nat, k: nat)
    requires k < cnt
    ensures ElemIdx(k) < ElemCnt(cnt)
  {
  }

  /** bits[idx] |= mask and bits[idx] &= ~mask change the addressed bit of the word only. */
  lemma MarkChangesOneBit(w: nat, j: nat, i: nat)
    requires w < WORD && j < ELEM_BITS && i < ELEM_BITS
    ensures Or(w, Pow2(j)) < WORD && Pow2(j) < WORD
    ensures Bit(Or(w, Pow2(j)), i) <==> i == j || Bit(w, i)
    ensures And(w, WORD - 1 - Pow2(j)) < WORD
    ensures Bit(And(w, WORD - 1 - Pow2(j)), i) <==> i != j && Bit(w, i)
  {
    WordIsPow2();
    Pow2Mono(j, 31);
    assert Pow2(32) == 2 * Pow2(31);
    BitPow2(j, i);
    BitOr(w, Pow2(j), i);
    OrBound(32, w, Pow2(j));
    BitComplement(32, Pow2(j), i);
    BitAnd(w, WORD - 1 - Pow2(j), i);
    AndBound(w, WORD - 1 - Pow2(j));
  }

  /** A word masked with a single bit is nonzero exactly when the bit is set. */
  lemma TestReadsOneBit(w: nat, j: nat)
    ensures And(w, Pow2(j)) != 0 <==> Bit(w, j)
  {
    BitAnd(w, Pow2(j), j);
    BitPow2(j, j);
    if And(w, Pow2(j)) == 0 {
      BitOfZero(j);
    } else if !Bit(w, j) {
      forall i: nat ensures Bit(And(w, Pow2(j)), i) <==> Bit(0, i) {
        BitAnd(w, Pow2(j), i);
        BitPow2(j, i);
        BitOfZero(i);
      }
      BitsDetermine(And(w, Pow2(j)), 0);
    }
  }

  /** Bit k of a bitmap is bit k mod 32 of word k / 32. */
  ghost predicate BitAt(ws: seq<nat>, k: nat)
    requires ElemIdx(k) < |ws|
  {
    Bit(ws[ElemIdx(k)], k % ELEM_BITS)
  }

  ghost function BitsOf(ws: seq<nat>, cnt: nat): (bits: seq<bool>)
    requires |ws| >= ElemCnt(cnt)
    ensures |bits| == cnt
    ensures forall k :: 0 <= k < cnt ==> bits[k] == BitAt(ws, k)
  {
    seq(cnt, k requires 0 <= k < cnt => BitAt(ws, k))
  }

  /** The words agree but for one bit. */
  ghost predicate OneBitSet(ws: seq<nat>, ws': seq<nat>, bit: nat, v: bool) {
    && |ws'| == |ws| && ElemIdx(bit) < |ws|
    && ws' == ws[ElemIdx(bit) := ws'[ElemIdx(bit)]]
    && forall i: nat :: i < ELEM_BITS ==>
         (Bit(ws'[ElemIdx(bit)], i) <==> if i == bit % ELEM_BITS then v else Bit(ws[ElemIdx(bit)], i))
  }

  lemma OneBitChanged(ws: seq<nat>, ws': seq<nat>, cnt: nat, bit: nat, v: bool)
    requires |ws| >= ElemCnt(cnt) && bit < cnt && OneBitSet(ws, ws', bit, v)
    ensures BitsOf(ws', cnt) == BitsOf(ws, cnt)[bit := v]
  {
    hide Bit;
    forall k | 0 <= k < cnt
      ensures BitAt(ws', k) == BitsOf(ws, cnt)[bit := v][k]
    {
      IdxInRange(cnt, k);
      assert k == ElemIdx(k) * ELEM_BITS + k % ELEM_BITS;
      assert bit == ElemIdx(bit) * ELEM_BITS + bit % ELEM_BITS;
    }
  }

  class Bitmap {
    const bitCnt: nat
    const words: array<nat>

    ghost predicate Valid()
      reads this, words
    {
      && words.Length >= ElemCnt(bitCnt)
      && forall i :: 0 <= i < words.Length ==> words[i] < WORD
    }

    ghost function Contents(): (bits: seq<bool>)
      requires Valid()
      reads this, words
    {
      BitsOf(words[..], bitCnt)
    }

    /** All the bits that the words have, those behind the bitmap's own included. */
    ghost function AllBits(): (bits: seq<bool>)
      reads this, words
    {
      BitsOf(words[..], 32 * words.Length)
    }

    /** bitmap_create_using_buffer */
    constructor UsingBuffer(bitCnt: nat, buffer: array<nat>)
      requires buffer.Length >= ElemCnt(bitCnt) && forall i :: 0 <= i < buffer.Length ==> buffer[i] < WORD
      ensures Valid() && this.bitCnt == bitCnt && words == buffer
    {
      this.bitCnt, words := bitCnt, buffer;
    }

    /** bitmap_mark */
    method Mark(bit: nat)
      requires Valid() && bit < bitCnt
      modifies words
      ensures Valid() && Contents() == old(Contents())[bit := true]
      ensures bit < 32 * words.Length && AllBits() == old(AllBits())[bit := true]
    {
      hide Or, And, Bit, Pow2;
      ghost var before := words[..];
      var idx, mask := ElemIdx(bit), BitMask(bit);
      IdxInRange(bitCnt, bit);
      MarkChangesOneBit(words[idx], bit % ELEM_BITS, 0);
      forall i: nat | i < ELEM_BITS
        ensures Bit(Or(words[idx], mask), i) <==> i == bit % ELEM_BITS || Bit(words[idx], i)
      {
        MarkChangesOneBit(words[idx], bit % ELEM_BITS, i);
      }
      assert bit % ELEM_BITS < ELEM_BITS;
      words[idx] := Or(words[idx], mask);
      OneBitChanged(before, words[..], bitCnt, bit, true);
      OneBitChanged(before, words[..], 32 * words.Length, bit, true);
    }

    /** bitmap_reset */
    method Reset(bit: nat)
      requires Valid() && bit < bitCnt
      modifies words
      ensures Valid() && Contents() == old(Contents())[bit := false]
      ensures bit < 32 * words.Length && AllBits() == old(AllBits())[bit := false]
    {
      hide Or, And, Bit, Pow2;
      ghost var before := words[..];
      var idx, mask := ElemIdx(bit), BitMask(bit);
      IdxInRange(bitCnt, bit);
      MarkChangesOneBit(words[idx], bit % ELEM_BITS, 0);
      forall i: nat | i < ELEM_BITS
        ensures Bit(And(words[idx], WORD - 1 - mask), i) <==> i != bit % ELEM_BITS && Bit(words[idx], i)
      {
        MarkChangesOneBit(words[idx], bit % ELEM_BITS, i);
      }
      assert bit % ELEM_BITS < ELEM_BITS;
      words[idx] := And(words[idx], WORD - 1 - mask);
      OneBitChanged(before, words[..], bitCnt, bit, false);
      OneBitChanged(before, words[..], 32 * words.Length, bit, false);
    }

    /** bitmap_set */
    method Set(bit: nat, v: bool)
      requires Valid() && bit < bitCnt
      modifies words
      ensures Valid() && Contents() == old(Contents())[bit := v]
      ensures bit < 32 * words.Length && AllBits() == old(AllBits())[bit := v]
    {
      if v { Mark(bit); } else { Reset(bit); }
    }

    /** bitmap_test */
    method Test(bit: nat) returns (v: bool)
      requires Valid() && bit < bitCnt
      ensures v == Contents()[bit]
    {
      IdxInRange(bitCnt, bit);
      TestReadsOneBit(words[ElemIdx(bit)], bit % ELEM_BITS);
      v := And(words[ElemIdx(bit)], BitMask(bit)) != 0;
    }

    /** bitmap_set_multiple */
    method SetMultiple(start: nat, cnt: nat, v: bool)
      requires Valid() && start + cnt <= bitCnt
      modifies words
      ensures Valid() && Contents() == SetRun(old(Contents()), start, cnt, v)
      ensures start + cnt <= 32 * words.Length && AllBits() == SetRun(old(AllBits()), start, cnt, v)
    {
      var i := 0;
      while i < cnt
        invariant Valid() && i <= cnt && Contents() == SetRun(old(Contents()), start, i, v)
        invariant AllBits() == SetRun(old(AllBits()), start, i, v)
      {
        Set(start + i, v);
        i := i + 1;
      }
    }

    /** bitmap_count */
    method Count(start: nat, cnt: nat, v: bool) returns (n: nat)
      requires Valid() && start + cnt <= bitCnt
      ensures n == CountOf(Contents()[start..start + cnt], v)
    {
      hide BitsOf;
      n := 0;
      var i := 0;
      ghost var bits := Contents()[start..start + cnt];
      assert bits[..cnt] == bits;
      while i < cnt
        invariant i <= cnt && n == CountOf(bits[..i], v)
      {
        CountOfNext(bits, i, v);
        var b := Test(start + i);
        if b == v { n := n + 1; }
        i := i + 1;
      }
    }

    /** bitmap_contains */
    method Contains(start: nat, cnt: nat, v: bool) returns (r: bool)
      requires Valid() && start + cnt <= bitCnt
      ensures r == !AllAre(Contents(), start, cnt, !v)
    {
      var i := 0;
      while i < cnt
        invariant i <= cnt && AllAre(Contents(), start, i, !v)
      {
        var b := Test(start + i);
        if b == v { return true; }
        i := i + 1;
      }
      r := false;
    }

    /** bitmap_scan; None is BITMAP_ERROR. */
    method Scan(start: nat, cnt: nat, v: bool) returns (r: Option<nat>)
      requires Valid()
      ensures r == FirstRun(Contents(), start, cnt, v)
    {
      if cnt <= bitCnt {
        var last := bitCnt - cnt;
        var i := start;
        while i <= last
          invariant start <= i
          invariant forall j: nat :: start <= j < i && j + cnt <= bitCnt ==> !AllAre(Contents(), j, cnt, v)
          decreases last + 1 - i
        {
          var other := Contains(i, cnt, !v);
          if !other { return Some(i); }
          i := i + 1;
        }
      }
      r := None;
    }

    /** bitmap_scan_and_flip */
    method ScanAndFlip(start: nat, cnt: nat, v: bool) returns (r: Option<nat>)
      requires Valid()
      modifies words
      ensures Valid() && r == FirstRun(old(Contents()), start, cnt, v)
      ensures Contents() == if r.Some? then SetRun(old(Contents()), r.value, cnt, !v) else old(Contents())
      ensures r.Some? ==> r.value + cnt <= 32 * words.Length
      ensures AllBits() == if r.Some? then SetRun(old(AllBits()), r.value, cnt, !v) else old(AllBits())
    {
      r := Scan(start, cnt, v);
      if r.Some? { SetMultiple(r.value, cnt, !v); }
    }
  }
}
