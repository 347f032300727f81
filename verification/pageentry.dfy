/** Page-table entries as 32-bit words: what the constructors and the mark functions do to
    the frame number and to each flag. */
module PageEntry {
  import opened Bits

  const PRESENT := 0
  const RW := 1
  const USER := 2
  const WRITETHRU := 3
  const COW := 9
  const ADDR_SHIFT := 12

  function Shr(x: nat, k: nat): nat {
    if k == 0 then x else Shr(x / 2, k - 1)
  }

  function Shl(x: nat, k: nat): nat {
    if k == 0 then x else 2 * Shl(x, k - 1)
  }

  function Not(x: nat): nat {
    if x < WORD then WORD - 1 - x else 0
  }

  /** create_pte: & binds tighter than |, so both masks meet only zero words. */
  function CreatePte(phys: nat, user: nat, rw: nat): nat {
    Or(Pow2(PRESENT), Or(Shl(rw, RW), Or(Shl(user, USER), Or(Pow2(WRITETHRU),
      Or(And(0, Not(Pow2(7))), Or(And(0, Not(Or(Pow2(9), Or(Pow2(10), Pow2(11))))), Shl(Shr(phys, 12), ADDR_SHIFT)))))))
  }

  function Frame(e: nat): nat { Shr(e, ADDR_SHIFT) }

  predicate Present(e: nat) { Bit(e, PRESENT) }

  predicate Writable(e: nat) { Bit(e, RW) }

  predicate IsCow(e: nat) { Bit(e, COW) }

  function MarkReadOnly(e: nat): nat { And(e, Not(Pow2(RW))) }

  function MarkWriteable(e: nat): nat { Or(e, Pow2(RW)) }

  function MarkCow(e: nat): nat { Or(e, Pow2(COW)) }

  lemma {:induction false} ShrBit(x: nat, k: nat, i: nat)
    ensures Bit(Shr(x, k), i) <==> Bit(x, i + k)
  {
    if k > 0 { ShrBit(x / 2, k - 1, i); }
  }

  lemma {:induction false} ShlBit(x: nat, k: nat, i: nat)
    ensures Bit(Shl(x, k), i) <==> k <= i && Bit(x, i - k)
  {
    if k > 0 && i > 0 {
      assert Shl(x, k) / 2 == Shl(x, k - 1);
      ShlBit(x, k - 1, i - 1);
    }
  }

  lemma {:induction false} SmallBits(x: nat, i: nat)
    requires x <= 1
    ensures Bit(x, i) <==> i == 0 && x == 1
  {
    if i > 0 { BitOfZero(i - 1); }
  }

  lemma NotPow2Bit(k: nat, i: nat)
    requires k < 32 && i < 32
    ensures Bit(Not(Pow2(k)), i) <==> i != k
  {
    hide WORD, Bit, Pow2;
    WordIsPow2();
    Pow2Below(k, 32);
    BitComplement(32, Pow2(k), i);
    BitPow2(k, i);
  }

  /** Every bit of a fresh entry. */
  lemma CreatePteBit(phys: nat, user: nat, rw: nat, i: nat)
    requires user <= 1 && rw <= 1
    ensures Bit(CreatePte(phys, user, rw), i) <==>
              || i == PRESENT || (i == RW && rw == 1) || (i == USER && user == 1) || i == WRITETHRU
              || (ADDR_SHIFT <= i && Bit(phys, i))
  {
    hide Or, And, Bit, Pow2, Shl, Shr, Not;
    var addr := Shl(Shr(phys, 12), ADDR_SHIFT);
    var e2 := Or(And(0, Not(Or(Pow2(9), Or(Pow2(10), Pow2(11))))), addr);
    var e3 := Or(And(0, Not(Pow2(7))), e2);
    var e4 := Or(Pow2(WRITETHRU), e3);
    var e5 := Or(Shl(user, USER), e4);
    var e6 := Or(Shl(rw, RW), e5);
    BitOr(Pow2(PRESENT), e6, i);
    BitOr(Shl(rw, RW), e5, i);
    BitOr(Shl(user, USER), e4, i);
    BitOr(Pow2(WRITETHRU), e3, i);
    BitOr(And(0, Not(Pow2(7))), e2, i);
    BitOr(And(0, Not(Or(Pow2(9), Or(Pow2(10), Pow2(11))))), addr, i);
    BitAnd(0, Not(Pow2(7)), i);
    BitAnd(0, Not(Or(Pow2(9), Or(Pow2(10), Pow2(11)))), i);
    BitOfZero(i);
    BitPow2(PRESENT, i);
    BitPow2(WRITETHRU, i);
    ShlBit(rw, RW, i);
    ShlBit(user, USER, i);
    if i >= RW { SmallBits(rw, i - RW); }
    if i >= USER { SmallBits(user, i - USER); }
    ShlBit(Shr(phys, 12), ADDR_SHIFT, i);
    if i >= ADDR_SHIFT {
      ShrBit(phys, 12, i - ADDR_SHIFT);
      assert i - ADDR_SHIFT + 12 == i;
    }
  }

  lemma {:induction false} BitsBelow(n: nat, x: nat)
    requires forall i: nat :: n <= i ==> !Bit(x, i)
    ensures x < Pow2(n)
  {
    if n == 0 {
      forall i: nat ensures Bit(x, i) <==> Bit(0, i) { BitOfZero(i); }
      BitsDetermine(x, 0);
    } else {
      forall i: nat | n - 1 <= i ensures !Bit(x / 2, i) {
        assert !Bit(x, i + 1);
      }
      BitsBelow(n - 1, x / 2);
    }
  }

  /** A fresh entry names the frame it was made for, carries the asked-for rights, and is
      neither copy-on-write nor zero. */
  lemma CreatePteLaws(phys: nat, user: nat, rw: nat)
    requires user <= 1 && rw <= 1 && phys < WORD
    ensures var e := CreatePte(phys, user, rw);
            && e < WORD && Frame(e) == Shr(phys, 12) && Present(e) && (Writable(e) <==> rw == 1) && !IsCow(e) && e != 0
  {
    hide WORD, CreatePte, Bit, Shr;
    WordIsPow2();
    var e := CreatePte(phys, user, rw);
    CreatePteBit(phys, user, rw, PRESENT);
    CreatePteBit(phys, user, rw, RW);
    CreatePteBit(phys, user, rw, COW);
    BitOfZero(PRESENT);
    forall i: nat ensures Bit(Frame(e), i) <==> Bit(Shr(phys, 12), i) {
      ShrBit(e, ADDR_SHIFT, i);
      ShrBit(phys, 12, i);
      CreatePteBit(phys, user, rw, i + 12);
    }
    BitsDetermine(Frame(e), Shr(phys, 12));
    forall i: nat | 32 <= i ensures !Bit(e, i) {
      CreatePteBit(phys, user, rw, i);
      BitBeyond(32, phys, i);
    }
    BitsBelow(32, e);
  }

  lemma {:induction false} ShrShl(x: nat, k: nat)
    ensures Shr(Shl(x, k), k) == x && Shl(x, k) == x * Pow2(k)
  {
    if k > 0 {
      ShrShl(x, k - 1);
      assert x * Pow2(k) == 2 * (x * Pow2(k - 1));
    }
  }

  lemma ShrOfPage(page: nat)
    ensures Shr(page * 4096, 12) == page
  {
    ShrShl(page, 12);
    assert Pow2(12) == 4096;
  }

  /** Marking an entry copy-on-write and read-only moves exactly those two flags. */
  lemma MarkCowLaws(e: nat)
    requires e < WORD
    ensures var m := MarkCow(MarkReadOnly(e));
            && Frame(m) == Frame(e) && (Present(m) <==> Present(e)) && !Writable(m) && IsCow(m) && m < WORD && m != 0
  {
    hide WORD;
    WordIsPow2();
    var r := MarkReadOnly(e);
    var m := MarkCow(r);
    AndBound(e, Not(Pow2(RW)));
    Pow2Below(COW, 32);
    OrBound(32, r, Pow2(COW));
    forall i: nat ensures Bit(m, i) <==> i == COW || (i != RW && Bit(e, i)) {
      BitOr(r, Pow2(COW), i);
      BitPow2(COW, i);
      BitAnd(e, Not(Pow2(RW)), i);
      if i < 32 { NotPow2Bit(RW, i); } else { BitBeyond(32, e, i); }
    }
    BitOfZero(COW);
    forall i: nat ensures Bit(Frame(m), i) <==> Bit(Frame(e), i) {
      ShrBit(m, ADDR_SHIFT, i);
      ShrBit(e, ADDR_SHIFT, i);
    }
    BitsDetermine(Frame(m), Frame(e));
  }

  /** pde_mark_writeable on an entry sets one flag, so even an empty entry is zero no more. */
  lemma MarkWriteableLaws(e: nat)
    requires e < WORD
    ensures var m := MarkWriteable(e);
            && Frame(m) == Frame(e) && (Present(m) <==> Present(e)) && Writable(m) && (IsCow(m) <==> IsCow(e))
            && m < WORD && m != 0
  {
    hide WORD;
    WordIsPow2();
    var m := MarkWriteable(e);
    Pow2Below(RW, 32);
    OrBound(32, e, Pow2(RW));
    forall i: nat ensures Bit(m, i) <==> i == RW || Bit(e, i) {
      BitOr(e, Pow2(RW), i);
      BitPow2(RW, i);
    }
    BitOfZero(RW);
    forall i: nat ensures Bit(Frame(m), i) <==> Bit(Frame(e), i) {
      ShrBit(m, ADDR_SHIFT, i);
      ShrBit(e, ADDR_SHIFT, i);
    }
    BitsDetermine(Frame(m), Frame(e));
  }

  // ----- the entry as a number

  lemma {:induction false} OrOne(x: nat, k: nat)
    ensures Or(x, Pow2(k)) == Or(Pow2(k), x) == if Bit(x, k) then x else x + Pow2(k)
  {
    if x > 0 && k > 0 {
      OrOne(x / 2, k - 1);
      assert Pow2(k) / 2 == Pow2(k - 1) && Pow2(k) % 2 == 0;
    } else if k > 0 {
      BitOfZero(k);
    }
  }

  lemma AndAllButOne(x: nat, k: nat)
    requires x < WORD && k < 32
    ensures And(x, Not(Pow2(k))) == if Bit(x, k) then x - Pow2(k) else x
  {
    hide Bit, And, Or, Not, WORD;
    WordIsPow2();
    var a := And(x, Not(Pow2(k)));
    forall i: nat
      ensures Bit(a, i) <==> i != k && Bit(x, i)
      ensures Bit(Or(a, Pow2(k)), i) <==> i == k || Bit(x, i)
    {
      BitAnd(x, Not(Pow2(k)), i);
      BitOr(a, Pow2(k), i);
      BitPow2(k, i);
      if i < 32 { NotPow2Bit(k, i); } else { BitBeyond(32, x, i); }
    }
    OrOne(a, k);
    if Bit(x, k) { BitsDetermine(Or(a, Pow2(k)), x); } else { BitsDetermine(a, x); }
  }

  /** The flags and the frame number read off the number: bits 0, 1 and 9, and the upper 20. */
  lemma FlagsAre(e: nat)
    ensures Present(e) <==> e % 2 == 1
    ensures Writable(e) <==> e / 2 % 2 == 1
    ensures IsCow(e) <==> e / 512 % 2 == 1
    ensures Frame(e) == e / 4096
  {
    hide Bit, Shr;
    BitIsDigit(e, 0);
    BitIsDigit(e, 1);
    BitIsDigit(e, 9);
    assert Pow2(9) == 512 && Pow2(12) == 4096 && Pow2(1) == 2 && Pow2(0) == 1;
    ShrDivides(e, 12);
    ModUnique(e, Shr(e, 12), 4096, e - Shr(e, 12) * 4096);
  }

  /** The marks add or take away 2, and add 512. */
  lemma MarksAre(e: nat)
    requires e < WORD
    ensures MarkReadOnly(e) == if e / 2 % 2 == 1 then e - 2 else e
    ensures MarkWriteable(e) == if e / 2 % 2 == 1 then e else e + 2
    ensures MarkCow(e) == if e / 512 % 2 == 1 then e else e + 512
  {
    hide Or, And, Bit, WORD, Not;
    FlagsAre(e);
    assert Pow2(9) == 512 && Pow2(1) == 2;
    AndAllButOne(e, RW);
    OrOne(e, RW);
    OrOne(e, COW);
  }

  /** A fresh entry is the frame's address with bits 0 and 3 set and the rights in bits 1 and 2. */
  lemma EntryIs(phys: nat, user: nat, rw: nat)
    requires user <= 1 && rw <= 1
    ensures CreatePte(phys, user, rw) == phys / 4096 * 4096 + 8 + 4 * user + 2 * rw + 1
  {
    hide Or, And, Bit, Shl, Shr, Not, Pow2;
    FlagsAre(phys);
    SmallPowers();
    var x0 := Shl(Shr(phys, 12), 12);
    ShrShl(Shr(phys, 12), 12);
    ZeroAnd(Not(Pow2(7)), x0);
    ZeroAnd(Not(Or(Pow2(9), Or(Pow2(10), Pow2(11)))), x0);
    BitsOfPage(phys / 4096, user, rw);
    OrOne(x0, 3);
    OneShifted(user, 2, x0 + 8);
    OneShifted(rw, 1, x0 + 8 + user * 4);
    OrOne(x0 + 8 + user * 4 + rw * 2, 0);
  }

  lemma SmallPowers()
    ensures Pow2(0) == 1 && Pow2(1) == 2 && Pow2(2) == 4 && Pow2(3) == 8 && Pow2(12) == 4096
  {
    assert Pow2(9) == 512;
  }

  lemma ZeroAnd(m: nat, x: nat)
    ensures And(0, m) == 0 && Or(0, x) == x
  {
  }

  lemma OneShifted(u: nat, k: nat, x: nat)
    requires u <= 1 && !Bit(x, k)
    ensures Or(Shl(u, k), x) == x + u * Pow2(k)
  {
    ShrShl(u, k);
    if u == 1 { OrOne(x, k); }
  }

  /** An even multiple of a power of two does not have its bit. */
  lemma EvenIsClear(x: nat, k: nat, half: nat)
    requires x == 2 * half * Pow2(k)
    ensures !Bit(x, k)
  {
    hide Bit, Pow2;
    BitIsDigit(x, k);
    ModUnique(x, 2 * half, Pow2(k), 0);
  }

  lemma BitsOfPage(f: nat, user: nat, rw: nat)
    requires user <= 1 && rw <= 1
    ensures var x := f * 4096;
            && !Bit(x, 3) && !Bit(x + 8, 2) && !Bit(x + 8 + user * 4, 1) && !Bit(x + 8 + user * 4 + rw * 2, 0)
  {
    hide Bit, Pow2;
    SmallPowers();
    var x := f * 4096;
    EvenIsClear(x, 3, f * 256);
    EvenIsClear(x + 8, 2, f * 512 + 1);
    EvenIsClear(x + 8 + user * 4, 1, f * 1024 + 2 + user);
    EvenIsClear(x + 8 + user * 4 + rw * 2, 0, f * 2048 + 4 + user * 2 + rw);
  }

  lemma {:induction false} ShrDivides(x: nat, k: nat)
    ensures Shr(x, k) * Pow2(k) <= x < (Shr(x, k) + 1) * Pow2(k)
    decreases k
  {
    if k > 0 {
      ShrDivides(x / 2, k - 1);
      HalfBetween(x, Shr(x / 2, k - 1), Pow2(k - 1));
    }
  }

  lemma HalfBetween(x: nat, q: nat, p: nat)
    requires q * p <= x / 2 < (q + 1) * p
    ensures q * (2 * p) <= x < (q + 1) * (2 * p)
  {
    assert q * (2 * p) == 2 * (q * p) && (q + 1) * (2 * p) == 2 * ((q + 1) * p);
  }
}
