// The shifts and masks of include/mem.h and of the fault handler, as bit operations on natural numbers,
// and the proof that the arithmetic forms used in the rest of the model are what they compute.
module MemBits {
  import opened Dyadic
  import opened Machine
  import opened Translation
  import opened Faults

  /** a & b */
  function And(a: nat, b: nat): nat {
    if a == 0 || b == 0 then 0
    else 2 * And(a / 2, b / 2) + if a % 2 == 1 && b % 2 == 1 then 1 else 0
  }

  /** a | b */
  function Or(a: nat, b: nat): nat {
    if a == 0 then b
    else if b == 0 then a
    else 2 * Or(a / 2, b / 2) + if a % 2 == 1 || b % 2 == 1 then 1 else 0
  }

  /** a & ~b */
  function AndNot(a: nat, b: nat): nat {
    if a == 0 || b == 0 then a
    else 2 * AndNot(a / 2, b / 2) + if a % 2 == 1 && b % 2 == 0 then 1 else 0
  }

  // ----- in general

  /** The low k bits. */
  lemma {:induction false} LowBits(a: nat, k: nat)
    ensures And(a, Pow2(k) - 1) == a - Start(Shr(a, k), k) && 0 <= a - Start(Shr(a, k), k) < Pow2(k)
    ensures AndNot(a, Pow2(k) - 1) == Start(Shr(a, k), k)
  {
    if k > 0 {
      LowBits(a / 2, k - 1);
      ShrHalf(a, k - 1);
      StartDouble(Shr(a, k), k - 1);
      assert (Pow2(k) - 1) / 2 == Pow2(k - 1) - 1 && (Pow2(k) - 1) % 2 == 1;
      if a == 0 {
        ZeroShifts(k);
      }
    }
  }

  /** Bit k. */
  ghost predicate Bit(a: nat, k: nat) {
    Shr(a, k) % 2 == 1
  }

  /** Testing, setting and clearing one bit. */
  lemma {:induction false} OneBit(a: nat, k: nat)
    ensures And(a, Pow2(k)) == if Bit(a, k) then Pow2(k) else 0
    ensures Or(a, Pow2(k)) == if Bit(a, k) then a else a + Pow2(k)
    ensures AndNot(a, Pow2(k)) == if Bit(a, k) then a - Pow2(k) else a
  {
    if k == 0 {
      assert And(a / 2, 0) == 0 && Or(a / 2, 0) == a / 2 && AndNot(a / 2, 0) == a / 2;
    } else {
      OneBit(a / 2, k - 1);
      ShrHalf(a, k - 1);
      if a == 0 {
        ZeroShifts(k);
      }
    }
  }

  /** Or is addition where no bit is set on both sides. */
  lemma {:induction false} OrApart(q: nat, k: nat, b: nat)
    requires b < Pow2(k)
    ensures Or(Start(q, k), b) == Start(q, k) + b
  {
    if k > 0 {
      StartDouble(q, k - 1);
      OrApart(q, k - 1, b / 2);
    }
  }

  /** A mask with the complement of b in n bits. */
  lemma {:induction false} AndComplement(a: nat, b: nat, n: nat)
    requires a < Pow2(n) && b < Pow2(n)
    ensures And(a, Pow2(n) - 1 - b) == AndNot(a, b)
  {
    if n > 0 {
      AndComplement(a / 2, b / 2, n - 1);
      var c := Pow2(n) - 1 - b;
      assert c / 2 == Pow2(n - 1) - 1 - b / 2 && c % 2 == 1 - b % 2;
      if b == 0 {
        AndAll(a, n);
      }
    }
  }

  lemma {:induction false} AndAll(a: nat, n: nat)
    requires a < Pow2(n)
    ensures And(a, Pow2(n) - 1) == a
  {
    if n > 0 {
      AndAll(a / 2, n - 1);
      assert (Pow2(n) - 1) / 2 == Pow2(n - 1) - 1 && (Pow2(n) - 1) % 2 == 1;
    }
  }

  lemma ShrQuotient(a: nat, k: nat, q: nat)
    requires q * Pow2(k) <= a < q * Pow2(k) + Pow2(k)
    ensures Shr(a, k) == q && Start(q, k) == q * Pow2(k)
  {
    StartProduct(q, k);
    ShrRange(a, q, k);
  }

  lemma Powers()
    ensures Pow2(1) == 2 && Pow2(2) == 4 && Pow2(6) == 64 && Pow2(7) == 128 && Pow2(9) == 512 && Pow2(10) == 1024
    ensures Pow2(12) == 4096
  {
    assert Pow2(3) == 8 && Pow2(5) == 32 && Pow2(8) == 256 && Pow2(10) == 1024;
  }

  lemma Four(k: nat)
    ensures Pow2(k + 4) == 16 * Pow2(k)
  {
    assert Pow2(k + 2) == 2 * Pow2(k + 1);
  }

  lemma Sixteen(k: nat)
    ensures Pow2(k + 16) == 0x1_0000 * Pow2(k)
  {
    Four(k);
    Four(k + 4);
    Four(k + 8);
    Four(k + 12);
  }

  lemma Power64()
    ensures Pow2(64) == U64
  {
    Sixteen(0);
    Sixteen(16);
    Sixteen(32);
    Sixteen(48);
  }

  // ----- addresses

  /** PGROUNDDOWN(a), and the mask in it. */
  lemma RoundDownBits(a: nat)
    ensures RoundDown(a) == AndNot(a, 0xFFF) && And(a, 0xFFF) == a % PAGE_SIZE && Shr(a, 12) == a / PAGE_SIZE
  {
    Powers();
    ShrQuotient(a, 12, a / PAGE_SIZE);
    LowBits(a, 12);
  }

  /** PGROUNDUP(sz) on 64-bit numbers */
  lemma RoundUpBits(a: nat)
    requires a < U64
    ensures RoundUp(a) == AndNot((a + 0xFFF) % U64, 0xFFF)
  {
    assert (a + 0xFFF) % U64 == if a + 0xFFF < U64 then a + 0xFFF else a + 0xFFF - U64;
    RoundDownBits((a + 0xFFF) % U64);
  }

  lemma {:induction false} UpShift(vpn: nat, level: nat)
    ensures Up(vpn, level) == Shr(vpn, 9 * level)
  {
    if level > 0 {
      UpShift(vpn, level - 1);
      ShrShr(vpn, 9 * level - 9, 9);
      Powers();
      ShrQuotient(Up(vpn, level - 1), 9, Up(vpn, level));
    }
  }

  /** PX(level, va) */
  lemma IndexBits(level: nat, va: nat)
    ensures Px(level, va / PAGE_SIZE) == And(Shr(va, 12 + 9 * level), 0x1FF)
  {
    var vpn := va / PAGE_SIZE;
    RoundDownBits(va);
    ShrShr(va, 12, 9 * level);
    UpShift(vpn, level);
    Powers();
    ShrQuotient(Up(vpn, level), 9, Up(vpn, level + 1));
    LowBits(Up(vpn, level), 9);
  }

  /** VA_TO_FRAME(va) */
  lemma FrameBits(va: nat)
    requires va >= PAGE_INIT
    ensures FrameOf(va) == Shr(va - PAGE_INIT, 12)
  {
    RoundDownBits(va - PAGE_INIT);
  }

  // ----- table entries

  /** The tests of walk, *pte & PT_PAGE || *pte & PT_BLOCK, and of copy_page_table, pt_src[i] & 0x1. */
  lemma PresenceBits(e: nat)
    ensures Linked(e) <==> And(e, 3) != 0 || And(e, 1) != 0
    ensures Present(e) <==> And(e, 1) != 0
  {
    Powers();
    ShrQuotient(e, 2, e / 4);
    LowBits(e, 2);
    ShrQuotient(e, 1, e / 2);
    LowBits(e, 1);
  }

  lemma Bit7Shift(e: nat)
    ensures Bit(e, 7) <==> ReadOnly(e)
  {
    Powers();
    ShrQuotient(e, 7, e / 128);
  }

  /** *pte_base & PT_RO, and pt_src[i] |= PT_RO */
  lemma SetReadOnly(e: nat)
    ensures ReadOnly(e) <==> And(e, PT_RO) != 0
    ensures SetRO(e) == Or(e, PT_RO)
  {
    Powers();
    Bit7Shift(e);
    OneBit(e, 7);
  }

  /** *pte_base & ~PT_RO on a 64-bit word */
  lemma ClearReadOnly(e: nat)
    requires e < U64
    ensures ClearRO(e) == And(e, 0xffff_ffff_ffff_ff7f)
  {
    Powers();
    Power64();
    Bit7Shift(e);
    OneBit(e, 7);
    AndComplement(e, PT_RO, 64);
  }

  /** pt_src[i] & 0xFFF, and PA2KA(PTE2PA(*pte)) as a frame number */
  lemma PageBits(e: nat)
    requires e < U64
    ensures Attr(e) == And(e, 0xFFF)
    ensures Target(e) == FrameOf(And(e, 0xffff_ffff_ffff_f000) + KERNEL_VIRT)
  {
    RoundDownBits(e);
    Power64();
    AndComplement(e, 0xFFF, 64);
  }

  /** KA2PA(pa) | attr, as in copy_page_table and, with PT_PAGE, in walk */
  lemma EntryBits(f: nat, attr: nat)
    requires attr < 4096
    ensures Pte(f, attr) == Or(AddrOf(f) - KERNEL_VIRT, attr)
  {
    Powers();
    StartProduct(0x1_0000 + f, 12);
    OrApart(0x1_0000 + f, 12, attr);
  }

  /** KA2PA(pa) | perm | PT_PAGE, as in mappages */
  lemma MapBits(f: nat, perm: nat)
    requires perm < 4096 && perm % 4 == 0
    ensures Pte(f, perm + PT_PAGE) == Or(Or(AddrOf(f) - KERNEL_VIRT, perm), PT_PAGE)
  {
    EntryBits(f, perm);
    Powers();
    var q: nat := 0x400_0000 + 1024 * f + perm / 4;
    StartProduct(q, 2);
    OrApart(q, 2, PT_PAGE);
  }

  /** A power of two or-ed with smaller bits. */
  lemma OrPower(k: nat, b: nat)
    requires b < Pow2(k)
    ensures Or(Pow2(k), b) == Pow2(k) + b
  {
    StartProduct(1, k);
    OrApart(1, k, b);
  }

  /** KA2PA(pa) | PT_AF | PT_RO | PT_USER | PT_PAGE, or without PT_RO */
  lemma UserPteBits(f: nat, ro: bool)
    ensures UserPte(f, ro) == Or(AddrOf(f) - KERNEL_VIRT,
      Or(PT_AF, if ro then Or(PT_RO, Or(PT_USER, PT_PAGE)) else Or(PT_USER, PT_PAGE)))
  {
    EntryBits(f, if ro then PT_AF + PT_USER + PT_RO + PT_PAGE else PT_AF + PT_USER + PT_PAGE);
    Powers();
    OrPower(6, PT_PAGE);
    OrPower(7, PT_USER + PT_PAGE);
    OrPower(10, if ro then PT_USER + PT_RO + PT_PAGE else PT_USER + PT_PAGE);
  }

  // ----- the fault handler

  lemma LowSix(esr: nat)
    ensures And(esr, 0x3F) == esr % 64
  {
    Powers();
    ShrQuotient(esr, 6, esr / 64);
    LowBits(esr, 6);
  }

  lemma ClearLowTwo(x: nat)
    requires x < 64
    ensures And(x, 0x3C) == x - x % 4
  {
    Powers();
    AndComplement(x, 3, 6);
    ShrQuotient(x, 2, x / 4);
    LowBits(x, 2);
  }

  /** (esr & 0x3F & 0b111100) == 0b100, and the range of permission faults */
  lemma FaultBits(esr: nat)
    ensures TranslationFault(esr) <==> And(And(esr, 0x3F), 0x3C) == 0x4
    ensures PermissionFault(esr) <==> 0xD <= And(esr, 0x3F) <= 0xF
  {
    LowSix(esr);
    ClearLowTwo(esr % 64);
  }

  /** vm_prot & PROT_WRITE */
  lemma WriteBit(prot: nat)
    ensures Writable(prot) <==> And(prot, 2) != 0
  {
    Powers();
    ShrQuotient(prot, 1, prot / 2);
    OneBit(prot, 1);
  }
}
