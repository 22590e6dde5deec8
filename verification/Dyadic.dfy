// Powers of two, shifts and exclusive or on natural numbers: the arithmetic with which the page
// allocator names a block by its first page and finds the block it may merge with. Shifts are
// defined by repeated doubling and halving, which keeps every proof linear.
module Dyadic {

  /** 1 << k */
  function Pow2(k: nat): (r: nat)
    ensures r >= 1
  {
    if k == 0 then 1 else 2 * Pow2(k - 1)
  }

  /** i >> k: number of the block of order k that holds page i. */
  function Shr(i: nat, k: nat): nat {
    if k == 0 then i else Shr(i, k - 1) / 2
  }

  /** q << k: first page of block q of order k. */
  function Start(q: nat, k: nat): nat
    decreases k
  {
    if k == 0 then q else Start(2 * q, k - 1)
  }

  /** Bitwise exclusive or, bit by bit from the lowest. */
  function Xor(a: nat, b: nat): nat {
    if a == 0 then b
    else if b == 0 then a
    else 2 * Xor(a / 2, b / 2) + (a % 2 + b % 2) % 2
  }

  /** Number of the block that shares a parent with block q. */
  function Sibling(q: nat): nat {
    if q % 2 == 0 then q + 1 else q - 1
  }

  lemma {:induction false} ShrHalf(i: nat, k: nat)
    ensures Shr(i / 2, k) == Shr(i, k) / 2 == Shr(i, k + 1)
  {
    if k > 0 {
      ShrHalf(i, k - 1);
    }
  }

  lemma {:induction false} ShrShr(i: nat, k: nat, d: nat)
    ensures Shr(Shr(i, k), d) == Shr(i, k + d)
  {
    if d > 0 {
      ShrShr(i, k, d - 1);
    }
  }

  lemma {:induction false} StartNext(q: nat, k: nat)
    ensures Start(q + 1, k) == Start(q, k) + Pow2(k)
    decreases k
  {
    if k > 0 {
      StartNext(2 * q, k - 1);
      StartNext(2 * q + 1, k - 1);
    }
  }

  lemma {:induction false} StartMono(a: nat, b: nat, k: nat)
    requires a <= b
    ensures Start(a, k) <= Start(b, k)
    decreases k
  {
    if k > 0 {
      StartMono(2 * a, 2 * b, k - 1);
    }
  }

  lemma {:induction false} ShrRange(i: nat, q: nat, k: nat)
    ensures Shr(i, k) == q <==> Start(q, k) <= i < Start(q, k) + Pow2(k)
    decreases k
  {
    if k > 0 {
      ShrRange(i, 2 * q, k - 1);
      ShrRange(i, 2 * q + 1, k - 1);
      StartNext(2 * q, k - 1);
    }
  }

  lemma ShrStart(q: nat, k: nat)
    ensures Shr(Start(q, k), k) == q
  {
    ShrRange(Start(q, k), q, k);
  }

  lemma StartHalf(q: nat, k: nat)
    ensures q % 2 == 0 ==> Start(q / 2, k + 1) == Start(q, k)
    ensures q % 2 == 1 ==> Start(q / 2, k + 1) == Start(q, k) - Pow2(k)
    ensures q % 2 == 0 ==> Start(Sibling(q), k) == Start(q, k) + Pow2(k)
    ensures q % 2 == 1 ==> Start(Sibling(q), k) == Start(q, k) - Pow2(k)
  {
    StartNext(q, k);
    if q % 2 == 1 {
      StartNext(q - 1, k);
      assert 2 * (q / 2) == q - 1;
    }
  }

  lemma {:induction false} Pow2Mono(a: nat, b: nat)
    requires a <= b
    ensures Pow2(a) <= Pow2(b)
  {
    if a < b {
      Pow2Mono(a, b - 1);
    }
  }

  /** Block q of order k lies inside a pool of 2^m pages exactly when its first page does. */
  lemma {:induction false} BlockFits(q: nat, k: nat, m: nat)
    requires k <= m
    ensures q < Pow2(m - k) <==> Start(q, k) < Pow2(m)
    ensures q < Pow2(m - k) <==> Start(q, k) + Pow2(k) <= Pow2(m)
    decreases k
  {
    if k > 0 {
      assert Pow2(m - k + 1) == 2 * Pow2(m - k);
      BlockFits(2 * q, k - 1, m);
      BlockFits(2 * q + 1, k - 1, m);
      StartNext(2 * q, k - 1);
    }
  }

  lemma {:induction false} StartDouble(q: nat, k: nat)
    ensures Start(2 * q, k) == 2 * Start(q, k)
    decreases k
  {
    if k > 0 {
      StartDouble(2 * q, k - 1);
    }
  }

  /** page_id ^ (1 << order) is the first page of the sibling block. */
  lemma {:induction false} XorIsSibling(q: nat, k: nat)
    ensures Xor(Start(q, k), Pow2(k)) == Start(Sibling(q), k)
  {
    if k == 0 {
      assert Xor(q / 2, 0) == q / 2;
    } else {
      XorIsSibling(q, k - 1);
      StartDouble(q, k - 1);
      StartDouble(Sibling(q), k - 1);
    }
  }

  lemma {:induction false} ZeroShifts(k: nat)
    ensures Shr(0, k) == 0 && Start(0, k) == 0
    decreases k
  {
    if k > 0 {
      ZeroShifts(k - 1);
    }
  }

  /** The code multiplies where the model shifts. */
  lemma {:induction false} StartProduct(q: nat, k: nat)
    ensures Start(q, k) == q * Pow2(k)
    decreases k
  {
    if k > 0 {
      StartProduct(2 * q, k - 1);
    }
  }
}
