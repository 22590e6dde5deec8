// The boot-time merge loop on sets of blocks: pages below the frontier are coalesced, pages above
// it are still single.
module BlockBoot {
  import opened Dyadic
  import opened BlockTree
  import opened BlockOps

  ghost function Below(free: set<nat>, c: nat): set<nat> {
    set i | i in free && i < c
  }

  ghost function Singles(free: set<nat>, c: nat): set<Block> {
    set i | i in free && i >= c :: Block(i, 0)
  }

  /** Free blocks when the merge loop has dealt with the pages below the even frontier c. */
  ghost function BootBlocks(free: set<nat>, c: nat, m: nat): set<Block> {
    Canon(Below(free, c), m) + Singles(free, c)
  }

  function RoundEven(i: nat): nat {
    i + i % 2
  }

  lemma {:induction false} MergeFrame(blocks: set<Block>, singles: set<Block>, b: Block, m: nat)
    requires b.k >= 1 && forall s :: s in singles ==> s.k == 0
    ensures Merge(blocks + singles, b, m) == Merge(blocks, b, m) + singles
    decreases m - b.k
  {
    if b.k < m && Buddy(b) in blocks {
      assert blocks + singles - {Buddy(b)} == blocks - {Buddy(b)} + singles;
      MergeFrame(blocks - {Buddy(b)}, singles, Parent(b), m);
    } else {
      assert blocks + singles + {b} == blocks + {b} + singles;
    }
  }

  lemma SinglePages(i: nat)
    ensures Pages(Block(i, 0)) == {i}
  {
  }

  lemma NotInCanon(free: set<nat>, m: nat, b: Block)
    requires InPool(free, m) && First(b) !in free
    ensures b !in Canon(free, m)
  {
    InCanon(free, m, b);
    FirstIn(b);
  }

  /** A single page whose partner is not free joins the canonical blocks as it is. */
  lemma LonePage(free: set<nat>, i: nat, m: nat)
    requires InPool(free, m) && i < Pow2(m) && i !in free && Sibling(i) !in free
    ensures Canon(free, m) + {Block(i, 0)} == Canon(free + {i}, m)
  {
    SinglePages(i);
    MergeCanon(free, Block(i, 0), m);
    NotInCanon(free, m, Buddy(Block(i, 0)));
  }

  /** Two partner pages join the canonical blocks as one block of order 1, which then climbs. */
  lemma PairPages(free: set<nat>, c: nat, m: nat)
    requires InPool(free, m) && c % 2 == 0 && c + 1 < Pow2(m) && c !in free && c + 1 !in free
    ensures Merge(Canon(free, m), Block(c / 2, 1), m) == Canon(free + {c, c + 1}, m)
  {
    var b := Block(c / 2, 1);
    assert Pages(b) == {c, c + 1} by {
      forall i: nat ensures In(i, b) <==> i == c || i == c + 1 {
        assert Shr(i, 1) == i / 2;
      }
    }
    assert m > 0;
    InRange(c, b, m);
    MergeCanon(free, b, m);
  }

  lemma FrontierPair(free: set<nat>, c: nat, m: nat)
    requires InPool(free, m) && c in free && c + 1 in free && c % 2 == 0
    ensures BootBlocks(free, c, m) - {Block(c, 0)} - {Block(c + 1, 0)}
         == Canon(Below(free, c), m) + Singles(free, c + 2)
    ensures BootBlocks(free, c + 2, m)
         == Canon(Below(free, c) + {c, c + 1}, m) + Singles(free, c + 2)
    ensures Block(c + 1, 0) in BootBlocks(free, c, m)
  {
    NotInCanon(Below(free, c), m, Block(c, 0));
    NotInCanon(Below(free, c), m, Block(c + 1, 0));
    assert Singles(free, c) == {Block(c, 0), Block(c + 1, 0)} + Singles(free, c + 2);
    assert Below(free, c + 2) == Below(free, c) + {c, c + 1};
  }

  /** A page at the frontier whose partner is not free is the only single there. */
  lemma LoneSingle(free: set<nat>, c: nat, i: nat, m: nat)
    requires InPool(free, m) && i in free && Sibling(i) !in free && c % 2 == 0 && c <= i < c + 2
    ensures Singles(free, c) == {Block(i, 0)} + Singles(free, c + 2) && Block(i, 0) !in Singles(free, c + 2)
    ensures Below(free, c + 2) == Below(free, c) + {i}
    ensures Block(i, 0) !in Canon(Below(free, c), m) && Block(Sibling(i), 0) !in Canon(Below(free, c), m)
    ensures Block(Sibling(i), 0) !in Singles(free, c)
  {
    NotInCanon(Below(free, c), m, Block(i, 0));
    NotInCanon(Below(free, c), m, Block(Sibling(i), 0));
    forall j | j in free && j >= c ensures j == i || j >= c + 2 {
    }
  }

  lemma FrontierLone(free: set<nat>, c: nat, i: nat, m: nat)
    requires InPool(free, m) && i in free && Sibling(i) !in free && c % 2 == 0 && c <= i < c + 2
    ensures BootBlocks(free, c, m) - {Block(i, 0)} == Canon(Below(free, c), m) + Singles(free, c + 2)
    ensures BootBlocks(free, c, m) == BootBlocks(free, c + 2, m)
    ensures Block(i, 0) in BootBlocks(free, c, m) && Block(Sibling(i), 0) !in BootBlocks(free, c, m)
  {
    LoneSingle(free, c, i, m);
    LonePage(Below(free, c), i, m);
    Reassociate(Canon(Below(free, c), m), Block(i, 0), Singles(free, c + 2));
  }

  lemma Reassociate(low: set<Block>, b: Block, singles: set<Block>)
    requires b !in low && b !in singles
    ensures low + ({b} + singles) - {b} == low + singles
    ensures low + ({b} + singles) == low + {b} + singles
  {
  }

  /** An even page that is free: removing it from list 0 and merging it moves the frontier by two. */
  lemma EvenStep(free: set<nat>, c: nat, m: nat)
    requires InPool(free, m) && c in free && c % 2 == 0
    ensures Merge(BootBlocks(free, c, m) - {Block(c, 0)}, Block(c, 0), m) == BootBlocks(free, c + 2, m)
  {
    if c + 1 in free {
      assert c + 1 < Pow2(m) && m > 0;
      FrontierPair(free, c, m);
      PairPages(Below(free, c), c, m);
      MergeFrame(Canon(Below(free, c), m), Singles(free, c + 2), Block(c / 2, 1), m);
    } else {
      FrontierLone(free, c, c, m);
      assert BootBlocks(free, c, m) - {Block(c, 0)} + {Block(c, 0)} == BootBlocks(free, c, m);
    }
  }

  /** An even page that is not free: the frontier moves without any change to the blocks. */
  lemma EvenSkip(free: set<nat>, c: nat, m: nat)
    requires InPool(free, m) && c !in free && c % 2 == 0
    ensures BootBlocks(free, c, m) == BootBlocks(free, c + 2, m)
  {
    if c + 1 in free {
      FrontierLone(free, c, c + 1, m);
    } else {
      assert Below(free, c + 2) == Below(free, c);
      assert Singles(free, c) == Singles(free, c + 2);
    }
  }

  /** An odd page that is still single has no free partner, so it is put back where it was. */
  lemma OddStep(free: set<nat>, i: nat, m: nat)
    requires InPool(free, m) && i % 2 == 1 && Block(i, 0) in BootBlocks(free, i + 1, m)
    ensures Merge(BootBlocks(free, i + 1, m) - {Block(i, 0)}, Block(i, 0), m) == BootBlocks(free, i + 1, m)
  {
  }

  ghost function Turn(blocks: set<Block>, i: nat, m: nat): set<Block> {
    if Block(i, 0) in blocks then Merge(blocks - {Block(i, 0)}, Block(i, 0), m) else blocks
  }

  /** One turn of the merge loop advances the frontier, whether or not frame i is a listed single. */
  lemma BootIteration(free: set<nat>, i: nat, m: nat)
    requires InPool(free, m)
    ensures BootBlocks(free, RoundEven(i + 1), m) == Turn(BootBlocks(free, RoundEven(i), m), i, m)
  {
    if i % 2 == 1 {
      assert RoundEven(i) == RoundEven(i + 1) == i + 1;
      if Block(i, 0) in BootBlocks(free, i + 1, m) {
        OddStep(free, i, m);
      }
    } else {
      assert RoundEven(i) == i && RoundEven(i + 1) == i + 2;
      EvenTurn(free, i, m);
    }
  }

  lemma EvenTurn(free: set<nat>, c: nat, m: nat)
    requires InPool(free, m) && c % 2 == 0
    ensures BootBlocks(free, c + 2, m) == Turn(BootBlocks(free, c, m), c, m)
  {
    NotInCanon(Below(free, c), m, Block(c, 0));
    assert Block(c, 0) in Singles(free, c) <==> c in free;
    if c in free {
      EvenStep(free, c, m);
    } else {
      EvenSkip(free, c, m);
    }
  }

  /** When the loop is done every free page has been coalesced. */
  lemma BootDone(free: set<nat>, c: nat, m: nat)
    requires InPool(free, m) && c >= Pow2(m)
    ensures BootBlocks(free, c, m) == Canon(free, m)
  {
  }

  lemma BootBegin(free: set<nat>, m: nat)
    ensures BootBlocks(free, 0, m) == Singles(free, 0)
  {
    assert Below(free, 0) == {};
    forall q: nat, k: nat | k <= m ensures !IsMax({}, m, Block(q, k)) {
      FirstIn(Block(q, k));
    }
  }

  // ----- the binary counter

  ghost function UpTo(c: nat): (s: set<nat>)
    ensures forall i: nat :: i in s <==> i < c
  {
    set i: nat | i < c && Shr(i, 0) == i
  }

  lemma {:induction false} ShrMono(a: nat, b: nat, k: nat)
    requires a <= b
    ensures Shr(a, k) <= Shr(b, k)
  {
    if k > 0 {
      ShrMono(a, b, k - 1);
    }
  }

  lemma FullPrefix(c: nat, b: Block)
    ensures Full(UpTo(c), b) <==> b.q < Shr(c, b.k)
  {
    if b.q < Shr(c, b.k) {
      PrefixFull(c, b);
    } else {
      PrefixNotFull(c, b);
    }
  }

  lemma PrefixFull(c: nat, b: Block)
    requires b.q < Shr(c, b.k)
    ensures Full(UpTo(c), b)
  {
    forall i: nat | In(i, b) ensures i < c {
      if c <= i {
        ShrMono(c, i, b.k);
      }
    }
  }

  lemma LastPage(b: Block) returns (last: nat)
    ensures In(last, b) && Shr(last + 1, b.k) == b.q + 1
  {
    last := First(b) + Pow2(b.k) - 1;
    ShrRange(last, b.q, b.k);
    StartNext(b.q, b.k);
    ShrStart(b.q + 1, b.k);
  }

  lemma PrefixNotFull(c: nat, b: Block)
    requires b.q >= Shr(c, b.k)
    ensures !Full(UpTo(c), b)
  {
    var last := LastPage(b);
    if last < c {
      ShrMono(last + 1, c, b.k);
    }
    assert last !in UpTo(c);
  }

  /** With the first c pages free, order k has a free block exactly when bit k of c is set, and
      it is the block that ends where the higher bits of c end: the blocks are c written in binary. */
  lemma BinaryCounter(c: nat, m: nat, b: Block)
    requires c <= Pow2(m) && b.k <= m
    ensures b in Canon(UpTo(c), m) <==> Shr(c, b.k) % 2 == 1 && b.q == Shr(c, b.k) - 1
  {
    assert InPool(UpTo(c), m);
    InCanon(UpTo(c), m, b);
    FullPrefix(c, b);
    FullPrefix(c, Parent(b));
    if b.k == m {
      ShrMono(c, Pow2(m), m);
      ShrOfPow2(m, m);
    }
  }

  /** With nothing reserved, after frame i the merge loop has coalesced the frames below c = RoundEven(i):
      the block b lies among them exactly when bit b.k of c is set and b ends where the higher bits end. */
  lemma BootCounter(m: nat, i: nat, b: Block)
    requires RoundEven(i) <= Pow2(m) && b.k <= m && First(b) < RoundEven(i)
    ensures b in BootBlocks(UpTo(Pow2(m)), RoundEven(i), m) <==>
      Shr(RoundEven(i), b.k) % 2 == 1 && b.q == Shr(RoundEven(i), b.k) - 1
  {
    var c := RoundEven(i);
    assert Below(UpTo(Pow2(m)), c) == UpTo(c);
    assert b !in Singles(UpTo(Pow2(m)), c);
    BinaryCounter(c, m, b);
  }

  /** All pages free make one block of the highest order. */
  lemma AllFree(m: nat)
    ensures Canon(UpTo(Pow2(m)), m) == {Block(0, m)}
  {
    forall b ensures b in Canon(UpTo(Pow2(m)), m) <==> b == Block(0, m) {
      InCanon(UpTo(Pow2(m)), m, b);
      if b.k <= m {
        AllFreeAt(m, b);
      }
    }
  }

  lemma AllFreeAt(m: nat, b: Block)
    requires b.k <= m
    ensures b in Canon(UpTo(Pow2(m)), m) <==> b == Block(0, m)
  {
    BinaryCounter(Pow2(m), m, b);
    ShrOfPow2(m, b.k);
    if b.k < m {
      assert Pow2(m - b.k) == 2 * Pow2(m - b.k - 1);
    }
  }

  lemma {:induction false} ShrOfPow2(m: nat, k: nat)
    requires k <= m
    ensures Shr(Pow2(m), k) == Pow2(m - k)
  {
    if k > 0 {
      ShrOfPow2(m, k - 1);
    }
  }
}
