// What splitting and merging do to a set of free blocks, and why both keep the set canonical.
module BlockOps {
  import opened Dyadic
  import opened BlockTree

  /** merge_page: absorb the free buddy as long as there is one. */
  ghost function Merge(blocks: set<Block>, b: Block, m: nat): set<Block>
    decreases m - b.k
  {
    if b.k < m && Buddy(b) in blocks then Merge(blocks - {Buddy(b)}, Parent(b), m) else blocks + {b}
  }

  /** release_redundant_block: the right halves put back while b is cut down to the target order. */
  ghost function Rest(b: Block, target: nat): set<Block>
    decreases b.k
  {
    if b.k > target then {Right(b)} + Rest(Left(b), target) else {}
  }

  /** The block that is left over after cutting b down to the target order. */
  ghost function Cut(b: Block, target: nat): (c: Block)
    requires target <= b.k
    ensures c.k == target
    decreases b.k
  {
    if b.k > target then Cut(Left(b), target) else b
  }

  lemma MergeFree(free: set<nat>, b: Block)
    requires Pages(Buddy(b)) <= free
    ensures free - Pages(Buddy(b)) + Pages(Parent(b)) == free + Pages(b)
  {
  }

  ghost predicate Apart(blocks: set<Block>, b: Block) {
    forall c, i: nat :: c in blocks && In(i, b) ==> !In(i, c)
  }

  lemma {:induction false} MergeDecomposes(blocks: set<Block>, free: set<nat>, b: Block, m: nat)
    requires Fits(blocks, m) && Decomposes(blocks, free) && Coalesced(blocks, m)
    requires b.k <= m && b.q < Pow2(m - b.k) && Apart(blocks, b)
    ensures Fits(Merge(blocks, b, m), m) && Coalesced(Merge(blocks, b, m), m)
    ensures Decomposes(Merge(blocks, b, m), free + Pages(b))
    decreases m - b.k
  {
    var c := Buddy(b);
    if b.k < m && c in blocks {
      var rest := blocks - {c};
      forall i: nat ensures i in free - Pages(c) <==> Covers(rest, i) {
        if i in free - Pages(c) {
          var d :| d in blocks && In(i, d);
          assert d in rest;
        }
        if Covers(rest, i) {
          var d :| d in rest && In(i, d);
          assert Covers(blocks, i);
        }
      }
      forall i: nat ensures i in Pages(Parent(b)) <==> i in Pages(b) + Pages(c) {
        InParent(i, b);
      }
      MergeDecomposes(rest, free - Pages(c), Parent(b), m);
      assert (free - Pages(c)) + Pages(Parent(b)) == free + Pages(b) by {
        forall i: nat | i in Pages(c) ensures i in free { assert Covers(blocks, i); }
      }
    } else {
      MergeLast(blocks, free, b);
    }
  }

  lemma MergeLast(blocks: set<Block>, free: set<nat>, b: Block)
    requires Decomposes(blocks, free) && Apart(blocks, b)
    ensures Decomposes(blocks + {b}, free + Pages(b))
  {
  }

  lemma ApartCanon(free: set<nat>, m: nat, b: Block)
    requires InPool(free, m) && free !! Pages(b)
    ensures Apart(Canon(free, m), b)
  {
  }

  /** Freeing: merging a block into the canonical decomposition gives that of the larger page set. */
  lemma MergeCanon(free: set<nat>, b: Block, m: nat)
    requires InPool(free, m) && b.k <= m && b.q < Pow2(m - b.k) && free !! Pages(b)
    ensures Merge(Canon(free, m), b, m) == Canon(free + Pages(b), m)
    ensures InPool(free + Pages(b), m)
  {
    CanonDecomposes(free, m);
    ApartCanon(free, m, b);
    MergeDecomposes(Canon(free, m), free, b, m);
    CanonUnique(Merge(Canon(free, m), b, m), free + Pages(b), m);
  }

  lemma LeftRight(b: Block, i: nat)
    requires b.k > 0
    ensures In(i, b) <==> In(i, Left(b)) || In(i, Right(b))
    ensures !(In(i, Left(b)) && In(i, Right(b)))
  {
  }

  lemma {:induction false} CutInside(b: Block, target: nat)
    requires target <= b.k
    ensures First(Cut(b, target)) == First(b)
    ensures forall i: nat :: In(i, Cut(b, target)) ==> In(i, b)
    decreases b.k
  {
    if b.k > target {
      StartHalf(2 * b.q, b.k - 1);
      CutInside(Left(b), target);
      forall i: nat | In(i, Cut(b, target)) ensures In(i, b) {
        LeftRight(b, i);
      }
    }
  }

  lemma Halves(b: Block)
    requires b.k > 0
    ensures Pages(b) == Pages(Left(b)) + Pages(Right(b)) && Pages(Left(b)) !! Pages(Right(b))
    ensures Buddy(Right(b)) == Left(b) && Buddy(Left(b)) == Right(b)
    ensures In(First(b), Left(b)) || In(First(b), Right(b))
  {
    FirstIn(b);
    forall i: nat ensures In(i, b) <==> In(i, Left(b)) || In(i, Right(b))
      ensures !(In(i, Left(b)) && In(i, Right(b)))
    {
      LeftRight(b, i);
    }
  }

  lemma HalfCoalesced(blocks: set<Block>, b: Block, m: nat)
    requires Fits(blocks, m) && Coalesced(blocks, m) && Apart(blocks, b)
    requires 0 < b.k <= m && b.q < Pow2(m - b.k)
    ensures Fits(blocks + {Right(b)}, m) && Coalesced(blocks + {Right(b)}, m)
    ensures Left(b).q < Pow2(m - Left(b).k)
  {
    FirstIn(Left(b));
    LeftRight(b, First(Left(b)));
    assert Left(b) !in blocks;
    assert Pow2(m - Left(b).k) == 2 * Pow2(m - b.k);
  }

  lemma HalfApart(blocks: set<Block>, free: set<nat>, b: Block)
    requires Decomposes(blocks, free) && 0 < b.k && Apart(blocks, b)
    ensures Decomposes(blocks + {Right(b)}, free + Pages(Right(b)))
    ensures Apart(blocks + {Right(b)}, Left(b))
  {
  }

  lemma RestStep(blocks: set<Block>, free: set<nat>, b: Block, target: nat)
    requires target < b.k
    ensures blocks + {Right(b)} + Rest(Left(b), target) == blocks + Rest(b, target)
    ensures free + Pages(Right(b)) + (Pages(Left(b)) - Pages(Cut(b, target)))
         == free + (Pages(b) - Pages(Cut(b, target)))
  {
    Halves(b);
    CutInside(Left(b), target);
  }

  lemma {:induction false} SplitDecomposes(blocks: set<Block>, free: set<nat>, b: Block, target: nat, m: nat)
    requires Fits(blocks, m) && Decomposes(blocks, free) && Coalesced(blocks, m)
    requires target <= b.k <= m && b.q < Pow2(m - b.k) && Apart(blocks, b)
    ensures Fits(blocks + Rest(b, target), m) && Coalesced(blocks + Rest(b, target), m)
    ensures Decomposes(blocks + Rest(b, target), free + (Pages(b) - Pages(Cut(b, target))))
    decreases b.k
  {
    if b.k > target {
      HalfCoalesced(blocks, b, m);
      HalfApart(blocks, free, b);
      SplitDecomposes(blocks + {Right(b)}, free + Pages(Right(b)), Left(b), target, m);
      RestStep(blocks, free, b, target);
    } else {
      assert blocks + Rest(b, target) == blocks;
      assert free + (Pages(b) - Pages(b)) == free;
    }
  }

  /** Allocating: cutting a canonical free block down gives the canonical rest. */
  lemma SplitCanon(free: set<nat>, b: Block, target: nat, m: nat)
    requires InPool(free, m) && b in Canon(free, m) && target <= b.k
    ensures Pages(Cut(b, target)) <= free
    ensures Canon(free, m) - {b} + Rest(b, target) == Canon(free - Pages(Cut(b, target)), m)
  {
    CanonDecomposes(free, m);
    var blocks := Canon(free, m) - {b};
    forall i: nat ensures i in free - Pages(b) <==> Covers(blocks, i) {
      if i in free - Pages(b) {
        assert Covers(Canon(free, m), i);
        var d :| d in Canon(free, m) && In(i, d);
        assert d in blocks;
      }
      if Covers(blocks, i) {
        assert Covers(Canon(free, m), i);
      }
    }
    assert Pages(b) <= free by {
      forall i: nat | In(i, b) ensures i in free { assert Covers(Canon(free, m), i); }
    }
    SplitDecomposes(blocks, free - Pages(b), b, target, m);
    CutInside(b, target);
    assert free - Pages(b) + (Pages(b) - Pages(Cut(b, target))) == free - Pages(Cut(b, target));
    CanonUnique(blocks + Rest(b, target), free - Pages(Cut(b, target)), m);
  }

  /** A sufficiently large free block is listed exactly when some aligned run of the wanted size is free. */
  lemma Complete(free: set<nat>, m: nat, target: nat)
    requires InPool(free, m) && target <= m
    ensures (exists b :: b in Canon(free, m) && b.k >= target)
       <==> (exists c: Block :: c.k == target && Full(free, c))
  {
    if b :| b in Canon(free, m) && b.k >= target {
      InCanon(free, m, b);
      CutInside(b, target);
      assert Cut(b, target).k == target && Full(free, Cut(b, target));
    }
    if c: Block :| c.k == target && Full(free, c) {
      var b := Climb(free, m, c);
      InCanon(free, m, b);
    }
  }

  /** The order-by-order effect of a split: one new free block at each order from target to b.k - 1. */
  lemma {:induction false} RestOrders(b: Block, target: nat, j: nat)
    requires target <= b.k
    ensures target <= j < b.k ==> (exists c :: c in Rest(b, target) && c.k == j)
    ensures forall c :: c in Rest(b, target) ==> target <= c.k < b.k
    ensures forall c, d :: c in Rest(b, target) && d in Rest(b, target) && c.k == d.k ==> c == d
    decreases b.k
  {
    if b.k > target {
      RestOrders(Left(b), target, j);
      assert Right(b) in Rest(b, target);
      if target <= j < b.k - 1 {
        var c :| c in Rest(Left(b), target) && c.k == j;
        assert c in Rest(b, target);
      }
    }
  }
}
