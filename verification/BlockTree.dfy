// The page pool of 2^m pages seen as a binary tree of aligned blocks, without tags or lists.
// Block (q, k) holds the pages i with i >> k == q. This module gives the specification that the
// allocator must meet: its free blocks are the maximal aligned blocks inside the set of free pages.
module BlockTree {
  import opened Dyadic

  datatype Block = Block(q: nat, k: nat)

  predicate In(i: nat, b: Block) {
    Shr(i, b.k) == b.q
  }

  function First(b: Block): nat {
    Start(b.q, b.k)
  }

  function Parent(b: Block): Block {
    Block(b.q / 2, b.k + 1)
  }

  function Buddy(b: Block): Block {
    Block(Sibling(b.q), b.k)
  }

  function Left(b: Block): Block
    requires b.k > 0
  {
    Block(2 * b.q, b.k - 1)
  }

  function Right(b: Block): Block
    requires b.k > 0
  {
    Block(2 * b.q + 1, b.k - 1)
  }

  ghost function Pages(b: Block): (s: set<nat>)
    ensures forall i: nat :: i in s <==> In(i, b)
  {
    forall i: nat ensures In(i, b) <==> First(b) <= i < First(b) + Pow2(b.k) {
      ShrRange(i, b.q, b.k);
    }
    set i: nat | i < First(b) + Pow2(b.k) && In(i, b)
  }

  ghost predicate Full(free: set<nat>, b: Block) {
    forall i: nat :: In(i, b) ==> i in free
  }

  /** A free block that no larger free block contains. */
  ghost predicate IsMax(free: set<nat>, m: nat, b: Block) {
    && b.k <= m
    && Full(free, b)
    && (b.k < m ==> !Full(free, Parent(b)))
  }

  ghost predicate InPool(free: set<nat>, m: nat) {
    forall i :: i in free ==> i < Pow2(m)
  }

  /** The canonical decomposition: all maximal free blocks. */
  ghost function Canon(free: set<nat>, m: nat): set<Block> {
    set q: nat, k: nat | q < Pow2(m) && k <= m && IsMax(free, m, Block(q, k)) :: Block(q, k)
  }

  ghost predicate Fits(blocks: set<Block>, m: nat) {
    forall b :: b in blocks ==> b.k <= m && b.q < Pow2(m - b.k)
  }

  ghost predicate Disjoint(blocks: set<Block>) {
    forall b, c, i: nat :: b in blocks && c in blocks && In(i, b) && In(i, c) ==> b == c
  }

  /** No two free blocks of equal order could be merged. */
  ghost predicate Coalesced(blocks: set<Block>, m: nat) {
    forall b :: b in blocks && b.k < m ==> Buddy(b) !in blocks
  }

  ghost predicate Covers(blocks: set<Block>, i: nat) {
    exists b :: b in blocks && In(i, b)
  }

  ghost predicate Decomposes(blocks: set<Block>, free: set<nat>) {
    && Disjoint(blocks)
    && forall i: nat :: i in free <==> Covers(blocks, i)
  }

  // ----- the tree

  lemma FirstIn(b: Block)
    ensures In(First(b), b)
  {
    ShrStart(b.q, b.k);
  }

  lemma InParent(i: nat, b: Block)
    ensures In(i, Parent(b)) <==> In(i, b) || In(i, Buddy(b))
    ensures !(In(i, b) && In(i, Buddy(b)))
  {
  }

  lemma InRange(i: nat, b: Block, m: nat)
    requires b.k <= m && In(i, b)
    ensures i < Pow2(m) <==> b.q < Pow2(m - b.k)
  {
    ShrRange(i, b.q, b.k);
    BlockFits(b.q, b.k, m);
    if b.q >= Pow2(m - b.k) {
      assert i >= Start(b.q, b.k) >= Pow2(m);
    }
  }

  /** Two blocks with a page in common: the lower one lies inside the higher one. */
  lemma Nested(i: nat, b: Block, c: Block)
    requires b.k <= c.k && In(i, b) && In(i, c)
    ensures Shr(b.q, c.k - b.k) == c.q
    ensures forall j: nat :: In(j, b) ==> In(j, c)
  {
    forall j: nat | In(j, b) ensures Shr(j, c.k) == Shr(b.q, c.k - b.k) {
      ShrShr(j, b.k, c.k - b.k);
    }
  }

  lemma InCanon(free: set<nat>, m: nat, b: Block)
    requires InPool(free, m)
    ensures b in Canon(free, m) <==> IsMax(free, m, b)
    ensures IsMax(free, m, b) ==> b.q < Pow2(m - b.k)
  {
    if IsMax(free, m, b) {
      FirstIn(b);
      InRange(First(b), b, m);
      Pow2Mono(m - b.k, m);
    }
  }

  // ----- the canonical decomposition is one, and the only coalesced one

  /** Climbing from a free block ends at a maximal one. */
  lemma {:induction false} Climb(free: set<nat>, m: nat, b: Block) returns (c: Block)
    requires b.k <= m && Full(free, b)
    ensures IsMax(free, m, c) && c.k >= b.k && Shr(b.q, c.k - b.k) == c.q
    ensures forall i: nat :: In(i, b) ==> In(i, c)
    decreases m - b.k
  {
    if b.k < m && Full(free, Parent(b)) {
      c := Climb(free, m, Parent(b));
      ShrHalf(b.q, c.k - b.k - 1);
      forall i: nat | In(i, b) ensures In(i, c) {
        InParent(i, b);
      }
    } else {
      c := b;
    }
  }

  lemma MaxDisjoint(free: set<nat>, m: nat, b: Block, c: Block, i: nat)
    requires IsMax(free, m, b) && IsMax(free, m, c) && In(i, b) && In(i, c)
    ensures b == c
  {
    if b.k < c.k {
      Nested(i, Parent(b), c);
    } else if c.k < b.k {
      Nested(i, Parent(c), b);
    }
  }

  lemma CanonDecomposes(free: set<nat>, m: nat)
    requires InPool(free, m)
    ensures Fits(Canon(free, m), m)
    ensures Decomposes(Canon(free, m), free)
    ensures Coalesced(Canon(free, m), m)
  {
    var bs := Canon(free, m);
    forall b | b in bs ensures IsMax(free, m, b) && b.q < Pow2(m - b.k) {
      InCanon(free, m, b);
    }
    forall b, c, i: nat | b in bs && c in bs && In(i, b) && In(i, c) ensures b == c {
      MaxDisjoint(free, m, b, c, i);
    }
    forall i: nat ensures i in free <==> Covers(bs, i) {
      if i in free {
        var c := Climb(free, m, Block(i, 0));
        InCanon(free, m, c);
      }
    }
    forall b | b in bs && b.k < m ensures Buddy(b) !in bs {
      if Buddy(b) in bs {
        forall i: nat | In(i, Parent(b)) ensures i in free {
          InParent(i, b);
        }
      }
    }
  }

  /** In a coalesced decomposition every free block lies inside one of the blocks. */
  lemma {:induction false} Enclosed(blocks: set<Block>, free: set<nat>, m: nat, b: Block) returns (c: Block)
    requires Decomposes(blocks, free) && Coalesced(blocks, m)
    requires b.k <= m && Full(free, b)
    ensures c in blocks && forall i: nat :: In(i, b) ==> In(i, c)
    ensures c.k >= b.k
    decreases b.k
  {
    FirstIn(b);
    if b.k == 0 {
      assert Covers(blocks, b.q);
      c :| c in blocks && In(b.q, c);
    } else {
      forall i: nat ensures In(i, b) <==> In(i, Left(b)) || In(i, Right(b)) {
        InParent(i, Left(b));
      }
      var l := Enclosed(blocks, free, m, Left(b));
      var r := Enclosed(blocks, free, m, Right(b));
      FirstIn(Left(b));
      FirstIn(Right(b));
      if l.k >= b.k {
        Nested(First(Left(b)), b, l);
        c := l;
      } else if r.k >= b.k {
        Nested(First(Right(b)), b, r);
        c := r;
      }
    }
  }

  /** The free blocks are a function of the free pages: any coalesced decomposition is the canonical one. */
  lemma CanonUnique(blocks: set<Block>, free: set<nat>, m: nat)
    requires Fits(blocks, m) && Decomposes(blocks, free) && Coalesced(blocks, m)
    ensures InPool(free, m)
    ensures blocks == Canon(free, m)
  {
    forall i | i in free ensures i < Pow2(m) {
      assert Covers(blocks, i);
      var b :| b in blocks && In(i, b);
      InRange(i, b, m);
    }
    forall b | b in blocks ensures Full(free, b) {
      forall i: nat | In(i, b) ensures i in free { assert Covers(blocks, i); }
    }
    forall b ensures b in blocks <==> b in Canon(free, m) {
      InCanon(free, m, b);
      FirstIn(b);
      if b in blocks && b.k < m && Full(free, Parent(b)) {
        var c := Enclosed(blocks, free, m, Parent(b));
        InParent(First(b), b);
      }
      if IsMax(free, m, b) {
        var c := Enclosed(blocks, free, m, b);
        if c.k > b.k {
          Nested(First(b), Parent(b), c);
        } else {
          Nested(First(b), b, c);
        }
      }
    }
  }
}
