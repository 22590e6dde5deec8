// What the page allocator guarantees over whole runs: everything is accounted for, the free blocks
// depend on the free pages only, and releases undo allocations in any order.
module BuddyRuns {
  import opened Dyadic
  import opened BlockTree
  import opened BlockOps
  import opened BlockBoot
  import opened FreeLists
  import opened FrameTable
  import opened Machine
  import opened PageAllocator
  import opened Sequences

  // ----- accounting

  /** Every frame is in exactly one place: free, in a live block, or in a reserved one; and the free
      blocks are the canonical ones. */
  ghost predicate Accounted(v: View, m: nat) {
    && InPool(v.free, m) && v.blocks == Canon(v.free, m)
    && Fits(v.live, m) && Fits(v.reserved, m)
    && Disjoint(v.live) && Disjoint(v.reserved)
    && (forall i: nat | i < Pow2(m) :: i in v.free || Covers(v.live, i) || Covers(v.reserved, i))
    && (forall i: nat :: !(i in v.free && Covers(v.live, i)))
    && (forall i: nat :: !(i in v.free && Covers(v.reserved, i)))
    && (forall i: nat :: !(Covers(v.live, i) && Covers(v.reserved, i)))
  }

  /** The invariant of the allocator accounts for every frame. */
  lemma ValidAccounts(pa: PageAllocator)
    requires pa.Valid()
    ensures Accounted(pa.v, pa.m)
  {
    pa.Open();
    pa.FreeInPool({});
    var own, m := pa.own, pa.m;
    OfFits(own, m, Live);
    OfFits(own, m, Reserved);
    forall i: nat | i < Pow2(m)
      ensures i in PagesOf(own, Free) || i in PagesOf(own, Live) || i in PagesOf(own, Reserved) {
    }
  }

  /** Total size of some blocks in frames. */
  ghost function Size(blocks: set<Block>): nat {
    if blocks == {} then 0 else var b :| b in blocks; Pow2(b.k) + Size(blocks - {b})
  }

  lemma BlockSize(b: Block)
    ensures |Pages(b)| == Pow2(b.k)
  {
    forall i: nat ensures In(i, b) <==> First(b) <= i < First(b) + Pow2(b.k) {
      ShrRange(i, b.q, b.k);
    }
    IntervalSize(First(b), Pow2(b.k), Pages(b));
  }

  /** The sizes of blocks that decompose a set of frames add up to the size of the set. */
  lemma {:induction false} DecomposedSize(blocks: set<Block>, frames: set<nat>)
    requires Decomposes(blocks, frames)
    ensures Size(blocks) == |frames|
    decreases blocks
  {
    if blocks == {} {
      assert frames == {};
    } else {
      var b :| b in blocks && Size(blocks) == Pow2(b.k) + Size(blocks - {b});
      WithoutBlock(blocks, frames, b);
      DecomposedSize(blocks - {b}, frames - Pages(b));
      BlockSize(b);
      assert frames == frames - Pages(b) + Pages(b);
    }
  }

  lemma WithoutBlock(blocks: set<Block>, frames: set<nat>, b: Block)
    requires Decomposes(blocks, frames) && b in blocks
    ensures Decomposes(blocks - {b}, frames - Pages(b)) && Pages(b) <= frames
  {
  }

  ghost function Covered(blocks: set<Block>, m: nat): set<nat> {
    set i: nat | i < Pow2(m) && Covers(blocks, i)
  }

  lemma CoveredDecomposes(blocks: set<Block>, m: nat)
    requires Fits(blocks, m) && Disjoint(blocks)
    ensures Decomposes(blocks, Covered(blocks, m))
  {
    forall i: nat | Covers(blocks, i) ensures i < Pow2(m) {
      var b :| b in blocks && In(i, b);
      InRange(i, b, m);
    }
  }

  lemma ThreeParts(a: set<nat>, b: set<nat>, c: set<nat>, n: nat)
    requires a !! b && a !! c && b !! c
    requires forall i: nat :: i in a || i in b || i in c <==> i < n
    ensures |a| + |b| + |c| == n
  {
    IntervalSize(0, n, a + b + c);
  }

  /** Free sizes, live sizes and reserved sizes add up to the number of frames. */
  lemma Conservation(v: View, m: nat)
    requires Accounted(v, m)
    ensures Size(v.blocks) == |v.free|
    ensures Size(v.blocks) + Size(v.live) + Size(v.reserved) == Pow2(m)
  {
    CanonDecomposes(v.free, m);
    DecomposedSize(v.blocks, v.free);
    CoveredDecomposes(v.live, m);
    CoveredDecomposes(v.reserved, m);
    DecomposedSize(v.live, Covered(v.live, m));
    DecomposedSize(v.reserved, Covered(v.reserved, m));
    ThreeParts(v.free, Covered(v.live, m), Covered(v.reserved, m), Pow2(m));
  }

  // ----- the lists

  /** List k holds exactly the first frames of the free blocks of order k, each once, its ring is closed
      both ways, and its counter is its length. */
  lemma ListsAgree(pa: PageAllocator, k: nat, x: nat)
    requires pa.Valid() && k <= pa.m
    ensures pa.fl.Valid() && |pa.fl.lists| == pa.m + 1 && pa.fl.pgFree[k] == |pa.fl.lists[k]|
    ensures x in pa.fl.lists[k] <==> exists b :: b in pa.v.blocks && b.k == k && First(b) == x
  {
    pa.Open();
    var own, m := pa.own, pa.m;
    if b :| b in pa.v.blocks && b.k == k && First(b) == x {
      InOf(own, m, b, Free);
    }
    if x in pa.fl.lists[k] {
      var j :| 0 <= j < |pa.fl.lists[k]| && pa.fl.lists[k][j] == x;
      assert own[x].b in pa.v.blocks && own[x].b.k == k && First(own[x].b) == x;
    }
  }

  /** The tags tell what a frame is part of, the first frame of a free block being marked. */
  lemma TagsAgree(pa: PageAllocator, i: nat, b: Block)
    requires pa.Valid() && i < Pow2(pa.m) && In(i, b) && (b in pa.v.blocks || b in pa.v.live || b in pa.v.reserved)
    ensures i < pa.used.Length == pa.order.Length == pa.cnt.Length && pa.order[i] == b.k
    ensures pa.used[i] == if b in pa.v.blocks then (if i == First(b) then AVAL else F) else USED
    ensures if b in pa.v.live && i == First(b) then pa.cnt[i] >= 1 else pa.cnt[i] == 0
  {
    pa.Open();
    var own, m := pa.own, pa.m;
    var kind := if b in pa.v.blocks then Free else if b in pa.v.live then Live else Reserved;
    InOf(own, m, b, kind);
    TileFrames(own, m, b, kind);
    assert own[i] == Tile(b, kind);
    if b in pa.v.live {
      InOf(own, m, b, Live);
    }
  }

  // ----- allocation and release

  lemma GrantDisjoint(v: View, w: View, b: Block, c: Block, ord: nat, m: nat)
    requires Accounted(v, m) && Granted(v, w, b, c, ord)
    ensures Disjoint(w.live)
    ensures forall i: nat :: Covers(w.live, i) <==> Covers(v.live, i) || In(i, c)
    ensures forall i: nat | In(i, c) :: !Covers(v.live, i) && !Covers(v.reserved, i)
  {
    forall i: nat ensures Covers(w.live, i) <==> Covers(v.live, i) || In(i, c) {
      MoreCovers(v.live, c, i);
    }
    forall i: nat | In(i, c) ensures !Covers(v.live, i) && !Covers(v.reserved, i) {
      assert i in Pages(c);
    }
    forall d, e, i: nat | d in w.live && e in w.live && In(i, d) && In(i, e) ensures d == e {
      if (d == c) != (e == c) {
        assert Covers(v.live, i);
      }
    }
  }

  lemma GrantCanon(v: View, w: View, b: Block, c: Block, ord: nat, m: nat)
    requires Accounted(v, m) && Granted(v, w, b, c, ord)
    ensures InPool(w.free, m) && w.blocks == Canon(w.free, m)
  {
    SplitCanon(v.free, b, ord, m);
  }

  lemma GrantFits(v: View, w: View, b: Block, c: Block, ord: nat, m: nat)
    requires Accounted(v, m) && Granted(v, w, b, c, ord)
    ensures Fits(w.live, m)
  {
    InCanon(v.free, m, b);
    FirstIn(c);
    assert First(c) in Pages(c);
    InRange(First(c), c, m);
  }

  lemma GrantAccounted(v: View, w: View, b: Block, c: Block, ord: nat, m: nat)
    requires Accounted(v, m) && Granted(v, w, b, c, ord)
    ensures Accounted(w, m)
  {
    GrantDisjoint(v, w, b, c, ord, m);
    GrantCanon(v, w, b, c, ord, m);
    GrantFits(v, w, b, c, ord, m);
  }

  lemma {:induction false} RestInside(b: Block, target: nat, d: Block)
    requires d in Rest(b, target)
    ensures In(First(d), b) && d.k < b.k
    decreases b.k
  {
    FirstIn(d);
    LeftRight(b, First(d));
    if d != Right(b) {
      RestInside(Left(b), target, d);
    }
  }

  /** An allocation uses up one free block, the smallest that suffices, and adds exactly one new free
      block at each order from the one wanted up to just below that of the block used. */
  lemma SplitAdds(v: View, w: View, b: Block, c: Block, ord: nat, m: nat, j: nat)
    requires Accounted(v, m) && Granted(v, w, b, c, ord)
    ensures v.blocks - w.blocks == {b} && w.blocks - v.blocks == Rest(b, ord)
    ensures (exists d :: d in w.blocks - v.blocks && d.k == j) <==> ord <= j < b.k
    ensures forall d, e :: d in w.blocks - v.blocks && e in w.blocks - v.blocks && d.k == e.k ==> d == e
    ensures forall d :: d in v.blocks && d.k >= ord ==> d.k >= b.k
  {
    CanonDecomposes(v.free, m);
    forall d | d in Rest(b, ord) ensures d !in v.blocks && d != b {
      RestInside(b, ord, d);
      FirstIn(d);
    }
    assert w.blocks - v.blocks == Rest(b, ord);
    RestOrders(b, ord, j);
  }

  lemma MoreCovers(blocks: set<Block>, b: Block, i: nat)
    ensures Covers(blocks + {b}, i) <==> Covers(blocks, i) || In(i, b)
  {
  }

  lemma FewerCovers(blocks: set<Block>, b: Block, i: nat)
    requires Disjoint(blocks) && b in blocks
    ensures Covers(blocks - {b}, i) <==> Covers(blocks, i) && !In(i, b)
  {
  }

  lemma ReleaseCanon(v: View, b: Block, m: nat)
    requires Accounted(v, m) && b in v.live
    ensures ReleasedTo(v, b, m).blocks == Canon(v.free + Pages(b), m) && InPool(v.free + Pages(b), m)
    ensures v.free !! Pages(b)
  {
    forall i: nat | In(i, b) ensures Covers(v.live, i) {
    }
    MergeCanon(v.free, b, m);
  }

  lemma ReleaseAccounted(v: View, b: Block, m: nat)
    requires Accounted(v, m) && b in v.live
    ensures Accounted(ReleasedTo(v, b, m), m)
  {
    ReleaseCanon(v, b, m);
    forall i: nat ensures Covers(v.live - {b}, i) <==> Covers(v.live, i) && !In(i, b) {
      FewerCovers(v.live, b, i);
    }
    forall i: nat | In(i, b) ensures Covers(v.live, i) {
    }
  }

  /** An allocation followed by the release of what it gave restores everything as it was. */
  lemma AllocThenFree(v: View, w: View, b: Block, c: Block, ord: nat, m: nat)
    requires Accounted(v, m) && Granted(v, w, b, c, ord)
    ensures c in w.live && ReleasedTo(w, c, m) == v
  {
    GrantAccounted(v, w, b, c, ord, m);
    ReleaseCanon(w, c, m);
    assert w.free + Pages(c) == v.free;
    assert w.live - {c} == v.live;
  }

  ghost function AllPages(bs: seq<Block>): set<nat> {
    if bs == [] then {} else AllPages(bs[..|bs| - 1]) + Pages(bs[|bs| - 1])
  }

  ghost function ReleasedAll(v: View, bs: seq<Block>, m: nat): View {
    if bs == [] then v else ReleasedTo(ReleasedAll(v, bs[..|bs| - 1], m), bs[|bs| - 1], m)
  }

  lemma LastMember(v: View, bs: seq<Block>)
    requires bs != [] && Distinct(bs) && forall b | b in bs :: b in v.live
    ensures var front, b := bs[..|bs| - 1], bs[|bs| - 1];
      && Distinct(front) && (forall c | c in front :: c in v.live)
      && b in v.live - Elements(front) && v.live - Elements(front) - {b} == v.live - Elements(bs)
      && v.free + AllPages(front) + Pages(b) == v.free + AllPages(bs)
  {
  }

  /** Releases in any order reach the same state: it is a function of the pages that are free then. */
  lemma {:induction false} ReleaseOrder(v: View, bs: seq<Block>, m: nat)
    requires Accounted(v, m) && Distinct(bs) && forall b | b in bs :: b in v.live
    ensures Accounted(ReleasedAll(v, bs, m), m)
    ensures ReleasedAll(v, bs, m) ==
      View(Canon(v.free + AllPages(bs), m), v.free + AllPages(bs), v.live - Elements(bs), v.reserved)
  {
    if bs == [] {
      assert v.free + {} == v.free && v.live - Elements(bs) == v.live;
    } else {
      var front, b := bs[..|bs| - 1], bs[|bs| - 1];
      LastMember(v, bs);
      ReleaseOrder(v, front, m);
      ReleaseCanon(ReleasedAll(v, front, m), b, m);
      ReleaseAccounted(ReleasedAll(v, front, m), b, m);
    }
  }

  /** Releasing every live block, in whatever order, restores the single block of the highest order,
      unless something is reserved. */
  lemma ReleaseEverything(v: View, bs: seq<Block>, m: nat)
    requires Accounted(v, m) && Distinct(bs) && forall b :: b in bs <==> b in v.live
    ensures v.reserved == {} ==> ReleasedAll(v, bs, m) == View({Block(0, m)}, UpTo(Pow2(m)), {}, {})
    ensures v.reserved != {} ==> ReleasedAll(v, bs, m).blocks != {Block(0, m)}
  {
    ReleaseOrder(v, bs, m);
    var w := ReleasedAll(v, bs, m);
    assert w.live == {};
    if v.reserved == {} {
      forall i: nat ensures i in w.free <==> i in UpTo(Pow2(m)) {
      }
      AllFree(m);
    } else {
      var b :| b in v.reserved;
      FirstIn(b);
      assert Covers(w.reserved, First(b));
      CanonDecomposes(w.free, m);
      InRange(First(b), b, m);
      TopCovers(w.blocks, First(b), m);
    }
  }

  lemma TopCovers(blocks: set<Block>, i: nat, m: nat)
    requires i < Pow2(m)
    ensures Block(0, m) in blocks ==> Covers(blocks, i)
  {
    TopBlock(i, m);
  }

  lemma TopBlock(i: nat, m: nat)
    requires i < Pow2(m)
    ensures In(i, Block(0, m))
  {
    ShrRange(i, 0, m);
    ZeroShifts(m);
  }

  // ----- runs

  ghost predicate Step(v: View, w: View, m: nat) {
    || (exists b, c, ord: nat :: ord <= m && Granted(v, w, b, c, ord))
    || (exists b :: b in v.live && w == ReleasedTo(v, b, m))
  }

  ghost predicate Run(vs: seq<View>, m: nat) {
    vs != [] && forall k | 0 <= k < |vs| - 1 :: Step(vs[k], vs[k + 1], m)
  }

  /** After any run no two buddies are both free, every frame is accounted for, and the frames that were
      reserved before are still reserved and still not free. */
  lemma {:induction false} RunAccounts(vs: seq<View>, m: nat, k: nat)
    requires Run(vs, m) && Accounted(vs[0], m) && k < |vs|
    ensures Accounted(vs[k], m) && Coalesced(vs[k].blocks, m)
    ensures vs[k].reserved == vs[0].reserved
    ensures forall i: nat | Covers(vs[0].reserved, i) :: i !in vs[k].free
  {
    if k > 0 {
      RunAccounts(vs, m, k - 1);
      var v, w := vs[k - 1], vs[k];
      assert Step(v, w, m);
      if b, c, ord: nat :| ord <= m && Granted(v, w, b, c, ord) {
        GrantAccounted(v, w, b, c, ord, m);
      } else {
        var b :| b in v.live && w == ReleasedTo(v, b, m);
        ReleaseAccounted(v, b, m);
      }
    }
    CanonDecomposes(vs[k].free, m);
  }

  // ----- boot and release as calls

  /** buddy_init: one free block of the highest order. */
  method BuddyInit(m: nat) returns (pa: PageAllocator)
    ensures fresh(pa) && pa.m == m && pa.Valid()
    ensures pa.v == View({Block(0, m)}, UpTo(Pow2(m)), {}, {})
  {
    pa := new PageAllocator(m);
    pa.MergeAll();
    AllFree(m);
  }

  /** The arguments of one call of mem_reserve. */
  datatype Request = Request(addr: nat, size: nat)

  ghost function Wanted(r: Request, m: nat): set<nat> {
    ReservedPages(FirstReserved(r.addr), r.addr + r.size, m)
  }

  ghost function AllWanted(rs: seq<Request>, n: nat, m: nat): set<nat>
    requires n <= |rs|
  {
    if n == 0 then {} else AllWanted(rs, n - 1, m) + Wanted(rs[n - 1], m)
  }

  /** Ranges in the pool that share no page. */
  ghost predicate Separated(rs: seq<Request>, m: nat) {
    && (forall i | 0 <= i < |rs| :: FirstReserved(rs[i].addr) >= 0 ==> rs[i].addr + rs[i].size <= AddrOf(Pow2(m)))
    && (forall i | 0 <= i < |rs| :: Wanted(rs[i], m) !! AllWanted(rs, i, m))
  }

  lemma WantedMore(rs: seq<Request>, n: nat, m: nat)
    requires Separated(rs, m) && n < |rs|
    ensures Wanted(rs[n], m) <= UpTo(Pow2(m)) - AllWanted(rs, n, m)
    ensures UpTo(Pow2(m)) - AllWanted(rs, n, m) - Wanted(rs[n], m) == UpTo(Pow2(m)) - AllWanted(rs, n + 1, m)
    ensures Singles(AllWanted(rs, n, m), 0) + Singles(Wanted(rs[n], m), 0) == Singles(AllWanted(rs, n + 1, m), 0)
  {
  }

  /** The table after n requests. */
  ghost function AfterRequests(rs: seq<Request>, n: nat, m: nat): View
    requires n <= |rs|
  {
    var free := UpTo(Pow2(m)) - AllWanted(rs, n, m);
    View(Singles(free, 0), free, {}, Singles(AllWanted(rs, n, m), 0))
  }

  method ReserveNext(pa: PageAllocator, rs: seq<Request>, n: nat)
    requires pa.Booting() && Separated(rs, pa.m) && n < |rs| && pa.v == AfterRequests(rs, n, pa.m)
    modifies pa.Footprint()
    ensures pa.Booting() && pa.v == AfterRequests(rs, n + 1, pa.m)
  {
    WantedMore(rs, n, pa.m);
    pa.MemReserve(rs[n].addr, rs[n].size);
  }

  lemma NoRequests(rs: seq<Request>, m: nat)
    ensures AfterRequests(rs, 0, m) == View(Singles(UpTo(Pow2(m)), 0), UpTo(Pow2(m)), {}, {})
  {
  }

  /** __buddy_init: what was reserved is never free, and the rest is fully coalesced. */
  method InitReserved(m: nat, rs: seq<Request>) returns (pa: PageAllocator)
    requires Separated(rs, m)
    ensures fresh(pa) && pa.m == m && pa.Valid()
    ensures pa.v.free == UpTo(Pow2(m)) - AllWanted(rs, |rs|, m) && pa.v.blocks == Canon(pa.v.free, m)
    ensures pa.v.live == {} && pa.v.reserved == Singles(AllWanted(rs, |rs|, m), 0)
  {
    pa := new PageAllocator(m);
    NoRequests(rs, m);
    for n := 0 to |rs|
      invariant pa.Booting() && fresh(pa.Footprint()) && pa.m == m && pa.v == AfterRequests(rs, n, m)
    {
      ReserveNext(pa, rs, n);
    }
    pa.MergeAll();
  }

  /** A block with n references is kept by n - 1 releases and reclaimed by exactly the n-th. */
  method DropReferences(pa: PageAllocator, p: nat, n: nat, ghost b: Block) returns (results: seq<FreeResult>)
    requires pa.Valid() && b in pa.v.live && First(b) == p && p < pa.cnt.Length && pa.cnt[p] == n
    modifies pa.Footprint()
    ensures |results| == n > 0 && results[n - 1] == Reclaimed && forall i | 0 <= i < n - 1 :: results[i] == Kept
    ensures pa.Valid() && pa.v == ReleasedTo(old(pa.v), b, pa.m) && pa.cnt[p] == 0
  {
    LiveStart(pa, p, b);
    results := [];
    while |results| + 1 < n
      invariant |results| + 1 <= n && (forall i | 0 <= i < |results| :: results[i] == Kept)
      invariant pa.Valid() && pa.v == old(pa.v) && pa.cnt[p] == n - |results| && pa.Freeable(p)
    {
      ghost var c;
      var r;
      r, c := pa.FreePages(AddrOf(p));
      results := results + [r];
      LiveStart(pa, p, b);
    }
    ghost var c;
    var r;
    r, c := pa.FreePages(AddrOf(p));
    results := results + [r];
  }

  lemma LiveStart(pa: PageAllocator, p: nat, b: Block)
    requires pa.Valid() && b in pa.v.live && First(b) == p && p < pa.cnt.Length
    ensures pa.Freeable(p) && pa.cnt[p] >= 1 && p !in pa.v.free
    ensures forall c | c in pa.v.live && First(c) == p :: c == b
  {
    pa.Open();
    FirstIn(b);
    TagsAgree(pa, p, b);
    forall c | (c in pa.v.live || c in pa.v.reserved) && In(p, c) ensures c == b {
      InOf(pa.own, pa.m, c, if c in pa.v.live then Live else Reserved);
      InOf(pa.own, pa.m, b, Live);
      TileFrames(pa.own, pa.m, b, Live);
      TileFrames(pa.own, pa.m, c, if c in pa.v.live then Live else Reserved);
    }
    forall c | c in pa.v.live && First(c) == p ensures c == b {
      FirstIn(c);
    }
    pa.FreeInPool({});
  }
}
