// The frame table of the page allocator on values: a tiling of the 2^m frames by blocks, and how
// the free lists, the frame tags and the reference counts agree with it.
module FrameTable {
  import opened Dyadic
  import opened BlockTree
  import opened BlockBoot
  import opened FreeLists
  import opened Sequences

  datatype Usage = AVAL | USED | F

  /** Pending blocks are being split or merged: neither listed nor handed out. */
  datatype Kind = Free | Live | Reserved | Pending

  datatype Tile = Tile(b: Block, kind: Kind)

  /** own[i] is the tile of frame i. */
  ghost predicate Tiling(own: seq<Tile>, m: nat) {
    && |own| == Pow2(m)
    && (forall i | 0 <= i < |own| :: In(i, own[i].b) && own[i].b.k <= m)
    && (forall i, j: nat {:trigger In(j, own[i].b)} | 0 <= i < |own| && In(j, own[i].b) ::
      j < |own| && own[j] == own[i])
  }

  ghost predicate Has(own: seq<Tile>, b: Block, kind: Kind) {
    First(b) < |own| && own[First(b)] == Tile(b, kind)
  }

  ghost function Of(own: seq<Tile>, kind: Kind): set<Block> {
    set i | 0 <= i < |own| && own[i].kind == kind :: own[i].b
  }

  ghost function PagesOf(own: seq<Tile>, kind: Kind): set<nat> {
    set i: nat | i < |own| && own[i].kind == kind
  }

  /** What clients see: free blocks and pages, and the blocks handed out or reserved. */
  datatype View = View(blocks: set<Block>, free: set<nat>, live: set<Block>, reserved: set<Block>)

  ghost function ViewOf(own: seq<Tile>): View {
    View(Of(own, Free), PagesOf(own, Free), Of(own, Live), Of(own, Reserved))
  }

  /** List k holds exactly the first frames of the free blocks of order k. */
  ghost predicate Listing(lists: seq<seq<int>>, own: seq<Tile>, m: nat) {
    && |lists| == m + 1
    && (forall i | 0 <= i < |own| && own[i].kind == Free && i == First(own[i].b) ::
         own[i].b.k <= m && i in lists[own[i].b.k])
    && (forall k: nat, j | k <= m && 0 <= j < |lists[k]| ::
         var x := lists[k][j]; 0 <= x < |own| && own[x].kind == Free && own[x].b.k == k && x == First(own[x].b))
  }

  ghost predicate FrameOk(i: int, t: Tile, used: Usage, order: int, cnt: int) {
    match t.kind
    case Free => order == t.b.k && used == (if i == First(t.b) then AVAL else F) && cnt == 0
    case Live => order == t.b.k && used == USED && (if i == First(t.b) then cnt >= 1 else cnt == 0)
    case Reserved => order == t.b.k && used == USED && cnt == 0
    case Pending => cnt == 0
  }

  ghost predicate Frames(own: seq<Tile>, used: seq<Usage>, order: seq<int>, cnt: seq<int>) {
    && |used| == |order| == |cnt| == |own|
    && (forall i | 0 <= i < |own| :: FrameOk(i, own[i], used[i], order[i], cnt[i]))
  }

  ghost predicate PendingAre(own: seq<Tile>, pend: set<Block>) {
    && (forall i | 0 <= i < |own| && own[i].kind == Pending :: own[i].b in pend)
    && (forall b | b in pend :: Has(own, b, Pending))
  }

  /** Frames of b become a tile of their own. */
  ghost function Retile(own: seq<Tile>, b: Block, kind: Kind): (r: seq<Tile>)
    ensures |r| == |own|
    ensures forall i | 0 <= i < |own| :: r[i] == if In(i, b) then Tile(b, kind) else own[i]
  {
    seq(|own|, i requires 0 <= i < |own| => if In(i, b) then Tile(b, kind) else own[i])
  }

  // ----- facts about one tile

  lemma TileFrames(own: seq<Tile>, m: nat, b: Block, kind: Kind)
    requires Tiling(own, m) && Has(own, b, kind)
    ensures b.k <= m && First(b) + Pow2(b.k) <= |own|
    ensures forall i: nat :: In(i, b) <==> First(b) <= i < First(b) + Pow2(b.k)
    ensures forall i: nat :: In(i, b) ==> own[i] == Tile(b, kind)
    ensures forall i | 0 <= i < |own| :: own[i].b == b ==> In(i, b)
  {
    FirstIn(b);
    forall i: nat ensures In(i, b) <==> First(b) <= i < First(b) + Pow2(b.k) {
      ShrRange(i, b.q, b.k);
    }
    assert In(First(b) + Pow2(b.k) - 1, own[First(b)].b);
  }

  lemma TileHas(own: seq<Tile>, m: nat, i: nat)
    requires Tiling(own, m) && i < |own|
    ensures Has(own, own[i].b, own[i].kind)
  {
    FirstIn(own[i].b);
  }

  lemma InOf(own: seq<Tile>, m: nat, b: Block, kind: Kind)
    requires Tiling(own, m)
    ensures b in Of(own, kind) <==> Has(own, b, kind)
  {
    if b in Of(own, kind) {
      var i :| 0 <= i < |own| && own[i].kind == kind && own[i].b == b;
      TileHas(own, m, i);
    }
  }

  lemma OfFits(own: seq<Tile>, m: nat, kind: Kind)
    requires Tiling(own, m)
    ensures Fits(Of(own, kind), m)
    ensures Decomposes(Of(own, kind), PagesOf(own, kind))
  {
    forall b | b in Of(own, kind) ensures b.k <= m && b.q < Pow2(m - b.k) {
      InOf(own, m, b, kind);
      TileFrames(own, m, b, kind);
      BlockFits(b.q, b.k, m);
    }
    forall b, c, i: nat | b in Of(own, kind) && c in Of(own, kind) && In(i, b) && In(i, c) ensures b == c {
      InOf(own, m, b, kind);
      InOf(own, m, c, kind);
      TileFrames(own, m, b, kind);
      TileFrames(own, m, c, kind);
    }
    forall i: nat ensures i in PagesOf(own, kind) <==> Covers(Of(own, kind), i) {
      if b :| b in Of(own, kind) && In(i, b) {
        InOf(own, m, b, kind);
        TileFrames(own, m, b, kind);
      }
      if i in PagesOf(own, kind) {
        assert own[i].b in Of(own, kind);
      }
    }
  }

  // ----- changing the kind of a tile

  lemma Recolour(own: seq<Tile>, m: nat, b: Block, kind: Kind, to: Kind)
    requires Tiling(own, m) && Has(own, b, kind)
    ensures Tiling(Retile(own, b, to), m) && Has(Retile(own, b, to), b, to)
    ensures forall c, o :: c != b ==> (Has(Retile(own, b, to), c, o) <==> Has(own, c, o))
  {
    TileFrames(own, m, b, kind);
    FirstIn(b);
    var w := Retile(own, b, to);
    forall i, j: nat | 0 <= i < |w| && In(j, w[i].b) ensures j < |w| && w[j] == w[i] {
      if !In(i, b) {
        assert In(j, own[i].b);
      }
    }
    forall c, o | c != b ensures Has(w, c, o) <==> Has(own, c, o) {
      FirstIn(c);
    }
  }

  // ----- splitting and joining pending tiles

  /** Cutting a union of tiles afresh keeps the tiling. */
  lemma Regroup(own: seq<Tile>, m: nat, b: Block, kind: Kind)
    requires Tiling(own, m) && b.k <= m
    requires forall i: nat | In(i, b) :: i < |own|
    requires forall i, j: nat | 0 <= i < |own| && In(i, b) && In(j, own[i].b) :: In(j, b)
    ensures Tiling(Retile(own, b, kind), m)
  {
  }

  lemma Join(own: seq<Tile>, m: nat, b: Block)
    requires Tiling(own, m) && PendingAre(own, {b, Buddy(b)}) && b.k < m
    ensures Tiling(Retile(own, Parent(b), Pending), m) && PendingAre(Retile(own, Parent(b), Pending), {Parent(b)})
    ensures forall i | 0 <= i < |own| && In(i, Parent(b)) :: own[i].kind == Pending
    ensures First(Parent(b)) < |own|
  {
    var c := Buddy(b);
    assert Has(own, b, Pending) && Has(own, c, Pending);
    TileFrames(own, m, b, Pending);
    TileFrames(own, m, c, Pending);
    FirstIn(Parent(b));
    forall i: nat ensures In(i, Parent(b)) <==> In(i, b) || In(i, c) {
      InParent(i, b);
    }
    forall i: nat | In(i, Parent(b)) ensures i < |own| && own[i].kind == Pending && own[i].b in {b, c} {
    }
    Regroup(own, m, Parent(b), Pending);
  }

  ghost function Cleave(own: seq<Tile>, b: Block): seq<Tile>
    requires b.k > 0
  {
    Retile(Retile(own, Left(b), Pending), Right(b), Pending)
  }

  lemma Split(own: seq<Tile>, m: nat, b: Block)
    requires Tiling(own, m) && PendingAre(own, {b}) && b.k > 0
    ensures Tiling(Cleave(own, b), m) && PendingAre(Cleave(own, b), {Left(b), Right(b)})
    ensures forall i | 0 <= i < |own| && (In(i, Left(b)) || In(i, Right(b))) :: own[i].kind == Pending
    ensures First(Left(b)) == First(b) && First(Right(b)) == First(b) + Pow2(b.k - 1)
  {
    assert Has(own, b, Pending);
    TileFrames(own, m, b, Pending);
    StartHalf(2 * b.q, b.k - 1);
    FirstIn(Left(b));
    FirstIn(Right(b));
    forall i: nat ensures In(i, b) <==> In(i, Left(b)) || In(i, Right(b))
      ensures !(In(i, Left(b)) && In(i, Right(b)))
    {
      InParent(i, Left(b));
    }
    var w := Cleave(own, b);
    forall i, j: nat | 0 <= i < |w| && In(j, w[i].b) ensures j < |w| && w[j] == w[i] {
      if !In(i, b) {
        assert In(j, own[i].b);
      }
    }
  }

  /** Tilings that differ only in how the pending frames are cut look the same from outside. */
  lemma SameView(own: seq<Tile>, w: seq<Tile>)
    requires |w| == |own|
    requires forall i | 0 <= i < |own| :: w[i] == own[i] || (own[i].kind == Pending && w[i].kind == Pending)
    ensures ViewOf(w) == ViewOf(own)
  {
  }

  ghost function DropFree(v: View, b: Block): View {
    v.(blocks := v.blocks - {b}, free := v.free - Pages(b))
  }

  ghost function AddFree(v: View, b: Block): View {
    v.(blocks := v.blocks + {b}, free := v.free + Pages(b))
  }

  lemma DropView(own: seq<Tile>, m: nat, b: Block)
    requires Tiling(own, m) && Has(own, b, Free)
    ensures ViewOf(Retile(own, b, Pending)) == DropFree(ViewOf(own), b)
    ensures Pages(b) <= PagesOf(own, Free)
  {
  }

  lemma HandView(own: seq<Tile>, m: nat, b: Block)
    requires Tiling(own, m) && Has(own, b, Pending)
    ensures var v := ViewOf(own); ViewOf(Retile(own, b, Live)) == v.(live := v.live + {b})
    ensures b !in Of(own, Live)
  {
  }

  lemma TakeView(own: seq<Tile>, m: nat, b: Block)
    requires Tiling(own, m) && Has(own, b, Live)
    ensures var v := ViewOf(own); ViewOf(Retile(own, b, Pending)) == v.(live := v.live - {b})
  {
  }

  lemma ReserveView(own: seq<Tile>, m: nat, b: Block)
    requires Tiling(own, m) && Has(own, b, Pending)
    ensures var v := ViewOf(own); ViewOf(Retile(own, b, Reserved)) == v.(reserved := v.reserved + {b})
  {
  }

  lemma AddView(own: seq<Tile>, m: nat, b: Block)
    requires Tiling(own, m) && Has(own, b, Pending)
    ensures ViewOf(Retile(own, b, Free)) == AddFree(ViewOf(own), b)
  {
  }

  // ----- lists

  lemma ListAdd(lists: seq<seq<int>>, own: seq<Tile>, m: nat, b: Block, kind: Kind)
    requires Tiling(own, m) && Listing(lists, own, m) && Has(own, b, kind) && kind != Free
    ensures b.k <= m && !Listed(lists, First(b))
    ensures Listing(lists[b.k := lists[b.k] + [First(b)]], Retile(own, b, Free), m)
  {
  }

  lemma ListDrop(lists: seq<seq<int>>, own: seq<Tile>, m: nat, b: Block, j: nat, to: Kind)
    requires Tiling(own, m) && Listing(lists, own, m) && Separate(|own|, lists) && Has(own, b, Free) && to != Free
    requires b.k <= m && j < |lists[b.k]| && lists[b.k][j] == First(b)
    ensures Listing(lists[b.k := Without(lists[b.k], j)], Retile(own, b, to), m)
  {
    TileFrames(own, m, b, Free);
    FirstIn(b);
    var t, w := lists[b.k := Without(lists[b.k], j)], Retile(own, b, to);
    forall i | 0 <= i < |w| && w[i].kind == Free && i == First(w[i].b) ensures w[i].b.k <= m && i in t[w[i].b.k] {
      assert !In(i, b);
      ListStays(lists, own, m, b, j, i);
    }
    forall k: nat, n | k <= m && 0 <= n < |t[k]|
      ensures var x := t[k][n]; 0 <= x < |w| && w[x].kind == Free && w[x].b.k == k && x == First(w[x].b)
    {
      var was := if k == b.k && n >= j then n + 1 else n;
      var x := lists[k][was];
      assert t[k][n] == x && 0 <= x < |own| && own[x].kind == Free && x == First(own[x].b) && own[x].b.k == k;
    }
  }

  lemma ListStays(lists: seq<seq<int>>, own: seq<Tile>, m: nat, b: Block, j: nat, i: nat)
    requires Listing(lists, own, m) && i < |own| && own[i].kind == Free && i == First(own[i].b) && i != First(b)
    requires b.k <= m && j < |lists[b.k]| && lists[b.k][j] == First(b)
    ensures own[i].b.k <= m && i in lists[b.k := Without(lists[b.k], j)][own[i].b.k]
  {
  }

  /** Lists do not notice how pending frames are cut. */
  lemma ListKeep(lists: seq<seq<int>>, own: seq<Tile>, w: seq<Tile>, m: nat)
    requires Listing(lists, own, m) && |w| == |own|
    requires forall i | 0 <= i < |own| :: w[i] == own[i] || (own[i].kind != Free && w[i].kind != Free)
    ensures Listing(lists, w, m)
  {
  }

  // ----- both together

  /** The free block b, entry j of its list, becomes pending. */
  lemma Detached(lists: seq<seq<int>>, own: seq<Tile>, m: nat, b: Block, j: nat, pend: set<Block>)
    requires Tiling(own, m) && Listing(lists, own, m) && Separate(|own|, lists) && PendingAre(own, pend)
    requires Has(own, b, Free)
    requires b.k <= m && j < |lists[b.k]| && lists[b.k][j] == First(b)
    ensures var w := Retile(own, b, Pending);
      && Tiling(w, m) && Listing(lists[b.k := Without(lists[b.k], j)], w, m) && PendingAre(w, pend + {b})
      && ViewOf(w) == DropFree(ViewOf(own), b)
    ensures Pages(b) <= PagesOf(own, Free)
  {
    TileFrames(own, m, b, Free);
    ListDrop(lists, own, m, b, j, Pending);
    Recolour(own, m, b, Free, Pending);
    DropView(own, m, b);
  }

  /** The pending block b becomes free and is listed. */
  lemma Attached(lists: seq<seq<int>>, own: seq<Tile>, m: nat, b: Block, pend: set<Block>)
    requires Tiling(own, m) && Listing(lists, own, m) && PendingAre(own, pend + {b}) && b !in pend
    ensures b.k <= m && !Listed(lists, First(b)) && First(b) < |own|
    ensures var w := Retile(own, b, Free);
      && Tiling(w, m) && Listing(lists[b.k := lists[b.k] + [First(b)]], w, m) && PendingAre(w, pend)
      && ViewOf(w) == AddFree(ViewOf(own), b)
  {
    assert b in pend + {b};
    assert Has(own, b, Pending);
    TileFrames(own, m, b, Pending);
    ListAdd(lists, own, m, b, Pending);
    Recolour(own, m, b, Pending, Free);
    AddView(own, m, b);
  }

  /** The place of a free block on its list. */
  lemma ListedAt(lists: seq<seq<int>>, own: seq<Tile>, m: nat, b: Block) returns (j: nat)
    requires Tiling(own, m) && Listing(lists, own, m) && Has(own, b, Free)
    ensures b.k <= m && j < |lists[b.k]| && lists[b.k][j] == First(b)
  {
    TileFrames(own, m, b, Free);
    j :| 0 <= j < |lists[b.k]| && lists[b.k][j] == First(b);
  }

  // ----- tag tests

  lemma AvailMeansFree(own: seq<Tile>, used: seq<Usage>, order: seq<int>, cnt: seq<int>, i: nat)
    requires Frames(own, used, order, cnt) && i < |own| && own[i].kind != Pending
    ensures used[i] == AVAL <==> own[i].kind == Free && i == First(own[i].b)
    ensures used[i] == AVAL ==> order[i] == own[i].b.k
  {
  }

  /** A block of the table below the top order has its buddy in the table, apart from it. */
  lemma BuddyInTable(own: seq<Tile>, m: nat, b: Block, kind: Kind)
    requires Tiling(own, m) && Has(own, b, kind) && b.k < m
    ensures First(Buddy(b)) < |own| && !In(First(Buddy(b)), b)
  {
    TileFrames(own, m, b, kind);
    BlockFits(b.q, b.k, m);
    SiblingFits(b.q, m - b.k);
    BlockFits(Buddy(b).q, b.k, m);
    FirstIn(Buddy(b));
    InParent(First(Buddy(b)), b);
  }

  lemma SiblingFits(q: nat, d: nat)
    requires q < Pow2(d) && d > 0
    ensures Sibling(q) < Pow2(d)
  {
    assert Pow2(d) == 2 * Pow2(d - 1);
  }

  /** The tag test of merge_page finds exactly the free buddies. */
  lemma BuddyTest(own: seq<Tile>, used: seq<Usage>, order: seq<int>, cnt: seq<int>, m: nat, b: Block)
    requires Tiling(own, m) && Frames(own, used, order, cnt) && PendingAre(own, {b}) && b.k < m
    ensures First(Buddy(b)) < |own|
    ensures used[First(Buddy(b))] == AVAL && order[First(Buddy(b))] == b.k <==> Buddy(b) in Of(own, Free)
  {
    var c := Buddy(b);
    assert Has(own, b, Pending);
    BuddyInTable(own, m, b, Pending);
    AvailMeansFree(own, used, order, cnt, First(c));
    InOf(own, m, c, Free);
    var d := own[First(c)].b;
    if First(d) == First(c) && d.k == b.k {
      ShrStart(d.q, d.k);
      ShrStart(c.q, c.k);
    }
  }

  /** The tag test of the boot loop finds exactly the listed single frames. */
  lemma SingleTest(own: seq<Tile>, used: seq<Usage>, order: seq<int>, cnt: seq<int>, m: nat, i: nat)
    requires Tiling(own, m) && Frames(own, used, order, cnt) && PendingAre(own, {}) && i < |own|
    ensures order[i] == 0 && used[i] == AVAL <==> Block(i, 0) in Of(own, Free)
  {
  }

  // ----- the initial table

  ghost function Singleton(m: nat): seq<Tile> {
    seq(Pow2(m), i requires 0 <= i < Pow2(m) => Tile(Block(i, 0), Free))
  }

  lemma InitialTable(used: seq<Usage>, order: seq<int>, cnt: seq<int>, lists: seq<seq<int>>, m: nat)
    requires |used| == |order| == |cnt| == Pow2(m)
    requires forall i | 0 <= i < Pow2(m) :: used[i] == AVAL && order[i] == cnt[i] == 0
    requires |lists| == m + 1 && |lists[0]| == Pow2(m)
    requires forall i | 0 <= i < Pow2(m) :: lists[0][i] == i
    requires forall k :: 0 < k <= m ==> lists[k] == []
    ensures Listing(lists, Singleton(m), m) && Tiling(Singleton(m), m)
    ensures Frames(Singleton(m), used, order, cnt) && PendingAre(Singleton(m), {})
    ensures ViewOf(Singleton(m)) == View(Singles(UpTo(Pow2(m)), 0), UpTo(Pow2(m)), {}, {})
  {
    var own := Singleton(m);
    forall b ensures b in Of(own, Free) <==> b in Singles(UpTo(Pow2(m)), 0) {
      if b in Singles(UpTo(Pow2(m)), 0) {
        assert own[b.q].b == b;
      }
    }
    forall i | 0 <= i < |own| ensures i in lists[0] {
      assert lists[0][i] == i;
    }
  }
}
