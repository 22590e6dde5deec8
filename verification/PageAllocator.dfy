// The page allocator of src/mm.c: frame tags, free lists and reference counts updated in place.
module PageAllocator {
  import opened Dyadic
  import opened BlockTree
  import opened BlockOps
  import opened BlockBoot
  import opened FreeLists
  import opened FrameTable
  import opened Machine

  datatype FreeResult = Kept | Reclaimed | Hung

  class PageAllocator {
    const m: nat
    const fl: FreeLists
    const used: array<Usage>
    const order: array<int>
    const cnt: array<int>
    const mem: array<Page>
    ghost var own: seq<Tile>
    ghost var v: View

    ghost function Footprint(): set<object> {
      {this, fl, fl.next, fl.prev, fl.pgFree, used, order, cnt}
    }

    ghost predicate Apart() {
      && order != cnt && order !in {fl.next, fl.prev, fl.pgFree} && cnt !in {fl.next, fl.prev, fl.pgFree}
      && mem as object !in Footprint() && mem.Length == Pow2(m)
      && fl.pages == Pow2(m) && fl.orders == m + 1
    }

    /** The invariant while the blocks in pend are on their way in or out. */
    ghost predicate Rep(pend: set<Block>)
      reads Footprint()
    {
      && Apart() && fl.Valid() && v == ViewOf(own)
      && Tiling(own, m) && PendingAre(own, pend)
      && Listing(fl.lists, own, m)
      && Frames(own, used[..], order[..], cnt[..])
    }

    /** buddy_init up to its merge loop: every frame is a free block of its own. */
    constructor (m: nat)
      ensures this.m == m && Rep({})
      ensures v == View(Singles(UpTo(Pow2(m)), 0), UpTo(Pow2(m)), {}, {})
      ensures fresh(fl) && fresh(fl.next) && fresh(fl.prev) && fresh(fl.pgFree)
      ensures fresh(used) && fresh(order) && fresh(cnt) && fresh(mem)
    {
      this.m := m;
      fl := new FreeLists(Pow2(m), m + 1);
      used := new Usage[Pow2(m)](_ => AVAL);
      order := new int[Pow2(m)](_ => 0);
      cnt := new int[Pow2(m)](_ => 0);
      mem := new Page[Pow2(m)];
      new;
      fl.InsertAll();
      own := Singleton(m);
      v := ViewOf(own);
      InitialTable(used[..], order[..], cnt[..], fl.lists, m);
    }

    method Fill(from: nat, count: nat, ord: int, u: Usage)
      requires from + count <= used.Length == order.Length
      modifies used, order
      ensures forall i | 0 <= i < used.Length ::
        used[i] == if from <= i < from + count then u else old(used[i])
      ensures forall i | 0 <= i < order.Length ::
        order[i] == if from <= i < from + count then ord else old(order[i])
    {
      for n := 0 to count
        invariant forall i | 0 <= i < used.Length ::
          used[i] == if from <= i < from + n then u else old(used[i])
        invariant forall i | 0 <= i < order.Length ::
          order[i] == if from <= i < from + n then ord else old(order[i])
      {
        order[from + n] := ord;
        used[from + n] := u;
      }
    }

    // ----- freeing

    /** Take the free block b off its list. */
    method Detach(x: nat, ghost b: Block, ghost pend: set<Block>)
      requires Rep(pend) && b in v.blocks && x == First(b)
      modifies Footprint()
      ensures Rep(pend + {b}) && v == DropFree(old(v), b) && Pages(b) <= old(v.free)
      ensures used[..] == old(used[..]) && order[..] == old(order[..]) && cnt[..] == old(cnt[..])
      ensures x < order.Length && order[x] == b.k
    {
      InOf(own, m, b, Free);
      ghost var j := ListedAt(fl.lists, own, m, b);
      Detached(fl.lists, own, m, b, j, pend);
      fl.Remove(order[x], x, j);
      own := Retile(own, b, Pending);
      v := ViewOf(own);
    }

    /** Put the pending block b, already tagged as free, on its list. */
    method Attach(x: nat, ghost b: Block, ghost pend: set<Block>)
      requires Rep(pend + {b}) && b !in pend && x == First(b) && x < order.Length && order[x] == b.k
      requires forall i: nat | i < used.Length && In(i, b) :: FrameOk(i, Tile(b, Free), used[i], order[i], cnt[i])
      modifies Footprint()
      ensures Rep(pend) && v == AddFree(old(v), b)
      ensures used[..] == old(used[..]) && order[..] == old(order[..]) && cnt[..] == old(cnt[..])
    {
      Attached(fl.lists, own, m, b, pend);
      fl.Insert(order[x], x);
      own := Retile(own, b, Free);
      v := ViewOf(own);
    }

    /** p->order++ on the first frame of two buddies that are both off the lists. */
    method Raise(p: nat, ghost b: Block)
      requires Rep({b, Buddy(b)}) && b.k < m && p == First(Parent(b)) && p < order.Length && order[p] == b.k
      modifies Footprint()
      ensures Rep({Parent(b)}) && order[p] == b.k + 1 && v == old(v)
      ensures cnt[..] == old(cnt[..])
    {
      Join(own, m, b);
      FirstIn(Parent(b));
      ListKeep(fl.lists, own, Retile(own, Parent(b), Pending), m);
      SameView(own, Retile(own, Parent(b), Pending));
      own := Retile(own, Parent(b), Pending);
      order[p] := order[p] + 1;
    }

    /** Tag the pending block as free and list it. */
    method Settle(p: nat, ghost b: Block)
      requires Rep({b}) && p == First(b) && p < order.Length && order[p] == b.k
      modifies Footprint()
      ensures Rep({}) && v == AddFree(old(v), b)
      ensures cnt[..] == old(cnt[..])
    {
      assert Has(own, b, Pending);
      TileFrames(own, m, b, Pending);
      used[p] := AVAL;
      Fill(p + 1, Pow2(order[p]) - 1, order[p], F);
      assert {} + {b} == {b};
      Attach(p, b, {});
    }

    lemma TestBuddy(b: Block)
      requires Rep({b}) && b.k < m
      ensures First(Buddy(b)) < used.Length
      ensures used[First(Buddy(b))] == AVAL && order[First(Buddy(b))] == b.k <==> Buddy(b) in v.blocks
    {
      BuddyTest(own, used[..], order[..], cnt[..], m, b);
    }

    /** The buddy of the pending block is taken off its list, and the lower of the two first frames stands for both. */
    method Unite(p: nat, bud: nat, ghost b: Block) returns (q: nat)
      requires Rep({b}) && b.k < m && p == First(b) && bud == First(Buddy(b)) && Buddy(b) in v.blocks
      requires p < order.Length && order[p] == b.k
      modifies Footprint()
      ensures Rep({Parent(b)}) && q == First(Parent(b)) && q < order.Length && order[q] == b.k + 1
      ensures v == DropFree(old(v), Buddy(b)) && Pages(Buddy(b)) <= old(v.free) && cnt[..] == old(cnt[..])
    {
      Detach(bud, Buddy(b), {b});
      assert {b} + {Buddy(b)} == {b, Buddy(b)};
      StartHalf(b.q, b.k);
      q := if bud > p then p else bud;
      Raise(q, b);
    }

    /** merge_page: as long as the buddy is a free block of the same order, both become one block. */
    method MergePage(p: nat, ghost b: Block)
      requires Rep({b}) && p == First(b) && p < order.Length && order[p] == b.k
      modifies Footprint()
      ensures Rep({})
      ensures v == old(v).(blocks := Merge(old(v).blocks, b, m), free := old(v).free + Pages(b))
      ensures cnt[..] == old(cnt[..])
      decreases m - b.k
    {
      var bud := Xor(p, Pow2(order[p]));
      XorIsSibling(b.q, b.k);
      if order[p] < m {
        TestBuddy(b);
      }
      if order[p] < m && used[bud] == AVAL && order[bud] == order[p] {
        var q := Unite(p, bud, b);
        MergeFree(old(v).free, b);
        MergePage(q, Parent(b));
      } else {
        Settle(p, b);
      }
    }

    // ----- boot

    ghost predicate Booting()
      reads Footprint()
    {
      Rep({}) && v.blocks == Singles(v.free, 0) && v.live == {}
    }

    /** After boot the free blocks are the canonical decomposition of the free pages. */
    ghost predicate Ready()
      reads Footprint()
    {
      Rep({}) && v.blocks == Canon(v.free, m)
    }

    /** Ready, wrapped so that proofs about clients, which only pass it on, do not open it. */
    ghost predicate Sealed(layers: nat)
      reads Footprint()
    {
      if layers == 0 then Ready() else Sealed(layers - 1)
    }

    lemma {:induction false} Unseal(layers: nat)
      ensures Sealed(layers) <==> Ready()
    {
      if layers > 0 {
        Unseal(layers - 1);
      }
    }

    /** The invariant for clients. */
    ghost predicate Valid()
      reads Footprint()
      ensures Valid() ==> cnt.Length == mem.Length == Pow2(m) && mem as object !in Footprint()
    {
      Unseal(4);
      Sealed(4)
    }

    lemma Open()
      ensures Valid() <==> Ready()
    {
      Unseal(4);
    }

    lemma FreeInPool(pend: set<Block>)
      requires Rep(pend)
      ensures InPool(v.free, m)
      ensures forall f, b :: f in v.free && (b in v.live || b in v.reserved) ==> !In(f, b)
    {
    }

    lemma TestSingle(i: nat)
      requires Rep({}) && i < Pow2(m)
      ensures i < used.Length == order.Length
      ensures order[i] == 0 && used[i] == AVAL <==> Block(i, 0) in v.blocks
    {
    }

    /** mem_reserve on one frame: it leaves list 0 and is tagged as used. */
    method ReserveFrame(i: nat)
      requires Booting() && i in v.free
      modifies Footprint()
      ensures Booting() && i < Pow2(m)
      ensures v == View(Singles(v.free, 0), old(v.free) - {i}, {}, old(v.reserved) + {Block(i, 0)})
    {
      ghost var b := Block(i, 0);
      FreeInPool({});
      SinglePages(i);
      Detach(i, b, {});
      assert {} + {b} == {b};
      assert Has(own, b, Pending);
      TileFrames(own, m, b, Pending);
      Recolour(own, m, b, Pending, Reserved);
      ReserveView(own, m, b);
      ListKeep(fl.lists, own, Retile(own, b, Reserved), m);
      used[i] := USED;
      own := Retile(own, b, Reserved);
      v := ViewOf(own);
      assert v.blocks == Singles(v.free, 0);
    }

    /** One turn of the loop of mem_reserve, the frames in done being reserved already. */
    method ReserveNext(i: nat, ghost w: View, ghost done: set<nat>)
      requires Booting() && v == Withheld(w, done) && i in w.free && i !in done
      modifies Footprint()
      ensures Booting() && v == Withheld(w, done + {i})
    {
      ReserveFrame(i);
      WithholdOne(w, done, i);
    }

    /** The loop of mem_reserve. */
    method ReserveFrom(id: nat, end: int)
      requires Booting() && ReservedPages(id, end, m) <= v.free && end <= AddrOf(Pow2(m))
      modifies Footprint()
      ensures Booting() && v == Withheld(old(v), ReservedPages(id, end, m))
    {
      ghost var w, all := v, ReservedPages(id, end, m);
      NothingReserved(w);
      ghost var done := {};
      var i := id;
      while AddrOf(i) < end
        invariant id <= i && Booting() && v == Withheld(w, done)
        invariant done == set j | j in all && j < i
        decreases end - AddrOf(i)
      {
        assert i in all;
        ReserveNext(i, w, done);
        done := done + {i};
        i := i + 1;
      }
      assert done == all;
    }

    /** mem_reserve, on a range whose frames are all still free. */
    method MemReserve(addr: int, size: int)
      requires Booting() && 0 <= addr && 0 <= size
      requires FirstReserved(addr) >= 0 ==> addr + size <= AddrOf(Pow2(m))
      requires ReservedPages(FirstReserved(addr), addr + size, m) <= v.free
      modifies Footprint()
      ensures Booting() && v == Withheld(old(v), ReservedPages(FirstReserved(addr), addr + size, m))
    {
      var id := FirstReserved(addr);
      if id < 0 {
        assert ReservedPages(id, addr + size, m) == {};
        NothingReserved(v);
        return;
      }
      ReserveFrom(id, addr + size);
    }

    /** One turn of the merge loop. */
    method MergeFrame(i: nat)
      requires Rep({}) && i < Pow2(m)
      modifies Footprint()
      ensures Rep({}) && v == old(v).(blocks := Turn(old(v).blocks, i, m))
    {
      TestSingle(i);
      if order[i] != 0 || used[i] != AVAL {
        return;
      }
      Detach(i, Block(i, 0), {});
      assert {} + {Block(i, 0)} == {Block(i, 0)};
      MergePage(i, Block(i, 0));
      assert v.free == old(v).free;
    }

    /** The merge loop of buddy_init and __buddy_init. */
    method MergeAll()
      requires Booting()
      modifies Footprint()
      ensures Valid() && v.blocks == Canon(v.free, m) && v == old(v).(blocks := v.blocks)
    {
      ghost var w := v;
      assert InPool(w.free, m) by { FreeInPool({}); }
      assert v.blocks == BootBlocks(w.free, RoundEven(0), m) by { BootBegin(w.free, m); }
      for i := 0 to Pow2(m)
        invariant Rep({}) && v == w.(blocks := BootBlocks(w.free, RoundEven(i), m))
      {
        MergeFrame(i);
        assert v.blocks == BootBlocks(w.free, RoundEven(i + 1), m) by { BootIteration(w.free, i, m); }
      }
      assert v.blocks == Canon(w.free, m) by { BootDone(w.free, RoundEven(Pow2(m)), m); }
      Open();
    }

    // ----- allocation

    /** From here on the pending block counts as two pending halves. */
    ghost method Halve(b: Block)
      requires Rep({b}) && b.k > 0
      modifies this
      ensures Rep({Left(b), Right(b)}) && v == old(v)
      ensures Has(own, Right(b), Pending) && Has(own, Left(b), Pending)
      ensures First(Left(b)) == First(b) && First(Right(b)) == First(b) + Pow2(b.k - 1)
    {
      Split(own, m, b);
      ListKeep(fl.lists, own, Cleave(own, b), m);
      SameView(own, Cleave(own, b));
      own := Cleave(own, b);
    }

    /** Tag the pending block b as free, order included. */
    method TagFree(second: nat, prev: nat, ghost b: Block, ghost pend: set<Block>)
      requires Rep(pend) && b in pend && second == First(b) && prev == b.k
      modifies used, order
      ensures Rep(pend) && second < order.Length && order[second] == prev
      ensures forall i: nat | i < used.Length && In(i, b) :: FrameOk(i, Tile(b, Free), used[i], order[i], cnt[i])
      ensures forall i: nat | i < order.Length && !In(i, b) :: order[i] == old(order[i])
    {
      assert Has(own, b, Pending);
      TileFrames(own, m, b, Pending);
      used[second] := AVAL;
      order[second] := prev;
      Fill(second + 1, Pow2(prev) - 1, prev, F);
    }

    /** Tag the right half of the pending block as free. */
    method SplitOff(pf: nat, second: nat, prev: nat, ghost b: Block)
      requires Rep({b}) && b.k > 0 && prev == b.k - 1 && pf == First(b) && second == pf + Pow2(prev)
      modifies Footprint()
      ensures Rep({Left(b), Right(b)}) && v == old(v) && cnt[..] == old(cnt[..])
      ensures second == First(Right(b)) && second < order.Length && order[second] == prev
      ensures pf == First(Left(b)) && pf < order.Length && order[pf] == old(order[pf])
      ensures forall i: nat | i < used.Length && In(i, Right(b)) ::
        FrameOk(i, Tile(Right(b), Free), used[i], order[i], cnt[i])
    {
      Halve(b);
      FirstIn(Left(b));
      LeftRight(b, First(Left(b)));
      TagFree(second, prev, Right(b), {Left(b), Right(b)});
    }

    /** pf->order-- on the first frame of the pending left half. */
    method Lower(pf: nat, ghost b: Block)
      requires Rep({b}) && pf == First(b) && pf < order.Length && order[pf] == b.k + 1
      modifies Footprint()
      ensures Rep({b}) && order[pf] == b.k && v == old(v) && cnt[..] == old(cnt[..])
    {
      assert Has(own, b, Pending);
      order[pf] := order[pf] - 1;
    }

    /** Tag all frames of the pending block as used. */
    method Grant(pf: nat, ghost b: Block)
      requires Rep({b}) && pf == First(b) && pf < order.Length && order[pf] == b.k
      modifies Footprint()
      ensures Rep({b}) && v == old(v) && cnt[..] == old(cnt[..])
      ensures forall i: nat | i < used.Length && In(i, b) :: used[i] == USED && order[i] == b.k
    {
      assert Has(own, b, Pending);
      TileFrames(own, m, b, Pending);
      used[pf] := USED;
      Fill(pf + 1, Pow2(order[pf]) - 1, order[pf], USED);
    }

    /** release_redundant_block: cut the pending block down to the target order. */
    method Release(pf: nat, target: nat, ghost b: Block) returns (r: nat)
      requires Rep({b}) && pf == First(b) && pf < order.Length && order[pf] == b.k && target <= b.k
      modifies Footprint()
      ensures Rep({Cut(b, target)}) && r == First(b) == First(Cut(b, target))
      ensures v == old(v).(blocks := old(v).blocks + Rest(b, target),
                           free := old(v).free + (Pages(b) - Pages(Cut(b, target))))
      ensures cnt[..] == old(cnt[..])
      ensures forall i: nat | i < used.Length && In(i, Cut(b, target)) :: used[i] == USED && order[i] == target
      decreases b.k
    {
      if order[pf] > target {
        var prev := order[pf] - 1;
        var second := pf + Pow2(prev);
        SplitOff(pf, second, prev, b);
        assert {Left(b)} + {Right(b)} == {Left(b), Right(b)};
        Attach(second, Right(b), {Left(b)});
        Lower(pf, Left(b));
        r := Release(pf, target, Left(b));
        RestStep(old(v).blocks, old(v).free, b, target);
      } else {
        Grant(pf, b);
        r := pf;
        assert v.blocks == old(v).blocks + Rest(b, target);
        assert v.free == old(v).free + (Pages(b) - Pages(b));
      }
    }

    /** get_pageframe: the walk along list k to the first frame tagged AVAL. */
    method FirstAvailable(k: nat) returns (tmp: nat, ghost j: nat)
      requires fl.Valid() && k < fl.orders && used.Length == fl.pages
      requires exists i :: 0 <= i < |fl.lists[k]| && used[fl.lists[k][i]] == AVAL
      ensures j < |fl.lists[k]| && tmp == fl.lists[k][j] && tmp < used.Length && used[tmp] == AVAL
      ensures forall i :: 0 <= i < j ==> used[fl.lists[k][i]] != AVAL
    {
      ghost var s := fl.lists[k];
      ghost var i :| 0 <= i < |s| && used[s[i]] == AVAL;
      RingStep(fl.next[..], fl.prev[..], fl.pages + k, s, 0);
      j := 0;
      tmp := fl.next[fl.pages + k];
      while used[tmp] != AVAL
        invariant 0 <= j <= i && tmp == s[j]
        invariant forall n :: 0 <= n < j ==> used[s[n]] != AVAL
        decreases i - j
      {
        RingStep(fl.next[..], fl.prev[..], fl.pages + k, s, j + 1);
        tmp := fl.next[tmp];
        j := j + 1;
      }
    }

    lemma HeadOfList(k: nat)
      requires Rep({}) && k <= m
      ensures fl.lists[k] == [] ==> forall b :: b in v.blocks ==> b.k != k
      ensures fl.lists[k] != [] ==> exists b :: b in v.blocks && b.k == k && First(b) == fl.lists[k][0]
      ensures forall i :: 0 <= i < |fl.lists[k]| ==> fl.lists[k][i] < used.Length && used[fl.lists[k][i]] == AVAL
    {
      forall b | b in v.blocks && b.k == k ensures First(b) in fl.lists[k] {
        InOf(own, m, b, Free);
      }
      forall i | 0 <= i < |fl.lists[k]| ensures fl.lists[k][i] < used.Length && used[fl.lists[k][i]] == AVAL {
        assert FrameOk(fl.lists[k][i], own[fl.lists[k][i]], used[fl.lists[k][i]], order[fl.lists[k][i]],
          cnt[fl.lists[k][i]]);
      }
      if fl.lists[k] != [] {
        var x := fl.lists[k][0];
        assert own[x].b in v.blocks;
      }
    }

    /** get_pageframe: take the first block of list k and cut it down; the rest goes back on the lists. */
    method GetPageframe(k: nat, target: nat) returns (r: nat, ghost b: Block)
      requires Rep({}) && target <= k <= m && fl.lists[k] != []
      modifies Footprint()
      ensures b in old(v.blocks) && b.k == k && First(b) == old(fl.lists[k][0])
      ensures Rep({Cut(b, target)}) && r == First(b) == First(Cut(b, target))
      ensures v == old(v).(blocks := old(v).blocks - {b} + Rest(b, target),
                           free := old(v).free - Pages(Cut(b, target)))
      ensures Pages(Cut(b, target)) <= old(v.free)
      ensures cnt[..] == old(cnt[..])
      ensures forall i: nat | i < used.Length && In(i, Cut(b, target)) :: used[i] == USED && order[i] == target
    {
      HeadOfList(k);
      var tmp, j := FirstAvailable(k);
      b :| b in v.blocks && b.k == k && First(b) == fl.lists[k][0];
      Detach(tmp, b, {});
      assert {} + {b} == {b};
      r := Release(tmp, target, b);
      CutInside(b, target);
      assert old(v.free) - Pages(b) + (Pages(b) - Pages(Cut(b, target))) == old(v.free) - Pages(Cut(b, target));
    }

    /** The pending block, tagged as used, gets its first reference. */
    method Hand(r: nat, ghost c: Block)
      requires Rep({c}) && r == First(c) && r < cnt.Length
      requires forall i: nat | i < used.Length && In(i, c) :: used[i] == USED && order[i] == c.k
      modifies Footprint()
      ensures Rep({}) && v == old(v).(live := old(v).live + {c})
      ensures cnt[..] == old(cnt[..])[r := 1] && c !in old(v.live)
    {
      assert Has(own, c, Pending);
      FirstIn(c);
      TileFrames(own, m, c, Pending);
      Recolour(own, m, c, Pending, Live);
      HandView(own, m, c);
      ListKeep(fl.lists, own, Retile(own, c, Live), m);
      cnt[r] := cnt[r] + 1;
      own := Retile(own, c, Live);
      v := ViewOf(own);
    }

    /** memset of whole pages to zero. */
    method ZeroPages(f: nat, n: nat)
      requires f + n <= mem.Length
      modifies mem
      ensures forall i :: 0 <= i < mem.Length ==> mem[i] == if f <= i < f + n then ZeroPage() else old(mem[i])
    {
      for j := 0 to n
        invariant forall i :: 0 <= i < mem.Length ==> mem[i] == if f <= i < f + j then ZeroPage() else old(mem[i])
      {
        mem[f + j] := ZeroPage();
      }
    }

    /** The first block of list k, cut down to the wanted order; the rest is canonical again. */
    method TakeBlock(k: nat, ord: nat) returns (r: nat, ghost b: Block, ghost c: Block)
      requires Ready() && ord <= k <= m && fl.lists[k] != []
      modifies Footprint()
      ensures b in old(v.blocks) && b.k == k && c == Cut(b, ord) && Pages(c) <= old(v.free)
      ensures v == View(old(v).blocks - {b} + Rest(b, ord), old(v).free - Pages(c), old(v).live, old(v).reserved)
      ensures Rep({c}) && v.blocks == Canon(v.free, m) && cnt[..] == old(cnt[..])
      ensures r == First(c) && r < cnt.Length && cnt[r] == 0
      ensures forall i: nat | i < used.Length && In(i, c) :: used[i] == USED && order[i] == c.k
    {
      FreeInPool({});
      r, b := GetPageframe(k, ord);
      c := Cut(b, ord);
      assert v.blocks == Canon(v.free, m) by { SplitCanon(old(v.free), b, ord, m); }
      assert Has(own, c, Pending);
    }

    /** The pending block, tagged as used, is given its first reference and zeroed. */
    method Deliver(r: nat, n: nat, ghost c: Block)
      requires Rep({c}) && r == First(c) && r < cnt.Length && n == Pow2(c.k)
      requires forall i: nat | i < used.Length && In(i, c) :: used[i] == USED && order[i] == c.k
      modifies Footprint(), mem
      ensures Rep({}) && v == old(v).(live := old(v).live + {c})
      ensures cnt[..] == old(cnt[..])[r := 1] && c !in old(v.live)
      ensures forall i: nat :: i < mem.Length ==> mem[i] == if In(i, c) then ZeroPage() else old(mem[i])
    {
      assert Has(own, c, Pending);
      TileFrames(own, m, c, Pending);
      ZeroPages(r, n);
      Hand(r, c);
    }

    /** The body of alloc_pages once a non-empty list k has been found. */
    method Serve(k: nat, ord: nat) returns (ret: int, ghost b: Block, ghost c: Block)
      requires Ready() && ord <= k <= m && fl.lists[k] != []
      requires forall d :: d in v.blocks && d.k >= ord ==> d.k >= k
      modifies Footprint(), mem
      ensures Ready() && Granted(old(v), v, b, c, ord)
      ensures ret == AddrOf(First(c)) && First(c) < cnt.Length
      ensures old(cnt[First(c)]) == 0 && cnt[..] == old(cnt[..])[First(c) := 1]
      ensures forall i: nat :: i < mem.Length ==> mem[i] == if In(i, c) then ZeroPage() else old(mem[i])
    {
      var r;
      r, b, c := TakeBlock(k, ord);
      Deliver(r, Pow2(ord), c);
      ret := AddrOf(r);
    }

    /** The loop of alloc_pages: the smallest order from ord on with a non-empty list, or m + 1. */
    method FirstNonEmpty(ord: nat) returns (i: nat)
      requires Ready() && ord <= m
      ensures ord <= i <= m + 1
      ensures i <= m ==> fl.lists[i] != [] && forall d :: d in v.blocks && d.k >= ord ==> d.k >= i
      ensures i <= m <==> exists d: Block :: d.k == ord && Full(v.free, d)
    {
      i := ord;
      while i <= m && fl.pgFree[i] == 0
        invariant ord <= i <= m + 1
        invariant forall d :: d in v.blocks && d.k >= ord ==> d.k >= i
      {
        HeadOfList(i);
        i := i + 1;
      }
      FreeInPool({});
      Complete(v.free, m, ord);
      CanonDecomposes(v.free, m);
      if i <= m {
        HeadOfList(i);
      }
    }

    /** alloc_pages. Ghost b is the free block that was taken and c the part of it handed out. */
    method AllocPages(ord: nat) returns (ret: Option<int>, ghost b: Block, ghost c: Block)
      requires Valid()
      modifies Footprint(), mem
      ensures Valid()
      ensures ret.None? <==> ord > m || !exists d: Block :: d.k == ord && Full(old(v.free), d)
      ensures ret.None? ==> v == old(v) && cnt[..] == old(cnt[..]) && mem[..] == old(mem[..])
      ensures ret.Some? ==> Granted(old(v), v, b, c, ord)
      ensures ret.Some? ==> ret.value == AddrOf(First(c)) && First(c) < cnt.Length
      ensures ret.Some? ==> old(cnt[First(c)]) == 0 && cnt[..] == old(cnt[..])[First(c) := 1]
      ensures ret.Some? ==> forall i: nat :: i < mem.Length ==> mem[i] == if In(i, c) then ZeroPage() else old(mem[i])
    {
      b, c := Block(0, 0), Block(0, 0);
      if ord > m {
        return None, b, c;
      }
      Open();
      var i := FirstNonEmpty(ord);
      if i <= m {
        var a;
        a, b, c := Serve(i, ord);
        Open();
        return Some(a), b, c;
      }
      return None, b, c;
    }

    /** alloc_pages(0), with the address it returns given as a frame number. */
    method AllocPage() returns (ret: Option<nat>)
      requires Valid()
      modifies Footprint(), mem
      ensures Valid()
      ensures ret.None? <==> old(v.free) == {}
      ensures ret.None? ==> v == old(v) && cnt[..] == old(cnt[..]) && mem[..] == old(mem[..])
      ensures ret.Some? ==> OneGranted(old(v), v, ret.value) && ret.value < cnt.Length
      ensures ret.Some? ==> cnt[..] == old(cnt[..])[ret.value := 1]
      ensures ret.Some? ==> mem[..] == old(mem[..])[ret.value := ZeroPage()]
      ensures ret.Some? ==> forall b :: b in old(v.live) ==> !In(ret.value, b)
    {
      assert forall f, b :: f in v.free && b in v.live ==> !In(f, b) by { Open(); FreeInPool({}); }
      SinglePage(v.free);
      ghost var b, c;
      var a;
      a, b, c := AllocPages(0);
      if a.None? {
        return None;
      }
      OnePage(old(v), v, b, c);
      assert FrameOf(a.value) == First(c);
      assert mem[..] == old(mem[..])[First(c) := ZeroPage()];
      ret := Some(FrameOf(a.value));
    }

    /** page_frame[f].reference_cnt++ on a live frame. */
    method AddRef(f: nat)
      requires Valid() && Block(f, 0) in v.live
      modifies Footprint()
      ensures Valid() && v == old(v) && f < cnt.Length && cnt[..] == old(cnt[..])[f := old(cnt[f]) + 1]
    {
      Open();
      InOf(own, m, Block(f, 0), Live);
      cnt[f] := cnt[f] + 1;
      Open();
    }

    /** page->reference_cnt-- on a live frame with references to spare. */
    method DropRef(f: nat)
      requires Valid() && Block(f, 0) in v.live && f < cnt.Length && cnt[f] > 1
      modifies Footprint()
      ensures Valid() && v == old(v) && cnt[..] == old(cnt[..])[f := old(cnt[f]) - 1]
    {
      Open();
      InOf(own, m, Block(f, 0), Live);
      cnt[f] := cnt[f] - 1;
      Open();
    }

    // ----- release

    /** The frame may be passed to free_pages: it starts a live block or lies in a free one. */
    ghost predicate Freeable(p: nat)
      reads this
    {
      && p < Pow2(m)
      && forall b :: (b in v.live || b in v.reserved) && In(p, b) ==> b in v.live && p == First(b)
    }

    lemma FrameCases(p: nat)
      requires Rep({}) && Freeable(p)
      ensures p < used.Length == order.Length == cnt.Length
      ensures p in v.free <==> used[p] != USED
      ensures p in v.free ==> cnt[p] == 0
      ensures p !in v.free ==> own[p].kind == Live && own[p].b in v.live && p == First(own[p].b) && cnt[p] >= 1
    {
    }

    /** The live block b with its last reference gone leaves the set of live blocks. */
    ghost method Take(b: Block)
      requires Tiling(own, m) && Has(own, b, Live) && First(b) < cnt.Length && cnt[First(b)] == 0
      requires Apart() && fl.Valid() && v == ViewOf(own) && PendingAre(own, {}) && Listing(fl.lists, own, m)
      requires |own| == used.Length == order.Length == cnt.Length
      requires forall i | 0 <= i < |own| && i != First(b) :: FrameOk(i, own[i], used[i], order[i], cnt[i])
      modifies this
      ensures Rep({b}) && v == old(v).(live := old(v).live - {b})
    {
      TileFrames(own, m, b, Live);
      FirstIn(b);
      Recolour(own, m, b, Live, Pending);
      TakeView(own, m, b);
      ListKeep(fl.lists, own, Retile(own, b, Pending), m);
      own := Retile(own, b, Pending);
      v := ViewOf(own);
    }

    /** The last part of free_pages: tag the pending block free and merge it. */
    method Reclaim(p: nat, ghost b: Block)
      requires Rep({b}) && p == First(b) && p < order.Length && order[p] == b.k
      requires v.blocks == Canon(v.free, m)
      modifies Footprint()
      ensures Ready() && cnt[..] == old(cnt[..])
      ensures v == old(v).(blocks := Merge(old(v).blocks, b, m), free := old(v).free + Pages(b))
    {
      assert Has(own, b, Pending);
      TileFrames(own, m, b, Pending);
      assert Merge(v.blocks, b, m) == Canon(v.free + Pages(b), m) by {
        FreeInPool({b});
        BlockFits(b.q, b.k, m);
        MergeCanon(v.free, b, m);
      }
      used[p] := AVAL;
      Fill(p + 1, Pow2(order[p]) - 1, order[p], F);
      MergePage(p, b);
    }

    /** free_pages */
    method FreePages(addr: int) returns (ret: FreeResult, ghost b: Block)
      requires Valid() && addr >= PAGE_INIT && Freeable(FrameOf(addr))
      modifies Footprint()
      ensures var p := FrameOf(addr);
        && (ret.Hung? <==> p in old(v.free))
        && (ret.Kept? <==> old(cnt[p]) > 1)
        && (ret.Hung? ==> cnt[..] == old(cnt[..])[p := -1] && own == old(own) && fl.lists == old(fl.lists)
                          && used[..] == old(used[..]) && order[..] == old(order[..]))
        && (ret.Kept? ==> Valid() && v == old(v) && cnt[..] == old(cnt[..])[p := old(cnt[p]) - 1])
        && (ret.Reclaimed? ==> Valid() && old(cnt[p]) == 1 && cnt[..] == old(cnt[..])[p := 0])
        && (ret.Reclaimed? ==> b in old(v.live) && First(b) == p && v == ReleasedTo(old(v), b, m))
    {
      var p := FrameOf(addr);
      Open();
      FrameCases(p);
      b := own[p].b;
      if cnt[p] > 1 {
        cnt[p] := cnt[p] - 1;
        Open();
        return Kept, b;
      }
      cnt[p] := cnt[p] - 1;
      if used[p] != USED {
        return Hung, b;
      }
      Take(b);
      Reclaim(p, b);
      Open();
      return Reclaimed, b;
    }
  }

  lemma SinglePage(free: set<nat>)
    ensures free != {} ==> exists d: Block :: d.k == 0 && Full(free, d)
  {
    if f :| f in free {
      assert Full(free, Block(f, 0));
    }
  }

  lemma OnePage(before: View, after: View, b: Block, c: Block)
    requires Granted(before, after, b, c, 0)
    ensures c == Block(First(c), 0) && OneGranted(before, after, First(c))
    ensures forall i: nat :: In(i, c) <==> i == First(c)
  {
  }

  /** One free frame becomes a live block. */
  ghost predicate OneGranted(before: View, after: View, f: nat) {
    && f in before.free && Block(f, 0) !in before.live
    && after.free == before.free - {f} && after.live == before.live + {Block(f, 0)} && after.reserved == before.reserved
  }

  /** The view after the last reference to the live block b is gone. */
  ghost function ReleasedTo(v: View, b: Block, m: nat): View {
    View(Merge(v.blocks, b, m), v.free + Pages(b), v.live - {b}, v.reserved)
  }

  /** The boot state w after the frames in done have been reserved. */
  ghost function Withheld(w: View, done: set<nat>): View {
    View(Singles(w.free - done, 0), w.free - done, {}, w.reserved + Singles(done, 0))
  }

  lemma NothingReserved(w: View)
    requires w.blocks == Singles(w.free, 0) && w.live == {}
    ensures w == Withheld(w, {})
  {
  }

  lemma WithholdOne(w: View, done: set<nat>, i: nat)
    requires i !in done
    ensures Withheld(w, done + {i}) == View(Singles(w.free - done - {i}, 0), w.free - done - {i}, {},
                                            w.reserved + Singles(done, 0) + {Block(i, 0)})
  {
  }

  /** The first frame number that mem_reserve computes, negative when the address lies below the pool. */
  function FirstReserved(addr: int): int {
    ToInt32((addr - PAGE_INIT) % U64 / PAGE_SIZE)
  }

  /** The frames from number id on that start below the end address. */
  ghost function ReservedPages(id: int, end: int, m: nat): set<nat> {
    set i: nat | i < Pow2(m) && 0 <= id <= i && AddrOf(i) < end
  }

  /** The frames that have a byte in [addr, addr + size). */
  ghost function TouchedPages(addr: int, size: int, m: nat): set<nat> {
    set i: nat | i < Pow2(m) && AddrOf(i) < addr + size && addr < AddrOf(i) + PAGE_SIZE && size > 0
  }

  /** mem_reserve reserves exactly the touched frames, except that an empty range at an address in the pool that is
      not page-aligned still costs one frame, and that a range which starts below the pool and reaches into it
      reserves nothing. The size is an int. */
  lemma ReserveExact(addr: int, size: int, m: nat)
    requires 0 <= addr < U64 && 0 <= size < 0x8000_0000
    requires addr - PAGE_INIT < 0x8000_0000 * PAGE_SIZE && addr + size <= AddrOf(Pow2(m))
    ensures ReservedPages(FirstReserved(addr), addr + size, m) == TouchedPages(addr, size, m) <==>
      if addr >= PAGE_INIT then size > 0 || addr % PAGE_SIZE == 0 else addr + size <= PAGE_INIT
  {
    if addr >= PAGE_INIT {
      ReserveInPool(addr, size, m);
    } else {
      ReserveBelow(addr, size, m);
    }
  }

  lemma ReserveInPool(addr: int, size: int, m: nat)
    requires PAGE_INIT <= addr < U64 && 0 <= size
    requires addr - PAGE_INIT < 0x8000_0000 * PAGE_SIZE && addr + size <= AddrOf(Pow2(m))
    ensures ReservedPages(FirstReserved(addr), addr + size, m) == TouchedPages(addr, size, m) <==>
      size > 0 || addr % PAGE_SIZE == 0
  {
    var id := (addr - PAGE_INIT) / PAGE_SIZE;
    if size == 0 && addr % PAGE_SIZE != 0 {
      assert id in ReservedPages(id, addr + size, m);
    } else {
      forall i: nat | i < Pow2(m) ensures i in ReservedPages(id, addr + size, m) <==> i in TouchedPages(addr, size, m) {
      }
    }
  }

  lemma ReserveBelow(addr: int, size: int, m: nat)
    requires 0 <= addr < PAGE_INIT && 0 <= size < 0x8000_0000
    ensures ReservedPages(FirstReserved(addr), addr + size, m) == TouchedPages(addr, size, m) <==>
      addr + size <= PAGE_INIT
  {
    if addr + size > PAGE_INIT {
      var d := PAGE_INIT - addr;
      assert (addr - PAGE_INIT) % U64 == U64 - d;
      assert 0x10_0000_0000_0000 - 0x8_0000 <= (U64 - d) / PAGE_SIZE < 0x10_0000_0000_0000;
      assert FirstReserved(addr) < 0;
      assert Pow2(m) >= 1 && AddrOf(0) == PAGE_INIT && 0 in TouchedPages(addr, size, m);
    } else {
      assert ReservedPages(FirstReserved(addr), addr + size, m) == {};
      assert TouchedPages(addr, size, m) == {};
    }
  }

  /** The step of an allocation on the view: the smallest sufficient free block is cut down. */
  ghost predicate Granted(before: View, after: View, b: Block, c: Block, ord: nat) {
    && b in before.blocks && b.k >= ord && c == Cut(b, ord)
    && (forall d :: d in before.blocks && d.k >= ord ==> d.k >= b.k)
    && Pages(c) <= before.free && c !in before.live
    && after == View(before.blocks - {b} + Rest(b, ord), before.free - Pages(c), before.live + {c}, before.reserved)
  }
}
