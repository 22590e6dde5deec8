// The slab allocator, kmalloc and kfree of src/mm.c, on top of the page allocator.
module Slab {
  import opened Dyadic
  import opened BlockTree
  import opened FrameTable
  import opened Machine
  import opened PageAllocator
  import opened BuddyRuns
  import opened SlabHeap
  import opened Translation

  /** Where kmalloc got its memory from, or nowhere: object k of page d of the pools, or whole pages. */
  datatype Origin = Nowhere | Object(d: nat, k: nat) | Whole(b: Block)

  /** Exactly this block has gone from the pool, with one reference, and giving it back restores the pool. */
  ghost predicate TookBlock(v: View, w: View, b: Block, cnt: seq<int>, m: nat) {
    && b !in v.live && w.live == v.live + {b} && Pages(b) <= v.free && w.free == v.free - Pages(b)
    && w.reserved == v.reserved && ReleasedTo(w, b, m) == v
    && First(b) < |cnt| && cnt[First(b)] == 1
  }

  class Slab {
    const pa: PageAllocator
    const slots: array<Slot>
    ghost var frames: seq<nat>
    ghost var chains: seq<seq<nat>>

    ghost predicate Apart() {
      && this !in pa.Footprint() && slots !in pa.Footprint() && slots as object != pa.mem && this as object != pa.mem
      && this as object != slots && slots.Length == SLOTS
    }

    ghost function Now(): Heap
      reads this, slots
    {
      Heap(slots[..], frames, chains)
    }

    ghost predicate Inv()
      reads this, slots, pa.Footprint(), pa.mem
    {
      Apart() && Sized(Now()) && pa.Valid() && pa.mem.Length <= 0x8_0000 && InOrder(pa.mem[..], pa.v.live, Now())
    }

    lemma Open()
      ensures InOrder(pa.mem[..], pa.v.live, Now()) <==> HeapOk(pa.mem[..], pa.v.live, Now())
    {
      OpenInOrder(pa.mem[..], pa.v.live, Now());
    }

    /** dynamic_init */
    constructor (pa: PageAllocator)
      requires pa.Valid() && pa.mem.Length <= 0x8_0000
      ensures this.pa == pa && fresh(slots) && Inv() && forall d | 0 <= d < SLOTS :: !slots[d].used
    {
      this.pa := pa;
      slots := new Slot[SLOTS](d requires d >= 0 => Slot(false, 0, 0, Sentinel(d)));
      frames := seq(SLOTS, _ => 0);
      chains := seq(SLOTS, _ => []);
      new;
      Open();
    }

    /** What an opened slot looks like. */
    lemma Opened(d: nat)
      requires Inv() && d < SLOTS && slots[d].used
      ensures |frames| == |chains| == SLOTS && 3 <= ClassOf(d) < TYPES && frames[d] < pa.mem.Length
      ensures SlotOk(pa.mem[..], pa.v.live, d, slots[d], frames[d], chains[d])
    {
      Open();
      assert Now().slots[d] == slots[d];
      assert SlotOk(pa.mem[..], pa.v.live, d, Now().slots[d], Now().frames[d], Now().chains[d]);
    }

    /** The slot d, opened before, is now sl with the chain s; memory has changed in its page only. */
    lemma Updated(m: Mem, h: Heap, d: nat, sl: Slot, s: seq<nat>)
      requires Apart() && pa.Valid() && pa.mem.Length <= 0x8_0000 && InOrder(m, pa.v.live, h) && Sized(h)
      requires d < SLOTS && h.slots[d].used && sl.used
      requires Now() == WithSlot(h, d, sl, h.frames[d], s) && |m| == pa.mem.Length
      requires SlotOk(pa.mem[..], pa.v.live, d, sl, h.frames[d], s)
      requires forall g: int, w: int | g != h.frames[d] :: Read(pa.mem[..], g, w) == Read(m, g, w)
      ensures Inv()
    {
      OpenInOrder(m, pa.v.live, h);
      forall e | 0 <= e < SLOTS && h.slots[e].used ensures Block(h.frames[e], 0) in pa.v.live {
        assert SlotOk(m, pa.v.live, e, h.slots[e], h.frames[e], h.chains[e]);
      }
      SlotChanged(m, pa.mem[..], pa.v.live, pa.v.live, h, d, sl, h.frames[d], s);
      Open();
    }

    /** The writes of remove_dpage: the link in the head, word w of frame f, becomes the head and is cleared. */
    method PopLink(d: nat, ghost f: nat, ghost w: nat) returns (l: int)
      requires Apart() && d < SLOTS && f < pa.mem.Length && w < 512 && slots[d].head == AddrOf(f) + 8 * w
      modifies slots, pa.mem
      ensures l == old(slots[d].head)
      ensures slots[d] == old(slots[d]).(freeObj := old(slots[d]).freeObj - 1, head := old(pa.mem[f][w]))
      ensures forall e | 0 <= e < SLOTS && e != d :: slots[e] == old(slots[e])
      ensures pa.mem[..] == Put(old(pa.mem[..]), f, w, 0)
    {
      Located(f, w);
      slots[d] := slots[d].(freeObj := slots[d].freeObj - 1);
      l := slots[d].head;
      var x, y := FrameOf(l), WordOf(l);
      slots[d] := slots[d].(head := pa.mem[x][y]);
      pa.mem[x] := pa.mem[x][y := 0];
    }

    /** remove_dpage: the first free object of an opened page. */
    method RemoveDpage(d: nat) returns (ret: int, ghost k: nat)
      requires Inv() && d < SLOTS && slots[d].used && slots[d].freeObj > 0
      modifies this`chains, slots, pa.mem
      ensures Inv() && Took(old(Now()), Now(), d, k) && 3 <= ClassOf(d) < TYPES
      ensures ret == ObjAddr(frames[d], ClassOf(d), k) && k < PerPage(ClassOf(d)) && frames[d] < pa.mem.Length
      ensures slots[d].freeObj == old(slots[d].freeObj) - 1
      ensures forall g: int, w: int | g != frames[d] || !InObject(w, ClassOf(d), k) ::
        Read(pa.mem[..], g, w) == old(Read(pa.mem[..], g, w))
    {
      ghost var m, h := pa.mem[..], Now();
      Opened(d);
      ghost var i, f := ClassOf(d), frames[d];
      k := chains[d][0];
      ObjectFits(i, k);
      assert slots[d].head == AddrOf(f) + 8 * WordAt(i, k);
      var l := PopLink(d, f, WordAt(i, k));
      ChainPop(m, pa.mem[..], f, i, chains[d], l, Sentinel(d));
      chains := chains[d := chains[d][1..]];
      assert Now() == WithSlot(h, d, slots[d], f, chains[d]);
      Updated(m, h, d, slots[d], chains[d]);
      ret := l;
    }

    /** The writes of insert_dpage: the object at word w of frame f becomes the head and links to the old one. */
    method PushLink(d: nat, addr: int, ghost f: nat, ghost w: nat)
      requires Apart() && d < SLOTS && f < pa.mem.Length && w < 512 && addr == AddrOf(f) + 8 * w
      requires 0 <= slots[d].head < U64
      modifies slots, pa.mem
      ensures slots[d] == old(slots[d]).(freeObj := old(slots[d]).freeObj + 1, head := addr)
      ensures forall e | 0 <= e < SLOTS && e != d :: slots[e] == old(slots[e])
      ensures pa.mem[..] == Put(old(pa.mem[..]), f, w, old(slots[d].head))
    {
      Located(f, w);
      slots[d] := slots[d].(freeObj := slots[d].freeObj + 1);
      var l := slots[d].head;
      slots[d] := slots[d].(head := addr);
      var x, y := FrameOf(addr), WordOf(addr);
      pa.mem[x] := pa.mem[x][y := l];
    }

    /** insert_dpage: an object becomes the first free one of its page. */
    method InsertDpage(d: nat, addr: int, ghost k: nat)
      requires Inv() && d < SLOTS && d < |frames| && LiveObject(Now(), d, k)
      requires addr == ObjAddr(frames[d], ClassOf(d), k)
      modifies this`chains, slots, pa.mem
      ensures Inv() && Gave(old(Now()), Now(), d, k) && slots[d].freeObj == old(slots[d].freeObj) + 1
      ensures forall g: int, w: int | g != frames[d] || !InObject(w, ClassOf(d), k) ::
        Read(pa.mem[..], g, w) == old(Read(pa.mem[..], g, w))
    {
      ghost var m, h := pa.mem[..], Now();
      Opened(d);
      ghost var i, f := ClassOf(d), frames[d];
      ObjectFits(i, k);
      HeadIsWord(d);
      ghost var l := slots[d].head;
      PushLink(d, addr, f, WordAt(i, k));
      ChainPush(m, f, i, chains[d], l, Sentinel(d), k);
      chains := chains[d := [k] + chains[d]];
      assert Now() == WithSlot(h, d, slots[d], f, chains[d]);
      Updated(m, h, d, slots[d], chains[d]);
    }

    /** The head of a chain is an address, or that of the sentinel. */
    lemma HeadIsWord(d: nat)
      requires Inv() && d < SLOTS && slots[d].used
      ensures 0 <= slots[d].head < U64
    {
      Opened(d);
      if chains[d] != [] {
        ObjectFits(ClassOf(d), chains[d][0]);
      }
    }

    /** memset of n words from a word of frame f on. */
    method ZeroWords(f: nat, from: nat, n: nat)
      requires f < pa.mem.Length && from + n <= 512
      modifies pa.mem
      ensures forall g: int, w: int ::
        Read(pa.mem[..], g, w) == if g == f && from <= w < from + n then 0 else old(Read(pa.mem[..], g, w))
    {
      ghost var m := pa.mem[..];
      for j := 0 to n
        invariant |m| == pa.mem.Length
        invariant forall g: int, w: int ::
          Read(pa.mem[..], g, w) == if g == f && from <= w < from + j then 0 else Read(m, g, w)
      {
        ghost var was := pa.mem[..];
        pa.mem[f] := pa.mem[f][from + j := 0];
        assert pa.mem[..] == Put(was, f, from + j, 0);
      }
    }

    /** l->next = a, where None stands for the freelist field of slot d. */
    method SetLink(d: nat, l: Option<int>, a: Word, ghost f: nat, ghost w: nat)
      requires Apart() && d < SLOTS && f < pa.mem.Length && w < 512 && (l.Some? ==> l.value == AddrOf(f) + 8 * w)
      modifies slots, pa.mem
      ensures forall e | 0 <= e < SLOTS && (e != d || l.Some?) :: slots[e] == old(slots[e])
      ensures l.None? ==> slots[d] == old(slots[d]).(head := a) && pa.mem[..] == old(pa.mem[..])
      ensures l.Some? ==> pa.mem[..] == Put(old(pa.mem[..]), f, w, a)
    {
      if l.None? {
        slots[d] := slots[d].(head := a);
      } else {
        Located(f, w);
        var x, y := FrameOf(l.value), WordOf(l.value);
        pa.mem[x] := pa.mem[x][y := a];
      }
    }

    /** One turn of the loop that strings the objects of a new page together. */
    method StringTurn(d: nat, l: Option<int>, ghost f: nat, i: nat, j: nat) returns (next: Option<int>)
      requires Apart() && d < SLOTS && f < pa.mem.Length <= 0x8_0000 && 3 <= i < TYPES && j < PerPage(i)
      requires l == if j == 0 then None else Some(ObjAddr(f, i, j - 1))
      requires Strung(pa.mem[..], f, i, j) && slots[d].pageAddr == AddrOf(f)
      requires (j > 0 ==> slots[d].head == ObjAddr(f, i, 0))
      modifies slots, pa.mem
      ensures next == Some(ObjAddr(f, i, j)) && Strung(pa.mem[..], f, i, j + 1)
      ensures forall e | 0 <= e < SLOTS && e != d :: slots[e] == old(slots[e])
      ensures slots[d] == old(slots[d]).(head := ObjAddr(f, i, 0))
      ensures forall g: int, w: int | g != f :: Read(pa.mem[..], g, w) == old(Read(pa.mem[..], g, w))
    {
      ObjAddrProduct(f, i, j);
      ObjectFits(i, j);
      var a := slots[d].pageAddr + j * Pow2(i);
      if j > 0 {
        ObjectFits(i, j - 1);
        StringNext(pa.mem[..], f, i, j, a);
      }
      SetLink(d, l, a, f, if j == 0 then 0 else WordAt(i, j - 1));
      next := Some(a);
    }

    /** The free list of a new page. */
    method StringPage(d: nat, ghost f: nat, i: nat)
      requires Apart() && d < SLOTS && f < pa.mem.Length <= 0x8_0000 && 3 <= i < TYPES
      requires slots[d].pageAddr == AddrOf(f) && slots[d].freeObj == PerPage(i)
      modifies slots, pa.mem
      ensures slots[d] == old(slots[d]).(head := ObjAddr(f, i, 0))
      ensures Chain(pa.mem[..], f, i, Ascending(PerPage(i)), slots[d].head, Sentinel(d))
      ensures forall e | 0 <= e < SLOTS && e != d :: slots[e] == old(slots[e])
      ensures forall g: int, w: int | g != f :: Read(pa.mem[..], g, w) == old(Read(pa.mem[..], g, w))
    {
      var l: Option<int> := None;
      var n := slots[d].freeObj;
      for j := 0 to n
        invariant l == (if j == 0 then None else Some(ObjAddr(f, i, j - 1))) && Strung(pa.mem[..], f, i, j)
        invariant slots[d] == if j == 0 then old(slots[d]) else old(slots[d]).(head := ObjAddr(f, i, 0))
        invariant forall e | 0 <= e < SLOTS && e != d :: slots[e] == old(slots[e])
        invariant forall g: int, w: int | g != f :: Read(pa.mem[..], g, w) == old(Read(pa.mem[..], g, w))
      {
        l := StringTurn(d, l, f, i, j);
      }
      ObjectFits(i, n - 1);
      StringLast(pa.mem[..], f, i, n, Sentinel(d));
      SetLink(d, l, Sentinel(d), f, WordAt(i, n - 1));
    }

    /** The new slot fits in with the others. */
    lemma PageFits(m: Mem, v: View, h: Heap, d: nat, g: nat)
      requires Apart() && pa.Valid() && pa.mem.Length <= 0x8_0000 && HeapOk(m, v.live, h) && d < SLOTS
      requires 3 <= ClassOf(d) < TYPES
      requires forall b | b in v.live :: !In(g, b)
      requires OneGranted(v, pa.v, g) && |m| == pa.mem.Length && g < |m| && slots[d].used
      requires slots[d].pageAddr == AddrOf(g) && slots[d].freeObj == PerPage(ClassOf(d))
      requires Chain(pa.mem[..], g, ClassOf(d), Ascending(PerPage(ClassOf(d))), slots[d].head, Sentinel(d))
      requires Now() == WithSlot(h, d, slots[d], g, Ascending(PerPage(ClassOf(d))))
      requires forall f: int, w: int | f != g :: Read(pa.mem[..], f, w) == Read(m, f, w)
      requires d > 0 && ClassOf(d - 1) == ClassOf(d) ==> h.slots[d - 1].used
      ensures Inv()
    {
      FrameUnused(m, v.live, h, g);
      SlotChanged(m, pa.mem[..], v.live, pa.v.live, h, d, slots[d], g, Ascending(PerPage(ClassOf(d))));
      Open();
    }

    /** The part of dynamic_allocator that opens a page: its frame comes from alloc_pages(0). */
    method OpenPage(d: nat, i: nat) returns (ok: bool)
      requires Inv() && d < SLOTS && i == ClassOf(d) && 3 <= i < TYPES && !slots[d].used
      requires d > 0 && ClassOf(d - 1) == i ==> slots[d - 1].used
      modifies this`frames, this`chains, slots, pa.Footprint(), pa.mem
      ensures Inv() && (ok <==> old(pa.v.free) != {}) && CountsKept(old(pa.v.free), old(pa.cnt[..]), pa.cnt[..])
      ensures ok ==> d < |frames| && PageOpened(old(Now()), Now(), d, frames[d])
      ensures ok ==> OneGranted(old(pa.v), pa.v, frames[d])
      ensures ok ==> slots[d].freeObj == PerPage(i)
      ensures ok ==> forall g: int, w: int | g != frames[d] :: Read(pa.mem[..], g, w) == old(Read(pa.mem[..], g, w))
      ensures !ok ==> pa.v == old(pa.v) && pa.mem[..] == old(pa.mem[..]) && frames == old(frames)
      ensures !ok ==> chains == old(chains)
      ensures !ok ==> forall e | 0 <= e < SLOTS ::
        slots[e].used == old(slots[e].used) && slots[e].freeObj == old(slots[e].freeObj)
    {
      ghost var m, v, h := pa.mem[..], pa.v, Now();
      Open();
      var g := pa.AllocPage();
      if g.None? {
        slots[d] := slots[d].(pageAddr := 0);
        UnusedChanged(m, v.live, h, d, 0);
        Open();
        return false;
      }
      PerPageQuotient(i);
      slots[d] := Slot(true, PAGE_SIZE / Pow2(i), AddrOf(g.value), slots[d].head);
      StringPage(d, g.value, i);
      frames := frames[d := g.value];
      chains := chains[d := Ascending(PerPage(i))];
      assert Now() == WithSlot(h, d, slots[d], g.value, Ascending(PerPage(i)));
      PageFits(m, v, h, d, g.value);
      ok := true;
    }

    /** Writing to a live object leaves the heap in order. */
    lemma LiveWrite(m: Mem, d: nat, k: nat)
      requires Apart() && Sized(Now()) && pa.Valid() && pa.mem.Length <= 0x8_0000
      requires InOrder(m, pa.v.live, Now()) && LiveObject(Now(), d, k)
      requires d < |frames| && |m| == pa.mem.Length
      requires forall g: int, w: int | g != frames[d] || !InObject(w, ClassOf(d), k) ::
        Read(pa.mem[..], g, w) == Read(m, g, w)
      ensures Inv()
    {
      var h, f, i := Now(), frames[d], ClassOf(d);
      OpenInOrder(m, pa.v.live, h);
      assert SlotOk(m, pa.v.live, d, h.slots[d], h.frames[d], h.chains[d]);
      forall t | 0 <= t < |chains[d]|
        ensures Read(pa.mem[..], f, WordAt(i, chains[d][t])) == Read(m, f, WordAt(i, chains[d][t])) {
        ObjectOutside(i, k, chains[d][t]);
      }
      ChainFrame(m, pa.mem[..], f, i, chains[d], slots[d].head, Sentinel(d));
      assert Now() == WithSlot(h, d, slots[d], f, chains[d]);
      Updated(m, h, d, slots[d], chains[d]);
    }

    /** memset of a live object. */
    method ClearObject(d: nat, addr: int, ghost k: nat)
      requires Inv() && d < SLOTS && d < |frames| && LiveObject(Now(), d, k)
      requires addr == ObjAddr(frames[d], ClassOf(d), k)
      modifies pa.mem
      ensures Inv()
      ensures forall w: int | InObject(w, ClassOf(d), k) :: Read(pa.mem[..], frames[d], w) == 0
      ensures forall g: int, w: int | g != frames[d] || !InObject(w, ClassOf(d), k) ::
        Read(pa.mem[..], g, w) == old(Read(pa.mem[..], g, w))
    {
      ghost var m := pa.mem[..];
      Opened(d);
      ObjectFits(ClassOf(d), k);
      Located(frames[d], WordAt(ClassOf(d), k));
      ZeroWords(FrameOf(addr), WordOf(addr), Words(ClassOf(d)));
      LiveWrite(m, d, k);
    }

    /** The end of dynamic_allocator: an object is taken and cleared. */
    method TakeObject(d: nat) returns (ret: int, ghost k: nat)
      requires Inv() && d < SLOTS && slots[d].used && slots[d].freeObj > 0
      modifies this`chains, slots, pa.mem
      ensures Inv() && frames == old(frames) && OneMore(old(Now()), Now(), d, k) && 3 <= ClassOf(d) < TYPES
      ensures d < |frames|
      ensures ret == ObjAddr(frames[d], ClassOf(d), k)
      ensures forall w: int | InObject(w, ClassOf(d), k) :: Read(pa.mem[..], frames[d], w) == 0
      ensures forall g: int, w: int | g != frames[d] || !InObject(w, ClassOf(d), k) ::
        Read(pa.mem[..], g, w) == old(Read(pa.mem[..], g, w))
      ensures forall e | 0 <= e < SLOTS :: slots[e].used == old(slots[e].used)
    {
      ghost var m, h := pa.mem[..], Now();
      assert HeapOk(m, pa.v.live, h) by { Open(); }
      ret, k := RemoveDpage(d);
      TookLive(m, pa.v.live, h, Now(), d, k);
      assert forall e | 0 <= e < SLOTS :: Now().slots[e] == slots[e] && h.slots[e] == old(slots[e]);
      ClearObject(d, ret, k);
    }

    ghost predicate PageFull(i: nat, j: nat)
      requires slots.Length == SLOTS && i < TYPES && j < PAGES
      reads slots
    {
      slots[SlotNo(i, j)].used && slots[SlotNo(i, j)].freeObj == 0
    }

    /** The pages of class i that are open are full. */
    ghost predicate AllFull(i: nat)
      requires slots.Length == SLOTS && i < TYPES
      reads slots
    {
      forall j: nat | j < PAGES && slots[SlotNo(i, j)].used :: PageFull(i, j)
    }

    ghost predicate AllOpen(i: nat)
      requires slots.Length == SLOTS && i < TYPES
      reads slots
    {
      forall j: nat | j < PAGES :: slots[SlotNo(i, j)].used
    }

    /** The search of dynamic_allocator for the first page that is not full. */
    method FirstUsable(i: nat) returns (j: nat)
      requires Inv() && 3 <= i < TYPES
      ensures j <= PAGES && (forall l: nat | l < j :: PageFull(i, l)) && (j < PAGES ==> !PageFull(i, j))
      ensures j == PAGES <==> AllFull(i) && AllOpen(i)
      ensures j < PAGES && !slots[SlotNo(i, j)].used ==> AllFull(i)
      ensures j < PAGES && slots[SlotNo(i, j)].used ==> !AllFull(i) && slots[SlotNo(i, j)].freeObj > 0
    {
      j := 0;
      while j < PAGES && slots[SlotNo(i, j)].used && slots[SlotNo(i, j)].freeObj == 0
        invariant j <= PAGES && forall l: nat | l < j :: PageFull(i, l)
      {
        j := j + 1;
      }
      if j < PAGES {
        if slots[SlotNo(i, j)].used {
          SlotClass(i, j);
          Opened(SlotNo(i, j));
        } else {
          LaterUnused(i, j);
        }
      }
      forall l: nat | l < j ensures slots[SlotNo(i, l)].used {
        assert PageFull(i, l);
      }
    }

    lemma {:induction false} LaterUnused(i: nat, j: nat)
      requires Inv() && 3 <= i < TYPES && j < PAGES && !slots[SlotNo(i, j)].used
      ensures forall l: nat | j <= l < PAGES :: !slots[SlotNo(i, l)].used
      decreases PAGES - j
    {
      if j + 1 < PAGES {
        Open();
        SlotClass(i, j);
        SlotClass(i, j + 1);
        assert Now().slots[SlotNo(i, j + 1)] == slots[SlotNo(i, j + 1)]
          && Now().slots[SlotNo(i, j)] == slots[SlotNo(i, j)];
        LaterUnused(i, j + 1);
      }
    }

    /** Words that a call which hands out object k of page d may change: the object, and a page just opened. */
    ghost predicate Mine(g: int, w: int, d: nat, k: nat, whole: bool)
      requires d < |frames| && 3 <= ClassOf(d)
      reads this`frames
    {
      g == frames[d] && (whole || InObject(w, ClassOf(d), k))
    }

    /** dynamic_allocator on page d, the first of its class that is not full. */
    method AllocateFrom(d: nat, i: nat) returns (ret: Option<int>, ghost k: nat)
      requires Inv() && d < SLOTS && i == ClassOf(d) && 3 <= i < TYPES
      requires slots[d].used ==> slots[d].freeObj > 0
      requires d > 0 && ClassOf(d - 1) == i ==> slots[d - 1].used
      modifies this`frames, this`chains, slots, pa.Footprint(), pa.mem
      ensures Inv() && d < |frames| && CountsKept(old(pa.v.free), old(pa.cnt[..]), pa.cnt[..])
      ensures ret.None? <==> !old(slots[d].used) && old(pa.v.free) == {}
      ensures ret.None? ==> pa.v == old(pa.v) && pa.mem[..] == old(pa.mem[..])
      ensures ret.None? ==> !slots[d].used && forall e, l :: LiveObject(Now(), e, l) <==> LiveObject(old(Now()), e, l)
      ensures ret.Some? ==> OneMore(old(Now()), Now(), d, k) && ret.value == ObjAddr(frames[d], i, k)
      ensures ret.Some? ==> forall w: int | InObject(w, i, k) :: Read(pa.mem[..], frames[d], w) == 0
      ensures ret.Some? ==> forall g: int, w: int | !Mine(g, w, d, k, !old(slots[d].used)) ::
        Read(pa.mem[..], g, w) == old(Read(pa.mem[..], g, w))
      ensures ret.Some? ==> if old(slots[d].used) then pa.v == old(pa.v) else OneGranted(old(pa.v), pa.v, frames[d])
      ensures |frames| == SLOTS && forall e | 0 <= e < SLOTS && (e != d || old(slots[e].used)) ::
        slots[e].used == old(slots[e].used) && frames[e] == old(frames)[e]
    {
      ghost var h := Now();
      assert forall e | 0 <= e < SLOTS :: h.slots[e] == slots[e];
      k := 0;
      if !slots[d].used {
        var ok := OpenPage(d, i);
        if !ok {
          SameLive(h, Now());
          return None, k;
        }
        SlotClass(i, 0);
        Pow2Mono(0, 12 - i);
      }
      ghost var u := Now();
      assert forall e | 0 <= e < SLOTS :: u.slots[e] == slots[e];
      var a;
      a, k := TakeObject(d);
      ret := Some(a);
      if !old(slots[d].used) {
        OneMoreAfterOpening(h, u, Now(), d, frames[d], k);
      }
    }

    /** dynamic_allocator for class i. It fails if and only if all open pages of the class are full and no
        other can be opened, and it opens a page only when all open ones are full. */
    method DynamicAllocator(i: nat) returns (ret: Option<int>, ghost d: nat, ghost k: nat)
      requires Inv() && 3 <= i < TYPES
      modifies this`frames, this`chains, slots, pa.Footprint(), pa.mem
      ensures Inv() && CountsKept(old(pa.v.free), old(pa.cnt[..]), pa.cnt[..])
      ensures ret.None? <==> old(AllFull(i)) && (old(AllOpen(i)) || old(pa.v.free) == {})
      ensures ret.None? ==> pa.v == old(pa.v) && pa.mem[..] == old(pa.mem[..])
      ensures ret.None? ==> forall e, l :: LiveObject(Now(), e, l) <==> LiveObject(old(Now()), e, l)
      ensures ret.Some? ==> d < SLOTS && ClassOf(d) == i && OneMore(old(Now()), Now(), d, k)
      ensures ret.Some? ==> d < |frames| && ret.value == ObjAddr(frames[d], i, k)
      ensures ret.Some? ==> forall w: int | InObject(w, i, k) :: Read(pa.mem[..], frames[d], w) == 0
      ensures ret.Some? ==> forall g: int, w: int | !Mine(g, w, d, k, !old(slots[d].used)) ::
        Read(pa.mem[..], g, w) == old(Read(pa.mem[..], g, w))
      ensures ret.Some? ==>
        if old(slots[d].used) then pa.v == old(pa.v) else old(AllFull(i)) && OneGranted(old(pa.v), pa.v, frames[d])
      ensures |frames| == SLOTS && forall e | 0 <= e < SLOTS && ((ret.Some? && e != d) || old(slots[e].used)) ::
        slots[e].used == old(slots[e].used) && frames[e] == old(frames)[e]
      ensures ret.None? ==> forall e | 0 <= e < SLOTS :: slots[e].used == old(slots[e].used)
      ensures ret.Some? ==> (old(slots[d].used) <==> !old(AllFull(i)))
      ensures ret.Some? ==> forall l: nat | l < PAGES && SlotNo(i, l) < d :: old(PageFull(i, l))
    {
      d, k := 0, 0;
      var j := FirstUsable(i);
      if j == PAGES {
        return None, d, k;
      }
      forall l: nat | l < j ensures old(PageFull(i, l)) {
        assert PageFull(i, l);
      }
      SlotClass(i, j);
      if j > 0 {
        assert PageFull(i, j - 1);
      }
      d := SlotNo(i, j);
      ret, k := AllocateFrom(SlotNo(i, j), i);
      assert forall l: nat | l < PAGES && SlotNo(i, l) < d :: l < j;
    }

    /** The class that kmalloc picks: the smallest whose objects are large enough. */
    method PickClass(size: int) returns (i: nat)
      requires size <= Pow2(TYPES - 1)
      ensures i == ClassFor(size, 3)
    {
      i := 3;
      while size > Pow2(i)
        invariant 3 <= i < TYPES && ClassFor(size, i) == ClassFor(size, 3)
        decreases TYPES - i
      {
        i := i + 1;
      }
    }

    /** The order that kmalloc picks: the smallest that is large enough, but 0 when none is. */
    method PickOrder(size: int) returns (ord: nat)
      ensures ord == OrderFor(size, pa.m, 0)
    {
      for i := 0 to pa.m + 1
        invariant OrderFor(size, pa.m, i) == OrderFor(size, pa.m, 0)
      {
        if size <= Pow2(i) * PAGE_SIZE {
          return i;
        }
      }
      ord := 0;
    }

    // ----- whole pages

    /** The heap is as it was when blocks other than its pages come and go. */
    lemma Undisturbed(m: Mem, live: set<Block>)
      requires Apart() && Sized(Now()) && pa.Valid() && pa.mem.Length <= 0x8_0000 && HeapOk(m, live, Now())
      requires |m| == pa.mem.Length
      requires forall d | 0 <= d < SLOTS && slots[d].used :: Block(frames[d], 0) in pa.v.live
      requires forall d | 0 <= d < SLOTS && slots[d].used :: frames[d] < |m| && pa.mem[frames[d]] == m[frames[d]]
      ensures Inv()
    {
      var h := Now();
      assert forall d | 0 <= d < SLOTS :: h.slots[d] == slots[d];
      HeapFrame(m, pa.mem[..], live, pa.v.live, h);
      Open();
    }

    lemma PagesHeld()
      requires Inv()
      ensures forall d | 0 <= d < SLOTS && slots[d].used ::
        frames[d] < pa.mem.Length && Block(frames[d], 0) in pa.v.live && frames[d] !in pa.v.free
    {
      pa.Open();
      pa.FreeInPool({});
      forall d | 0 <= d < SLOTS && slots[d].used
        ensures frames[d] < pa.mem.Length && Block(frames[d], 0) in pa.v.live && frames[d] !in pa.v.free
      {
        Opened(d);
        assert In(frames[d], Block(frames[d], 0));
      }
    }

    /** kmalloc by way of alloc_pages. */
    method AllocateWhole(ord: nat) returns (ret: Option<int>, ghost b: Block, ghost c: Block)
      requires Inv()
      modifies pa.Footprint(), pa.mem
      ensures Inv() && CountsKept(old(pa.v.free), old(pa.cnt[..]), pa.cnt[..])
      ensures ret.None? <==> ord > pa.m || !exists x: Block :: x.k == ord && Full(old(pa.v.free), x)
      ensures ret.None? ==> pa.v == old(pa.v) && pa.mem[..] == old(pa.mem[..])
      ensures ret.Some? ==> Granted(old(pa.v), pa.v, b, c, ord) && ret.value == AddrOf(First(c))
      ensures ret.Some? ==> TookBlock(old(pa.v), pa.v, c, pa.cnt[..], pa.m)
      ensures ret.Some? ==> forall g: nat ::
        g < pa.mem.Length ==> pa.mem[g] == if In(g, c) then ZeroPage() else old(pa.mem[g])
    {
      ghost var m, v := pa.mem[..], pa.v;
      PagesHeld();
      ValidAccounts(pa);
      assert HeapOk(m, v.live, Now()) by { Open(); }
      ret, b, c := pa.AllocPages(ord);
      if ret.Some? {
        AllocThenFree(v, pa.v, b, c, ord, pa.m);
        FirstIn(c);
        assert First(c) in Pages(c);
      }
      forall d | 0 <= d < SLOTS && slots[d].used ensures pa.mem[frames[d]] == m[frames[d]] {
        assert ret.Some? ==> (In(frames[d], c) <==> frames[d] in Pages(c));
      }
      Undisturbed(m, v.live);
    }

    /** The live block is not one of the pages that objects come from. */
    ghost predicate NotAPage(b: Block)
      requires slots.Length == SLOTS
      reads this, slots
    {
      forall d | 0 <= d < SLOTS && d < |frames| && slots[d].used :: b != Block(frames[d], 0)
    }

    /** What the caller of kmalloc holds. */
    ghost predicate Holds(o: Origin, addr: int)
      reads this, slots, pa
      requires slots.Length == SLOTS
    {
      match o
      case Nowhere => false
      case Object(d, k) =>
        d < SLOTS && d < |frames| && LiveObject(Now(), d, k) && addr == ObjAddr(frames[d], ClassOf(d), k)
      case Whole(b) => b in pa.v.live && addr == AddrOf(First(b)) && NotAPage(b)
    }

    /** Bytes that belong to the caller of kmalloc. */
    ghost function Extent(o: Origin): nat {
      match o
      case Nowhere => 0
      case Object(d, _) => Pow2(ClassOf(d))
      case Whole(b) => Pow2(b.k) * PAGE_SIZE
    }

    // ----- kmalloc and kfree

    /** The memory of a holder is the same in m' as in m. */
    ghost predicate Intact(o: Origin, m: Mem, m': Mem)
      reads this`frames
    {
      match o
      case Nowhere => true
      case Object(d, k) =>
        d < |frames| && 3 <= ClassOf(d) &&
        forall w: int | InObject(w, ClassOf(d), k) :: Read(m', frames[d], w) == Read(m, frames[d], w)
      case Whole(b) => forall g: nat, w: int | In(g, b) :: Read(m', g, w) == Read(m, g, w)
    }

    ghost predicate Cleared(o: Origin)
      reads this`frames, pa.mem
    {
      match o
      case Nowhere => true
      case Object(d, k) =>
        d < |frames| && 3 <= ClassOf(d) &&
        forall w: int | InObject(w, ClassOf(d), k) :: Read(pa.mem[..], frames[d], w) == 0
      case Whole(b) => forall g: nat, w: int | In(g, b) :: Read(pa.mem[..], g, w) == 0
    }

    /** A live block shares no frame with another one or with the free frames. */
    lemma BlockAlone(b: Block, g: nat, c: Block)
      requires pa.Valid() && b in pa.v.live && In(g, b)
      ensures g !in pa.v.free && (c in pa.v.live && In(g, c) ==> c == b)
    {
      ValidAccounts(pa);
      assert Covers(pa.v.live, g);
    }

    /** There is no memory for a request. At most 2048 bytes: all open pages of the class are full, and no other can
        be opened. More: no aligned run of frames of the order is free. */
    ghost predicate Exhausted(size: int)
      requires slots.Length == SLOTS
      reads slots, pa
    {
      if size <= Pow2(TYPES - 1) then
        var i := ClassFor(size, 3);
        AllFull(i) && (AllOpen(i) || pa.v.free == {})
      else !exists x: Block :: x.k == OrderFor(size, pa.m, 0) && Full(pa.v.free, x)
    }

    /** kmalloc of at most 2048 bytes. */
    method AllocateSmall(size: int) returns (ret: Option<int>, ghost o: Origin)
      requires Inv() && size <= Pow2(TYPES - 1)
      modifies this`frames, this`chains, slots, pa.Footprint(), pa.mem
      ensures Inv() && (o.Nowhere? <==> ret.None?) && !o.Whole?
      ensures ret.None? <==> old(Exhausted(size))
      ensures ret.None? ==> pa.v == old(pa.v)
      ensures ret.None? ==> forall e, l :: LiveObject(Now(), e, l) <==> LiveObject(old(Now()), e, l)
      ensures ret.Some? ==> Holds(o, ret.value) && Cleared(o) && ClassOf(o.d) == ClassFor(size, 3)
      ensures ret.Some? ==> OneMore(old(Now()), Now(), o.d, o.k)
      ensures ret.Some? ==>
        if old(AllFull(ClassFor(size, 3))) then OneGranted(old(pa.v), pa.v, frames[o.d]) else pa.v == old(pa.v)
      ensures CountsKept(old(pa.v.free), old(pa.cnt[..]), pa.cnt[..])
      ensures forall x, a :: old(Holds(x, a)) ==> Holds(x, a) && x != o && Intact(x, old(pa.mem[..]), pa.mem[..])
    {
      ghost var m, v, h := pa.mem[..], pa.v, Now();
      PagesHeld();
      forall b, g, c | b in v.live && In(g, b) ensures g !in v.free && (c in v.live && In(g, c) ==> c == b) {
        BlockAlone(b, g, c);
      }
      var i := PickClass(size);
      ghost var d, k;
      ret, d, k := DynamicAllocator(i);
      o := if ret.Some? then Object(d, k) else Nowhere;
      assert forall e | 0 <= e < SLOTS :: Now().slots[e] == slots[e] && h.slots[e] == old(slots[e]);
      assert HeapOk(pa.mem[..], pa.v.live, Now()) by { Open(); }
      forall x: Origin, a | old(Holds(x, a)) ensures Holds(x, a) && x != o && Intact(x, m, pa.mem[..]) {
        if x.Object? && ret.Some? {
          forall w: int | InObject(w, ClassOf(x.d), x.k)
            ensures Read(pa.mem[..], frames[x.d], w) == Read(m, frames[x.d], w) {
            WordElsewhere(pa.mem[..], pa.v.live, Now(), d, k, x.d, x.k, w, !h.slots[d].used);
          }
        }
        if x.Whole? && ret.Some? {
          assert In(frames[d], Block(frames[d], 0));
        }
      }
    }

    /** kmalloc of more than 2048 bytes. */
    method AllocateLarge(size: int) returns (ret: Option<int>, ghost o: Origin)
      requires Inv() && size > Pow2(TYPES - 1)
      modifies pa.Footprint(), pa.mem
      ensures Inv() && (o.Nowhere? <==> ret.None?) && !o.Object?
      ensures ret.None? <==> old(Exhausted(size))
      ensures ret.None? ==> pa.v == old(pa.v)
      ensures ret.Some? ==> Holds(o, ret.value) && Cleared(o) && o.b.k == OrderFor(size, pa.m, 0)
      ensures ret.Some? ==> TookBlock(old(pa.v), pa.v, o.b, pa.cnt[..], pa.m)
      ensures CountsKept(old(pa.v.free), old(pa.cnt[..]), pa.cnt[..])
      ensures forall x, a :: old(Holds(x, a)) ==> Holds(x, a) && x != o && Intact(x, old(pa.mem[..]), pa.mem[..])
    {
      ghost var m, v, h := pa.mem[..], pa.v, Now();
      PagesHeld();
      forall b, g | b in v.live && In(g, b) ensures g !in v.free {
        BlockAlone(b, g, b);
      }
      var i := PickOrder(size);
      ghost var b, c;
      ret, b, c := AllocateWhole(i);
      o := if ret.Some? then Whole(c) else Nowhere;
      if ret.Some? {
        assert forall g: nat :: g in Pages(c) <==> In(g, c);
        FirstIn(c);
        assert forall d | 0 <= d < SLOTS && slots[d].used :: In(frames[d], Block(frames[d], 0));
      }
      forall x: Origin, a | old(Holds(x, a)) ensures Holds(x, a) && x != o && Intact(x, m, pa.mem[..]) {
        if x.Object? {
          assert h.slots[x.d] == slots[x.d];
        }
      }
    }

    /** kmalloc. The caller gets cleared memory that nobody else holds: an object of the smallest class, or a block of
        the smallest order, that is large enough, or a block of order 0 when no order is. Exactly this block has gone
        from the pool; an object takes a frame from it only if all open pages of the class were full. What others hold
        is left alone, and so are the counts of all frames that were not free. */
    method Kmalloc(size: int) returns (ret: Option<int>, ghost o: Origin)
      requires Inv()
      modifies this`frames, this`chains, slots, pa.Footprint(), pa.mem
      ensures Inv() && (o.Nowhere? <==> ret.None?)
      ensures ret.None? <==> old(Exhausted(size))
      ensures ret.None? ==> pa.v == old(pa.v)
      ensures ret.Some? ==> Holds(o, ret.value) && Cleared(o)
      ensures ret.Some? ==> if size <= Pow2(TYPES - 1) then o.Object? && ClassOf(o.d) == ClassFor(size, 3)
                            else o.Whole? && o.b.k == OrderFor(size, pa.m, 0)
      ensures ret.Some? ==> (Extent(o) >= size <==> size <= Pow2(pa.m) * PAGE_SIZE)
      ensures o.Whole? ==> TookBlock(old(pa.v), pa.v, o.b, pa.cnt[..], pa.m)
      ensures size > Pow2(TYPES - 1) ==> Now() == old(Now())
      ensures o.Object? ==> OneMore(old(Now()), Now(), o.d, o.k) && o.d < |frames|
      ensures o.Object? ==>
        if old(AllFull(ClassOf(o.d))) then OneGranted(old(pa.v), pa.v, frames[o.d]) else pa.v == old(pa.v)
      ensures ret.None? ==> forall e, l :: LiveObject(Now(), e, l) <==> LiveObject(old(Now()), e, l)
      ensures CountsKept(old(pa.v.free), old(pa.cnt[..]), pa.cnt[..])
      ensures forall x, a :: old(Holds(x, a)) ==> Holds(x, a) && x != o && Intact(x, old(pa.mem[..]), pa.mem[..])
    {
      if size > Pow2(TYPES - 1) {
        ret, o := AllocateLarge(size);
      } else {
        SmallPowers();
        ret, o := AllocateSmall(size);
      }
    }

    predicate InPage(d: nat, addr: int)
      requires d < slots.Length
      reads slots
    {
      slots[d].used && 0 <= addr - slots[d].pageAddr < PAGE_SIZE
    }

    /** The search of kfree for the page that an address lies in. */
    method FindPage(addr: int) returns (d: Option<nat>)
      requires Inv()
      ensures d.Some? ==> d.value < SLOTS && InPage(d.value, addr)
      ensures d.None? ==> forall e: nat | e < SLOTS :: !InPage(e, addr)
    {
      for i := 3 to TYPES
        invariant forall e: nat | 3 * PAGES <= e < PAGES * i :: !InPage(e, addr)
      {
        for j := 0 to PAGES
          invariant forall e: nat | 3 * PAGES <= e < PAGES * i + j :: !InPage(e, addr)
        {
          if slots[SlotNo(i, j)].used && 0 <= addr - slots[SlotNo(i, j)].pageAddr < PAGE_SIZE {
            return Some(SlotNo(i, j));
          }
        }
      }
      forall e: nat | e < 3 * PAGES ensures !InPage(e, addr) {
        if slots[e].used {
          Opened(e);
        }
      }
      d := None;
    }

    /** An address in frame f lies in the page of slot e exactly if f is the frame of that slot. */
    lemma PageOfAddress(e: nat, f: nat, w: nat)
      requires Inv() && e < SLOTS && w < 512
      ensures InPage(e, AddrOf(f) + 8 * w) <==> slots[e].used && frames[e] == f
    {
      if slots[e].used {
        Opened(e);
      }
    }

    /** The page that kfree finds: the one an object came from, and none for whole pages. */
    lemma PageFound(o: Origin, addr: int, d: Option<nat>)
      requires Inv() && Holds(o, addr)
      requires d.Some? ==> d.value < SLOTS && InPage(d.value, addr)
      requires d.None? ==> forall e: nat | e < SLOTS :: !InPage(e, addr)
      ensures o.Object? ==> d == Some(o.d)
      ensures o.Whole? ==> d == None && First(o.b) < pa.cnt.Length
    {
      if o.Object? {
        Opened(o.d);
        ObjectFits(ClassOf(o.d), o.k);
        PageOfAddress(o.d, frames[o.d], WordAt(ClassOf(o.d), o.k));
        if d.Some? {
          PageOfAddress(d.value, frames[o.d], WordAt(ClassOf(o.d), o.k));
          Open();
        }
      } else if o.Whole? {
        FirstIn(o.b);
        ValidAccounts(pa);
        InRange(First(o.b), o.b, pa.m);
        if d.Some? {
          PageOfAddress(d.value, First(o.b), 0);
          PagesHeld();
          BlockAlone(o.b, First(o.b), Block(First(o.b), 0));
        }
      }
    }

    /** The dynamic_free branch of kfree. */
    method FreeObject(d: nat, addr: int, ghost k: nat)
      requires Inv() && Holds(Object(d, k), addr)
      modifies this`chains, slots, pa.mem
      ensures Inv() && !Holds(Object(d, k), addr) && Gave(old(Now()), Now(), d, k)
      ensures forall x, a ::
        old(Holds(x, a)) && x != Object(d, k) ==> Holds(x, a) && Intact(x, old(pa.mem[..]), pa.mem[..])
    {
      ghost var m, h := pa.mem[..], Now();
      PagesHeld();
      forall b, g, c | b in pa.v.live && In(g, b) ensures c in pa.v.live && In(g, c) ==> c == b {
        BlockAlone(b, g, c);
      }
      assert HeapOk(m, pa.v.live, h) by { Open(); }
      InsertDpage(d, addr, k);
      GaveLive(h, Now(), d, k);
      assert forall e | 0 <= e < SLOTS :: Now().slots[e] == slots[e] && h.slots[e] == old(slots[e]);
      forall x: Origin, a | old(Holds(x, a)) && x != Object(d, k) ensures Holds(x, a) && Intact(x, m, pa.mem[..]) {
        if x.Object? {
          forall w: int | InObject(w, ClassOf(x.d), x.k)
            ensures Read(pa.mem[..], frames[x.d], w) == Read(m, frames[x.d], w) {
            WordElsewhere(m, pa.v.live, h, d, k, x.d, x.k, w, false);
          }
        }
        if x.Whole? {
          assert In(frames[d], Block(frames[d], 0));
        }
      }
    }

    /** The free_pages branch of kfree. */
    method FreeWhole(addr: int, ghost b: Block) returns (r: FreeResult)
      requires Inv() && Holds(Whole(b), addr) && First(b) < pa.cnt.Length
      modifies pa.Footprint()
      ensures Inv() && First(b) < pa.cnt.Length
      ensures if old(pa.cnt[First(b)]) == 1 then r == Reclaimed && pa.v == ReleasedTo(old(pa.v), b, pa.m)
              else r == Kept && pa.v == old(pa.v)
      ensures pa.cnt[..] == old(pa.cnt[..])[First(b) := old(pa.cnt[First(b)]) - 1] && Now() == old(Now())
      ensures old(pa.cnt[First(b)]) != 1 ==> Holds(Whole(b), addr)
      ensures forall x, a :: old(Holds(x, a)) && x != Whole(b) ==> Holds(x, a) && Intact(x, old(pa.mem[..]), pa.mem[..])
    {
      ghost var m, v, h := pa.mem[..], pa.v, Now();
      PagesHeld();
      assert HeapOk(m, v.live, Now()) by { Open(); }
      LiveStart(pa, First(b), b);
      ghost var c;
      r, c := pa.FreePages(addr);
      Undisturbed(m, v.live);
      assert Now() == h && pa.mem[..] == m;
      forall x: Origin, a | old(Holds(x, a)) && x != Whole(b) ensures Holds(x, a) && Intact(x, m, pa.mem[..]) {
        assert x.Whole? ==> x.b in v.live - {b};
      }
    }

    /** kfree: an object goes back to the page it came from; a whole block loses a reference, and with the last one
        goes back to the page allocator. */
    method Kfree(addr: int, ghost o: Origin)
      requires Inv() && Holds(o, addr)
      modifies this`chains, slots, pa.Footprint(), pa.mem
      ensures Inv()
      ensures o.Object? ==> !Holds(o, addr) && Gave(old(Now()), Now(), o.d, o.k)
      ensures o.Object? ==> pa.v == old(pa.v) && pa.cnt[..] == old(pa.cnt[..])
      ensures o.Whole? ==> First(o.b) < pa.cnt.Length && Now() == old(Now())
      ensures o.Whole? ==> pa.cnt[..] == old(pa.cnt[..])[First(o.b) := old(pa.cnt[..])[First(o.b)] - 1]
      ensures o.Whole? && old(pa.cnt[..])[First(o.b)] == 1 ==>
        pa.v == ReleasedTo(old(pa.v), o.b, pa.m) && !Holds(o, addr)
      ensures o.Whole? && old(pa.cnt[..])[First(o.b)] != 1 ==> pa.v == old(pa.v) && Holds(o, addr)
      ensures forall x, a :: old(Holds(x, a)) && x != o ==> Holds(x, a) && Intact(x, old(pa.mem[..]), pa.mem[..])
    {
      var d := FindPage(addr);
      PageFound(o, addr, d);
      if d.Some? {
        assert o == Object(d.value, o.k);
        FreeObject(d.value, addr, o.k);
      } else {
        assert o == Whole(o.b);
        var r := FreeWhole(addr, o.b);
      }
    }

    /** A law: memory that is given back at once leaves the pool and the live objects as they were, but for a page that
        may have been opened. */
    method KmallocKfree(size: int) returns (ret: Option<int>)
      requires Inv()
      modifies this`frames, this`chains, slots, pa.Footprint(), pa.mem
      ensures Inv() && (ret.None? <==> old(Exhausted(size)))
      ensures size > Pow2(TYPES - 1) || !old(AllFull(ClassFor(size, 3))) ==> pa.v == old(pa.v)
      ensures size > Pow2(TYPES - 1) ==> Now() == old(Now())
      ensures forall e, l :: LiveObject(Now(), e, l) <==> LiveObject(old(Now()), e, l)
      ensures forall x, a :: old(Holds(x, a)) ==> Holds(x, a) && Intact(x, old(pa.mem[..]), pa.mem[..])
    {
      ghost var h, m := Now(), pa.mem[..];
      ghost var o;
      ret, o := Kmalloc(size);
      if ret.Some? {
        ghost var u, n := Now(), pa.mem[..];
        Kfree(ret.value, o);
        if o.Object? {
          GaveLive(u, Now(), o.d, o.k);
        }
        forall x: Origin, a | old(Holds(x, a)) ensures Intact(x, m, pa.mem[..]) {
          assert Intact(x, m, n) && Intact(x, n, pa.mem[..]);
        }
      }
    }

    /** An object lies within the frame of its page. */
    lemma ObjectRange(o: Origin, addr: int)
      requires Inv() && o.Object? && Holds(o, addr)
      ensures 3 <= ClassOf(o.d) < TYPES && frames[o.d] < pa.mem.Length
      ensures AddrOf(frames[o.d]) <= addr && addr + Extent(o) <= AddrOf(frames[o.d] + 1)
      ensures addr == AddrOf(frames[o.d]) + 8 * WordAt(ClassOf(o.d), o.k) && Extent(o) == 8 * Words(ClassOf(o.d))
    {
      Opened(o.d);
      ObjectFits(ClassOf(o.d), o.k);
      PowEight(ClassOf(o.d));
    }

    /** A whole block is the range of its frames, all of them in the pool. */
    lemma WholeRange(o: Origin, addr: int)
      requires Inv() && o.Whole? && Holds(o, addr)
      ensures addr == AddrOf(First(o.b)) && addr + Extent(o) == AddrOf(First(o.b) + Pow2(o.b.k))
      ensures First(o.b) + Pow2(o.b.k) <= pa.mem.Length
      ensures forall g: nat :: In(g, o.b) <==> First(o.b) <= g < First(o.b) + Pow2(o.b.k)
    {
      ValidAccounts(pa);
      BlockFits(o.b.q, o.b.k, pa.m);
      forall g: nat ensures In(g, o.b) <==> First(o.b) <= g < First(o.b) + Pow2(o.b.k) {
        ShrRange(g, o.b.q, o.b.k);
      }
    }

    lemma ObjectsDisjoint(x: Origin, a: int, y: Origin, b: int)
      requires Inv() && x.Object? && y.Object? && Holds(x, a) && Holds(y, b) && x != y
      ensures a + Extent(x) <= b || b + Extent(y) <= a
    {
      ObjectRange(x, a);
      ObjectRange(y, b);
      Open();
      LiveObjectsApart(pa.mem[..], pa.v.live, Now(), x.d, x.k, y.d, y.k);
    }

    lemma MixedDisjoint(x: Origin, a: int, y: Origin, b: int)
      requires Inv() && x.Object? && y.Whole? && Holds(x, a) && Holds(y, b)
      ensures a + Extent(x) <= b || b + Extent(y) <= a
    {
      ObjectRange(x, a);
      WholeRange(y, b);
      PagesHeld();
      var f := frames[x.d];
      if In(f, y.b) {
        BlockAlone(y.b, f, Block(f, 0));
        assert In(f, Block(f, 0));
      }
    }

    lemma WholesDisjoint(x: Origin, a: int, y: Origin, b: int)
      requires Inv() && x.Whole? && y.Whole? && Holds(x, a) && Holds(y, b) && x != y
      ensures a + Extent(x) <= b || b + Extent(y) <= a
    {
      WholeRange(x, a);
      WholeRange(y, b);
      if In(First(x.b), y.b) {
        FirstIn(x.b);
        BlockAlone(x.b, First(x.b), y.b);
      }
      if In(First(y.b), x.b) {
        FirstIn(y.b);
        BlockAlone(y.b, First(y.b), x.b);
      }
    }

    /** The memory of two holders never overlaps, and all of it lies in the pool. */
    lemma HoldersApart(x: Origin, a: int, y: Origin, b: int)
      requires Inv() && Holds(x, a) && Holds(y, b)
      ensures x != y ==> a + Extent(x) <= b || b + Extent(y) <= a
      ensures PAGE_INIT <= a && a + Extent(x) <= AddrOf(pa.mem.Length)
    {
      if x.Object? {
        ObjectRange(x, a);
        if y.Object? && x != y {
          ObjectsDisjoint(x, a, y, b);
        } else if y.Whole? {
          MixedDisjoint(x, a, y, b);
        }
      } else {
        WholeRange(x, a);
        if y.Object? {
          MixedDisjoint(y, b, x, a);
        } else if x != y {
          WholesDisjoint(x, a, y, b);
        }
      }
    }
  }
}
