// The address spaces and kmalloc on one page allocator: neither disturbs the other.
module SharedPool {
  import opened Dyadic
  import opened BlockTree
  import opened Machine
  import opened Translation
  import opened PageAllocator
  import opened PhysState
  import opened TableCounts
  import opened SlabHeap
  import opened SpaceView
  import opened Slab
  import opened Faults
  import opened Kernel
  import opened Areas
  import opened AreaList
  import Cow

  class SharedPool {
    const pa: PageAllocator
    const kernel: Kernel
    const slab: Slab

    ghost predicate Wired() {
      && kernel.vm.pa == pa && slab.pa == pa
      && kernel as object != slab && kernel.vm as object != slab
      && slab.slots as object != kernel && slab.slots as object != kernel.vm
    }

    /** Frame f is a table or a user page. */
    ghost predicate Own(f: nat)
      reads kernel.vm
    {
      f in kernel.vm.roles || f in kernel.vm.users
    }

    /** Both invariants hold, and no frame has two uses. */
    ghost predicate Inv()
      reads kernel, kernel.vm, slab, slab.slots, pa.Footprint(), pa.mem, kernel.vm.pa.Footprint(), kernel.vm.pa.mem,
            slab.pa.Footprint(), slab.pa.mem
    {
      Wired() && kernel.Inv() && slab.Inv() && forall f | Own(f) :: slab.NotAPage(Block(f, 0))
    }

    constructor (kernel: Kernel, slab: Slab)
      requires kernel.Inv() && slab.Inv() && kernel.vm.pa == slab.pa && kernel.pgds == []
      requires kernel as object != slab && kernel.vm as object != slab
      requires slab.slots as object != kernel && slab.slots as object != kernel.vm
      requires forall d | 0 <= d < SLOTS :: !slab.slots[d].used
      ensures this.kernel == kernel && this.slab == slab && pa == slab.pa && Inv()
    {
      this.pa, this.kernel, this.slab := slab.pa, kernel, slab;
    }

    // ----- the pages of kmalloc among the frames of the kernel

    /** Memory that kmalloc has handed out, and that is no table or user page. */
    ghost predicate Apart(o: Origin)
      reads kernel.vm
    {
      o.Whole? ==> forall f | Own(f) :: o.b != Block(f, 0)
    }

    /** All frames of the holder are foreign to the kernel in state p. */
    ghost predicate Outside(o: Origin, p: Phys)
      reads slab
    {
      match o
      case Nowhere => true
      case Object(d, _) => d < |slab.frames| && Foreign(p, slab.frames[d])
      case Whole(b) => forall g: nat | In(g, b) :: Foreign(p, g)
    }

    lemma OwnFrame(f: nat)
      requires Inv() && Own(f)
      ensures f < pa.mem.Length && Block(f, 0) in pa.v.live && f !in pa.v.free
      ensures slab.Holds(Whole(Block(f, 0)), AddrOf(First(Block(f, 0))))
      ensures forall b | b in pa.v.live && In(f, b) :: b == Block(f, 0)
    {
      kernel.Open();
      assert In(f, Block(f, 0));
      slab.BlockAlone(Block(f, 0), f, Block(f, 0));
      forall b | b in pa.v.live && In(f, b) ensures b == Block(f, 0) {
        slab.BlockAlone(Block(f, 0), f, b);
      }
    }

    /** The frames that objects come from are foreign to the kernel. */
    lemma PagesForeign()
      requires Inv()
      ensures forall d | 0 <= d < SLOTS && slab.slots[d].used :: Foreign(kernel.vm.Now(), slab.frames[d])
    {
      slab.PagesHeld();
      forall d | 0 <= d < SLOTS && slab.slots[d].used ensures Foreign(kernel.vm.Now(), slab.frames[d]) {
        slab.Opened(d);
      }
    }

    lemma HolderOutside(o: Origin, addr: int)
      requires Inv() && slab.Holds(o, addr) && Apart(o)
      ensures Outside(o, kernel.vm.Now())
    {
      PagesForeign();
      if o.Object? {
        slab.ObjectRange(o, addr);
        assert slab.Now().slots[o.d] == slab.slots[o.d];
      } else if o.Whole? {
        slab.WholeRange(o, addr);
        forall g: nat | In(g, o.b) ensures Foreign(kernel.vm.Now(), g) {
          slab.BlockAlone(o.b, g, o.b);
          if Own(g) {
            OwnFrame(g);
          }
        }
      }
    }

    /** What the slab allocator and its callers have in state p. */
    ghost predicate Before(p: Phys)
      reads kernel.vm, slab, slab.slots, slab.pa
    {
      && |slab.frames| == SLOTS && slab.slots.Length == SLOTS
      && HeapOk(p.mem, p.live, slab.Now())
      && (forall d | 0 <= d < SLOTS && slab.slots[d].used ::
            Foreign(p, slab.frames[d]) && Block(slab.frames[d], 0) in p.live)
      && (forall x, a | slab.Holds(x, a) && Apart(x) :: Outside(x, p) && (x.Object? ==> 3 <= ClassOf(x.d)))
    }

    lemma Prepare()
      requires Inv()
      ensures Before(kernel.vm.Now())
    {
      slab.Open();
      PagesForeign();
      slab.PagesHeld();
      forall x, a | slab.Holds(x, a) && Apart(x)
        ensures Outside(x, kernel.vm.Now()) && (x.Object? ==> 3 <= ClassOf(x.d)) {
        HolderOutside(x, a);
        if x.Object? {
          slab.ObjectRange(x, a);
        }
      }
    }

    /** An operation of the kernel that has left the frames of others alone has left the slab allocator alone. */
    lemma SlabStays(p: Phys)
      requires Wired() && slab.Apart() && Sized(slab.Now()) && kernel.vm.Inv() && pa.mem.Length <= 0x8_0000
      requires |p.mem| == pa.mem.Length && OthersKept(p, kernel.vm.Now()) && HeapOk(p.mem, p.live, slab.Now())
      requires forall d | 0 <= d < SLOTS && slab.slots[d].used ::
        Foreign(p, slab.frames[d]) && Block(slab.frames[d], 0) in p.live
      ensures slab.Inv() && forall f | Own(f) :: slab.NotAPage(Block(f, 0))
    {
      OpenOthers(p, kernel.vm.Now());
      slab.Undisturbed(p.mem, p.live);
    }

    /** The caller still has its memory, with the contents of m. */
    ghost predicate StillHolds(o: Origin, addr: int, m: Mem)
      requires slab.slots.Length == SLOTS
      reads kernel.vm, slab, slab.slots, slab.pa, pa.mem
    {
      slab.Holds(o, addr) && Apart(o) && slab.Intact(o, m, pa.mem[..])
    }

    lemma HolderStays(p: Phys, o: Origin)
      requires Wired() && Outside(o, p) && OthersKept(p, kernel.vm.Now()) && (o.Object? ==> 3 <= ClassOf(o.d))
      ensures slab.Intact(o, p.mem, pa.mem[..]) && (o.Whole? && o.b in p.live ==> o.b in pa.v.live) && Apart(o)
    {
      OpenOthers(p, kernel.vm.Now());
      forall f | Own(f) && o.Whole? ensures o.b != Block(f, 0) {
        assert In(f, Block(f, 0));
      }
    }

    // ----- kmalloc and kfree beside the kernel

    lemma KernelStays(p: Phys, v: Cow.State)
      requires Wired() && kernel.Apart() && kernel.vm !in pa.Footprint() && pa.Valid()
      requires Sound(p) && Roots(p, kernel.pgds) && v == ViewOf(p, kernel.pgds) && Cow.Good(v, kernel.log)
      requires p.roles == kernel.vm.roles && p.users == kernel.vm.users && |p.mem| == pa.mem.Length == pa.cnt.Length
      requires forall f: nat | Own(f) && f < |p.mem| ::
        p.mem[f] == pa.mem[f] && p.cnt[f] == pa.cnt[f] && Block(f, 0) in pa.v.live
      ensures kernel.Inv() && kernel.View() == v
    {
      PoolView(p, kernel.vm.Now(), kernel.pgds);
      kernel.Open();
    }

    /** The frames of the kernel are as they were in state p: their holder is the kernel. */
    lemma OwnStays(p: Phys, f: nat)
      requires Wired() && slab.Inv() && Own(f) && f < |p.mem| == pa.mem.Length
      requires StillHolds(Whole(Block(f, 0)), AddrOf(First(Block(f, 0))), p.mem) ||
        (slab.Holds(Whole(Block(f, 0)), AddrOf(First(Block(f, 0)))) &&
          slab.Intact(Whole(Block(f, 0)), p.mem, pa.mem[..]))
      ensures pa.mem[f] == p.mem[f] && Block(f, 0) in pa.v.live && slab.NotAPage(Block(f, 0))
    {
      assert In(f, Block(f, 0));
      forall i | 0 <= i < 512 ensures pa.mem[f][i] == p.mem[f][i] {
        assert Read(pa.mem[..], f, i) == Read(p.mem, f, i);
      }
    }

    /** kmalloc: as Slab.Kmalloc says, and the kernel does not notice. */
    method Kmalloc(size: int) returns (ret: Option<int>, ghost o: Origin)
      requires Inv()
      modifies slab`frames, slab`chains, slab.slots, pa.Footprint(), pa.mem
      ensures Inv() && kernel.View() == old(kernel.View())
      ensures ret.None? <==> old(slab.Exhausted(size))
      ensures ret.None? ==> pa.v == old(pa.v)
      ensures ret.Some? ==> slab.Holds(o, ret.value) && slab.Cleared(o) && Apart(o)
      ensures ret.Some? ==> (slab.Extent(o) >= size <==> size <= Pow2(pa.m) * PAGE_SIZE)
      ensures ret.Some? ==> if size <= Pow2(TYPES - 1) then o.Object? && ClassOf(o.d) == ClassFor(size, 3)
                            else o.Whole? && o.b.k == OrderFor(size, pa.m, 0)
      ensures o.Whole? ==> TookBlock(old(pa.v), pa.v, o.b, pa.cnt[..], pa.m)
      ensures size > Pow2(TYPES - 1) ==> slab.Now() == old(slab.Now())
      ensures o.Object? ==> OneMore(old(slab.Now()), slab.Now(), o.d, o.k) && o.d < |slab.frames|
      ensures o.Object? ==>
        if old(slab.AllFull(ClassOf(o.d))) then OneGranted(old(pa.v), pa.v, slab.frames[o.d]) else pa.v == old(pa.v)
      ensures forall x, a :: old(slab.Holds(x, a)) ==>
        slab.Holds(x, a) && x != o && slab.Intact(x, old(pa.mem[..]), pa.mem[..])
    {
      ghost var p, v := kernel.vm.Now(), kernel.View();
      kernel.Open();
      forall f | Own(f) ensures f !in pa.v.free
        ensures slab.Holds(Whole(Block(f, 0)), AddrOf(First(Block(f, 0)))) {
        OwnFrame(f);
      }
      ret, o := slab.Kmalloc(size);
      forall f: nat | Own(f) ensures pa.mem[f] == p.mem[f] && Block(f, 0) in pa.v.live && slab.NotAPage(Block(f, 0)) {
        OwnStays(p, f);
      }
      KernelStays(p, v);
    }

    /** kfree: as Slab.Kfree says, and the kernel does not notice. */
    method Kfree(addr: int, ghost o: Origin)
      requires Inv() && slab.Holds(o, addr) && Apart(o)
      modifies slab`chains, slab.slots, pa.Footprint(), pa.mem
      ensures Inv() && kernel.View() == old(kernel.View())
      ensures o.Object? ==> !slab.Holds(o, addr) && Gave(old(slab.Now()), slab.Now(), o.d, o.k)
      ensures o.Object? ==> pa.v == old(pa.v) && pa.cnt[..] == old(pa.cnt[..])
      ensures o.Whole? ==> First(o.b) < pa.cnt.Length && slab.Now() == old(slab.Now())
      ensures o.Whole? ==> pa.cnt[..] == old(pa.cnt[..])[First(o.b) := old(pa.cnt[..])[First(o.b)] - 1]
      ensures o.Whole? && old(pa.cnt[..])[First(o.b)] == 1 ==>
        pa.v == ReleasedTo(old(pa.v), o.b, pa.m) && !slab.Holds(o, addr)
      ensures o.Whole? && old(pa.cnt[..])[First(o.b)] != 1 ==> pa.v == old(pa.v) && slab.Holds(o, addr)
      ensures forall x, a :: old(slab.Holds(x, a)) && x != o ==>
        slab.Holds(x, a) && slab.Intact(x, old(pa.mem[..]), pa.mem[..])
    {
      ghost var p, v := kernel.vm.Now(), kernel.View();
      kernel.Open();
      forall f | Own(f) ensures Whole(Block(f, 0)) != o && (o.Whole? ==> f != First(o.b))
        ensures slab.Holds(Whole(Block(f, 0)), AddrOf(First(Block(f, 0)))) {
        OwnFrame(f);
        if o.Whole? {
          FirstIn(o.b);
        }
      }
      slab.Kfree(addr, o);
      forall f: nat | Own(f) ensures pa.mem[f] == p.mem[f] && Block(f, 0) in pa.v.live && slab.NotAPage(Block(f, 0)) {
        OwnStays(p, f);
      }
      KernelStays(p, v);
    }

    // ----- the kernel beside kmalloc: all that kmalloc has handed out stays, and so do its contents

    /** A new process. */
    method Spawn() returns (ok: bool)
      requires Inv()
      modifies kernel, kernel.vm, pa.Footprint(), pa.mem
      ensures Inv() && slab.Inv()
      ensures ok <==> old(pa.v.free) != {}
      ensures ok ==> Cow.Step(old(kernel.View()), Cow.Spawn, kernel.View())
      ensures ok ==> kernel.log == old(kernel.log) + [Cow.Spawn]
      ensures !ok ==> kernel.log == old(kernel.log) && kernel.vm.Now() == old(kernel.vm.Now())
      ensures forall x, a :: old(slab.Holds(x, a) && Apart(x)) ==> StillHolds(x, a, old(pa.mem[..]))
    {
      ghost var p := kernel.vm.Now();
      Prepare();
      ok := kernel.Spawn();
      SlabStays(p);
      forall x, a | old(slab.Holds(x, a) && Apart(x)) ensures StillHolds(x, a, p.mem) {
        HolderStays(p, x);
      }
    }

    /** Fork. */
    method Fork(pid: nat) returns (ok: bool)
      requires Inv() && pid < |kernel.pgds|
      modifies kernel, kernel.vm, pa.Footprint(), pa.mem
      ensures slab.Inv()
      ensures ok <==> 1 + old(kernel.TablesOf(pid)) <= old(kernel.Free())
      ensures ok ==> Inv() && Cow.Step(old(kernel.View()), Cow.Fork(pid), kernel.View())
      ensures ok ==> kernel.log == old(kernel.log) + [Cow.Fork(pid)]
      ensures forall x, a :: old(slab.Holds(x, a) && Apart(x)) ==> StillHolds(x, a, old(pa.mem[..]))
    {
      ghost var p := kernel.vm.Now();
      Prepare();
      ok := kernel.Fork(pid);
      SlabStays(p);
      forall x, a | old(slab.Holds(x, a) && Apart(x)) ensures StillHolds(x, a, p.mem) {
        HolderStays(p, x);
      }
    }

    /** A fault. */
    method MemAbort(pid: nat, areas: AreaList, esr: nat, addr: nat) returns (out: Outcome)
      requires Inv() && kernel.Faulted(pid, addr) && areas.Valid()
      modifies kernel`log, kernel.vm, pa.Footprint(), pa.mem
      ensures slab.Inv()
      ensures out != NoMemory ==> Inv()
      ensures out == old(kernel.Verdict(pid, esr, addr, areas.areas))
      ensures Answered(old(kernel.View()), kernel.View(), old(areas.areas), pid, esr, addr, old(kernel.Free()), out,
        pa.v.free == old(pa.v.free), old(kernel.log), kernel.log)
      ensures forall x, a :: old(slab.Holds(x, a) && Apart(x)) ==> StillHolds(x, a, old(pa.mem[..]))
    {
      ghost var p := kernel.vm.Now();
      Prepare();
      out := kernel.MemAbort(pid, areas, esr, addr);
      SlabStays(p);
      forall x, a | old(slab.Holds(x, a) && Apart(x)) ensures StillHolds(x, a, p.mem) {
        HolderStays(p, x);
      }
    }

    /** A load by a process: nothing changes but the log. */
    method Load(pid: nat, v: nat, i: nat) returns (x: Option<Word>)
      requires Inv() && pid < |kernel.pgds| && i < 512
      modifies kernel`log, kernel.vm, pa.Footprint(), pa.mem
      ensures Inv() && kernel.View() == old(kernel.View()) && kernel.vm.Now() == old(kernel.vm.Now())
      ensures x.Some? <==> v in kernel.View().spaces[pid]
      ensures kernel.log == if x.Some? then old(kernel.log) + [Cow.Load(pid, v, i)] else old(kernel.log)
      ensures x.Some? ==> x.value == Cow.Contents(Cow.EagerRun(old(kernel.log)), pid, v)[i]
      ensures forall y, a :: old(slab.Holds(y, a) && Apart(y)) ==> StillHolds(y, a, old(pa.mem[..]))
    {
      ghost var p := kernel.vm.Now();
      Prepare();
      x := kernel.Load(pid, v, i);
      OthersSame(p);
      SlabStays(p);
      forall y, a | old(slab.Holds(y, a) && Apart(y)) ensures StillHolds(y, a, p.mem) {
        HolderStays(p, y);
      }
    }

    /** A store by a process. */
    method Store(pid: nat, v: nat, i: nat, x: Word) returns (ok: bool)
      requires Inv() && pid < |kernel.pgds| && i < 512
      modifies kernel`log, kernel.vm, pa.Footprint(), pa.mem
      ensures Inv() && slab.Inv() && (ok <==> MayStore(old(kernel.View()), pid, v))
      ensures ok ==> Cow.Step(old(kernel.View()), Cow.Store(pid, v, i, x), kernel.View())
      ensures kernel.log == if ok then old(kernel.log) + [Cow.Store(pid, v, i, x)] else old(kernel.log)
      ensures !ok ==> kernel.vm.Now() == old(kernel.vm.Now())
      ensures forall y, a :: old(slab.Holds(y, a) && Apart(y)) ==> StillHolds(y, a, old(pa.mem[..]))
    {
      ghost var p := kernel.vm.Now();
      Prepare();
      ok := kernel.Store(pid, v, i, x);
      SlabStays(p);
      forall y, a | old(slab.Holds(y, a) && Apart(y)) ensures StillHolds(y, a, p.mem) {
        HolderStays(p, y);
      }
    }

    /** exec. */
    method ExecImage(pid: nat, chunks: seq<Page>, len: nat) returns (ok: bool)
      requires Inv() && pid < |kernel.pgds| && len < 0x8000_0000 && |chunks| == len / PAGE_SIZE + 1
      modifies kernel`log, kernel.vm, pa.Footprint(), pa.mem
      ensures Inv() && slab.Inv()
      ensures ok <==>
        len / PAGE_SIZE + 1 + |Absent(old(pa.mem[..]), kernel.pgds[pid], 0, ImagePages(len))| <= old(kernel.Free())
      ensures ok ==> kernel.log == old(kernel.log) + ExecEvents(pid, chunks, ImagePages(len), len / PAGE_SIZE + 1)
      ensures forall x, a :: old(slab.Holds(x, a) && Apart(x)) ==> StillHolds(x, a, old(pa.mem[..]))
    {
      ghost var p := kernel.vm.Now();
      Prepare();
      ok := kernel.ExecImage(pid, chunks, len);
      SlabStays(p);
      forall x, a | old(slab.Holds(x, a) && Apart(x)) ensures StillHolds(x, a, p.mem) {
        HolderStays(p, x);
      }
    }
  }
}
