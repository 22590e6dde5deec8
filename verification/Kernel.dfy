// The kernel's view of its processes: page tables, demand paging, copy-on-write and fork on real
// memory, each operation proved to be a step of the copy-on-write machine.
module Kernel {
  import opened BlockTree
  import opened Machine
  import opened Translation
  import opened PhysState
  import opened TableCounts
  import opened CopySpec
  import opened SpaceView
  import opened Vm
  import opened Areas
  import opened AreaList
  import opened Faults
  import Cow

  const RW_PAGE := PT_AF + PT_USER
  const RO_PAGE := PT_AF + PT_USER + PT_RO

  class Kernel {
    const vm: Vm
    var pgds: seq<nat>
    ghost var log: seq<Cow.Event>

    ghost predicate Apart() {
      this !in vm.pa.Footprint() && this != vm as object
    }

    ghost predicate Rooted(layers: nat := 4)
      reads `pgds, vm, vm.pa.Footprint(), vm.pa.mem
    {
      Apart() && vm.Inv() && if layers == 0 then Roots(vm.Now(), pgds) else Rooted(layers - 1)
    }

    /** The state of the machine, wrapped like the invariants below it. */
    ghost function View(layers: nat := 4): (v: Cow.State)
      reads `pgds, vm, vm.pa, vm.pa.mem, vm.pa.cnt
      ensures |v.spaces| == |pgds|
    {
      if layers == 0 then ViewOf(vm.Now(), pgds) else View(layers - 1)
    }

    lemma {:induction false} Unwrap(layers: nat)
      ensures Rooted(layers) <==> Apart() && vm.Inv() && Roots(vm.Now(), pgds)
      ensures View(layers) == ViewOf(vm.Now(), pgds)
    {
      if layers > 0 {
        Unwrap(layers - 1);
      }
    }

    lemma Open()
      ensures Rooted() <==> Apart() && vm.Inv() && Roots(vm.Now(), pgds)
      ensures View() == ViewOf(vm.Now(), pgds)
      ensures Held(vm.Now()) <==> Sound(vm.Now())
    {
      Unwrap(4);
      vm.Open();
    }

    /** What Cow.Reached says of the state and the steps so far: the machine invariant holds, the processes see
        what eager fork would have given them, and counts are exact if and only if the log is tidy. */
    ghost predicate Inv()
      reads this, vm, vm.pa.Footprint(), vm.pa.mem
    {
      Rooted() && Cow.Good(View(), log)
    }

    /** The number of free frames. */
    ghost function Free(): nat
      reads vm.pa
    {
      |vm.pa.v.free|
    }

    /** The number of tables that a process lacks on the way to a page. */
    ghost function Lacking(pid: nat, v: nat): nat
      requires pid < |pgds|
      reads `pgds, vm.pa, vm.pa.mem
    {
      Missing(vm.pa.mem[..], pgds[pid], TOP, Alias(v))
    }

    /** The number of tables, without the root, that a process has. */
    ghost function TablesOf(pid: nat): nat
      requires pid < |pgds|
      reads `pgds, vm.pa, vm.pa.mem
    {
      Tables(vm.pa.mem[..], pgds[pid], TOP, 512)
    }

    constructor (vm: Vm)
      requires vm.Inv() && vm.roles == map[] && vm.users == {}
      ensures this.vm == vm && pgds == [] && log == [] && Inv()
    {
      this.vm := vm;
      pgds, log := [], [];
      new;
      EmptyView(vm.Now());
      Open();
    }

    /** alloc_pages(0) for a user page. */
    method NewUserPage() returns (f: Option<nat>)
      requires Rooted()
      modifies vm, vm.pa.Footprint(), vm.pa.mem
      ensures Rooted() && (f.Some? <==> old(vm.pa.v.free) != {})
      ensures f.None? ==> vm.Now() == old(vm.Now()) && View() == old(View())
      ensures f.Some? ==> Cow.Fresh(old(View()), f.value) && vm.users == old(vm.users) + {f.value}
      ensures f.Some? ==> View() == Cow.Spare(old(View()), f.value, ZeroPage())
      ensures f.Some? ==> Free() + 1 == old(Free()) && SameTables(old(vm.Now()), vm.Now())
      ensures OthersKept(old(vm.Now()), vm.Now())
    {
      ghost var s := vm.Now();
      Open();
      f := vm.NewUser();
      if f.Some? {
        NewPageTables(s, vm.Now(), f.value);
        NewPageView(s, vm.Now(), f.value, pgds);
      }
      Open();
    }

    /** memcpy of a whole page into a user page. */
    method CopyInto(f: nat, page: Page)
      requires Rooted() && f in vm.users
      modifies vm.pa.mem
      ensures Rooted() && View() == Cow.State(old(View()).spaces, old(View()).data[f := page], old(View()).cnt)
      ensures SameTables(old(vm.Now()), vm.Now()) && OthersKept(old(vm.Now()), vm.Now())
    {
      ghost var s := vm.Now();
      Open();
      vm.FillUser(f, page);
      UserWriteTables(s, vm.Now());
      FillView(s, vm.Now(), pgds, f, page);
      Open();
    }

    /** The tables that mappages of at most one page needs. */
    lemma NeededForOne(pid: nat, v: nat, size: nat)
      requires pid < |pgds| && v < PAGES64 && size <= PAGE_SIZE
      ensures |vm.Needed(pgds[pid], v * PAGE_SIZE, size)| == if size == 0 then 0 else Lacking(pid, v)
    {
      OnePageRange(v, size);
      AbsentOne(vm.pa.mem[..], pgds[pid], v);
      if size == 0 {
        assert vm.Needed(pgds[pid], v * PAGE_SIZE, size) == {};
      }
    }

    /** mappages of at most one page, any page v of the 64-bit address space. */
    method MapFrame(pid: nat, v: nat, size: nat, f: nat, perm: nat) returns (ok: bool)
      requires Rooted() && pid < |pgds| && v < PAGES64 && size <= PAGE_SIZE && f in vm.users
      requires perm == RW_PAGE || perm == RO_PAGE
      modifies vm, vm.pa.Footprint(), vm.pa.mem
      ensures Rooted() && (ok <==> size == 0 || old(Lacking(pid, v)) <= old(Free()))
      ensures !ok ==> vm.pa.v.free == {} && View() == old(View())
      ensures ok ==> View() == if size == 0 then old(View())
        else Entered(old(View()), pid, Alias(v), Cow.Entry(f, ReadOnly(Pte(f, perm + PT_PAGE))))
      ensures ok ==> Spent(old(vm.Now()), vm.Now(), pgds[pid], v, if size == 0 then v else v + 1)
      ensures OthersKept(old(vm.Now()), vm.Now())
    {
      ghost var s := vm.Now();
      Open();
      assert IsRoot(vm.roles, pgds[pid]);
      PermParts(f, perm);
      UserPteWord(f, perm == RO_PAGE);
      OnePageRange(v, size);
      NeededForOne(pid, v, size);
      ghost var done;
      ok, done := vm.MapPages(pgds[pid], v * PAGE_SIZE, size, f, perm);
      if done == 1 {
        MapsOneView(s, vm.Now(), pgds, pid, v, f, perm + PT_PAGE);
      } else {
        MapsNoneView(s, vm.Now(), pgds, pgds[pid], v, f, perm + PT_PAGE);
      }
      Open();
    }

    /** page->reference_cnt-- */
    method DropReference(g: nat)
      requires Rooted() && g in View().cnt && View().cnt[g] > 1
      modifies vm.pa.Footprint()
      ensures Rooted() && View() == Cow.Dropped(old(View()), g)
      ensures vm.Now().mem == old(vm.Now().mem) && Free() == old(Free())
      ensures vm.pa.v.free == old(vm.pa.v.free) && OthersKept(old(vm.Now()), vm.Now())
    {
      ghost var s := vm.Now();
      Open();
      assert Block(g, 0) in s.live;
      vm.pa.DropRef(g);
      DropView(s, vm.Now(), pgds, g);
      OthersInPlace(s, vm.Now());
      Open();
    }

    /** A frame that a user has: what memory holds is what the view shows. */
    lemma UserPage(f: nat)
      requires Rooted() && f in vm.users
      ensures f < vm.pa.mem.Length && f < vm.pa.cnt.Length && f in View().data && f in View().cnt
      ensures View().data[f] == vm.pa.mem[f] && View().cnt[f] == vm.pa.cnt[f]
    {
      Open();
    }

    /** The entry that a walk for a page ends at. */
    lemma EntryAt(pid: nat, vpn: nat, pte: Option<nat>)
      requires Rooted() && pid < |pgds| && vpn < VPAGES && Bottom(vm.pa.mem[..], pgds[pid], TOP, vpn) == pte
      ensures IsRoot(vm.roles, pgds[pid])
      ensures pte.Some? ==> pte.value < vm.pa.mem.Length && 0 <= Px(0, vpn) < 512
      ensures pte.None? ==> vpn !in View().spaces[pid]
      ensures pte.Some? ==> var e := Read(vm.pa.mem[..], pte.value, Px(0, vpn));
        && (Present(e) <==> vpn in View().spaces[pid])
        && (Present(e) ==> Descriptor(e) && UserWord(e) && Target(e) in vm.users)
        && (Present(e) ==> View().spaces[pid][vpn] == Cow.Entry(Target(e), ReadOnly(e)))
        && (!Present(e) ==> e == 0)
    {
      Open();
      EntryFound(vm.Now(), pgds, pid, vpn, pte);
      UpSplit(vpn, 0);
    }

    /** The word behind a page of a process: its frame, PT_AF, PT_USER, and PT_RO where it is read-only. */
    lemma EntryWord(pid: nat, vpn: nat)
      requires Rooted() && pid < |pgds| && vpn < VPAGES
      ensures Lookup(vm.pa.mem[..], pgds[pid], vpn) ==
        if vpn in View().spaces[pid] then Some(UserPte(View().spaces[pid][vpn].frame, View().spaces[pid][vpn].ro))
        else None
    {
      Open();
      EntryView(vm.Now(), pgds, pid, vpn);
    }

    /** Where a page is mapped no table is missing. */
    lemma NothingLacks(pid: nat, vpn: nat)
      requires Rooted() && pid < |pgds| && vpn < VPAGES && vpn in View().spaces[pid]
      ensures Lacking(pid, vpn) == 0
    {
      Open();
      EntryView(vm.Now(), pgds, pid, vpn);
    }

    /** walk for any page v of a process, which ends at the entry of its alias. Where that page is mapped, or without
        alloc, nothing changes at all. */
    method FindEntry(pid: nat, v: nat, alloc: bool) returns (pte: Option<nat>)
      requires Rooted() && pid < |pgds|
      modifies vm, vm.pa.Footprint(), vm.pa.mem
      ensures Rooted() && View() == old(View())
      ensures !alloc || Alias(v) in View().spaces[pid] ==> vm.Now() == old(vm.Now())
      ensures Bottom(vm.pa.mem[..], pgds[pid], TOP, Alias(v)) == pte
      ensures alloc ==> (pte.Some? <==> old(Lacking(pid, v)) <= old(Free()))
      ensures OthersKept(old(vm.Now()), vm.Now())
    {
      ghost var s := vm.Now();
      Open();
      EntryView(s, pgds, pid, Alias(v));
      assert IsRoot(vm.roles, pgds[pid]);
      ghost var n;
      pte, n := vm.Walk(pgds[pid], v, alloc, Alias(v));
      if !alloc || Alias(v) in ViewOf(s, pgds).spaces[pid] {
        WalkedSame(s, vm.Now(), n, pgds[pid], Alias(v));
      }
      WalkedView(s, vm.Now(), n, pgds[pid], Alias(v), pgds);
      Open();
    }

    /** What the translation tables of a process say about a page v: about its alias. */
    method Translate(pid: nat, v: nat, alloc: bool) returns (pte: Option<nat>, e: Word)
      requires Rooted() && pid < |pgds|
      modifies vm, vm.pa.Footprint(), vm.pa.mem
      ensures Rooted() && View() == old(View())
      ensures !alloc || Alias(v) in View().spaces[pid] ==> vm.Now() == old(vm.Now())
      ensures Bottom(vm.pa.mem[..], pgds[pid], TOP, Alias(v)) == pte
      ensures alloc ==> (pte.Some? <==> old(Lacking(pid, v)) <= old(Free()))
      ensures Present(e) <==> Alias(v) in View().spaces[pid]
      ensures Present(e) ==> pte.Some? && Descriptor(e) && UserWord(e)
      ensures Present(e) ==> 0 <= Target(e) < vm.pa.mem.Length && Target(e) in vm.users
      ensures Present(e) ==> View().spaces[pid][Alias(v)] == Cow.Entry(Target(e), ReadOnly(e))
      ensures !Present(e) ==> !ReadOnly(e)
      ensures OthersKept(old(vm.Now()), vm.Now())
    {
      pte := FindEntry(pid, v, alloc);
      EntryAt(pid, Alias(v), pte);
      PxAlias(0, v);
      e := if pte.Some? then vm.pa.mem[pte.value][Px(0, v)] else 0;
      if Present(e) {
        UserPage(Target(e));
      }
    }

    /** One more step of the log. */
    ghost method Record(s: Cow.State, e: Cow.Event)
      requires Rooted() && Cow.Good(s, log) && Cow.Step(s, e, View())
      modifies this`log
      ensures Inv() && log == old(log) + [e]
    {
      Cow.StepGood(s, log, e, View());
      log := log + [e];
    }

    // ----- user accesses

    /** The entries of a process are all below 2^48. */
    lemma PagesLow()
      requires Rooted()
      ensures LowPages(View())
    {
      Open();
    }

    /** A load by a process, from word i of page v; None is a translation fault. The hardware uses the tables of the
        process for pages below 2^48 only. */
    method Load(pid: nat, v: nat, i: nat) returns (x: Option<Word>)
      requires Inv() && pid < |pgds| && i < 512
      modifies this`log, vm, vm.pa.Footprint(), vm.pa.mem
      ensures Inv() && pgds == old(pgds) && View() == old(View()) && vm.Now() == old(vm.Now())
      ensures x.Some? <==> v in View().spaces[pid]
      ensures log == if x.Some? then old(log) + [Cow.Load(pid, v, i)] else old(log)
      ensures x.Some? ==> x.value == Cow.Contents(Cow.EagerRun(old(log)), pid, v)[i]
    {
      ghost var s := View();
      PagesLow();
      assert Cow.PageEntry(s, pid, v).Some? <==> v in s.spaces[pid];
      if v >= VPAGES {
        return None;
      }
      var pte, e := Translate(pid, v, false);
      if !Present(e) {
        return None;
      }
      UserPage(Target(e));
      x := Some(vm.pa.mem[Target(e)][i]);
      Cow.GoodContents(s, log, pid, v);
      Record(s, Cow.Load(pid, v, i));
    }

    /** One word of a user page is written. */
    method StoreWord(f: nat, i: nat, x: Word)
      requires Rooted() && f in vm.users && i < 512
      modifies vm.pa.mem
      ensures Rooted() && f in old(View()).data
      ensures View() == Cow.State(old(View()).spaces, old(View()).data[f := old(View()).data[f][i := x]],
        old(View()).cnt)
      ensures OthersKept(old(vm.Now()), vm.Now())
    {
      ghost var p := vm.Now();
      Open();
      vm.pa.mem[f] := vm.pa.mem[f][i := x];
      assert vm.pa.mem[..] == Put(p.mem, f, i, x);
      StoreView(p, vm.Now(), pgds, f, i, x);
      OthersInPlace(p, vm.Now());
      Open();
    }

    /** A store by a process; false is a fault. */
    method Store(pid: nat, v: nat, i: nat, x: Word) returns (ok: bool)
      requires Inv() && pid < |pgds| && i < 512
      modifies this`log, vm, vm.pa.Footprint(), vm.pa.mem
      ensures Inv() && pgds == old(pgds) && (ok <==> MayStore(old(View()), pid, v))
      ensures if ok then Cow.Step(old(View()), Cow.Store(pid, v, i, x), View()) else vm.Now() == old(vm.Now())
      ensures !ok ==> View() == old(View())
      ensures log == if ok then old(log) + [Cow.Store(pid, v, i, x)] else old(log)
      ensures ok ==> Cow.HasPage(View(), pid, v) && Cow.Loaded(View(), pid, v, i) == x
      ensures OthersKept(old(vm.Now()), vm.Now())
    {
      ghost var s, p := View(), vm.Now();
      OthersSame(p);
      PagesLow();
      assert Cow.PageEntry(s, pid, v).Some? <==> v in s.spaces[pid];
      if v >= VPAGES {
        return false;
      }
      var pte, e := Translate(pid, v, false);
      if !Present(e) || ReadOnly(e) {
        return false;
      }
      Cow.GoodContents(s, log, pid, v);
      StoreWord(Target(e), i, x);
      Record(s, Cow.Store(pid, v, i, x));
      ok := true;
    }

    // ----- processes

    /** The root table of a new process: the kmalloc(4096) of init_mm. */
    method NewRoot() returns (g: Option<nat>)
      requires Rooted()
      modifies vm, vm.pa.Footprint(), vm.pa.mem
      ensures Rooted() && View() == old(View()) && (g.Some? <==> old(vm.pa.v.free) != {})
      ensures g.None? ==> vm.Now() == old(vm.Now())
      ensures g.Some? ==> Blank(vm.pa.mem[..], g.value) && Roots(vm.Now(), pgds + [g.value])
      ensures g.Some? ==> ViewOf(vm.Now(), pgds + [g.value]) == Cow.State(View().spaces + [map[]], View().data,
        View().cnt)
      ensures g.Some? ==> Free() + 1 == old(Free()) && forall p: nat | p < |pgds| :: TablesOf(p) == old(TablesOf(p))
      ensures OthersKept(old(vm.Now()), vm.Now())
    {
      ghost var s := vm.Now();
      Open();
      OthersSame(s);
      g := vm.NewFrame();
      if g.Some? {
        ghost var t := vm.Now();
        AllocatedOk(s, t, g.value);
        ExtendsView(s, t, pgds);
        forall p: nat | p < |pgds| ensures TablesOf(p) == old(TablesOf(p)) {
          assert IsRoot(s.roles, pgds[p]);
          AllocatedTrees(s, t, g.value, pgds[p]);
        }
        assert Block(g.value, 0) in t.live;
        vm.roles := vm.roles[g.value := Role(g.value, TOP, 0)];
        RootedOk(t, vm.Now(), g.value, pgds);
        RootsAre(t, vm.Now(), pgds);
        SpacesPrefix(vm.Now(), pgds, g.value);
        RootOthers(s, t, vm.Now(), g.value);
      }
      Open();
    }

    /** The tree of root g becomes that of a new process, which is step e of the machine. */
    method AddProcess(g: nat, ghost s: Cow.State, ghost e: Cow.Event)
      requires Apart() && vm.Inv() && Roots(vm.Now(), pgds + [g])
      requires Cow.Good(s, log) && Cow.Step(s, e, ViewOf(vm.Now(), pgds + [g]))
      modifies this
      ensures Inv() && pgds == old(pgds) + [g] && log == old(log) + [e] && Cow.Step(s, e, View())
    {
      Cow.StepGood(s, log, e, ViewOf(vm.Now(), pgds + [g]));
      pgds, log := pgds + [g], log + [e];
      Unwrap(4);
    }

    /** A process with an empty address space, if there is a frame for its root table. */
    method Spawn() returns (ok: bool)
      requires Inv()
      modifies this, vm, vm.pa.Footprint(), vm.pa.mem
      ensures Inv() && (ok <==> old(vm.pa.v.free) != {})
      ensures ok ==> Cow.Step(old(View()), Cow.Spawn, View()) && log == old(log) + [Cow.Spawn]
      ensures !ok ==> vm.Now() == old(vm.Now()) && log == old(log) && pgds == old(pgds)
      ensures OthersKept(old(vm.Now()), vm.Now())
    {
      ghost var s := View();
      var g := NewRoot();
      if g.None? {
        return false;
      }
      AddProcess(g.value, s, Cow.Spawn);
      ok := true;
    }

    /** copy_page_table from the tree of a process into the blank tree of root g. */
    method CopySpace(pid: nat, g: nat) returns (ok: bool)
      requires Rooted() && pid < |pgds| && Roots(vm.Now(), pgds + [g]) && Blank(vm.pa.mem[..], g)
      modifies vm, vm.pa.Footprint(), vm.pa.mem
      ensures ok <==> old(TablesOf(pid)) <= old(Free())
      ensures ok ==> Apart() && vm.Inv() && Roots(vm.Now(), pgds + [g])
      ensures ok ==> ViewOf(vm.Now(), pgds + [g]) == Cow.Forked(old(View()), pid)
      ensures ok ==> Free() + old(TablesOf(pid)) == old(Free())
      ensures !ok ==> vm.pa.v.free == {}
      ensures OthersKept(old(vm.Now()), vm.Now()) && vm.Inv()
    {
      ghost var p := vm.Now();
      Open();
      ForkStart(p, pgds, pid, g);
      ghost var k := TreeCopy(g, pgds[pid]);
      ok := vm.CopyPageTable(g, pgds[pid], TOP, k);
      if ok {
        OpenCopying(p, vm.Now(), k, 512);
        ForkView(p, vm.Now(), pgds, pid, g);
      }
    }

    /** The page-table part of __fork: a new root, then a copy of the tables, which succeeds exactly when there are
        frames for all of them. The list of areas is copied between the two, by AreaList.CopyVma. */
    method Fork(pid: nat) returns (ok: bool)
      requires Inv() && pid < |pgds|
      modifies this, vm, vm.pa.Footprint(), vm.pa.mem
      ensures ok <==> 1 + old(TablesOf(pid)) <= old(Free())
      ensures ok ==> Inv() && Cow.Step(old(View()), Cow.Fork(pid), View()) && log == old(log) + [Cow.Fork(pid)]
      ensures ok ==> Free() + 1 + old(TablesOf(pid)) == old(Free())
      ensures !ok ==> vm.pa.v.free == {}
      ensures OthersKept(old(vm.Now()), vm.Now()) && vm.Inv()
    {
      ghost var s, p := View(), vm.Now();
      var g := NewRoot();
      if g.None? {
        return false;
      }
      ghost var t := vm.Now();
      ok := CopySpace(pid, g.value);
      OthersNext(p, t, vm.Now());
      if ok {
        AddProcess(g.value, s, Cow.Fork(pid));
      }
    }

    // ----- faults

    /** The step of a demand fault: the fresh page f has been mapped, or left stranded. */
    ghost method RecordPage(s: Cow.State, f: nat, pid: nat, vpn: nat, writable: bool, mapped: bool)
      requires Rooted() && Cow.Good(s, log) && Cow.Fresh(s, f) && pid < |s.spaces|
      requires View() == if mapped then Entered(Cow.Spare(s, f, ZeroPage()), pid, vpn, Cow.Entry(f, !writable))
        else Cow.Spare(s, f, ZeroPage())
      modifies this`log
      ensures Inv()
      ensures log == old(log) + [if mapped then PageEvent(s, pid, vpn, writable) else Cow.Strand(ZeroPage())]
      ensures mapped ==> Cow.Step(s, PageEvent(s, pid, vpn, writable), View())
    {
      if mapped {
        SpareEntered(s, f, ZeroPage(), pid, vpn, !writable);
        Record(s, PageEvent(s, pid, vpn, writable));
      } else {
        Record(s, Cow.Strand(ZeroPage()));
      }
    }

    /** A fresh page is mapped at the alias of v: the end of the translation-fault branch. It takes the frames of the
        page and of the tables missing on the way; when only the latter run out, the page is stranded. */
    method DemandPage(pid: nat, v: nat, writable: bool) returns (ok: bool)
      requires Inv() && pid < |pgds| && v < PAGES64
      modifies this`log, vm, vm.pa.Footprint(), vm.pa.mem
      ensures Inv() && pgds == old(pgds) && (ok <==> 1 + old(Lacking(pid, v)) <= old(Free()))
      ensures ok ==> Cow.Step(old(View()), PageEvent(old(View()), pid, Alias(v), writable), View())
      ensures ok ==> log == old(log) + [PageEvent(old(View()), pid, Alias(v), writable)]
      ensures !ok ==> vm.pa.v.free == {} && View().spaces == old(View()).spaces
      ensures !ok ==> log == if old(vm.pa.v.free) == {} then old(log) else old(log) + [Cow.Strand(ZeroPage())]
      ensures OthersKept(old(vm.Now()), vm.Now())
    {
      ghost var s, p := View(), vm.Now();
      RootOf(pid);
      var f := NewUserPage();
      if f.None? {
        return false;
      }
      ghost var t := vm.Now();
      MissingSame(p, t, pgds[pid], Alias(v));
      UserEntry(f.value);
      ok := MapFrame(pid, v, PAGE_SIZE, f.value, if writable then RW_PAGE else RO_PAGE);
      OthersNext(p, t, vm.Now());
      RecordPage(s, f.value, pid, Alias(v), writable, ok);
    }

    lemma RootOf(pid: nat)
      requires Rooted() && pid < |pgds|
      ensures IsRoot(vm.roles, pgds[pid])
    {
      Open();
    }

    /** The contents of a user page are copied into a fresh one. */
    method CopyFrame(g: nat) returns (f: Option<nat>)
      requires Rooted() && g in vm.users && g < vm.pa.mem.Length
      modifies vm, vm.pa.Footprint(), vm.pa.mem
      ensures Rooted() && g in old(View()).data && (f.Some? <==> old(vm.pa.v.free) != {})
      ensures f.None? ==> vm.pa.v.free == {}
      ensures f.Some? ==> Cow.Fresh(old(View()), f.value) && f.value in vm.users
      ensures f.Some? ==> View() == Cow.Spare(old(View()), f.value, old(View()).data[g])
      ensures OthersKept(old(vm.Now()), vm.Now())
    {
      ghost var s, p := View(), vm.Now();
      UserPage(g);
      f := NewUserPage();
      if f.Some? {
        ghost var t := vm.Now();
        UserPage(g);
        var page := vm.pa.mem[g];
        CopyInto(f.value, page);
        SpareAgain(s, f.value, page);
        OthersNext(p, t, vm.Now());
      }
    }

    /** A read-only page with other references is copied into a fresh frame, which takes its place. */
    method CopyPage(pid: nat, v: nat, g: nat, ghost vpn: nat) returns (ok: bool)
      requires Inv() && pid < |pgds| && v < PAGES64 && vpn == Alias(v) && vpn in View().spaces[pid]
      requires View().spaces[pid][vpn] == Cow.Entry(g, true) && g in vm.users && g < vm.pa.mem.Length
      requires g in View().cnt && View().cnt[g] != 1
      modifies this`log, vm, vm.pa.Footprint(), vm.pa.mem
      ensures pgds == old(pgds) && (ok <==> old(vm.pa.v.free) != {})
      ensures ok ==> Inv() && log == old(log) + [Cow.WriteFault(pid, vpn)]
      ensures ok ==> Cow.Step(old(View()), Cow.WriteFault(pid, vpn), View())
      ensures OthersKept(old(vm.Now()), vm.Now()) && vm.Inv()
    {
      ghost var s, p := View(), vm.Now();
      Cow.GoodCount(s, log, pid, vpn);
      DropReference(g);
      ghost var t := vm.Now();
      var f := CopyFrame(g);
      ghost var u := vm.Now();
      OthersNext(p, t, u);
      if f.None? {
        return false;
      }
      UserEntry(f.value);
      NothingLacks(pid, vpn);
      ok := MapFrame(pid, v, PAGE_SIZE, f.value, RW_PAGE);
      OthersNext(p, u, vm.Now());
      SpareEntered(Cow.Dropped(s, g), f.value, s.data[g], pid, vpn, false);
      Record(s, Cow.WriteFault(pid, vpn));
    }

    /** *pte_base & ~PT_RO for a page with one reference. */
    method Unprotect(pid: nat, v: nat, pte: nat, e: Word, ghost vpn: nat)
      requires Inv() && pid < |pgds| && vpn == Alias(v) && vpn in View().spaces[pid]
      requires Bottom(vm.pa.mem[..], pgds[pid], TOP, vpn) == Some(pte) && Descriptor(e) && Target(e) in vm.users
      requires View().spaces[pid][vpn] == Cow.Entry(Target(e), true) && ReadOnly(e) && UserWord(e)
      requires Target(e) in View().cnt && View().cnt[Target(e)] == 1
      modifies this`log, vm.pa.mem
      ensures Inv() && log == old(log) + [Cow.WriteFault(pid, vpn)]
      ensures Cow.Step(old(View()), Cow.WriteFault(pid, vpn), View())
      ensures OthersKept(old(vm.Now()), vm.Now())
    {
      ghost var s, p := View(), vm.Now();
      Cow.GoodCount(s, log, pid, vpn);
      ROParts(e);
      Open();
      EntryAt(pid, vpn, Some(pte));
      UserWordRO(e);
      vm.SetEntry(pgds[pid], v, pte, ClearRO(e), vpn);
      Open();
      RewrittenView(p, vm.Now(), pgds, pid, vpn, pte, ClearRO(e));
      Open();
      Record(s, Cow.WriteFault(pid, vpn));
    }

    /** How the permission-fault branch ends once the process may write there. A page that the walk finds unmapped, as
        it may beyond 2^48, leads to the endless loop, once its tables have been allocated. */
    ghost function WriteVerdict(pid: nat, v: nat): Outcome
      requires pid < |pgds|
      reads this, vm, vm.pa, vm.pa.mem, vm.pa.cnt
    {
      var vpn := Alias(v);
      if vpn !in View().spaces[pid] then (if Lacking(pid, v) > Free() then NoMemory else Hung)
      else if !View().spaces[pid][vpn].ro then Hung
      else if NeedsCopy(View(), pid, vpn) && Free() == 0 then NoMemory else Resumed
    }

    /** The permission-fault branch once the process may write there. */
    method WriteFault(pid: nat, v: nat) returns (out: Outcome)
      requires Inv() && pid < |pgds| && v < PAGES64
      modifies this`log, vm, vm.pa.Footprint(), vm.pa.mem
      ensures pgds == old(pgds) && out == old(WriteVerdict(pid, v))
      ensures Handled(out, Cow.WriteFault(pid, Alias(v)), old(View()), View(), old(log), log)
      ensures Protected(old(View()), pid, Alias(v), 1) ==> out == Resumed && vm.pa.v.free == old(vm.pa.v.free)
      ensures NeedsCopy(old(View()), pid, Alias(v)) ==> out == if old(Free()) > 0 then Resumed else NoMemory
      ensures MayStore(old(View()), pid, Alias(v)) ==> out == Hung
      ensures Cow.PageEntry(old(View()), pid, Alias(v)).None? ==>
        out == if old(Lacking(pid, v)) <= old(Free()) then Hung else NoMemory
      ensures out != NoMemory ==> Inv()
      ensures OthersKept(old(vm.Now()), vm.Now()) && vm.Inv()
    {
      ghost var vpn, s := Alias(v), View();
      if vpn in s.spaces[pid] {
        Cow.GoodCount(s, log, pid, vpn);
        NothingLacks(pid, vpn);
      }
      var pte, e := Translate(pid, v, true);
      if pte.None? {
        return NoMemory;
      }
      if !ReadOnly(e) {
        return Hung;
      }
      var f := Target(e);
      UserPage(f);
      if vm.pa.cnt[f] == 1 {
        Unprotect(pid, v, pte.value, e, vpn);
        return Resumed;
      }
      var ok := CopyPage(pid, v, f, vpn);
      out := if ok then Resumed else NoMemory;
    }

    /** The translation-fault branch, for an address in page v; ghost rs are the areas. */
    method TranslationAbort(pid: nat, v: nat, areas: AreaList, addr: nat, ghost rs: seq<Range>) returns (out: Outcome)
      requires Inv() && pid < |pgds| && v < PAGES64 && areas.Valid() && rs == areas.areas
      modifies this`log, vm, vm.pa.Footprint(), vm.pa.mem
      ensures out == if !Accepted(rs, addr) then Killed
                     else if old(Free()) < 1 + old(Lacking(pid, v)) then NoMemory else Resumed
      ensures Handled(out, PageEvent(old(View()), pid, Alias(v), WritableAt(rs, addr)), old(View()), View(), old(log),
        log)
      ensures OthersKept(old(vm.Now()), vm.Now()) && Inv()
    {
      OthersSame(vm.Now());
      var valid, writable := CheckAreas(areas, addr);
      if !valid {
        return Killed;
      }
      var ok := DemandPage(pid, v, writable);
      out := if ok then Resumed else NoMemory;
    }

    /** The permission-fault branch. */
    method PermissionAbort(pid: nat, v: nat, areas: AreaList, addr: nat, ghost rs: seq<Range>) returns (out: Outcome)
      requires Inv() && pid < |pgds| && v < PAGES64 && areas.Valid() && rs == areas.areas
      modifies this`log, vm, vm.pa.Footprint(), vm.pa.mem
      ensures out == if !Accepted(rs, addr) || !WritableAt(rs, addr) then Killed else old(WriteVerdict(pid, v))
      ensures out != Killed && Protected(old(View()), pid, Alias(v), 1) ==> vm.pa.v.free == old(vm.pa.v.free)
      ensures Handled(out, Cow.WriteFault(pid, Alias(v)), old(View()), View(), old(log), log)
      ensures out != NoMemory ==> Inv()
      ensures OthersKept(old(vm.Now()), vm.Now()) && vm.Inv()
    {
      OthersSame(vm.Now());
      var valid, writable := CheckAreas(areas, addr);
      assert View() == old(View()) && WriteVerdict(pid, v) == old(WriteVerdict(pid, v));
      if !valid || !writable {
        return Killed;
      }
      out := WriteFault(pid, v);
    }

    /** A fault may be reported at any 64-bit address. */
    ghost predicate Faulted(pid: nat, addr: nat)
      reads this, vm, vm.pa.Footprint(), vm.pa.mem
    {
      Inv() && pid < |pgds| && addr < U64
    }

    /** How a fault ends, from what is known before it is handled: what the areas say of the address, the entry and
        the count of the page that the walk ends at, the free frames, and the tables missing on the way to it. */
    ghost function Verdict(pid: nat, esr: nat, addr: nat, rs: seq<Range>): Outcome
      requires pid < |pgds|
      reads this, vm, vm.pa, vm.pa.mem, vm.pa.cnt
    {
      if TranslationFault(esr) then
        if !Accepted(rs, addr) then Killed
        else if Free() < 1 + Lacking(pid, addr / PAGE_SIZE) then NoMemory else Resumed
      else if PermissionFault(esr) then
        if !Accepted(rs, addr) || !WritableAt(rs, addr) then Killed else WriteVerdict(pid, addr / PAGE_SIZE)
      else Hung
    }

    /** What is known before a fault that must be resolved: the areas accept it, and nothing is lacking. */
    lemma MustResume(rs: seq<Range>, pid: nat, esr: nat, addr: nat, count: int)
      requires pid < |pgds| && addr < U64
      ensures WritesShared(View(), rs, pid, esr, addr, count) && (count == 1 || Free() > 0) ==>
        Verdict(pid, esr, addr, rs) == Resumed
      ensures UsesUnmapped(View(), rs, pid, esr, addr) && Free() >= 1 + TOP ==> Verdict(pid, esr, addr, rs) == Resumed
    {
      PageOf(addr);
      if Sorted(rs) && Inside(rs, addr) {
        FaultInside(rs, esr, addr);
      }
    }

    /** The branches of mem_abort_handler. */
    method Branch(pid: nat, areas: AreaList, esr: nat, addr: nat, ghost rs: seq<Range>) returns (out: Outcome)
      requires Faulted(pid, addr) && areas.Valid() && rs == areas.areas
      modifies this`log, vm, vm.pa.Footprint(), vm.pa.mem
      ensures out == old(Verdict(pid, esr, addr, rs))
      ensures Handled(out, FaultEvent(old(View()), pid, esr, addr, WritableAt(rs, addr)), old(View()), View(), old(log),
        log)
      ensures PermissionFault(esr) && out != Killed && Protected(old(View()), pid, Alias(addr / PAGE_SIZE), 1) ==>
        vm.pa.v.free == old(vm.pa.v.free)
      ensures out != NoMemory ==> Inv()
      ensures OthersKept(old(vm.Now()), vm.Now()) && vm.Inv()
    {
      var dfsc := esr % 64;
      if 4 <= dfsc <= 7 {
        out := TranslationAbort(pid, addr / PAGE_SIZE, areas, addr, rs);
      } else if 13 <= dfsc <= 15 {
        out := PermissionAbort(pid, addr / PAGE_SIZE, areas, addr, rs);
      } else {
        OthersSame(vm.Now());
        out := Hung;
      }
    }

    /** mem_abort_handler. What the answer promises is in Faults.Answered: killed exactly if the areas refuse the
        access, nothing changed where killed or hung, exactly the step of the fault where resumed, and resolved where
        it must be. */
    method MemAbort(pid: nat, areas: AreaList, esr: nat, addr: nat) returns (out: Outcome)
      requires Faulted(pid, addr) && areas.Valid()
      modifies this`log, vm, vm.pa.Footprint(), vm.pa.mem
      ensures out == old(Verdict(pid, esr, addr, areas.areas))
      ensures Answered(old(View()), View(), old(areas.areas), pid, esr, addr, old(Free()), out,
        vm.pa.v.free == old(vm.pa.v.free), old(log), log)
      ensures out != NoMemory ==> Inv()
      ensures OthersKept(old(vm.Now()), vm.Now()) && vm.Inv()
    {
      ghost var s, free, was, rs := View(), vm.pa.v.free, log, areas.areas;
      Cow.OpenGood(s, log);
      forall c: int | WritesShared(s, rs, pid, esr, addr, c) && (c == 1 || |free| > 0)
        ensures Verdict(pid, esr, addr, rs) == Resumed {
        MustResume(rs, pid, esr, addr, c);
      }
      MustResume(rs, pid, esr, addr, 1);
      PageOf(addr);
      if Sorted(rs) && Inside(rs, addr) {
        FaultInside(rs, esr, addr);
      }
      out := Branch(pid, areas, esr, addr, rs);
      StepResolves(s, View(), rs, pid, esr, addr, |free|, out, vm.pa.v.free == free, was, log);
    }

    // ----- exec

    /** A frame for a page of the image, and the copy of its bytes. */
    method ImageFrame(size: nat, chunk: Page) returns (f: Option<nat>, ghost page: Page)
      requires Rooted()
      modifies vm, vm.pa.Footprint(), vm.pa.mem
      ensures Rooted() && page == (if size > 0 then chunk else ZeroPage()) && (f.Some? <==> old(vm.pa.v.free) != {})
      ensures f.None? ==> vm.Now() == old(vm.Now()) && View() == old(View())
      ensures f.Some? ==> Cow.Fresh(old(View()), f.value) && f.value in vm.users
      ensures f.Some? ==> View() == Cow.Spare(old(View()), f.value, page)
      ensures f.Some? ==> Free() + 1 == old(Free()) && SameTables(old(vm.Now()), vm.Now())
      ensures OthersKept(old(vm.Now()), vm.Now())
    {
      ghost var s, p := View(), vm.Now();
      page := if size > 0 then chunk else ZeroPage();
      f := NewUserPage();
      if f.Some? {
        ghost var t := vm.Now();
        if size > 0 {
          CopyInto(f.value, chunk);
          OthersNext(p, t, vm.Now());
          SameTablesNext(p, t, vm.Now());
        }
        SpareAgain(s, f.value, page);
      }
    }

    /** The step of a turn: the fresh page f has been mapped, or left stranded. */
    ghost method RecordTurn(s: Cow.State, f: nat, page: Page, pid: nat, vpn: nat, mapped: bool)
      requires Rooted() && Cow.Good(s, log) && Cow.Fresh(s, f) && pid < |s.spaces|
      requires View() == if mapped then Entered(Cow.Spare(s, f, page), pid, vpn, Cow.Entry(f, false))
        else Cow.Spare(s, f, page)
      modifies this`log
      ensures Inv() && log == old(log) + [if mapped then Cow.MapPage(pid, vpn, page, false) else Cow.Strand(page)]
      ensures Cow.Step(s, log[|old(log)|], View())
    {
      if mapped {
        SpareEntered(s, f, page, pid, vpn, false);
        Record(s, Cow.MapPage(pid, vpn, page, false));
      } else {
        Record(s, Cow.Strand(page));
      }
    }

    /** One turn of the loop of __exec: a page of the image is copied and mapped; without bytes, or without
        frames for the tables missing, it is stranded. */
    method ExecTurn(pid: nat, vpn: nat, size: nat, chunk: Page) returns (ok: bool)
      requires Inv() && pid < |pgds| && vpn < VPAGES && size <= PAGE_SIZE
      modifies this`log, vm, vm.pa.Footprint(), vm.pa.mem
      ensures Inv() && pgds == old(pgds)
      ensures ok <==> 1 + (if size == 0 then 0 else old(Lacking(pid, vpn))) <= old(Free())
      ensures ok ==>
        log == old(log) + [if size > 0 then Cow.MapPage(pid, vpn, chunk, false) else Cow.Strand(ZeroPage())]
      ensures ok ==> Cow.Step(old(View()), log[|old(log)|], View())
      ensures ok ==> Spent(old(vm.Now()), vm.Now(), pgds[pid], vpn, if size == 0 then vpn else vpn + 1, 1)
      ensures !ok ==> vm.pa.v.free == {} && View().spaces == old(View()).spaces
      ensures OthersKept(old(vm.Now()), vm.Now())
    {
      ghost var s, p := View(), vm.Now();
      RootOf(pid);
      var f;
      ghost var page;
      f, page := ImageFrame(size, chunk);
      if f.None? {
        return false;
      }
      ghost var t := vm.Now();
      MissingSame(p, t, pgds[pid], vpn);
      UserEntry(f.value);
      ok := MapFrame(pid, vpn, size, f.value, RW_PAGE);
      OthersNext(p, t, vm.Now());
      if ok {
        SpentWithPage(p, t, vm.Now(), pgds[pid], vpn, if size == 0 then vpn else vpn + 1);
      }
      RecordTurn(s, f.value, page, pid, vpn, ok && size > 0);
    }

    /** A turn fails: all turns together need more frames than there were. */
    lemma ExecStops(s: Phys, pid: nat, i: nat, size: nat, n: nat)
      requires pid < |pgds| && i <= n <= VPAGES && (size > 0 <==> i < n)
      requires Spent(s, vm.Now(), pgds[pid], 0, i, i)
      requires 1 + (if size == 0 then 0 else Lacking(pid, i)) > Free()
      ensures |Absent(s.mem, pgds[pid], 0, n)| + i + 1 > |s.free|
    {
      OpenSpent(s, vm.Now(), pgds[pid], 0, i, i);
      assert |Absent(vm.pa.mem[..], pgds[pid], i, n)| + |s.free| == |Absent(s.mem, pgds[pid], 0, n)| + Free() + i;
      if i < n {
        AbsentAtLeast(vm.pa.mem[..], pgds[pid], i, n);
      }
    }

    /** State of the loop of __exec after i turns, since states p and s and the log was. */
    ghost predicate ExecSoFar(p: Phys, s: Cow.State, was: seq<Cow.Event>, pid: nat, chunks: seq<Page>, n: nat, i: nat)
      requires pid < |pgds| && i <= |chunks|
      reads this, vm, vm.pa, vm.pa.mem, vm.pa.cnt
    {
      && log == was + ExecEvents(pid, chunks, n, i)
      && OthersKept(p, vm.Now()) && Spent(p, vm.Now(), pgds[pid], 0, if i < n then i else n, i)
      && ImageIn(s, Cow.EagerRun(was), View(), Cow.EagerRun(log), pid, chunks, if i < n then i else n)
    }

    lemma ExecStart(pid: nat, chunks: seq<Page>, n: nat)
      requires Inv() && pid < |pgds|
      ensures ExecSoFar(vm.Now(), View(), log, pid, chunks, n, 0)
    {
      RootOf(pid);
      OthersSame(vm.Now());
      SameTablesSelf(vm.Now());
      SpentNothing(vm.Now(), vm.Now(), pgds[pid], 0);
      ImageStart(View(), Cow.EagerRun(log), pid, chunks);
      assert log + ExecEvents(pid, chunks, n, 0) == log;
    }

    /** One turn, counted. */
    method ExecCounted(pid: nat, i: nat, size: nat, chunk: Page, ghost p: Phys, ghost s: Cow.State,
        ghost was: seq<Cow.Event>, ghost chunks: seq<Page>, ghost n: nat)
      returns (ok: bool)
      requires Inv() && pid < |pgds| && i < VPAGES && size <= PAGE_SIZE && i < |chunks| && chunk == chunks[i]
      requires i <= n <= VPAGES && (size > 0 <==> i < n) && ExecSoFar(p, s, was, pid, chunks, n, i)
      modifies this`log, vm, vm.pa.Footprint(), vm.pa.mem
      ensures Inv() && pgds == old(pgds)
      ensures ok ==> ExecSoFar(p, s, was, pid, chunks, n, i + 1)
      ensures !ok ==> vm.pa.v.free == {} && |Absent(p.mem, pgds[pid], 0, n)| + i + 1 > |p.free|
      ensures OthersKept(p, vm.Now())
    {
      ghost var t, u, l := vm.Now(), View(), log;
      if 1 + (if size == 0 then 0 else Lacking(pid, i)) > Free() {
        ExecStops(p, pid, i, size, n);
      }
      ok := ExecTurn(pid, i, size, chunk);
      OthersNext(p, t, vm.Now());
      if ok {
        ghost var e := if size > 0 then Cow.MapPage(pid, i, chunk, false) else Cow.Strand(ZeroPage());
        SpentNext(p, t, vm.Now(), pgds[pid], 0, i, if size == 0 then i else i + 1, i, 1);
        ImageTurn(s, Cow.EagerRun(was), u, View(), l, e, pid, chunks, i, size > 0);
        EventsNext(was, pid, chunks, n, i);
      }
    }

    /** The loop of __exec, over the pages of the image; the last page may be empty. It takes a frame a turn and
        one for each table missing. Afterwards the process sees the image, writable, and everything else is as it was;
        the counts are exact if and only if they were before, no page was mapped over, and the last page was not
        empty. */
    method ExecImage(pid: nat, chunks: seq<Page>, len: nat) returns (ok: bool)
      requires Inv() && pid < |pgds| && len < 0x8000_0000 && |chunks| == len / PAGE_SIZE + 1
      modifies this`log, vm, vm.pa.Footprint(), vm.pa.mem
      ensures Inv() && pgds == old(pgds)
      ensures ok <==> len / PAGE_SIZE + 1 + |Absent(old(vm.pa.mem[..]), pgds[pid], 0, ImagePages(len))| <= old(Free())
      ensures ok ==> log == old(log) + ExecEvents(pid, chunks, ImagePages(len), len / PAGE_SIZE + 1)
      ensures ok ==> ImageIn(old(View()), Cow.EagerRun(old(log)), View(), Cow.EagerRun(log), pid, chunks,
        ImagePages(len))
      ensures ok ==> (Cow.Exact(View()) <==>
        old(Cow.Exact(View())) && len % PAGE_SIZE != 0 && Unmapped(old(View()), pid, ImagePages(len)))
      ensures !ok ==> vm.pa.v.free == {}
      ensures OthersKept(old(vm.Now()), vm.Now())
    {
      ghost var p, n := vm.Now(), ImagePages(len);
      ExecStart(pid, chunks, n);
      var left: int := len;
      for i := 0 to len / PAGE_SIZE + 1
        invariant Inv() && pgds == old(pgds) && left == len - PAGE_SIZE * i
        invariant ExecSoFar(p, old(View()), old(log), pid, chunks, n, i)
      {
        left := left - PAGE_SIZE;
        var size := if left > 0 then PAGE_SIZE else left + PAGE_SIZE;
        assert 0 <= size <= PAGE_SIZE && i <= n && (size > 0 <==> i < n);
        ok := ExecCounted(pid, i, size, chunks[i], p, old(View()), old(log), chunks, n);
        if !ok {
          return;
        }
      }
      SpentAll(p, vm.Now(), pgds[pid], 0, n, len / PAGE_SIZE + 1);
      ExecExact(old(View()), old(log), View(), pid, chunks, len);
      ok := true;
    }
  }

  /** What exec achieves, from states s and e of the two machines to t and e': the first k pages of the process hold
      those of the image and may be written, and every other page of every process is what it was. */
  ghost predicate HasImage(s: Cow.State, e: Cow.Eager, t: Cow.State, e': Cow.Eager, pid: nat, chunks: seq<Page>,
      k: nat)
  {
    && k <= |chunks| && pid < |s.spaces|
    && (forall v: nat | v < k :: Cow.Contents(e', pid, v) == chunks[v] && MayStore(t, pid, v))
    && (forall p: nat, v: nat | p != pid || v >= k ::
          Cow.PageEntry(t, p, v) == Cow.PageEntry(s, p, v) && Cow.Contents(e', p, v) == Cow.Contents(e, p, v))
  }

  /** HasImage, wrapped so that proofs which only pass it on do not open it. */
  ghost predicate ImageIn(s: Cow.State, e: Cow.Eager, t: Cow.State, e': Cow.Eager, pid: nat, chunks: seq<Page>, k: nat,
      layers: nat := 4)
  {
    if layers == 0 then HasImage(s, e, t, e', pid, chunks, k) else ImageIn(s, e, t, e', pid, chunks, k, layers - 1)
  }

  lemma {:induction false} OpenImage(s: Cow.State, e: Cow.Eager, t: Cow.State, e': Cow.Eager, pid: nat,
      chunks: seq<Page>, k: nat, layers: nat := 4)
    ensures ImageIn(s, e, t, e', pid, chunks, k, layers) <==> HasImage(s, e, t, e', pid, chunks, k)
  {
    if layers > 0 {
      OpenImage(s, e, t, e', pid, chunks, k, layers - 1);
    }
  }

  lemma ImageStart(s: Cow.State, e: Cow.Eager, pid: nat, chunks: seq<Page>)
    requires pid < |s.spaces|
    ensures ImageIn(s, e, s, e, pid, chunks, 0)
  {
    OpenImage(s, e, s, e, pid, chunks, 0);
  }

  /** A turn that maps adds its page; one that strands a frame changes nothing. */
  lemma ImageTurn(s: Cow.State, e: Cow.Eager, t: Cow.State, u: Cow.State, log: seq<Cow.Event>, ev: Cow.Event, pid: nat,
      chunks: seq<Page>, i: nat, mapped: bool)
    requires Cow.Good(t, log) && Cow.Step(t, ev, u) && i < |chunks| && pid < |t.spaces|
    requires ImageIn(s, e, t, Cow.EagerRun(log), pid, chunks, i)
    requires ev == if mapped then Cow.MapPage(pid, i, chunks[i], false) else Cow.Strand(ZeroPage())
    ensures ImageIn(s, e, u, Cow.EagerRun(log + [ev]), pid, chunks, if mapped then i + 1 else i)
  {
    OpenImage(s, e, t, Cow.EagerRun(log), pid, chunks, i);
    OpenImage(s, e, u, Cow.EagerRun(log + [ev]), pid, chunks, if mapped then i + 1 else i);
    Cow.NextRun(log, ev);
    assert Cow.Counted(t) && pid < |Cow.EagerRun(log)| by {
      Cow.OpenGood(t, log);
    }
    if mapped {
      Cow.FaultMaps(t, ev, u);
      forall v: nat | v < i + 1
        ensures Cow.Contents(Cow.EagerRun(log + [ev]), pid, v) == chunks[v] && MayStore(u, pid, v) {
        Cow.EagerMap(Cow.EagerRun(log), pid, i, chunks[i], false, pid, v);
        if v < i {
          assert MayStore(t, pid, v) && Cow.PageEntry(u, pid, v) == Cow.PageEntry(t, pid, v);
        }
      }
      forall p: nat, v: nat | p != pid || v >= i + 1
        ensures Cow.PageEntry(u, p, v) == Cow.PageEntry(s, p, v)
        ensures Cow.Contents(Cow.EagerRun(log + [ev]), p, v) == Cow.Contents(e, p, v)
      {
        Cow.EagerMap(Cow.EagerRun(log), pid, i, chunks[i], false, p, v);
        assert Cow.PageEntry(u, p, v) == Cow.PageEntry(t, p, v);
      }
    } else {
      assert u.spaces == t.spaces && Cow.EagerRun(log + [ev]) == Cow.EagerRun(log);
      forall p: nat, v: nat ensures Cow.PageEntry(u, p, v) == Cow.PageEntry(t, p, v) {
      }
      forall v: nat | v < i ensures MayStore(u, pid, v) {
        assert MayStore(t, pid, v);
      }
    }
  }

  lemma EventsNext(was: seq<Cow.Event>, pid: nat, chunks: seq<Page>, n: nat, i: nat)
    requires i < |chunks|
    ensures was + ExecEvents(pid, chunks, n, i + 1) ==
      was + ExecEvents(pid, chunks, n, i)
        + [if i < n then Cow.MapPage(pid, i, chunks[i], false) else Cow.Strand(ZeroPage())]
  {
  }

  /** No page below n is mapped by the process. */
  ghost predicate Unmapped(s: Cow.State, pid: nat, n: nat) {
    pid < |s.spaces| && forall v: nat | v < n :: v !in s.spaces[pid]
  }

  function ImagePages(len: nat): nat {
    (len + PAGE_SIZE - 1) / PAGE_SIZE
  }

  /** These are the pages with a byte of the image. */
  lemma ImagePagesExact(len: nat, v: nat)
    ensures v < ImagePages(len) <==> v * PAGE_SIZE < len
  {
  }

  /** The events of the first turns of the loop of __exec, for an image with bytes on n pages. */
  function ExecEvents(pid: nat, chunks: seq<Page>, n: nat, turns: nat): seq<Cow.Event>
    requires turns <= |chunks|
  {
    seq(turns, i requires 0 <= i < turns =>
      if i < n then Cow.MapPage(pid, i, chunks[i], false) else Cow.Strand(ZeroPage()))
  }

  ghost function PagesBelow(n: nat): set<nat> {
    set v: nat | v < n && NotBefore(0, v)
  }

  lemma PagesBelowNext(d: set<nat>, n: nat)
    ensures d + PagesBelow(n) + {n} == d + PagesBelow(n + 1)
    ensures d !! PagesBelow(n + 1) <==> d !! PagesBelow(n) && n !in d
  {
    assert NotBefore(0, n);
    assert PagesBelow(n + 1) == PagesBelow(n) + {n};
  }

  /** A history followed by the events of exec is tidy if and only if it was tidy, no page of the image was mapped
      before, and there is no turn past the last page. */
  lemma {:induction false} ExecTidy(log: seq<Cow.Event>, pid: nat, chunks: seq<Page>, n: nat, turns: nat)
    requires turns <= |chunks| && pid < |Cow.Domains(log)|
    ensures var l := log + ExecEvents(pid, chunks, n, turns);
      && pid < |Cow.Domains(l)|
      && Cow.Domains(l)[pid] == Cow.Domains(log)[pid] + PagesBelow(if turns < n then turns else n)
      && (Cow.Tidy(l) <==>
          Cow.Tidy(log) && Cow.Domains(log)[pid] !! PagesBelow(if turns < n then turns else n) && turns <= n)
  {
    if turns == 0 {
      assert log + ExecEvents(pid, chunks, n, 0) == log && PagesBelow(0) == {};
    } else {
      var k := turns - 1;
      ExecTidy(log, pid, chunks, n, k);
      var l, e := log + ExecEvents(pid, chunks, n, k), ExecEvents(pid, chunks, n, turns)[k];
      assert log + ExecEvents(pid, chunks, n, turns) == l + [e];
      Cow.NextRun(l, e);
      if k < n {
        PagesBelowNext(Cow.Domains(log)[pid], k);
      }
    }
  }

  /** What that means for the counts. */
  lemma ExecExact(s: Cow.State, log: seq<Cow.Event>, t: Cow.State, pid: nat, chunks: seq<Page>, len: nat)
    requires |chunks| == len / PAGE_SIZE + 1 && pid < |s.spaces|
    requires Cow.Good(s, log) && Cow.Good(t, log + ExecEvents(pid, chunks, ImagePages(len), len / PAGE_SIZE + 1))
    ensures Cow.Exact(t) <==> Cow.Exact(s) && len % PAGE_SIZE != 0 && Unmapped(s, pid, ImagePages(len))
  {
    Cow.GoodExact(s, log);
    Cow.GoodExact(t, log + ExecEvents(pid, chunks, ImagePages(len), len / PAGE_SIZE + 1));
    ExecTidy(log, pid, chunks, ImagePages(len), len / PAGE_SIZE + 1);
    assert len / PAGE_SIZE + 1 <= ImagePages(len) <==> len % PAGE_SIZE != 0;
    assert Cow.Domains(log)[pid] !! PagesBelow(ImagePages(len)) <==> Unmapped(s, pid, ImagePages(len)) by {
      if v: nat :| v < ImagePages(len) && v in s.spaces[pid] {
        assert NotBefore(0, v);
      }
    }
  }

  /** An image of exactly one page: the second turn strands a frame, and no page is mapped over. */
  lemma ExecStrandExample(p: Page, q: Page)
    ensures ImagePages(4096) == 1 && 4096 / PAGE_SIZE + 1 == 2
    ensures ExecEvents(0, [p, q], 1, 2) == [Cow.MapPage(0, 0, p, false), Cow.Strand(ZeroPage())]
    ensures Cow.Tidy([Cow.Spawn, Cow.MapPage(0, 0, p, false)]) && !Cow.Tidy([Cow.Spawn] + ExecEvents(0, [p, q], 1, 2))
  {
    Cow.NextRun([], Cow.Spawn);
    Cow.NextRun([Cow.Spawn], Cow.MapPage(0, 0, p, false));
    assert [] + [Cow.Spawn] == [Cow.Spawn];
    assert [Cow.Spawn] + [Cow.MapPage(0, 0, p, false)] == [Cow.Spawn, Cow.MapPage(0, 0, p, false)];
    ExecTidy([Cow.Spawn], 0, [p, q], 1, 2);
  }

  lemma SpareAgain(s: Cow.State, f: nat, page: Page)
    ensures var v := Cow.Spare(s, f, ZeroPage()); Cow.State(v.spaces, v.data[f := page], v.cnt) == Cow.Spare(s, f, page)
  {
  }

  lemma EmptyView(s: Phys)
    requires s.users == {}
    ensures Roots(s, []) && Cow.Good(ViewOf(s, []), [])
  {
    assert DataOf(s) == map[] && CountsOf(s) == map[];
    Cow.NothingGood();
  }

  lemma SpacesPrefix(s: Phys, pgds: seq<nat>, g: nat)
    requires ViewOf(s, pgds + [g]).spaces == SpacesOf(s.mem, pgds) + [map[]]
    ensures ViewOf(s, pgds + [g]).spaces == ViewOf(s, pgds).spaces + [map[]]
  {
  }

  /** Before the copy: the new root is blank and at the top, next to the root of the parent. */
  lemma ForkStart(s: Phys, pgds: seq<nat>, pid: nat, g: nat)
    requires Roots(s, pgds + [g]) && pid < |pgds|
    ensures Pair(s, TreeCopy(g, pgds[pid]))
  {
    var all := pgds + [g];
    assert all[pid] == pgds[pid] && all[|pgds|] == g;
    assert IsRoot(s.roles, all[pid]) && IsRoot(s.roles, all[|pgds|]) && all[pid] != all[|pgds|];
  }

  lemma SpareEntered(s: Cow.State, f: nat, page: Page, pid: nat, vpn: nat, ro: bool)
    requires pid < |s.spaces|
    ensures Entered(Cow.Spare(s, f, page), pid, vpn, Cow.Entry(f, ro)) == Cow.Mapped(s, pid, vpn, f, page, ro)
  {
  }

  lemma SameTablesNext(s: Phys, t: Phys, u: Phys)
    requires SameTables(s, t) && SameTables(t, u)
    ensures SameTables(s, u)
  {
  }

  lemma SameTablesSelf(s: Phys)
    ensures SameTables(s, s)
  {
  }

  /** A frame is allocated and becomes a root. */
  lemma RootOthers(s: Phys, t: Phys, u: Phys, g: nat)
    requires Allocated(s, t, g) && u == Phys(t.mem, t.cnt, t.live, t.free, t.roles[g := Role(g, TOP, 0)], t.users)
    ensures OthersKept(s, u)
  {
    OpenOthers(s, u);
  }

  /** A range of at most one page at a page-aligned address. */
  lemma OnePageRange(v: nat, size: nat)
    requires v < PAGES64 && size <= PAGE_SIZE
    ensures v * PAGE_SIZE / PAGE_SIZE == v && v * PAGE_SIZE < U64
    ensures PageCount(v * PAGE_SIZE, size) == if size == 0 then 0 else 1
  {
    Div4096(v * PAGE_SIZE, v, 0);
    if size > 0 {
      Div4096(v * PAGE_SIZE + size - 1, v, size - 1);
    }
  }

  /** A walk changes nothing in the view. */
  lemma WalkedView(s: Phys, t: Phys, n: nat, root: nat, vpn: nat, pgds: seq<nat>)
    requires Sound(s) && Walked(s, t, n, root, vpn) && Roots(s, pgds)
    ensures Sound(t) && Roots(t, pgds) && ViewOf(t, pgds) == ViewOf(s, pgds)
  {
    OpenWalked(s, t, n, root, vpn);
    ExtendsView(s, t, pgds);
  }
}
