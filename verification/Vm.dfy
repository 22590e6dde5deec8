// walk, mappages and copy_page_table of src/mem.c, on tables in allocated frames.
module Vm {
  import opened BlockTree
  import opened CopySpec
  import opened FrameTable
  import opened Machine
  import opened PageAllocator
  import opened PhysState
  import opened TableCounts
  import opened Translation

  class Vm {
    const pa: PageAllocator
    ghost var roles: Roles
    ghost var users: set<nat>

    constructor (pa: PageAllocator)
      requires pa.Valid() && pa.mem.Length <= 0x8_0000
      ensures this.pa == pa && roles == map[] && users == {} && Inv()
    {
      this.pa := pa;
      roles := map[];
      users := {};
      new;
      Open();
    }

    ghost function Now(): Phys
      reads this, pa, pa.mem, pa.cnt
    {
      Phys(pa.mem[..], pa.cnt[..], pa.v.live, pa.v.free, roles, users)
    }

    ghost predicate Inv()
      reads this, pa.Footprint(), pa.mem
    {
      && this !in pa.Footprint()
      && pa.Valid() && Held(Now())
    }

    lemma Open()
      ensures Held(Now()) <==> Sound(Now())
    {
      Unseal(Now(), 4);
    }

    /** alloc_pages(0) as seen by the address spaces. */
    method NewFrame() returns (g: Option<nat>)
      requires Inv()
      modifies pa.Footprint(), pa.mem
      ensures Inv()
      ensures g.None? ==> pa.v.free == {} && Now() == old(Now())
      ensures g.Some? ==> Allocated(old(Now()), Now(), g.value)
      ensures OthersKept(old(Now()), Now())
    {
      Open();
      OthersSame(Now());
      g := pa.AllocPage();
      if g.Some? {
        AllocatedOk(old(Now()), Now(), g.value);
        OpenOthers(old(Now()), Now());
        Open();
      }
    }

    /** alloc_pages(0) for a page that a user gets. */
    method NewUser() returns (f: Option<nat>)
      requires Inv()
      modifies this, pa.Footprint(), pa.mem
      ensures Inv()
      ensures f.None? ==> pa.v.free == {} && Now() == old(Now())
      ensures f.Some? ==> NewPage(old(Now()), Now(), f.value)
      ensures OthersKept(old(Now()), Now())
    {
      Open();
      OthersSame(Now());
      f := NewFrame();
      if f.Some? {
        ghost var t := Now();
        AllocatedOk(old(Now()), t, f.value);
        assert Block(f.value, 0) in t.live;
        users := users + {f.value};
        GivenOk(t, Now(), f.value);
        Open();
        NewPageTables(old(Now()), Now(), f.value);
      }
    }

    /** memcpy of a whole page into a user frame. */
    method FillUser(f: nat, page: Page)
      requires Inv() && f in users
      modifies pa.mem
      ensures Inv() && f < pa.mem.Length
      ensures pa.mem[..] == old(pa.mem[..])[f := page] && OthersKept(old(Now()), Now())
    {
      Open();
      ghost var s := Now();
      pa.mem[f] := page;
      assert pa.mem[..] == s.mem[f := page];
      TreesFrame(s.mem, pa.mem[..], roles, users);
      Open();
      OthersInPlace(s, Now());
    }

    /** A frame is allocated for a table and linked into entry i of table f with the given attributes. */
    method Grow(f: nat, i: nat, attr: nat) returns (g: Option<nat>)
      requires Inv() && f in roles && roles[f].level > 0 && i < 512 && Read(pa.mem[..], f, i) == 0
      requires attr == PT_PAGE
      modifies this, pa.Footprint(), pa.mem
      ensures Inv()
      ensures g.None? ==> pa.v.free == {} && Now() == old(Now())
      ensures g.Some? ==> 0 <= Pte(g.value, attr) < 0x1_0000_0000_0000
      ensures g.Some? ==> Grown(old(Now()), Now(), f, i, g.value, Pte(g.value, attr))
    {
      Open();
      g := NewFrame();
      if g.None? {
        return;
      }
      Open();
      ghost var t := Now();
      AllocatedOk(old(Now()), t, g.value);
      PteParts(g.value, attr);
      pa.mem[f] := pa.mem[f][i := Pte(g.value, attr)];
      roles := roles[g.value := ChildRole(roles[f], i)];
      assert pa.mem[..] == Put(t.mem, f, i, Pte(g.value, attr));
      HungOk(t, Now(), f, i, g.value, Pte(g.value, attr));
      Open();
    }

    /** The entry that walk looks at: empty, or a link. */
    lemma StepEntry(root: nat, level: nat, vpn: nat, f: nat)
      requires Inv() && IsRoot(roles, root) && vpn < VPAGES && 0 < level <= TOP
      requires Table(pa.mem[..], root, level, vpn) == Some(f)
      ensures f in roles && roles[f].level == level && f < pa.mem.Length && 0 <= Px(level, vpn) < 512
      ensures var e := Read(pa.mem[..], f, Px(level, vpn)); e == 0 || (Linked(e) && Target(e) >= 0)
    {
      Open();
      TableOnPath(pa.mem[..], roles, users, root, level, vpn);
      Descend(pa.mem[..], roles, users, root, f, level, vpn);
      UpSplit(vpn, level);
    }

    /** The allocating branch of walk: a table is hung in where the way to vpn ends. */
    method GrowOnWay(root: nat, level: nat, v: nat, f: nat, ghost vpn: nat) returns (next: Option<nat>)
      requires Inv() && IsRoot(roles, root) && vpn == Alias(v) && 0 < level <= TOP
      requires Table(pa.mem[..], root, level, vpn) == Some(f) && !Linked(Read(pa.mem[..], f, Px(level, vpn)))
      modifies this, pa.Footprint(), pa.mem
      ensures Inv() && IsRoot(roles, root)
      ensures next.None? ==> pa.v.free == {} && Now() == old(Now())
      ensures next.Some? ==>
        Walked(old(Now()), Now(), 1, root, vpn) && Table(pa.mem[..], root, level - 1, vpn) == next
    {
      Open();
      StepEntry(root, level, vpn, f);
      PxAlias(level, v);
      var i := Px(level, v);
      next := Grow(f, i, PT_PAGE);
      if next.Some? {
        WalkGrown(old(Now()), Now(), f, i, next.value, Pte(next.value, PT_PAGE), root, level, vpn);
      }
    }

    /** One turn of the loop of walk for page v, which goes where that for its alias vpn goes. */
    method Step(root: nat, level: nat, v: nat, f: nat, alloc: bool, ghost vpn: nat)
      returns (next: Option<nat>, ghost more: bool)
      requires Inv() && IsRoot(roles, root) && vpn == Alias(v) && 0 < level <= TOP
      requires Table(pa.mem[..], root, level, vpn) == Some(f)
      modifies this, pa.Footprint(), pa.mem
      ensures Inv() && IsRoot(roles, root)
      ensures if more then alloc && Walked(old(Now()), Now(), 1, root, vpn) else Now() == old(Now())
      ensures next.Some? ==> Table(pa.mem[..], root, level - 1, vpn) == next
      ensures next.None? ==> !alloc || pa.v.free == {}
      ensures next.None? ==> Table(pa.mem[..], root, level - 1, vpn).None?
    {
      StepEntry(root, level, vpn, f);
      PxAlias(level, v);
      var e := pa.mem[f][Px(level, v)];
      if Linked(e) {
        return Some(Target(e)), false;
      }
      if !alloc {
        return None, false;
      }
      next := GrowOnWay(root, level, v, f, vpn);
      more := next.Some?;
    }

    lemma AtBottom(root: nat, vpn: nat, f: nat)
      requires Inv() && IsRoot(roles, root) && vpn < VPAGES && Table(pa.mem[..], root, 0, vpn) == Some(f)
      ensures Bottom(pa.mem[..], root, TOP, vpn) == Some(f) && f < pa.mem.Length
    {
      Open();
      TableBottom(pa.mem[..], root, 0, vpn);
      TableOnPath(pa.mem[..], roles, users, root, 0, vpn);
    }

    /** Step, with the n tables counted that the walk has allocated since state s. */
    method WalkTurn(root: nat, level: nat, v: nat, f: nat, alloc: bool, ghost vpn: nat, ghost s: Phys, ghost n: nat)
      returns (next: Option<nat>, ghost n': nat)
      requires Inv() && IsRoot(roles, root) && vpn == Alias(v) && 0 < level <= TOP
      requires Table(pa.mem[..], root, level, vpn) == Some(f) && Walked(s, Now(), n, root, vpn)
      modifies this, pa.Footprint(), pa.mem
      ensures Inv() && IsRoot(roles, root) && Walked(s, Now(), n', root, vpn)
      ensures n' == n || (alloc && n' == n + 1)
      ensures next.Some? ==> Table(pa.mem[..], root, level - 1, vpn) == next
      ensures next.None? ==> (!alloc || pa.v.free == {})
      ensures next.None? ==> Bottom(pa.mem[..], root, TOP, vpn).None?
    {
      ghost var t := Now();
      ghost var more;
      next, more := Step(root, level, v, f, alloc, vpn);
      WalkedNext(s, t, Now(), n, more, root, vpn);
      TableBottom(pa.mem[..], root, level - 1, vpn);
      n' := if more then n + 1 else n;
    }

    /** The numbers at the end of a walk that may allocate. */
    lemma WalkEnd(s: Phys, n: nat, root: nat, vpn: nat)
      requires Walked(s, Now(), n, root, vpn) && (Bottom(pa.mem[..], root, TOP, vpn).None? ==> pa.v.free == {})
      ensures Bottom(pa.mem[..], root, TOP, vpn).Some? <==> Missing(s.mem, root, TOP, vpn) <= |s.free|
      ensures Bottom(pa.mem[..], root, TOP, vpn).Some? ==> n == Missing(s.mem, root, TOP, vpn)
    {
      WalkedCount(s, Now(), n, root, vpn);
    }

    /** walk, from the root of a tree and for any page v; the entry reached, that of its alias vpn, is word
        Px(0, v) of the table returned. Ghost n counts the tables that were allocated on the way. */
    method Walk(root: nat, v: nat, alloc: bool, ghost vpn: nat) returns (f: Option<nat>, ghost n: nat)
      requires Inv() && IsRoot(roles, root) && vpn == Alias(v)
      modifies this, pa.Footprint(), pa.mem
      ensures Inv() && IsRoot(roles, root) && Walked(old(Now()), Now(), n, root, vpn) && n <= if alloc then 3 else 0
      ensures Bottom(pa.mem[..], root, TOP, vpn) == f && (f.Some? ==> f.value < pa.mem.Length)
      ensures f.None? ==> !alloc || pa.v.free == {}
      ensures alloc ==> (f.Some? <==> Missing(old(pa.mem[..]), root, TOP, vpn) <= |old(pa.v.free)|)
      ensures alloc && f.Some? ==> n == Missing(old(pa.mem[..]), root, TOP, vpn)
      ensures OthersKept(old(Now()), Now())
    {
      ghost var s := Now();
      assert Walked(s, s, 0, root, vpn) by {
        Open();
        WalkStart(s, root, vpn);
      }
      n := 0;
      var level: nat := TOP;
      f := Some(root);
      while level > 0
        invariant Inv() && IsRoot(roles, root) && level <= TOP && Walked(s, Now(), n, root, vpn)
        invariant n <= if alloc then TOP - level else 0
        invariant f.Some? && Table(pa.mem[..], root, level, vpn) == f
      {
        f, n := WalkTurn(root, level, v, f.value, alloc, vpn, s, n);
        level := level - 1;
        if f.None? {
          WalkedCount(s, Now(), n, root, vpn);
          if alloc {
            WalkEnd(s, n, root, vpn);
          }
          return;
        }
      }
      AtBottom(root, vpn, f.value);
      WalkedCount(s, Now(), n, root, vpn);
      WalkEnd(s, n, root, vpn);
    }

    /** *pte = KA2PA(pa) | perm | PT_PAGE in the level-0 table f. */
    method SetEntry(root: nat, v: nat, f: nat, e: Word, ghost vpn: nat)
      requires Inv() && IsRoot(roles, root) && vpn == Alias(v) && Bottom(pa.mem[..], root, TOP, vpn) == Some(f)
      requires f < pa.mem.Length && Descriptor(e) && Target(e) in users
      modifies pa.mem
      ensures Inv() && Mapped(old(Now()), Now(), root, vpn, f, e)
      ensures OthersKept(old(Now()), Now()) && SameTables(old(Now()), Now())
    {
      Open();
      UpSplit(vpn, 0);
      PxAlias(0, v);
      pa.mem[f] := pa.mem[f][Px(0, v) := e];
      assert pa.mem[..] == Put(old(pa.mem[..]), f, Px(0, vpn), e);
      MappedOk(old(Now()), Now(), root, vpn, f, e);
      MappedOthers(old(Now()), Now(), root, vpn, f, e);
      MappedTables(old(Now()), Now(), root, vpn, f, e);
      Open();
    }

    /** The body of the loop of mappages for page v: walk, then write the entry. Ghost w is the place of the page
        in the range, counted on where addresses wrap around. */
    method MapOne(root: nat, v: nat, p: nat, perm: nat, ghost w: nat) returns (ok: bool, ghost n: nat)
      requires Inv() && IsRoot(roles, root) && Alias(v) == Alias(w) && p in users && perm < 4096 && perm % 4 == 0
      modifies this, pa.Footprint(), pa.mem
      ensures Inv()
      ensures ok ==> MapStep(old(Now()), Now(), root, Alias(w), p, perm + PT_PAGE)
      ensures ok ==> Spent(old(Now()), Now(), root, w, w + 1)
      ensures !ok ==> pa.v.free == {} && Walked(old(Now()), Now(), n, root, Alias(w))
      ensures !ok ==> Bottom(pa.mem[..], root, TOP, Alias(w)).None?
    {
      ghost var vpn := Alias(w);
      PermParts(p, perm);
      var pte;
      pte, n := Walk(root, v, true, vpn);
      ghost var u := Now();
      if pte.None? {
        return false, n;
      }
      assert GrownBy(old(Now()), u, n) by {
        OpenWalked(old(Now()), u, n, root, vpn);
      }
      assert users == old(users);
      SetEntry(root, v, pte.value, Pte(p, perm + PT_PAGE), vpn);
      OpenStep(old(Now()), Now(), root, vpn, p, perm + PT_PAGE);
      assert Mapped(u, Now(), root, vpn, pte.value, Pte(p, perm + PT_PAGE));
      SpentOne(old(Now()), u, Now(), n, root, w);
      ok := true;
    }

    /** One turn of the loop, done pages of the range up to end having been mapped since state s. */
    method MapTurn(root: nat, v: nat, p: nat, perm: nat, ghost s: Phys, ghost first: nat, ghost done: nat,
        ghost f0: nat, ghost end: nat)
      returns (ok: bool)
      requires Inv() && IsRoot(s.roles, root) && Alias(v) == Alias(first + done) && first + done < end
      requires p == f0 + done && p in s.users && perm < 4096 && perm % 4 == 0
      requires MapsSoFar(s, Now(), root, first, done, f0, perm + PT_PAGE)
      requires Spent(s, Now(), root, first, first + done)
      modifies this, pa.Footprint(), pa.mem
      ensures Inv() && MapsSoFar(s, Now(), root, first, if ok then done + 1 else done, f0, perm + PT_PAGE)
      ensures ok ==> Spent(s, Now(), root, first, first + done + 1)
      ensures !ok ==> pa.v.free == {} && |Absent(s.mem, root, first, end)| > |s.free|
    {
      ghost var t, n := Now(), 0;
      MapsKept(s, t, root, first, done, f0, perm + PT_PAGE);
      ok, n := MapOne(root, v, p, perm, first + done);
      if ok {
        MapsNext(s, t, Now(), root, first, done, f0, perm + PT_PAGE);
        SpentNext(s, t, Now(), root, first, first + done, first + done + 1);
      } else {
        SpentStop(s, t, Now(), n, root, first, first + done, end);
        OpenWalked(t, Now(), n, root, Alias(first + done));
        MapsStop(s, t, Now(), n, root, first, done, f0, perm + PT_PAGE);
      }
    }

    /** The tables that the pages of a range of addresses need and the tree of root does not have. */
    ghost function Needed(root: nat, va: nat, size: nat): set<(nat, nat)>
      reads pa, pa.mem
    {
      Absent(pa.mem[..], root, va / PAGE_SIZE, va / PAGE_SIZE + PageCount(va, size))
    }

    /** The loop of mappages, from address a up to the address end, which is count pages on. */
    method MapLoop(root: nat, va: nat, end: nat, f0: nat, perm: nat, ghost first: nat, ghost count: nat)
      returns (ok: bool, ghost done: nat)
      requires Inv() && IsRoot(roles, root) && first < PAGES64 && count < PAGES64 && perm < 4096 && perm % 4 == 0
      requires va == PAGE_SIZE * first && end == PAGE_SIZE * ((first + count) % PAGES64)
      requires Run(f0, count) <= users
      modifies this, pa.Footprint(), pa.mem
      ensures Inv() && MapsSoFar(old(Now()), Now(), root, first, done, f0, perm + PT_PAGE)
      ensures if ok then done == count && Spent(old(Now()), Now(), root, first, first + count)
        else done < count && pa.v.free == {} && |Absent(old(pa.mem[..]), root, first, first + count)| > |old(pa.v.free)|
    {
      ghost var s := Now();
      var a, p := va, f0;
      done := 0;
      assert MapsSoFar(s, s, root, first, 0, f0, perm + PT_PAGE) by {
        Open();
        MapsNothing(s, root, first, f0, perm + PT_PAGE);
      }
      OpenSpent(s, s, root, first, first);
      while a != end
        invariant Inv() && done <= count && a == PAGE_SIZE * ((first + done) % PAGES64) && p == f0 + done
        invariant MapsSoFar(s, Now(), root, first, done, f0, perm + PT_PAGE)
        invariant Spent(s, Now(), root, first, first + done)
        decreases count - done
      {
        assert p in Run(f0, count);
        Div4096(a, (first + done) % PAGES64, 0);
        PageWraps(first + done);
        ok := MapTurn(root, a / PAGE_SIZE, p, perm, s, first, done, f0, first + count);
        if !ok {
          return;
        }
        a, p, done := Wrap(a + PAGE_SIZE), p + 1, done + 1;
      }
      PageReached(first, done, count);
      ok := true;
    }

    /** mappages, for any 64-bit address. ok is false when a walk failed, where the source goes on to write
        through a null pointer; ghost done is the number of pages mapped. */
    method MapPages(root: nat, va: nat, size: nat, f0: nat, perm: nat) returns (ok: bool, ghost done: nat)
      requires Inv() && IsRoot(roles, root) && va < U64 && size < U64 && perm < 4096 && perm % 4 == 0
      requires Run(f0, PageCount(va, size)) <= users
      modifies this, pa.Footprint(), pa.mem
      ensures Inv() && MapsSoFar(old(Now()), Now(), root, va / PAGE_SIZE, done, f0, perm + PT_PAGE)
      ensures if ok then done == PageCount(va, size) else done < PageCount(va, size) && pa.v.free == {}
      ensures ok <==> |old(Needed(root, va, size))| <= |old(pa.v.free)|
      ensures ok ==> |pa.v.free| + |old(Needed(root, va, size))| == |old(pa.v.free)|
      ensures ok ==> Spent(old(Now()), Now(), root, va / PAGE_SIZE, va / PAGE_SIZE + done)
      ensures OthersKept(old(Now()), Now())
    {
      ghost var first, count := va / PAGE_SIZE, PageCount(va, size);
      LoopBounds(va, size);
      var last := RoundDown(Wrap(va + size - 1));
      ok, done := MapLoop(root, RoundDown(va), Wrap(last + PAGE_SIZE), f0, perm, first, count);
      MapsKept(old(Now()), Now(), root, first, done, f0, perm + PT_PAGE);
      if ok {
        SpentAll(old(Now()), Now(), root, first, first + count);
      }
    }

    // ----- copy_page_table

    /** pt_src[i] |= PT_RO; pt_dest[i] = pt_src[i]; and one reference more to the frame behind them. */
    method Share(d: nat, c: nat, i: nat) returns (e: Word)
      requires Inv() && d in roles && c in roles && roles[d].level == roles[c].level == 0 && i < 512
      requires Present(Read(pa.mem[..], c, i))
      modifies pa.Footprint(), pa.mem
      ensures Inv() && Shared(old(Now()), Now(), d, c, i, e) && OthersKept(old(Now()), Now())
    {
      ghost var t := Now();
      Open();
      assert EntryOk(Read(t.mem, c, i), roles[c], i, roles, users);
      ROParts(pa.mem[c][i]);
      e := SetRO(pa.mem[c][i]);
      pa.mem[c] := pa.mem[c][i := e];
      pa.mem[d] := pa.mem[d][i := e];
      assert pa.mem[..] == Put(Put(t.mem, c, i, e), d, i, e);
      pa.AddRef(Target(e));
      SharedSound(t, Now(), d, c, i, e);
      SharedOthers(t, Now(), d, c, i, e);
      Open();
    }

    /** copy_page_table, as task k says. ok is false when an allocation failed, where the source goes on with a
        null table: exactly when the source tree has more tables than there are free frames. */
    method CopyPageTable(d: nat, c: nat, level: nat, ghost k: Task) returns (ok: bool)
      requires Inv() && k.d == d && k.c == c && k.level == level
      requires Pair(Now(), k) && Blank(pa.mem[..], d) && k.pfx < Prefixes(level)
      modifies this, pa.Footprint(), pa.mem
      ensures Inv()
      ensures ok <==> Tables(old(pa.mem[..]), c, level, 512) <= |old(pa.v.free)|
      ensures ok ==> Copying(old(Now()), Now(), k, 512) && Taken(old(Now()), Now(), k, 512)
      ensures !ok ==> pa.v.free == {}
      ensures OthersKept(old(Now()), Now())
      decreases level, 2
    {
      ghost var s := Now();
      assert Copying(s, s, k, 0) by {
        Open();
        BeginCopying(s, k);
      }
      TakenNothing(s, k);
      for i := 0 to 512
        invariant Inv() && Copying(s, Now(), k, i) && Taken(s, Now(), k, i)
      {
        ok := CopyTurn(d, c, level, i, s, k);
        if !ok {
          return;
        }
      }
      ok := true;
    }

    /** One turn of the loop of copy_page_table. */
    method CopyTurn(d: nat, c: nat, level: nat, i: nat, ghost s: Phys, ghost k: Task) returns (ok: bool)
      requires Inv() && k.d == d && k.c == c && k.level == level
      requires Copying(s, Now(), k, i) && Taken(s, Now(), k, i) && i < 512
      modifies this, pa.Footprint(), pa.mem
      ensures Inv()
      ensures ok ==> Copying(s, Now(), k, i + 1) && Taken(s, Now(), k, i + 1)
      ensures !ok ==> pa.v.free == {} && Short(s, k) && OthersKept(s, Now())
      decreases level, 1
    {
      ghost var t := Now();
      CopyingTables(s, t, k, i);
      if !Present(pa.mem[c][i]) {
        SkipTurn(s, t, k, i);
        TakenSkip(s, t, k, i);
        ok := true;
      } else if level == 0 {
        var e := Share(d, c, i);
        SharedTurn(s, t, Now(), k, i, e);
        TakenShared(s, t, Now(), k, i, e);
        ok := true;
      } else {
        ok := DescendTurn(d, c, level, i, s, k);
      }
    }

    /** One turn at a higher level: a fresh table is hung in next to that of the source, then filled by the
        recursive call. */
    method DescendTurn(d: nat, c: nat, level: nat, i: nat, ghost s: Phys, ghost k: Task) returns (ok: bool)
      requires Inv() && k.d == d && k.c == c && k.level == level && level > 0
      requires Copying(s, Now(), k, i) && Taken(s, Now(), k, i) && i < 512
      requires c < pa.mem.Length && Present(pa.mem[c][i])
      modifies this, pa.Footprint(), pa.mem
      ensures Inv()
      ensures ok ==> Copying(s, Now(), k, i + 1) && Taken(s, Now(), k, i + 1)
      ensures !ok ==> pa.v.free == {} && Short(s, k) && OthersKept(s, Now())
      decreases level, 0
    {
      ghost var t := Now();
      CopyingTables(s, t, k, i);
      var src := pa.mem[c][i];
      var g := Grow(d, i, Attr(src));
      if g.None? {
        CopyStops(s, t, k, i);
        return false;
      }
      ghost var u, e := Now(), Pte(g.value, Attr(src));
      ghost var b := Below(k, i, g.value, Target(src));
      BelowPair(s, t, u, k, i, g.value, e);
      ok := CopyPageTable(g.value, Target(src), level - 1, b);
      ghost var x := Turn(s, t, u, Now(), k, i, g.value, e);
      if ok {
        DescendedTurn(x, b);
        TakenBelow(x, b);
      } else {
        CopyStopsBelow(x, b);
      }
    }
  }

  /** Pages of the 64-bit address space. */
  const PAGES64: nat := 0x10_0000_0000_0000

  /** The number of pages from the first to the last of a range, where addresses do not wrap around. */
  function Span(va: nat, size: nat): int {
    (va + size - 1) / PAGE_SIZE - va / PAGE_SIZE + 1
  }

  /** Pages that the loop of mappages visits: it cannot tell apart spans that differ by the whole address space. */
  function PageCount(va: nat, size: nat): nat {
    Span(va, size) % PAGES64
  }

  predicate From(f0: nat, f: nat) {
    f0 <= f
  }

  /** The k frames from f0 on. */
  function Run(f0: nat, k: nat): set<nat> {
    set f: nat | f < f0 + k && From(f0, f)
  }

  /** The address after the last page of a run of pages is that of the next page, 0 after the last of all. */
  lemma PageWraps(v: nat)
    ensures Alias(v % PAGES64) == Alias(v)
    ensures Wrap(PAGE_SIZE * (v % PAGES64) + PAGE_SIZE) == PAGE_SIZE * ((v + 1) % PAGES64)
  {
    WrappedAlias(v);
  }

  lemma WrappedAlias(v: nat)
    ensures Alias(v % PAGES64) == Alias(v)
  {
    var q, r := v / PAGES64, v % PAGES64;
    var a, b := r / VPAGES, r % VPAGES;
    assert v == VPAGES * (0x1_0000 * q + a) + b;
    ModVpages(0x1_0000 * q + a, b);
  }

  lemma ModVpages(k: nat, b: nat)
    requires b < VPAGES
    ensures (VPAGES * k + b) % VPAGES == b
  {
  }

  lemma PageReached(first: nat, done: nat, count: nat)
    requires done <= count < PAGES64 && (first + done) % PAGES64 == (first + count) % PAGES64
    ensures done == count
  {
  }

  /** The page of a 64-bit sum or difference. */
  lemma WrappedPage(x: int)
    requires -1 <= x < 2 * U64
    ensures 0 <= Wrap(x) < U64 && RoundDown(Wrap(x)) == PAGE_SIZE * (x / PAGE_SIZE % PAGES64)
  {
    var q, r := x / PAGE_SIZE, x % PAGE_SIZE;
    Div4096(Wrap(x), if q < 0 then q + PAGES64 else if q >= PAGES64 then q - PAGES64 else q, r);
  }

  lemma ModuloSum(first: nat, d: int)
    ensures (first + d % PAGES64) % PAGES64 == (first + d) % PAGES64
  {
    var q, r := d / PAGES64, d % PAGES64;
    ModuloPages(first + r, q);
  }

  lemma ModuloPages(x: int, q: int)
    ensures (x + PAGES64 * q) % PAGES64 == x % PAGES64
  {
  }

  /** The loop of mappages meets its bound after PageCount turns, also where addresses wrap around. */
  lemma LoopBounds(va: nat, size: nat)
    requires va < U64 && size < U64
    ensures RoundDown(va) == PAGE_SIZE * (va / PAGE_SIZE) && va / PAGE_SIZE < PAGES64
    ensures Wrap(RoundDown(Wrap(va + size - 1)) + PAGE_SIZE) ==
      PAGE_SIZE * ((va / PAGE_SIZE + PageCount(va, size)) % PAGES64)
  {
    var last := (va + size - 1) / PAGE_SIZE;
    WrappedPage(va + size - 1);
    PageWraps(last % PAGES64);
    ModuloSum(1, last);
    ModuloSum(va / PAGE_SIZE, Span(va, size));
  }

  /** The loop visits page v. */
  predicate Visited(va: nat, size: nat, v: nat) {
    (v - va / PAGE_SIZE) % PAGES64 < PageCount(va, size)
  }

  /** Page v has a byte in the range of size bytes from va on, which may wrap around. */
  predicate Touched(va: nat, size: nat, v: nat) {
    size > 0 && ((v * PAGE_SIZE < va + size && va < (v + 1) * PAGE_SIZE) || v * PAGE_SIZE + U64 < va + size)
  }

  lemma TouchedSpan(va: nat, size: nat, v: nat)
    requires va < U64 && 0 < size < U64 && v < PAGES64
    ensures Touched(va, size, v) <==> (v - va / PAGE_SIZE) % PAGES64 < Span(va, size)
  {
    var first := va / PAGE_SIZE;
    assert (v - first) % PAGES64 == if v >= first then v - first else v - first + PAGES64;
  }

  /** The k-th page after the first, around the address space. */
  lemma PageAfter(first: nat, k: nat)
    requires first < PAGES64 && k < PAGES64
    ensures ((first + k) % PAGES64 - first) % PAGES64 == k
  {
    assert (first + k) % PAGES64 == if first + k < PAGES64 then first + k else first + k - PAGES64;
  }

  /** The pages visited are exactly those touched, except that an empty range at an address that is not page-aligned
      still maps one page, and that a range which meets every page wraps around to fewer. */
  lemma PagesExact(va: nat, size: nat)
    requires va < U64 && size < U64
    ensures (forall v: nat | v < PAGES64 :: Visited(va, size, v) <==> Touched(va, size, v)) <==>
      (size > 0 || va % PAGE_SIZE == 0) && Span(va, size) < PAGES64
  {
    var first := va / PAGE_SIZE;
    if size == 0 {
      PageAfter(first, 0);
      assert Visited(va, size, first) <==> va % PAGE_SIZE != 0;
    } else if Span(va, size) < PAGES64 {
      forall v: nat | v < PAGES64 ensures Visited(va, size, v) <==> Touched(va, size, v) {
        TouchedSpan(va, size, v);
      }
    } else {
      var k := PageCount(va, size);
      PageAfter(first, k);
      TouchedSpan(va, size, (first + k) % PAGES64);
      assert !Visited(va, size, (first + k) % PAGES64);
    }
  }
}
