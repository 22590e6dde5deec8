// The memory state that address spaces are built in, and the elementary changes to it.
module PhysState {
  import opened BlockTree
  import opened Machine
  import opened TableCounts
  import opened Translation

  /** Memory, reference counts, and what each frame is for. */
  datatype Phys = Phys(mem: Mem, cnt: seq<int>, live: set<Block>, free: set<nat>, roles: Roles, users: set<nat>)

  /** Tables and user frames are distinct live frames, and the tables form trees. */
  ghost predicate Sound(s: Phys) {
    && |s.mem| == |s.cnt| <= 0x8_0000
    && Trees(s.mem, s.roles, s.users)
    && (forall f | f in s.roles || f in s.users :: f < |s.cnt| && Block(f, 0) in s.live)
  }

  ghost predicate Sealed(s: Phys, layers: nat) {
    if layers == 0 then Sound(s) else Sealed(s, layers - 1)
  }

  lemma {:induction false} Unseal(s: Phys, layers: nat)
    ensures Sealed(s, layers) <==> Sound(s)
  {
    if layers > 0 {
      Unseal(s, layers - 1);
    }
  }

  /** Sound, wrapped so that proofs which only pass it on do not open it. */
  ghost predicate Held(s: Phys) {
    Sealed(s, 4)
  }

  ghost predicate SameLookups(s: Phys, t: Phys) {
    forall r: nat, v: nat | IsRoot(s.roles, r) && v < VPAGES :: Lookup(t.mem, r, v) == Lookup(s.mem, r, v)
  }

  ghost predicate SameUsers(s: Phys, t: Phys) {
    && t.users == s.users && |t.cnt| == |s.cnt|
    && (forall f | f in s.users && f < |s.cnt| :: t.cnt[f] == s.cnt[f] && (forall i: int ::
      Read(t.mem, f, i) == Read(s.mem, f, i)))
  }

  /** Tables may have been added; nothing that was mapped or stored has changed. */
  ghost predicate Extends(s: Phys, t: Phys) {
    && SameUsers(s, t) && SameLookups(s, t) && t.free <= s.free
    && (forall f | f in s.roles :: f in t.roles && t.roles[f] == s.roles[f])
    && (forall f | f in t.roles && f !in s.roles :: f in s.free)
  }

  // ----- the other users of the page allocator

  /** Frame f is in use, but neither for a table nor for a user. */
  ghost predicate Foreign(s: Phys, f: nat) {
    f < |s.mem| && f !in s.roles && f !in s.users && f !in s.free
  }

  /** Foreign frames keep contents and count and stay foreign, and no live block is released. Wrapped like Held. */
  ghost predicate OthersKept(s: Phys, t: Phys, layers: nat := 4) {
    if layers > 0 then OthersKept(s, t, layers - 1)
    else
      && |t.mem| == |s.mem| && |t.cnt| == |s.cnt| && s.live <= t.live && t.free <= s.free
      && forall f: nat | Foreign(s, f) ::
           Foreign(t, f) && t.mem[f] == s.mem[f] && (f < |s.cnt| ==> t.cnt[f] == s.cnt[f])
  }

  lemma {:induction false} OpenOthers(s: Phys, t: Phys, layers: nat := 4)
    ensures OthersKept(s, t, layers) <==>
      && |t.mem| == |s.mem| && |t.cnt| == |s.cnt| && s.live <= t.live && t.free <= s.free
      && forall f: nat | Foreign(s, f) ::
           Foreign(t, f) && t.mem[f] == s.mem[f] && (f < |s.cnt| ==> t.cnt[f] == s.cnt[f])
  {
    if layers > 0 {
      OpenOthers(s, t, layers - 1);
    }
  }

  lemma OthersSame(s: Phys)
    ensures OthersKept(s, s)
  {
    OpenOthers(s, s);
  }

  lemma OthersNext(s: Phys, t: Phys, u: Phys)
    requires OthersKept(s, t) && OthersKept(t, u)
    ensures OthersKept(s, u)
  {
    OpenOthers(s, t);
    OpenOthers(t, u);
    OpenOthers(s, u);
  }

  /** Words and counts of tables and users change, and no frame comes or goes. */
  lemma OthersInPlace(s: Phys, t: Phys)
    requires |t.mem| == |s.mem| && |t.cnt| == |s.cnt| && t.live == s.live && t.free == s.free
    requires t.roles == s.roles && t.users == s.users
    requires forall f: nat | f < |s.mem| && f !in s.roles && f !in s.users :: t.mem[f] == s.mem[f]
    requires forall f: nat | f < |s.cnt| && f !in s.roles && f !in s.users :: t.cnt[f] == s.cnt[f]
    ensures OthersKept(s, t)
  {
    OpenOthers(s, t);
  }

  // ----- allocation

  /** Frame g, of no use before, has been allocated and zeroed. */
  ghost predicate Allocated(s: Phys, t: Phys, g: nat) {
    && g < |s.mem| && g < |s.cnt| && g in s.free && (forall b | b in s.live :: !In(g, b))
    && t == Phys(s.mem[g := ZeroPage()], s.cnt[g := 1], s.live + {Block(g, 0)}, s.free - {g}, s.roles, s.users)
  }

  lemma AllocatedOk(s: Phys, t: Phys, g: nat)
    requires Sound(s) && Allocated(s, t, g)
    ensures Sound(t) && Extends(s, t) && Blank(t.mem, g) && g !in s.roles && g !in s.users
  {
    forall f | f in s.roles || f in s.users ensures f != g {
      assert In(f, Block(f, 0));
    }
    TreesFrame(s.mem, t.mem, s.roles, s.users);
    forall r: nat, v: nat | IsRoot(s.roles, r) && v < VPAGES ensures Lookup(t.mem, r, v) == Lookup(s.mem, r, v) {
      RootOnPath(s.roles, r, v);
      LeafFrame(s.mem, t.mem, s.roles, s.users, r, r, TOP, v);
    }
  }

  /** A frame that is allocated and of no use yet is given to a user. */
  ghost predicate Given(s: Phys, t: Phys, f: nat) {
    f < |s.mem| && t == Phys(s.mem, s.cnt, s.live, s.free, s.roles, s.users + {f})
  }

  lemma GivenOk(s: Phys, t: Phys, f: nat)
    requires Sound(s) && Given(s, t, f) && f < |s.cnt| && Block(f, 0) in s.live && f !in s.roles && f !in s.users
    ensures Sound(t)
  {
  }

  /** A frame is allocated for a user; it holds zeros and has one reference. */
  ghost predicate NewPage(s: Phys, u: Phys, f: nat) {
    exists t :: Allocated(s, t, f) && Given(t, u, f)
  }

  /** All trees have the same tables. */
  ghost predicate SameTables(s: Phys, t: Phys) {
    && (forall r | IsRoot(s.roles, r) :: IsRoot(t.roles, r))
    && (forall r: nat, l: nat, v: nat | IsRoot(s.roles, r) && l <= TOP && v < VPAGES ::
         Table(t.mem, r, l, v) == Table(s.mem, r, l, v))
  }

  lemma AllocatedTables(s: Phys, t: Phys, g: nat)
    requires Sound(s) && Allocated(s, t, g)
    ensures SameTables(s, t)
  {
    forall r: nat, l: nat, v: nat | IsRoot(s.roles, r) && l <= TOP && v < VPAGES
      ensures Table(t.mem, r, l, v) == Table(s.mem, r, l, v) {
      assert forall f | f in s.roles :: In(f, Block(f, 0));
      TableFrame(s.mem, t.mem, s.roles, s.users, r, l, v);
    }
  }

  /** Frames that are not tables change: no tree does. */
  lemma UserWriteTables(s: Phys, t: Phys)
    requires Sound(s) && t.roles == s.roles && forall g, i: int | g in s.roles :: Read(t.mem, g, i) == Read(s.mem, g, i)
    ensures SameTables(s, t)
  {
    forall r: nat, l: nat, v: nat | IsRoot(s.roles, r) && l <= TOP && v < VPAGES
      ensures Table(t.mem, r, l, v) == Table(s.mem, r, l, v) {
      TableFrame(s.mem, t.mem, s.roles, s.users, r, l, v);
    }
  }

  lemma AllocatedTrees(s: Phys, t: Phys, g: nat, root: nat)
    requires Sound(s) && Allocated(s, t, g) && IsRoot(s.roles, root)
    ensures Tables(t.mem, root, TOP, 512) == Tables(s.mem, root, TOP, 512)
  {
    assert forall f | f in s.roles :: In(f, Block(f, 0));
    TablesSame(s.mem, t.mem, s.roles, s.users, root, 512);
  }

  lemma NewPageTables(s: Phys, u: Phys, f: nat)
    requires Sound(s) && NewPage(s, u, f)
    ensures SameTables(s, u) && OthersKept(s, u) && f in s.free && u.free == s.free - {f} && u.roles == s.roles
    ensures |u.free| + 1 == |s.free|
  {
    var t :| Allocated(s, t, f) && Given(t, u, f);
    AllocatedTables(s, t, f);
    OpenOthers(s, u);
  }

  // ----- a new table

  /** The allocated frame g becomes the table behind entry i of table f. */
  ghost predicate Hung(t: Phys, u: Phys, f: nat, i: nat, g: nat, e: Word) {
    && f in t.roles && t.roles[f].level > 0 && f < |t.mem| && i < 512 && Descriptor(e) && Target(e) == g
    && Attr(e) == PT_PAGE
    && u == Phys(Put(t.mem, f, i, e), t.cnt, t.live, t.free, t.roles[g := ChildRole(t.roles[f], i)], t.users)
  }

  lemma HungOk(t: Phys, u: Phys, f: nat, i: nat, g: nat, e: Word)
    requires Sound(t) && Hung(t, u, f, i, g, e) && Read(t.mem, f, i) == 0
    requires Blank(t.mem, g) && g !in t.roles && g !in t.users && g < |t.cnt| && Block(g, 0) in t.live
    ensures Sound(u) && SameLookups(t, u) && SameUsers(t, u)
  {
    HangTrees(t.mem, t.roles, t.users, f, i, g, e);
    forall r: nat, v: nat | IsRoot(t.roles, r) && v < VPAGES ensures Lookup(u.mem, r, v) == Lookup(t.mem, r, v) {
      RootOnPath(t.roles, r, v);
      HangLeaf(t.mem, t.roles, t.users, f, i, g, e, r, r, TOP, v);
    }
  }

  /** walk allocates a table: frame g is allocated and hung into entry i of table f. */
  ghost predicate Grown(s: Phys, u: Phys, f: nat, i: nat, g: nat, e: Word) {
    exists t :: Allocated(s, t, g) && Hung(t, u, f, i, g, e)
  }

  lemma GrownOk(s: Phys, u: Phys, f: nat, i: nat, g: nat, e: Word)
    requires Sound(s) && Grown(s, u, f, i, g, e) && f in s.roles && Read(s.mem, f, i) == 0
    ensures Sound(u) && Extends(s, u) && g !in s.roles && g !in s.users && g in s.free
    ensures Read(u.mem, f, i) == e && Blank(u.mem, g) && f != g
    ensures forall h: int, j: int :: h != g && (h != f || j != i) ==> Read(u.mem, h, j) == Read(s.mem, h, j)
    ensures u.roles == s.roles[g := ChildRole(s.roles[f], i)] && s.roles[f].level > 0 && i < 512
    ensures u.free == s.free - {g} && g < |u.cnt|
  {
    var t :| Allocated(s, t, g) && Hung(t, u, f, i, g, e);
    AllocatedOk(s, t, g);
    HungOk(t, u, f, i, g, e);
  }

  /** One table fewer is missing on the way to vpn. */
  lemma GrownWay(s: Phys, u: Phys, f: nat, i: nat, g: nat, e: Word, root: nat, level: nat, vpn: nat)
    requires Sound(s) && Grown(s, u, f, i, g, e) && IsRoot(s.roles, root) && vpn < VPAGES && 0 < level <= TOP
    requires f in s.roles
    requires Table(s.mem, root, level, vpn) == Some(f) && i == Px(level, vpn) && Read(s.mem, f, i) == 0
    ensures Table(u.mem, root, level - 1, vpn) == Some(g) && GrownOnWay(s.mem, u.mem, root, vpn)
    ensures Missing(s.mem, root, TOP, vpn) == Missing(u.mem, root, TOP, vpn) + 1
  {
    GrownOk(s, u, f, i, g, e);
    assert Linked(e) by {
      var t :| Allocated(s, t, g) && Hung(t, u, f, i, g, e);
      DescriptorPresent(e);
    }
    assert Target(e) == g;
    HungWay(s.mem, u.mem, s.roles, s.users, root, level, vpn, f, g);
  }

  /** Only tables differ: empty entries have been filled, and frames that were of no use are new tables. */
  ghost predicate TablesOnly(s: Phys, t: Phys) {
    && |t.mem| == |s.mem| && |t.cnt| == |s.cnt|
    && (forall g: int, j: int | g !in t.roles :: Read(t.mem, g, j) == Read(s.mem, g, j))
    && (forall f: nat | f !in t.roles && f < |s.cnt| :: t.cnt[f] == s.cnt[f])
    && (forall f, j: int | f in s.roles && Read(s.mem, f, j) != 0 :: Read(t.mem, f, j) == Read(s.mem, f, j))
  }

  /** n tables more. */
  ghost predicate GrownBy(s: Phys, t: Phys, n: nat) {
    Sound(t) && Extends(s, t) && TablesOnly(s, t) && OthersKept(s, t) && |t.free| + n == |s.free|
  }

  lemma GrownOne(s: Phys, u: Phys, f: nat, i: nat, g: nat, e: Word)
    requires Sound(s) && Grown(s, u, f, i, g, e) && f in s.roles && Read(s.mem, f, i) == 0
    ensures GrownBy(s, u, 1)
  {
    GrownOk(s, u, f, i, g, e);
    assert g in u.roles && f in u.roles;
    var t :| Allocated(s, t, g) && Hung(t, u, f, i, g, e);
    OpenOthers(s, u);
  }

  lemma GrownByNone(s: Phys)
    requires Sound(s)
    ensures GrownBy(s, s, 0)
  {
    OthersSame(s);
  }

  lemma GrownByNext(s: Phys, t: Phys, u: Phys, n: nat, more: bool)
    requires GrownBy(s, t, n) && if more then GrownBy(t, u, 1) else u == t
    ensures GrownBy(s, u, if more then n + 1 else n)
  {
    if more {
      OthersNext(s, t, u);
    }
  }

  /** A walk for vpn that has allocated n of the tables missing on the way; elsewhere the tree has the tables it had. */
  ghost predicate WalkedBy(s: Phys, t: Phys, n: nat, root: nat, vpn: nat) {
    && GrownBy(s, t, n) && (n == 0 ==> t == s)
    && GrownOnWay(s.mem, t.mem, root, vpn)
    && Missing(s.mem, root, TOP, vpn) == Missing(t.mem, root, TOP, vpn) + n
  }

  /** WalkedBy, wrapped like Held. */
  ghost predicate Walked(s: Phys, t: Phys, n: nat, root: nat, vpn: nat, layers: nat := 4) {
    if layers == 0 then WalkedBy(s, t, n, root, vpn) else Walked(s, t, n, root, vpn, layers - 1)
  }

  lemma {:induction false} OpenWalked(s: Phys, t: Phys, n: nat, root: nat, vpn: nat, layers: nat := 4)
    ensures Walked(s, t, n, root, vpn, layers) <==> WalkedBy(s, t, n, root, vpn)
  {
    if layers > 0 {
      OpenWalked(s, t, n, root, vpn, layers - 1);
    }
  }

  lemma WalkStart(s: Phys, root: nat, vpn: nat)
    requires Sound(s)
    ensures Walked(s, s, 0, root, vpn)
  {
    GrownByNone(s);
    OpenWalked(s, s, 0, root, vpn);
    SameWay(s.mem, root, vpn);
  }

  /** One table is hung in where the walk for vpn came to an end. */
  lemma WalkGrown(s: Phys, u: Phys, f: nat, i: nat, g: nat, e: Word, root: nat, level: nat, vpn: nat)
    requires Sound(s) && Grown(s, u, f, i, g, e) && IsRoot(s.roles, root) && vpn < VPAGES && 0 < level <= TOP
    requires f in s.roles && Table(s.mem, root, level, vpn) == Some(f) && i == Px(level, vpn) && Read(s.mem, f, i) == 0
    ensures Walked(s, u, 1, root, vpn) && Table(u.mem, root, level - 1, vpn) == Some(g)
  {
    GrownOne(s, u, f, i, g, e);
    GrownWay(s, u, f, i, g, e, root, level, vpn);
    OpenWalked(s, u, 1, root, vpn);
  }

  lemma WalkedNext(s: Phys, t: Phys, u: Phys, n: nat, more: bool, root: nat, vpn: nat)
    requires Walked(s, t, n, root, vpn) && vpn < VPAGES
    requires if more then Walked(t, u, 1, root, vpn) else u == t
    ensures Walked(s, u, if more then n + 1 else n, root, vpn)
  {
    OpenWalked(t, u, 1, root, vpn);
    OpenWalked(s, t, n, root, vpn);
    OpenWalked(s, u, if more then n + 1 else n, root, vpn);
    GrownByNext(s, t, u, n, more);
    if more {
      WayNext(s.mem, t.mem, u.mem, root, vpn);
    }
  }

  /** What the numbers say at the end of a walk. */
  lemma WalkedCount(s: Phys, t: Phys, n: nat, root: nat, vpn: nat)
    requires Walked(s, t, n, root, vpn)
    ensures n + |t.free| == |s.free| && OthersKept(s, t)
    ensures Missing(s.mem, root, TOP, vpn) == Missing(t.mem, root, TOP, vpn) + n
  {
    OpenWalked(s, t, n, root, vpn);
  }

  lemma WalkedSame(s: Phys, t: Phys, n: nat, root: nat, vpn: nat)
    requires Walked(s, t, n, root, vpn) && (n == 0 || Lookup(s.mem, root, vpn).Some?)
    ensures t == s
  {
    OpenWalked(s, t, n, root, vpn);
  }

  // ----- a level-0 entry

  /** The entry of vpn in the tree of root becomes e. */
  ghost predicate Mapped(s: Phys, t: Phys, root: nat, vpn: nat, f: nat, e: Word) {
    && f < |s.mem| && Bottom(s.mem, root, TOP, vpn) == Some(f)
      && t == Phys(Put(s.mem, f, Px(0, vpn), e), s.cnt, s.live, s.free, s.roles, s.users)
  }

  lemma MappedLookup(s: Phys, t: Phys, root: nat, vpn: nat, f: nat, e: Word)
    requires Sound(s) && IsRoot(s.roles, root) && vpn < VPAGES && Mapped(s, t, root, vpn, f, e) && Present(e)
    ensures forall r: nat, v: nat | IsRoot(s.roles, r) && v < VPAGES ::
      Lookup(t.mem, r, v) == if r == root && v == vpn then Some(e as int) else Lookup(s.mem, r, v)
  {
    forall r: nat, v: nat | IsRoot(s.roles, r) && v < VPAGES
      ensures Lookup(t.mem, r, v) == if r == root && v == vpn then Some(e as int) else Lookup(s.mem, r, v)
    {
      WriteLookup(s.mem, s.roles, s.users, root, vpn, f, e, r, v);
    }
  }

  lemma MappedSound(s: Phys, t: Phys, root: nat, vpn: nat, f: nat, e: Word)
    requires Sound(s) && IsRoot(s.roles, root) && vpn < VPAGES && Mapped(s, t, root, vpn, f, e)
    requires Descriptor(e) && Target(e) in s.users
    ensures Sound(t) && SameUsers(s, t)
  {
  }

  lemma MappedOk(s: Phys, t: Phys, root: nat, vpn: nat, f: nat, e: Word)
    requires Sound(s) && IsRoot(s.roles, root) && vpn < VPAGES && Mapped(s, t, root, vpn, f, e)
    requires Descriptor(e) && Target(e) in s.users
    ensures Sound(t) && SameUsers(s, t)
    ensures forall r: nat, v: nat | IsRoot(s.roles, r) && v < VPAGES ::
      Lookup(t.mem, r, v) == if r == root && v == vpn then Some(e as int) else Lookup(s.mem, r, v)
  {
    DescriptorPresent(e);
    MappedSound(s, t, root, vpn, f, e);
    MappedLookup(s, t, root, vpn, f, e);
  }

  lemma MappedOthers(s: Phys, t: Phys, root: nat, vpn: nat, f: nat, e: Word)
    requires Sound(s) && IsRoot(s.roles, root) && vpn < VPAGES && Mapped(s, t, root, vpn, f, e)
    ensures OthersKept(s, t)
  {
    RootOnPath(s.roles, root, vpn);
    BottomOnPath(s.mem, s.roles, s.users, root, root, TOP, vpn);
    OthersInPlace(s, t);
  }

  /** The tables are found as before. */
  lemma MappedTables(s: Phys, t: Phys, root: nat, vpn: nat, f: nat, e: Word)
    requires Sound(s) && IsRoot(s.roles, root) && vpn < VPAGES && Mapped(s, t, root, vpn, f, e)
    ensures SameTables(s, t)
  {
    RootOnPath(s.roles, root, vpn);
    BottomOnPath(s.mem, s.roles, s.users, root, root, TOP, vpn);
    forall r: nat, l: nat, v: nat | IsRoot(s.roles, r) && l <= TOP && v < VPAGES
      ensures Table(t.mem, r, l, v) == Table(s.mem, r, l, v) {
      TableFrame(s.mem, t.mem, s.roles, s.users, r, l, v);
    }
  }

  // ----- a range of pages

  /** Frames have gone exactly into the tables that the pages from first to before next lacked, and into extra
      others: up to any end, the pages from next on lack as many tables fewer than all of them did. */
  ghost predicate SpentOn(s: Phys, t: Phys, root: nat, first: nat, next: nat, extra: nat) {
    forall end: nat | next <= end ::
      |Absent(t.mem, root, next, end)| + |s.free| == |Absent(s.mem, root, first, end)| + |t.free| + extra
  }

  /** SpentOn, wrapped like Held. */
  ghost predicate Spent(s: Phys, t: Phys, root: nat, first: nat, next: nat, extra: nat := 0, layers: nat := 4) {
    if layers == 0 then SpentOn(s, t, root, first, next, extra) else Spent(s, t, root, first, next, extra, layers - 1)
  }

  lemma {:induction false} OpenSpent(s: Phys, t: Phys, root: nat, first: nat, next: nat, extra: nat := 0,
      layers: nat := 4)
    ensures Spent(s, t, root, first, next, extra, layers) <==> SpentOn(s, t, root, first, next, extra)
  {
    if layers > 0 {
      OpenSpent(s, t, root, first, next, extra, layers - 1);
    }
  }

  lemma SpentNothing(s: Phys, t: Phys, root: nat, first: nat)
    requires SameTables(s, t) && IsRoot(s.roles, root)
    ensures |t.free| <= |s.free| ==> Spent(s, t, root, first, first, |s.free| - |t.free|)
  {
    if |t.free| <= |s.free| {
      OpenSpent(s, t, root, first, first, |s.free| - |t.free|);
      forall end: nat | first <= end
        ensures |Absent(t.mem, root, first, end)| == |Absent(s.mem, root, first, end)| {
        AbsentSame(s.mem, t.mem, root, first, end);
      }
    }
  }

  lemma MissingSame(s: Phys, t: Phys, root: nat, vpn: nat)
    requires SameTables(s, t) && IsRoot(s.roles, root) && vpn < VPAGES
    ensures Missing(t.mem, root, TOP, vpn) == Missing(s.mem, root, TOP, vpn)
  {
    AbsentSame(s.mem, t.mem, root, vpn, vpn + 1);
    AbsentOne(s.mem, root, vpn);
    AbsentOne(t.mem, root, vpn);
  }

  lemma SpentOne(t: Phys, u: Phys, w: Phys, n: nat, root: nat, v: nat)
    requires Walked(t, u, n, root, Alias(v)) && w.free == u.free && IsRoot(u.roles, root) && SameTables(u, w)
    requires Bottom(u.mem, root, TOP, Alias(v)).Some?
    ensures Spent(t, w, root, v, v + 1)
  {
    OpenWalked(t, u, n, root, Alias(v));
    OpenSpent(t, w, root, v, v + 1);
    forall end: nat | v + 1 <= end
      ensures |Absent(w.mem, root, v + 1, end)| + |t.free| == |Absent(t.mem, root, v, end)| + |w.free| {
      AbsentNext(t.mem, u.mem, root, v, end);
      AbsentSame(u.mem, w.mem, root, v + 1, end);
    }
  }

  lemma SpentNext(s: Phys, t: Phys, w: Phys, root: nat, first: nat, next: nat, after: nat, x: nat := 0, y: nat := 0)
    requires Spent(s, t, root, first, next, x) && Spent(t, w, root, next, after, y) && next <= after
    ensures Spent(s, w, root, first, after, x + y)
  {
    OpenSpent(s, t, root, first, next, x);
    OpenSpent(t, w, root, next, after, y);
    OpenSpent(s, w, root, first, after, x + y);
    forall end: nat | after <= end
      ensures |Absent(w.mem, root, after, end)| + |s.free| ==
        |Absent(s.mem, root, first, end)| + |w.free| + x + y {
      assert |Absent(t.mem, root, next, end)| + |s.free| == |Absent(s.mem, root, first, end)| + |t.free| + x;
    }
  }

  /** A page has been taken first. */
  lemma SpentWithPage(p: Phys, t: Phys, u: Phys, root: nat, v: nat, next: nat)
    requires SameTables(p, t) && IsRoot(p.roles, root) && |t.free| + 1 == |p.free|
    requires Spent(t, u, root, v, next) && v <= next
    ensures Spent(p, u, root, v, next, 1)
  {
    SpentNothing(p, t, root, v);
    SpentNext(p, t, u, root, v, v, next, 1, 0);
  }

  /** A walk fails for lack of frames: the whole range lacks more tables than there were frames. */
  lemma SpentStop(s: Phys, t: Phys, u: Phys, n: nat, root: nat, first: nat, next: nat, end: nat)
    requires Spent(s, t, root, first, next) && next < end
    requires Walked(t, u, n, root, Alias(next)) && u.free == {} && Bottom(u.mem, root, TOP, Alias(next)).None?
    ensures |Absent(s.mem, root, first, end)| > |s.free|
  {
    OpenSpent(s, t, root, first, next);
    WalkedCount(t, u, n, root, Alias(next));
    AbsentAtLeast(t.mem, root, next, end);
    assert |Absent(t.mem, root, next, end)| + |s.free| == |Absent(s.mem, root, first, end)| + |t.free|;
  }

  lemma SpentAll(s: Phys, t: Phys, root: nat, first: nat, end: nat, extra: nat := 0)
    requires Spent(s, t, root, first, end, extra)
    ensures |t.free| + |Absent(s.mem, root, first, end)| + extra == |s.free|
  {
    OpenSpent(s, t, root, first, end, extra);
    assert Absent(t.mem, root, end, end) == {};
    assert |Absent(t.mem, root, end, end)| + |s.free| == |Absent(s.mem, root, first, end)| + |t.free| + extra;
  }

  /** The aliases of k pages from first on translate to k frames from f0 on; every other translation is unchanged. */
  ghost predicate MapsRange(s: Phys, t: Phys, root: nat, first: nat, k: nat, f0: nat, attr: int) {
    forall r: nat, v: nat | IsRoot(s.roles, r) && v < VPAGES ::
      Lookup(t.mem, r, v) ==
        if r == root && Offset(first, v) < k then Some(Pte(f0 + Offset(first, v), attr)) else Lookup(s.mem, r, v)
  }

  /** State between two turns of the loop of mappages. */
  ghost predicate MapsTo(s: Phys, t: Phys, root: nat, first: nat, k: nat, f0: nat, attr: int) {
    && Sound(t) && SameUsers(s, t) && OthersKept(s, t) && MapsRange(s, t, root, first, k, f0, attr)
    && (forall f | f in s.roles :: f in t.roles && t.roles[f] == s.roles[f])
  }

  /** MapsTo, wrapped like Held. */
  ghost predicate MapsSoFar(s: Phys, t: Phys, root: nat, first: nat, k: nat, f0: nat, attr: int, layers: nat := 4) {
    if layers == 0 then MapsTo(s, t, root, first, k, f0, attr)
      else MapsSoFar(s, t, root, first, k, f0, attr, layers - 1)
  }

  lemma {:induction false} OpenMaps(s: Phys, t: Phys, root: nat, first: nat, k: nat, f0: nat, attr: int,
      layers: nat := 4)
    ensures MapsSoFar(s, t, root, first, k, f0, attr, layers) <==> MapsTo(s, t, root, first, k, f0, attr)
  {
    if layers > 0 {
      OpenMaps(s, t, root, first, k, f0, attr, layers - 1);
    }
  }

  lemma MapsNothing(s: Phys, root: nat, first: nat, f0: nat, attr: int)
    requires Sound(s)
    ensures MapsSoFar(s, s, root, first, 0, f0, attr)
  {
    OpenMaps(s, s, root, first, 0, f0, attr);
    OthersSame(s);
  }

  /** A failed walk leaves the range where it was. */
  lemma MapsStop(s: Phys, t: Phys, u: Phys, n: nat, root: nat, first: nat, k: nat, f0: nat, attr: int)
    requires MapsSoFar(s, t, root, first, k, f0, attr) && GrownBy(t, u, n)
    ensures MapsSoFar(s, u, root, first, k, f0, attr)
  {
    OpenMaps(s, t, root, first, k, f0, attr);
    OpenMaps(s, u, root, first, k, f0, attr);
    OthersNext(s, t, u);
  }

  /** A turn of the loop of mappages: some tables, then the entry of vpn. */
  ghost predicate MapStepBy(t: Phys, w: Phys, root: nat, vpn: nat, p: nat, attr: int) {
    exists u: Phys, n: nat, f: nat, e: Word ::
      GrownBy(t, u, n) && Mapped(u, w, root, vpn, f, e) && e == Pte(p, attr) && Descriptor(e) && Target(e) == p
  }

  /** MapStepBy, wrapped like Held. */
  ghost predicate MapStep(t: Phys, w: Phys, root: nat, vpn: nat, p: nat, attr: int, layers: nat := 4) {
    if layers == 0 then MapStepBy(t, w, root, vpn, p, attr) else MapStep(t, w, root, vpn, p, attr, layers - 1)
  }

  lemma {:induction false} OpenStep(t: Phys, w: Phys, root: nat, vpn: nat, p: nat, attr: int, layers: nat := 4)
    ensures MapStep(t, w, root, vpn, p, attr, layers) <==> MapStepBy(t, w, root, vpn, p, attr)
  {
    if layers > 0 {
      OpenStep(t, w, root, vpn, p, attr, layers - 1);
    }
  }

  lemma MapStepOk(t: Phys, w: Phys, root: nat, vpn: nat, p: nat, attr: int)
    requires MapStep(t, w, root, vpn, p, attr) && IsRoot(t.roles, root) && vpn < VPAGES && p in t.users
    ensures Sound(w) && SameUsers(t, w) && OthersKept(t, w)
    ensures forall f | f in t.roles :: f in w.roles && w.roles[f] == t.roles[f]
    ensures forall r: nat, v: nat | IsRoot(t.roles, r) && v < VPAGES ::
      Lookup(w.mem, r, v) == if r == root && v == vpn then Some(Pte(p, attr)) else Lookup(t.mem, r, v)
  {
    OpenStep(t, w, root, vpn, p, attr);
    var u: Phys, n: nat, f: nat, e: Word :|
      GrownBy(t, u, n) && Mapped(u, w, root, vpn, f, e) && e == Pte(p, attr) && Descriptor(e) && Target(e) == p;
    MappedOk(u, w, root, vpn, f, e);
    MappedOthers(u, w, root, vpn, f, e);
    OthersNext(t, u, w);
  }

  lemma MapsRangeNext(s: Phys, t: Phys, w: Phys, root: nat, first: nat, k: nat, f0: nat, attr: int)
    requires MapsRange(s, t, root, first, k, f0, attr) && k < VPAGES
    requires forall f | f in s.roles :: f in t.roles && t.roles[f] == s.roles[f]
    requires forall r: nat, v: nat | IsRoot(t.roles, r) && v < VPAGES ::
      Lookup(w.mem, r, v) ==
        if r == root && v == Alias(first + k) then Some(Pte(f0 + k, attr)) else Lookup(t.mem, r, v)
    ensures MapsRange(s, w, root, first, k + 1, f0, attr)
  {
    forall r: nat, v: nat | IsRoot(s.roles, r) && v < VPAGES
      ensures Lookup(w.mem, r, v) ==
        if r == root && Offset(first, v) < k + 1 then Some(Pte(f0 + Offset(first, v), attr)) else Lookup(s.mem, r, v)
    {
      assert IsRoot(t.roles, r);
      OffsetAlias(first, k, v);
    }
  }

  lemma MapsNextTo(s: Phys, t: Phys, w: Phys, root: nat, first: nat, k: nat, f0: nat, attr: int)
    requires MapsTo(s, t, root, first, k, f0, attr) && MapStep(t, w, root, Alias(first + k), f0 + k, attr)
    requires IsRoot(s.roles, root) && f0 + k in s.users
    ensures MapsTo(s, w, root, first, k + 1, f0, attr)
  {
    MapStepOk(t, w, root, Alias(first + k), f0 + k, attr);
    OthersNext(s, t, w);
    MapsRangeNext(s, t, w, root, first, k, f0, attr);
  }

  lemma MapsNext(s: Phys, t: Phys, w: Phys, root: nat, first: nat, k: nat, f0: nat, attr: int)
    requires MapsSoFar(s, t, root, first, k, f0, attr) && MapStep(t, w, root, Alias(first + k), f0 + k, attr)
    requires IsRoot(s.roles, root) && f0 + k in s.users
    ensures MapsSoFar(s, w, root, first, k + 1, f0, attr)
  {
    OpenMaps(s, t, root, first, k, f0, attr);
    OpenMaps(s, w, root, first, k + 1, f0, attr);
    MapsNextTo(s, t, w, root, first, k, f0, attr);
  }

  /** Below 2^48 the pages mapped are those of the range itself. */
  lemma MapsLow(s: Phys, t: Phys, root: nat, first: nat, k: nat, f0: nat, attr: int)
    requires MapsSoFar(s, t, root, first, k, f0, attr) && first + k <= VPAGES
    ensures forall r: nat, v: nat | IsRoot(s.roles, r) && v < VPAGES ::
      Lookup(t.mem, r, v) ==
        if r == root && first <= v < first + k then Some(Pte(f0 + (v - first), attr)) else Lookup(s.mem, r, v)
  {
    OpenMaps(s, t, root, first, k, f0, attr);
    forall r: nat, v: nat | IsRoot(s.roles, r) && v < VPAGES
      ensures Lookup(t.mem, r, v) ==
        if r == root && first <= v < first + k then Some(Pte(f0 + (v - first), attr)) else Lookup(s.mem, r, v)
    {
      OffsetLow(first, k, v);
    }
  }

  /** One page: its alias is mapped. */
  lemma MapsOne(s: Phys, t: Phys, root: nat, v: nat, f: nat, attr: int)
    requires MapsRange(s, t, root, v, 1, f, attr)
    ensures forall r: nat, w: nat | IsRoot(s.roles, r) && w < VPAGES ::
      Lookup(t.mem, r, w) == if r == root && w == Alias(v) then Some(Pte(f, attr)) else Lookup(s.mem, r, w)
  {
    forall r: nat, w: nat | IsRoot(s.roles, r) && w < VPAGES
      ensures Lookup(t.mem, r, w) == if r == root && w == Alias(v) then Some(Pte(f, attr)) else Lookup(s.mem, r, w)
    {
      OffsetAlias(v, 0, w);
    }
  }

  /** What the loop of mappages leaves as it is. */
  lemma MapsKept(s: Phys, t: Phys, root: nat, first: nat, k: nat, f0: nat, attr: int)
    requires MapsSoFar(s, t, root, first, k, f0, attr)
    ensures t.users == s.users && OthersKept(s, t) && forall r | IsRoot(s.roles, r) :: IsRoot(t.roles, r)
  {
    OpenMaps(s, t, root, first, k, f0, attr);
  }
}
