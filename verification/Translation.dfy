// Four-level translation tables in pages of memory, and what a virtual page translates to.
// Table entries follow the VMSAv8-64 descriptors with a 4 KiB granule: bits 47:12 hold the output
// address, bits 1:0 are 11 for a table or page, bit 7 makes a page read-only.
module Translation {
  import opened Machine

  /** Level of the root table. */
  const TOP: nat := 3

  /** Virtual pages below 2^48 bytes. */
  const VPAGES := 0x10_0000_0000

  /** vpn with the index bits of the lowest levels shifted out. */
  function Up(vpn: nat, levels: nat): nat {
    if levels == 0 then vpn else Up(vpn, levels - 1) / 512
  }

  /** PX(level, va): the 9-bit index into a table of that level. */
  function Px(level: nat, vpn: nat): nat {
    Up(vpn, level) % 512
  }

  /** The page below 2^48 that a walk for page v ends at: PX takes only nine bits for each level. */
  function Alias(v: nat): (p: nat)
    ensures p < VPAGES && (v < VPAGES ==> p == v)
  {
    v % VPAGES
  }

  lemma ShiftOnce(k: nat, y: nat)
    ensures (512 * k + y) / 512 == k + y / 512 && (512 * k + y) % 512 == y % 512
  {
    var q, r := y / 512, y % 512;
    assert 512 * k + y == 512 * (k + q) + r;
  }

  /** A page without its bits above 2^48, shifted. */
  lemma UpAlias(q: nat, r: nat)
    ensures Up(VPAGES * q + r, 1) == 0x800_0000 * q + Up(r, 1)
    ensures Up(VPAGES * q + r, 2) == 0x4_0000 * q + Up(r, 2)
    ensures Up(VPAGES * q + r, 3) == 512 * q + Up(r, 3)
  {
    ShiftOnce(0x800_0000 * q, r);
    ShiftOnce(0x4_0000 * q, Up(r, 1));
    ShiftOnce(512 * q, Up(r, 2));
  }

  /** The index of every level is the same for a page and its alias. */
  lemma PxAlias(level: nat, v: nat)
    requires level <= TOP
    ensures Px(level, v) == Px(level, Alias(v))
  {
    var q, r := v / VPAGES, Alias(v);
    assert v == VPAGES * q + r;
    UpAlias(q, r);
    if level == 0 {
      ShiftOnce(0x800_0000 * q, r);
    } else if level == 1 {
      ShiftOnce(0x4_0000 * q, Up(r, 1));
    } else if level == 2 {
      ShiftOnce(512 * q, Up(r, 2));
    } else {
      ShiftOnce(q, Up(r, 3));
    }
  }

  /** How many pages page v comes after page first, counted around 2^48. */
  function Offset(first: nat, v: nat): nat {
    (v - first) % VPAGES
  }

  lemma OffsetAlias(first: nat, k: nat, v: nat)
    requires v < VPAGES && k < VPAGES
    ensures Offset(first, v) == k <==> v == Alias(first + k)
  {
  }

  /** Below 2^48 nothing wraps around. */
  lemma OffsetLow(first: nat, k: nat, v: nat)
    requires first + k <= VPAGES && v < VPAGES
    ensures Offset(first, v) < k <==> first <= v < first + k
    ensures first <= v ==> Offset(first, v) == v - first
  {
    assert v < first ==> Offset(first, v) == v - first + VPAGES;
  }

  // ----- descriptors

  function Present(e: int): bool { e % 2 == 1 }

  /** *pte & PT_PAGE || *pte & PT_BLOCK */
  function Linked(e: int): bool { e % 4 != 0 }

  /** Attribute bits, e & 0xFFF. */
  function Attr(e: int): int { e % 4096 }

  /** Frame behind an entry: PA2KA(PTE2PA(e)) as a frame number. */
  function Target(e: int): int { FrameOf(e - e % 4096 + KERNEL_VIRT) }

  /** KA2PA(AddrOf(f)) | attr */
  function Pte(f: int, attr: int): int { AddrOf(f) - KERNEL_VIRT + attr }

  const PT_PAGE := 3
  const PT_USER := 64
  const PT_RO := 128
  const PT_AF := 1024

  function ReadOnly(e: int): bool { e / 128 % 2 == 1 }

  /** e | PT_RO */
  function SetRO(e: int): int { if ReadOnly(e) then e else e + 128 }

  /** e & ~PT_RO */
  function ClearRO(e: int): int { if ReadOnly(e) then e - 128 else e }

  /** A page or table descriptor that names frame Target(e). */
  predicate Descriptor(e: int) {
    e % 4 == 3 && Target(e) >= 0 && e == Pte(Target(e), Attr(e))
  }

  lemma DescriptorPresent(e: int)
    requires Descriptor(e)
    ensures Present(e) && Linked(e)
  {
    assert e == 2 * (e / 4 * 2 + 1) + 1;
  }

  lemma Div4096(e: int, q: int, r: int)
    requires e == 4096 * q + r && 0 <= r < 4096
    ensures e / 4096 == q && e % 4096 == r
  {
  }

  lemma Div128(e: int, q: int, r: int)
    requires e == 128 * q + r && 0 <= r < 128
    ensures e / 128 == q && e % 128 == r
  {
  }

  lemma PteParts(f: nat, attr: int)
    requires 0 <= attr < 4096 && attr % 4 == 3
    ensures Descriptor(Pte(f, attr)) && Target(Pte(f, attr)) == f && Attr(Pte(f, attr)) == attr
  {
    PteTarget(f, attr);
    Mod4(1024 * (f + 0x1_0000), attr);
  }

  lemma PteTarget(f: nat, attr: int)
    requires 0 <= attr < 4096
    ensures Target(Pte(f, attr)) == f && Attr(Pte(f, attr)) == attr
  {
    Div4096(Pte(f, attr), f + 0x1_0000, attr);
    Div4096(f * 4096, f, 0);
  }

  /** The entry that mappages writes. */
  lemma PermParts(f: nat, perm: nat)
    requires perm < 4096 && perm % 4 == 0
    ensures Descriptor(Pte(f, perm + PT_PAGE)) && Target(Pte(f, perm + PT_PAGE)) == f
    ensures Pte(f, perm + PT_PAGE) >= 0 && (f < 0x8_0000 ==> Pte(f, perm + PT_PAGE) < U64)
  {
    assert perm == 4 * (perm / 4);
    Mod4(perm / 4, 3);
    PteParts(f, perm + PT_PAGE);
  }

  /** The entry of a user page, and the same with PT_RO. */
  lemma UserEntry(f: nat)
    ensures !ReadOnly(Pte(f, PT_AF + PT_USER + PT_PAGE)) && ReadOnly(Pte(f, PT_AF + PT_USER + PT_RO + PT_PAGE))
  {
    Div128(Pte(f, PT_AF + PT_USER + PT_PAGE), 2 * (16 * f + 0x10_0000 + 4), 67);
    Div128(Pte(f, PT_AF + PT_USER + PT_RO + PT_PAGE), 2 * (16 * f + 0x10_0000 + 4) + 1, 67);
  }

  /** The word that is entered for a user page: accessible from EL0, with the access flag, normal memory. */
  function UserPte(f: int, ro: bool): int {
    Pte(f, if ro then PT_AF + PT_USER + PT_RO + PT_PAGE else PT_AF + PT_USER + PT_PAGE)
  }

  /** The entry is such a word. */
  predicate UserWord(e: int) {
    Target(e) >= 0 && e == UserPte(Target(e), ReadOnly(e))
  }

  lemma UserPteWord(f: nat, ro: bool)
    ensures UserWord(UserPte(f, ro)) && Target(UserPte(f, ro)) == f && ReadOnly(UserPte(f, ro)) == ro
    ensures SetRO(UserPte(f, ro)) == UserPte(f, true) && ClearRO(UserPte(f, ro)) == UserPte(f, false)
  {
    UserEntry(f);
    PteTarget(f, PT_AF + PT_USER + PT_PAGE);
    PteTarget(f, PT_AF + PT_USER + PT_RO + PT_PAGE);
  }

  /** Setting or clearing PT_RO makes one such word another. */
  lemma UserWordRO(e: int)
    requires UserWord(e)
    ensures UserWord(SetRO(e)) && UserWord(ClearRO(e))
  {
    UserPteWord(Target(e), ReadOnly(e));
    UserPteWord(Target(e), true);
    UserPteWord(Target(e), false);
  }

  lemma Mod4(k: int, x: int)
    ensures (4 * k + x) % 4 == x % 4
  {
  }

  lemma AttrParts(q: int, r: int)
    requires 0 <= r < 128
    ensures Attr(128 * q + r) == 128 * (q % 32) + r
  {
    Div4096(128 * q + r, q / 32, 128 * (q % 32) + r);
  }

  lemma Div32(e: int, q: int, r: int)
    requires e == 32 * q + r && 0 <= r < 32
    ensures e % 32 == r
  {
  }

  lemma NextOdd(k: int)
    ensures (2 * k + 1) % 32 == 2 * k % 32 + 1
  {
    Div32(2 * k, k / 16, 2 * (k % 16));
    Div32(2 * k + 1, k / 16, 2 * (k % 16) + 1);
  }

  lemma Bit7Flag(k: int, r: int)
    requires 0 <= r < 128
    ensures !ReadOnly(256 * k + r) && ReadOnly(256 * k + r + 128)
  {
    Div128(256 * k + r, 2 * k, r);
    Div128(256 * k + r + 128, 2 * k + 1, r);
  }

  lemma Bit7Attr(k: int, r: int)
    requires 0 <= r < 128
    ensures Attr(256 * k + r + 128) == Attr(256 * k + r) + 128
  {
    AttrParts(2 * k, r);
    AttrParts(2 * k + 1, r);
    NextOdd(k);
  }

  /** Two words that differ in bit 7 only differ in their attributes only. */
  lemma Bit7(k: int, r: int)
    requires 0 <= r < 128
    ensures !ReadOnly(256 * k + r) && ReadOnly(256 * k + r + 128)
    ensures Attr(256 * k + r + 128) == Attr(256 * k + r) + 128
    ensures (256 * k + r + 128) % 4 == (256 * k + r) % 4
  {
    Bit7Flag(k, r);
    Bit7Attr(k, r);
    Mod4(64 * k, r);
    Mod4(64 * k + 32, r);
  }

  lemma Split256(e: int) returns (k: int, r: int)
    ensures 0 <= r < 128 && e == if ReadOnly(e) then 256 * k + r + 128 else 256 * k + r
  {
    k, r := e / 128 / 2, e % 128;
  }

  /** Setting bit 7 where it is clear changes the attributes only. */
  lemma Bit7Set(e: int)
    requires !ReadOnly(e)
    ensures Attr(e + 128) == Attr(e) + 128 && ReadOnly(e + 128) && (e + 128) % 4 == e % 4
  {
    var k, r := Split256(e);
    Bit7(k, r);
  }

  /** Clearing bit 7 where it is set changes the attributes only. */
  lemma Bit7Clear(e: int)
    requires ReadOnly(e)
    ensures Attr(e - 128) == Attr(e) - 128 && !ReadOnly(e - 128) && (e - 128) % 4 == e % 4
  {
    var k, r := Split256(e);
    Bit7(k, r);
  }

  lemma ROParts(e: int)
    requires Descriptor(e)
    ensures Descriptor(SetRO(e)) && Target(SetRO(e)) == Target(e) && ReadOnly(SetRO(e))
    ensures Descriptor(ClearRO(e)) && Target(ClearRO(e)) == Target(e) && !ReadOnly(ClearRO(e))
  {
    if ReadOnly(e) {
      Bit7Clear(e);
    } else {
      Bit7Set(e);
    }
  }

  // ----- walking

  type Mem = seq<Page>

  /** Word i of frame f; anything outside memory reads as zero. */
  function Read(m: Mem, f: int, i: int): int {
    if 0 <= f < |m| && 0 <= i < 512 then m[f][i] else 0
  }

  function Put(m: Mem, f: nat, i: nat, e: Word): (m': Mem)
    requires f < |m| && i < 512
    ensures |m'| == |m|
    ensures forall g: int, j: int :: Read(m', g, j) == if g == f && j == i then e else Read(m, g, j)
  {
    m[f := m[f][i := e]]
  }

  /** The level-0 table for vpn, walking from table f of the given level. */
  function Bottom(m: Mem, f: int, level: nat, vpn: nat): Option<int>
    decreases level
  {
    if level == 0 then Some(f)
    else
      var e := Read(m, f, Px(level, vpn));
      if Linked(e) then Bottom(m, Target(e), level - 1, vpn) else None
  }

  /** The level-0 entry for vpn below table f, if there is one. */
  function Leaf(m: Mem, f: int, level: nat, vpn: nat): Option<int> {
    var t := Bottom(m, f, level, vpn);
    if t.Some? && Present(Read(m, t.value, Px(0, vpn))) then Some(Read(m, t.value, Px(0, vpn))) else None
  }

  /** What the tree under a root translates. */
  function Lookup(m: Mem, root: nat, vpn: nat): Option<int> {
    Leaf(m, root, TOP, vpn)
  }

  // ----- well-formed trees

  /** What a table frame is for: the entries of a tree for the pages with vpn >> 9(level+1) == pfx. */
  datatype Role = Role(root: nat, level: nat, pfx: nat)

  type Roles = map<nat, Role>

  ghost predicate EntryOk(e: int, r: Role, i: int, roles: Roles, users: set<nat>)
    requires i >= 0
  {
    e == 0 ||
    (Descriptor(e) &&
     if r.level > 0 then
       Attr(e) == PT_PAGE && Target(e) in roles && roles[Target(e)] == Role(r.root, r.level - 1, r.pfx * 512 + i)
     else Target(e) in users)
  }

  /** Every table frame has one role, and an entry of it names a frame with the role below it:
      the tables form trees that share no frame. */
  ghost predicate Trees(m: Mem, roles: Roles, users: set<nat>) {
    && roles.Keys !! users
    && (forall f | f in roles :: f < |m|)
    && (forall f, i | f in roles && 0 <= i < 512 :: EntryOk(Read(m, f, i), roles[f], i, roles, users))
  }

  ghost predicate IsRoot(roles: Roles, root: nat) {
    root in roles && roles[root] == Role(root, TOP, 0)
  }

  /** Table f is where a walk for vpn in the tree of root is at the given level. */
  ghost predicate OnPath(roles: Roles, root: nat, f: int, level: nat, vpn: nat) {
    f in roles && roles[f] == Role(root, level, Up(vpn, level + 1))
  }

  lemma UpSplit(vpn: nat, level: nat)
    ensures Up(vpn, level) == Up(vpn, level + 1) * 512 + Px(level, vpn) && 0 <= Px(level, vpn) < 512
  {
  }

  lemma TopIndex(vpn: nat)
    requires vpn < VPAGES
    ensures Up(vpn, TOP + 1) == 0
  {
    assert Up(vpn, 1) < 0x800_0000;
    assert Up(vpn, 2) < 0x4_0000;
    assert Up(vpn, 3) < 512;
  }

  lemma RootOnPath(roles: Roles, root: nat, vpn: nat)
    requires IsRoot(roles, root) && vpn < VPAGES
    ensures OnPath(roles, root, root, TOP, vpn)
  {
    TopIndex(vpn);
  }

  /** The next table on the way. */
  lemma Descend(m: Mem, roles: Roles, users: set<nat>, root: nat, f: nat, level: nat, vpn: nat)
    requires Trees(m, roles, users) && OnPath(roles, root, f, level, vpn) && level > 0
    ensures var e := Read(m, f, Px(level, vpn));
      e == 0 || (Linked(e) && Descriptor(e) && OnPath(roles, root, Target(e), level - 1, vpn))
  {
  }

  /** A walk ends in the level-0 table of the page. */
  lemma {:induction false} BottomOnPath(m: Mem, roles: Roles, users: set<nat>, root: nat, f: nat, level: nat, vpn: nat)
    requires Trees(m, roles, users) && OnPath(roles, root, f, level, vpn)
    ensures var t := Bottom(m, f, level, vpn); t.Some? ==> OnPath(roles, root, t.value, 0, vpn)
    decreases level
  {
    if level > 0 && Linked(Read(m, f, Px(level, vpn))) {
      Descend(m, roles, users, root, f, level, vpn);
      BottomOnPath(m, roles, users, root, Target(Read(m, f, Px(level, vpn))), level - 1, vpn);
    }
  }

  /** Walks depend only on the tables on the way. */
  lemma {:induction false} BottomFrame(m: Mem, m': Mem, roles: Roles, users: set<nat>, root: nat, f: nat, level: nat,
      vpn: nat)
    requires Trees(m, roles, users) && OnPath(roles, root, f, level, vpn)
    requires forall g: nat, l: nat | 0 < l <= level && OnPath(roles, root, g, l, vpn) ::
      Read(m', g, Px(l, vpn)) == Read(m, g, Px(l, vpn))
    ensures Bottom(m', f, level, vpn) == Bottom(m, f, level, vpn)
    decreases level
  {
    if level > 0 && Linked(Read(m, f, Px(level, vpn))) {
      Descend(m, roles, users, root, f, level, vpn);
      BottomFrame(m, m', roles, users, root, Target(Read(m, f, Px(level, vpn))), level - 1, vpn);
    }
  }

  lemma LeafFrame(m: Mem, m': Mem, roles: Roles, users: set<nat>, root: nat, f: nat, level: nat, vpn: nat)
    requires Trees(m, roles, users) && OnPath(roles, root, f, level, vpn)
    requires forall g: nat, l: nat | l <= level && OnPath(roles, root, g, l, vpn) ::
      Read(m', g, Px(l, vpn)) == Read(m, g, Px(l, vpn))
    ensures Leaf(m', f, level, vpn) == Leaf(m, f, level, vpn)
  {
    BottomFrame(m, m', roles, users, root, f, level, vpn);
    BottomOnPath(m, roles, users, root, f, level, vpn);
  }

  lemma TreesFrame(m: Mem, m': Mem, roles: Roles, users: set<nat>)
    requires Trees(m, roles, users) && |m'| == |m|
    requires forall f, i: int | f in roles :: Read(m', f, i) == Read(m, f, i)
    ensures Trees(m', roles, users)
  {
  }

  // ----- writing a level-0 entry

  lemma WriteTrees(m: Mem, roles: Roles, users: set<nat>, f: nat, i: nat, e: Word)
    requires Trees(m, roles, users) && f in roles && roles[f].level == 0 && i < 512
    requires Descriptor(e) && Target(e) in users
    ensures Trees(Put(m, f, i, e), roles, users)
  {
  }

  lemma WriteLookup(m: Mem, roles: Roles, users: set<nat>, root: nat, vpn: nat, f: nat, e: Word, r: nat, v: nat)
    requires Trees(m, roles, users) && IsRoot(roles, root) && vpn < VPAGES && Bottom(m, root, TOP, vpn) == Some(f)
    requires f < |m| && Present(e) && IsRoot(roles, r) && v < VPAGES
    ensures Lookup(Put(m, f, Px(0, vpn), e), r, v) == if r == root && v == vpn then Some(e as int) else Lookup(m, r, v)
  {
    RootOnPath(roles, root, vpn);
    RootOnPath(roles, r, v);
    BottomOnPath(m, roles, users, root, root, TOP, vpn);
    BottomOnPath(m, roles, users, r, r, TOP, v);
    BottomFrame(m, Put(m, f, Px(0, vpn), e), roles, users, r, r, TOP, v);
    UpSplit(vpn, 0);
    UpSplit(v, 0);
  }

  // ----- hanging in a new table

  ghost predicate Blank(m: Mem, g: int) {
    forall i: int :: Read(m, g, i) == 0
  }

  lemma {:induction false} HangLeaf(m: Mem, roles: Roles, users: set<nat>, f: nat, i: nat, g: nat, e: Word,
      root: nat, h: nat, level: nat, vpn: nat)
    requires Trees(m, roles, users) && f in roles && i < 512 && Read(m, f, i) == 0 && roles[f].level > 0
    requires Blank(m, g) && g !in roles && Target(e) == g && f < |m|
    requires OnPath(roles, root, h, level, vpn)
    ensures Leaf(Put(m, f, i, e), h, level, vpn) == Leaf(m, h, level, vpn)
    decreases level
  {
    var m' := Put(m, f, i, e);
    var d := Read(m, h, Px(level, vpn));
    if level > 0 && h == f && Px(level, vpn) == i {
      if Linked(e) && level > 1 {
        assert Read(m', g, Px(level - 1, vpn)) == 0;
        assert Bottom(m', g, level - 1, vpn) == None;
      }
      assert Bottom(m, h, level, vpn) == None;
    } else if level > 0 && Linked(d) {
      Descend(m, roles, users, root, h, level, vpn);
      HangLeaf(m, roles, users, f, i, g, e, root, Target(d), level - 1, vpn);
    }
  }

  ghost function ChildRole(r: Role, i: nat): Role
    requires r.level > 0
  {
    Role(r.root, r.level - 1, r.pfx * 512 + i)
  }

  /** Linking a blank fresh frame into an empty entry extends the tree. */
  lemma HangTrees(m: Mem, roles: Roles, users: set<nat>, f: nat, i: nat, g: nat, e: Word)
    requires Trees(m, roles, users) && f in roles && roles[f].level > 0 && i < 512
    requires Blank(m, g) && g !in roles && g !in users && g < |m| && Descriptor(e) && Target(e) == g
    requires Attr(e) == PT_PAGE
    requires Read(m, f, i) == 0
    ensures Trees(Put(m, f, i, e), roles[g := ChildRole(roles[f], i)], users)
  {
  }

  // ----- the walk from the top

  /** The table of the given level on the way to vpn, if the walk from the root gets that far. */
  function Table(m: Mem, root: nat, level: nat, vpn: nat): Option<int>
    decreases TOP - level
  {
    if level >= TOP then Some(root)
    else
      var t := Table(m, root, level + 1, vpn);
      if t.Some? && Linked(Read(m, t.value, Px(level + 1, vpn)))
      then Some(Target(Read(m, t.value, Px(level + 1, vpn)))) else None
  }

  lemma {:induction false} TableBottom(m: Mem, root: nat, level: nat, vpn: nat)
    requires level <= TOP
    ensures var t := Table(m, root, level, vpn);
      Bottom(m, root, TOP, vpn) == if t.Some? then Bottom(m, t.value, level, vpn) else None
    decreases TOP - level
  {
    if level < TOP {
      TableBottom(m, root, level + 1, vpn);
    }
  }

  lemma {:induction false} TableOnPath(m: Mem, roles: Roles, users: set<nat>, root: nat, level: nat, vpn: nat)
    requires Trees(m, roles, users) && IsRoot(roles, root) && level <= TOP && vpn < VPAGES
    ensures var t := Table(m, root, level, vpn); t.Some? ==> OnPath(roles, root, t.value, level, vpn)
    decreases TOP - level
  {
    if level < TOP {
      TableOnPath(m, roles, users, root, level + 1, vpn);
      var t := Table(m, root, level + 1, vpn);
      if t.Some? {
        Descend(m, roles, users, root, t.value, level + 1, vpn);
      }
    } else {
      RootOnPath(roles, root, vpn);
    }
  }

  /** The way down to a level depends only on the tables above it. */
  lemma {:induction false} TableFrame(m: Mem, m': Mem, roles: Roles, users: set<nat>, root: nat, level: nat, vpn: nat)
    requires Trees(m, roles, users) && IsRoot(roles, root) && level <= TOP && vpn < VPAGES
    requires forall f: nat, i: int | f in roles && roles[f].level > level :: Read(m', f, i) == Read(m, f, i)
    ensures Table(m', root, level, vpn) == Table(m, root, level, vpn)
    decreases TOP - level
  {
    if level < TOP {
      TableFrame(m, m', roles, users, root, level + 1, vpn);
      TableOnPath(m, roles, users, root, level + 1, vpn);
      var t, i := Table(m, root, level + 1, vpn), Px(level + 1, vpn);
      if t.Some? {
        assert t.value in roles && Read(m', t.value, i) == Read(m, t.value, i);
      }
    }
  }

  /** Pages with the same bits above a level share the table of that level. */
  lemma {:induction false} TablePrefix(m: Mem, root: nat, level: nat, v: nat, w: nat)
    requires level <= TOP && Up(v, level + 1) == Up(w, level + 1)
    ensures Table(m, root, level, v) == Table(m, root, level, w)
    decreases TOP - level
  {
    if level < TOP {
      TablePrefix(m, root, level + 1, v, w);
    }
  }

  // ----- pages from 2^48 bytes up

  /** A walk for any page ends where the walk for its alias ends. */
  lemma {:induction false} BottomAlias(m: Mem, f: int, level: nat, v: nat)
    requires level <= TOP
    ensures Bottom(m, f, level, v) == Bottom(m, f, level, Alias(v))
    decreases level
  {
    PxAlias(level, v);
    if level > 0 && Linked(Read(m, f, Px(level, v))) {
      BottomAlias(m, Target(Read(m, f, Px(level, v))), level - 1, v);
    }
  }

  /** So every address translates like one below 2^48. */
  lemma LookupAlias(m: Mem, root: nat, v: nat)
    ensures Lookup(m, root, v) == Lookup(m, root, Alias(v))
  {
    BottomAlias(m, root, TOP, v);
    PxAlias(0, v);
  }
}
