// Tables counts what it should: the frames of a tree, each once.
module TreeSize {
  import opened Machine
  import opened Translation
  import opened TableCounts
  import opened PhysState
  import opened CopySpec

  /** The first page below the l-level part with prefix p. */
  function FirstPage(l: nat, p: nat): nat
    decreases l
  {
    if l == 0 then p else FirstPage(l - 1, p * 512)
  }

  lemma {:induction false} FirstPageUp(l: nat, p: nat)
    ensures Up(FirstPage(l, p), l) == p
    decreases l
  {
    if l > 0 {
      FirstPageUp(l - 1, p * 512);
    }
  }

  lemma {:induction false} FirstPageBound(l: nat, p: nat)
    requires 0 < l <= TOP + 1 && p < Prefixes(l - 1)
    ensures FirstPage(l, p) < VPAGES
    decreases l
  {
    if l == 1 {
      PrefixBound(0, p, 0);
      assert FirstPage(1, p) == p * 512;
    } else {
      PrefixBound(l - 1, p, 0);
      FirstPageBound(l - 1, p * 512);
    }
  }

  /** Page v is translated through the first lim entries of the table with this level and prefix. */
  ghost predicate InPart(level: nat, pfx: nat, lim: nat, v: nat) {
    v < VPAGES && Up(v, level + 1) == pfx && Px(level, v) < lim
  }

  /** Frame f is a table of a lower level on the way to such a page. */
  ghost predicate OnWay(m: Mem, root: nat, level: nat, pfx: nat, lim: nat, f: int) {
    exists l: nat, v: nat :: l < level && InPart(level, pfx, lim, v) && Table(m, root, l, v) == Some(f)
  }

  ghost function FramesBelow(m: Mem, roles: Roles, root: nat, level: nat, pfx: nat, lim: nat): set<nat> {
    set f | f in roles && OnWay(m, root, level, pfx, lim, f)
  }

  /** Table c is the one with this level and prefix. */
  ghost predicate Place(m: Mem, roles: Roles, root: nat, c: nat, level: nat, pfx: nat) {
    && level <= TOP && pfx < Prefixes(level) && c in roles && roles[c] == Role(root, level, pfx)
    && forall v: nat | v < VPAGES && Up(v, level + 1) == pfx :: Table(m, root, level, v) == Some(c)
  }

  lemma NoneBelow(m: Mem, root: nat, level: nat, l: nat, v: nat)
    requires l < level <= TOP && Table(m, root, level - 1, v).None?
    ensures Table(m, root, l, v).None?
    decreases level - l
  {
    if l + 1 < level {
      NoneBelow(m, root, level - 1, l, v);
    }
  }

  /** The table behind a present entry has its place, too. */
  lemma PlaceBelow(m: Mem, roles: Roles, users: set<nat>, root: nat, c: nat, level: nat, pfx: nat, i: nat)
    requires Trees(m, roles, users) && IsRoot(roles, root) && Place(m, roles, root, c, level, pfx)
    requires level > 0 && i < 512 && Present(Read(m, c, i))
    ensures Target(Read(m, c, i)) >= 0 && Place(m, roles, root, Target(Read(m, c, i)), level - 1, pfx * 512 + i)
  {
    var e := Read(m, c, i);
    assert EntryOk(e, roles[c], i, roles, users);
    DescriptorPresent(e);
    PrefixBound(level, pfx, i);
    forall v: nat | v < VPAGES && Up(v, level) == pfx * 512 + i
      ensures Table(m, root, level - 1, v) == Some(Target(e)) {
      UpChild(v, level, pfx, i);
      TableNext(m, root, level - 1, v);
    }
  }

  lemma EmptyPart(m: Mem, roles: Roles, users: set<nat>, root: nat, c: nat, level: nat, pfx: nat, i: nat)
    requires Trees(m, roles, users) && Place(m, roles, root, c, level, pfx)
    requires level > 0 && i < 512 && !Present(Read(m, c, i))
    ensures FramesBelow(m, roles, root, level, pfx, i + 1) == FramesBelow(m, roles, root, level, pfx, i)
  {
    assert EntryOk(Read(m, c, i), roles[c], i, roles, users);
    if Linked(Read(m, c, i)) {
      DescriptorPresent(Read(m, c, i));
    }
    forall f | OnWay(m, root, level, pfx, i + 1, f) ensures OnWay(m, root, level, pfx, i, f) {
      var l: nat, v: nat :| l < level && InPart(level, pfx, i + 1, v) && Table(m, root, l, v) == Some(f);
      if Px(level, v) == i {
        TableNext(m, root, level - 1, v);
        NoneBelow(m, root, level, l, v);
      }
      assert InPart(level, pfx, i, v);
    }
    forall f | OnWay(m, root, level, pfx, i, f) ensures OnWay(m, root, level, pfx, i + 1, f) {
      var l: nat, v: nat :| l < level && InPart(level, pfx, i, v) && Table(m, root, l, v) == Some(f);
      assert InPart(level, pfx, i + 1, v);
    }
  }

  lemma PartUp(m: Mem, root: nat, x: nat, level: nat, pfx: nat, i: nat, f: int)
    requires 0 < level <= TOP && i < 512
    requires forall v: nat | v < VPAGES && Up(v, level) == pfx * 512 + i :: Table(m, root, level - 1, v) == Some(x)
    ensures OnWay(m, root, level, pfx, i + 1, f) ==>
      OnWay(m, root, level, pfx, i, f) || f == x || OnWay(m, root, level - 1, pfx * 512 + i, 512, f)
  {
    if OnWay(m, root, level, pfx, i + 1, f) {
      var l: nat, v: nat :| l < level && InPart(level, pfx, i + 1, v) && Table(m, root, l, v) == Some(f);
      UpChild(v, level, pfx, i);
      UpSplit(v, level - 1);
      if Px(level, v) < i {
        assert InPart(level, pfx, i, v);
      } else if l < level - 1 {
        assert InPart(level - 1, pfx * 512 + i, 512, v);
      }
    }
  }

  lemma PartDown(m: Mem, root: nat, x: nat, level: nat, pfx: nat, i: nat, f: int)
    requires 0 < level <= TOP && i < 512 && pfx < Prefixes(level)
    requires forall v: nat | v < VPAGES && Up(v, level) == pfx * 512 + i :: Table(m, root, level - 1, v) == Some(x)
    ensures OnWay(m, root, level, pfx, i, f) || f == x || OnWay(m, root, level - 1, pfx * 512 + i, 512, f) ==>
      OnWay(m, root, level, pfx, i + 1, f)
  {
    if OnWay(m, root, level, pfx, i, f) {
      var l: nat, v: nat :| l < level && InPart(level, pfx, i, v) && Table(m, root, l, v) == Some(f);
      assert InPart(level, pfx, i + 1, v);
    } else if f == x {
      var v := FirstPage(level, pfx * 512 + i);
      FirstPageUp(level, pfx * 512 + i);
      PrefixBound(level, pfx, i);
      FirstPageBound(level, pfx * 512 + i);
      UpChild(v, level, pfx, i);
      assert InPart(level, pfx, i + 1, v) && Table(m, root, level - 1, v) == Some(x);
    } else if OnWay(m, root, level - 1, pfx * 512 + i, 512, f) {
      var l: nat, v: nat :| l < level - 1 && InPart(level - 1, pfx * 512 + i, 512, v)
        && Table(m, root, l, v) == Some(f);
      UpChild(v, level, pfx, i);
      assert InPart(level, pfx, i + 1, v);
    }
  }

  lemma WayPrefix(level: nat, pfx: nat, lim: nat, l: nat, v: nat)
    requires l < level && InPart(level, pfx, lim, v)
    ensures pfx * 512 <= Up(Up(v, l + 1), level - 1 - l) < pfx * 512 + lim
  {
    UpUp(v, l + 1, level - 1 - l);
    UpSplit(v, level);
  }

  /** The role of a frame tells below which entry it lies. */
  lemma WayRole(m: Mem, roles: Roles, users: set<nat>, root: nat, level: nat, pfx: nat, lim: nat, f: nat)
    requires Trees(m, roles, users) && IsRoot(roles, root) && level <= TOP && OnWay(m, root, level, pfx, lim, f)
    ensures f in roles && roles[f].level < level
    ensures pfx * 512 <= Up(roles[f].pfx, level - 1 - roles[f].level) < pfx * 512 + lim
  {
    var l: nat, v: nat :| l < level && InPart(level, pfx, lim, v) && Table(m, root, l, v) == Some(f);
    TableOnPath(m, roles, users, root, l, v);
    WayPrefix(level, pfx, lim, l, v);
  }

  /** Frames below different entries have different roles. */
  lemma PartsApart(m: Mem, roles: Roles, users: set<nat>, root: nat, x: nat, level: nat, pfx: nat, i: nat, f: nat)
    requires Trees(m, roles, users) && IsRoot(roles, root) && 0 < level <= TOP && i < 512
    requires x in roles && roles[x] == Role(root, level - 1, pfx * 512 + i)
    ensures OnWay(m, root, level - 1, pfx * 512 + i, 512, f) ==> f != x
    ensures OnWay(m, root, level, pfx, i, f) ==> f != x && !OnWay(m, root, level - 1, pfx * 512 + i, 512, f)
  {
    if OnWay(m, root, level - 1, pfx * 512 + i, 512, f) {
      WayRole(m, roles, users, root, level - 1, pfx * 512 + i, 512, f);
      assert Up(roles[f].pfx, level - 1 - roles[f].level) == pfx * 512 + i;
    }
    if OnWay(m, root, level, pfx, i, f) {
      WayRole(m, roles, users, root, level, pfx, i, f);
    }
  }

  /** One more entry: the table behind it, and those below that table. */
  lemma PartFrames(m: Mem, roles: Roles, root: nat, x: nat, level: nat, pfx: nat, i: nat)
    requires 0 < level <= TOP && i < 512 && pfx < Prefixes(level) && x in roles
    requires forall v: nat | v < VPAGES && Up(v, level) == pfx * 512 + i :: Table(m, root, level - 1, v) == Some(x)
    ensures FramesBelow(m, roles, root, level, pfx, i + 1) ==
      FramesBelow(m, roles, root, level, pfx, i) + {x} + FramesBelow(m, roles, root, level - 1, pfx * 512 + i, 512)
  {
    forall f | f in roles
      ensures OnWay(m, root, level, pfx, i + 1, f) <==>
        OnWay(m, root, level, pfx, i, f) || f == x || OnWay(m, root, level - 1, pfx * 512 + i, 512, f)
    {
      PartUp(m, root, x, level, pfx, i, f);
      PartDown(m, root, x, level, pfx, i, f);
    }
  }

  lemma PartSize(m: Mem, roles: Roles, users: set<nat>, root: nat, x: nat, level: nat, pfx: nat, i: nat)
    requires Trees(m, roles, users) && IsRoot(roles, root) && 0 < level <= TOP && i < 512 && pfx < Prefixes(level)
    requires Place(m, roles, root, x, level - 1, pfx * 512 + i)
    ensures |FramesBelow(m, roles, root, level, pfx, i + 1)| ==
      |FramesBelow(m, roles, root, level, pfx, i)| + 1 + |FramesBelow(m, roles, root, level - 1, pfx * 512 + i, 512)|
  {
    var was, more := FramesBelow(m, roles, root, level, pfx, i),
                     FramesBelow(m, roles, root, level - 1, pfx * 512 + i, 512);
    PartFrames(m, roles, root, x, level, pfx, i);
    forall f | f in roles ensures (f in more ==> f != x) && (f in was ==> f != x && f !in more) {
      PartsApart(m, roles, users, root, x, level, pfx, i, f);
    }
    assert x !in was && x !in more && was !! more;
  }

  lemma NoParts(m: Mem, roles: Roles, root: nat, level: nat, pfx: nat, lim: nat)
    requires level == 0 || lim == 0
    ensures FramesBelow(m, roles, root, level, pfx, lim) == {}
  {
    forall f: int ensures !OnWay(m, root, level, pfx, lim, f) {
    }
  }

  /** The induction step, with the trees wrapped. */
  lemma NextEntry(s: Phys, root: nat, c: nat, level: nat, pfx: nat, i: nat)
    requires Held(s) && IsRoot(s.roles, root) && Place(s.mem, s.roles, root, c, level, pfx) && level > 0 && i < 512
    ensures var e := Read(s.mem, c, i);
      if Present(e) then
        && Target(e) >= 0 && Place(s.mem, s.roles, root, Target(e), level - 1, pfx * 512 + i)
        && |FramesBelow(s.mem, s.roles, root, level, pfx, i + 1)| ==
             |FramesBelow(s.mem, s.roles, root, level, pfx, i)| + 1
               + |FramesBelow(s.mem, s.roles, root, level - 1, pfx * 512 + i, 512)|
      else FramesBelow(s.mem, s.roles, root, level, pfx, i + 1) == FramesBelow(s.mem, s.roles, root, level, pfx, i)
  {
    Unseal(s, 4);
    if Present(Read(s.mem, c, i)) {
      PlaceBelow(s.mem, s.roles, s.users, root, c, level, pfx, i);
      PartSize(s.mem, s.roles, s.users, root, Target(Read(s.mem, c, i)), level, pfx, i);
    } else {
      EmptyPart(s.mem, s.roles, s.users, root, c, level, pfx, i);
    }
  }

  lemma {:induction false} CountBelow(s: Phys, root: nat, c: nat, level: nat, pfx: nat, lim: nat)
    requires Held(s) && IsRoot(s.roles, root) && Place(s.mem, s.roles, root, c, level, pfx) && lim <= 512
    ensures |FramesBelow(s.mem, s.roles, root, level, pfx, lim)| == Tables(s.mem, c, level, lim)
    decreases level, lim
  {
    if level == 0 || lim == 0 {
      NoParts(s.mem, s.roles, root, level, pfx, lim);
    } else {
      var i := lim - 1;
      CountBelow(s, root, c, level, pfx, i);
      TablesNext(s.mem, c, level, i);
      NextEntry(s, root, c, level, pfx, i);
      if Present(Read(s.mem, c, i)) {
        CountBelow(s, root, Target(Read(s.mem, c, i)), level - 1, pfx * 512 + i, 512);
      }
    }
  }

  /** All tables of a tree but the root. */
  ghost predicate IsTable(m: Mem, root: nat, f: int) {
    exists l: nat, v: nat :: l < TOP && v < VPAGES && Table(m, root, l, v) == Some(f)
  }

  ghost function TreeTables(m: Mem, roles: Roles, root: nat): set<nat> {
    set f | f in roles && IsTable(m, root, f)
  }

  /** copy_page_table meets every table of the source tree below its root exactly once. */
  lemma TablesExact(s: Phys, root: nat)
    requires Sound(s) && IsRoot(s.roles, root)
    ensures Tables(s.mem, root, TOP, 512) == |TreeTables(s.mem, s.roles, root)|
    ensures forall f: int :: IsTable(s.mem, root, f) ==> f in s.roles
  {
    forall v: nat | v < VPAGES ensures Up(v, TOP + 1) == 0 && Px(TOP, v) < 512 {
      TopIndex(v);
      UpSplit(v, TOP);
    }
    Unseal(s, 4);
    CountBelow(s, root, root, TOP, 0, 512);
    forall f: int ensures IsTable(s.mem, root, f) <==> OnWay(s.mem, root, TOP, 0, 512, f) {
      if IsTable(s.mem, root, f) {
        var l: nat, v: nat :| l < TOP && v < VPAGES && Table(s.mem, root, l, v) == Some(f);
        assert InPart(TOP, 0, 512, v);
      }
    }
    forall f: int | IsTable(s.mem, root, f) ensures f in s.roles {
      var l: nat, v: nat :| l < TOP && v < VPAGES && Table(s.mem, root, l, v) == Some(f);
      TableOnPath(s.mem, s.roles, s.users, root, l, v);
    }
    assert TreeTables(s.mem, s.roles, root) == FramesBelow(s.mem, s.roles, root, TOP, 0, 512);
  }
}
