// What a physical state looks like as a state of the copy-on-write machine, and the effect there of
// each change to page tables and user frames.
module SpaceView {
  import opened BlockTree
  import opened Machine
  import opened Translation
  import opened PhysState
  import opened CopySpec
  import Cow

  function FrameNo(e: int): nat {
    if Target(e) >= 0 then Target(e) else 0
  }

  ghost function EntryOf(l: Option<int>): Cow.Entry
    requires l.Some?
  {
    Cow.Entry(FrameNo(l.value), ReadOnly(l.value))
  }

  /** The pages that the tree under a root maps. */
  ghost function SpaceOf(m: Mem, root: nat): Cow.Space {
    map v: nat | v < VPAGES && Lookup(m, root, v).Some? :: EntryOf(Lookup(m, root, v))
  }

  ghost function PageAt(m: Mem, f: nat): Page {
    if f < |m| then m[f] else ZeroPage()
  }

  ghost function CountAt(cnt: seq<int>, f: nat): int {
    if f < |cnt| then cnt[f] else 0
  }

  ghost function SpacesOf(m: Mem, pgds: seq<nat>): seq<Cow.Space> {
    seq(|pgds|, p requires 0 <= p < |pgds| => SpaceOf(m, pgds[p]))
  }

  ghost function DataOf(s: Phys): map<nat, Page> {
    map f | f in s.users :: PageAt(s.mem, f)
  }

  ghost function CountsOf(s: Phys): map<nat, int> {
    map f | f in s.users :: CountAt(s.cnt, f)
  }

  ghost function ViewOf(s: Phys, pgds: seq<nat>): Cow.State {
    Cow.State(SpacesOf(s.mem, pgds), DataOf(s), CountsOf(s))
  }

  /** Every entry of a tree is the word of a user page; so the view determines it. */
  ghost predicate AllUserWords(m: Mem, root: nat) {
    forall v: nat | v < VPAGES && Lookup(m, root, v).Some? :: UserWord(Lookup(m, root, v).value)
  }

  /** AllUserWords, wrapped so that proofs which only pass it on do not open it. */
  ghost predicate WordsOf(m: Mem, root: nat, layers: nat := 4) {
    if layers == 0 then AllUserWords(m, root) else WordsOf(m, root, layers - 1)
  }

  lemma {:induction false} OpenWords(m: Mem, root: nat, layers: nat := 4)
    ensures WordsOf(m, root, layers) <==> AllUserWords(m, root)
  {
    if layers > 0 {
      OpenWords(m, root, layers - 1);
    }
  }

  /** One tree per process, with words of user pages. */
  ghost predicate Roots(s: Phys, pgds: seq<nat>) {
    && (forall p | 0 <= p < |pgds| :: IsRoot(s.roles, pgds[p]))
    && (forall p, q | 0 <= p < q < |pgds| :: pgds[p] != pgds[q])
    && (forall p | 0 <= p < |pgds| :: WordsOf(s.mem, pgds[p]))
  }

  lemma RootsAre(s: Phys, t: Phys, pgds: seq<nat>)
    requires Roots(s, pgds) && forall f | f in s.roles :: f in t.roles && t.roles[f] == s.roles[f]
    requires forall p | 0 <= p < |pgds| :: WordsOf(s.mem, pgds[p]) ==> WordsOf(t.mem, pgds[p])
    ensures Roots(t, pgds)
  {
  }

  lemma SameSpace(m: Mem, m': Mem, root: nat)
    requires forall v: nat | v < VPAGES :: Lookup(m', root, v) == Lookup(m, root, v)
    ensures SpaceOf(m', root) == SpaceOf(m, root) && (WordsOf(m, root) ==> WordsOf(m', root))
  {
    OpenWords(m, root);
    OpenWords(m', root);
  }

  /** Building tables changes nothing in the view. */
  lemma ExtendsView(s: Phys, t: Phys, pgds: seq<nat>)
    requires Sound(s) && Sound(t) && Extends(s, t) && Roots(s, pgds)
    ensures Roots(t, pgds) && ViewOf(t, pgds) == ViewOf(s, pgds)
  {
    forall p | 0 <= p < |pgds|
      ensures SpaceOf(t.mem, pgds[p]) == SpaceOf(s.mem, pgds[p]) && WordsOf(t.mem, pgds[p]) {
      SameSpace(s.mem, t.mem, pgds[p]);
    }
    forall f | f in s.users ensures PageAt(t.mem, f) == PageAt(s.mem, f) {
      forall i | 0 <= i < 512 ensures t.mem[f][i] == s.mem[f][i] {
        assert Read(t.mem, f, i) == Read(s.mem, f, i);
      }
    }
  }

  lemma GivenView(s: Phys, t: Phys, f: nat, pgds: seq<nat>)
    requires Sound(s) && Given(s, t, f) && f < |s.cnt| && Block(f, 0) in s.live && f !in s.roles && f !in s.users
    requires Roots(s, pgds)
    ensures Sound(t) && Roots(t, pgds)
    ensures ViewOf(t, pgds) == Cow.State(ViewOf(s, pgds).spaces, ViewOf(s, pgds).data[f := s.mem[f]], ViewOf(s,
      pgds).cnt[f := s.cnt[f]])
  {
    GivenOk(s, t, f);
  }

  /** One page of one process now translates through entry e. */
  ghost predicate Retargeted(s: Phys, t: Phys, pgds: seq<nat>, p: nat, vpn: nat, e: int) {
    && p < |pgds| && vpn < VPAGES
    && forall r: nat, v: nat | IsRoot(s.roles, r) && v < VPAGES ::
         Lookup(t.mem, r, v) == if r == pgds[p] && v == vpn then Some(e) else Lookup(s.mem, r, v)
  }

  lemma RetargetedSpace(s: Phys, t: Phys, pgds: seq<nat>, p: nat, vpn: nat, e: int, q: nat)
    requires Roots(s, pgds) && Retargeted(s, t, pgds, p, vpn, e) && Target(e) >= 0 && q < |pgds|
    requires UserWord(e)
    ensures WordsOf(t.mem, pgds[q])
    ensures SpaceOf(t.mem, pgds[q]) ==
      if q == p then Cow.Enter(SpaceOf(s.mem, pgds[p]), vpn, Cow.Entry(Target(e), ReadOnly(e)))
        else SpaceOf(s.mem, pgds[q])
  {
    OpenWords(s.mem, pgds[q]);
    OpenWords(t.mem, pgds[q]);
  }

  lemma SameUserPages(s: Phys, t: Phys, f: nat)
    requires SameUsers(s, t) && |s.mem| == |t.mem| == |s.cnt| && f in s.users
    ensures PageAt(t.mem, f) == PageAt(s.mem, f) && CountAt(t.cnt, f) == CountAt(s.cnt, f)
  {
    if f < |s.mem| {
      forall i | 0 <= i < 512 ensures t.mem[f][i] == s.mem[f][i] {
        assert Read(t.mem, f, i) == Read(s.mem, f, i);
      }
    }
  }

  lemma RetargetedView(s: Phys, t: Phys, pgds: seq<nat>, p: nat, vpn: nat, e: int)
    requires Sound(s) && Sound(t) && Roots(s, pgds) && Retargeted(s, t, pgds, p, vpn, e) && SameUsers(s, t)
    requires UserWord(e)
    ensures forall q | 0 <= q < |pgds| :: WordsOf(t.mem, pgds[q])
    ensures var v := ViewOf(s, pgds);
      ViewOf(t, pgds) == Cow.State(v.spaces[p := Cow.Enter(v.spaces[p], vpn, Cow.Entry(Target(e), ReadOnly(e)))],
        v.data, v.cnt)
  {
    forall q | 0 <= q < |pgds|
      ensures WordsOf(t.mem, pgds[q])
      ensures SpaceOf(t.mem, pgds[q]) ==
        if q == p then Cow.Enter(SpaceOf(s.mem, pgds[p]), vpn, Cow.Entry(Target(e), ReadOnly(e)))
          else SpaceOf(s.mem, pgds[q])
    {
      RetargetedSpace(s, t, pgds, p, vpn, e, q);
    }
    forall f | f in s.users ensures PageAt(t.mem, f) == PageAt(s.mem, f) && CountAt(t.cnt, f) == CountAt(s.cnt, f) {
      SameUserPages(s, t, f);
    }
  }

  /** Words of user frames and their counts may change without any effect on the tables. */
  lemma UserWrite(s: Phys, t: Phys, pgds: seq<nat>)
    requires Sound(s) && Roots(s, pgds) && |t.mem| == |t.cnt| == |s.mem|
    requires t.live == s.live && t.roles == s.roles && t.users == s.users
    requires forall g, i: int | g in s.roles :: Read(t.mem, g, i) == Read(s.mem, g, i)
    ensures Sound(t) && Roots(t, pgds) && SpacesOf(t.mem, pgds) == SpacesOf(s.mem, pgds)
  {
    TreesFrame(s.mem, t.mem, s.roles, s.users);
    forall p | 0 <= p < |pgds|
      ensures SpaceOf(t.mem, pgds[p]) == SpaceOf(s.mem, pgds[p]) && WordsOf(t.mem, pgds[p]) {
      forall v: nat | v < VPAGES ensures Lookup(t.mem, pgds[p], v) == Lookup(s.mem, pgds[p], v) {
        RootOnPath(s.roles, pgds[p], v);
        LeafFrame(s.mem, t.mem, s.roles, s.users, pgds[p], pgds[p], TOP, v);
      }
      SameSpace(s.mem, t.mem, pgds[p]);
    }
  }

  /** Other users of the pool come and go: tables and user frames are live and as they were. */
  lemma PoolView(s: Phys, t: Phys, pgds: seq<nat>)
    requires Sound(s) && Roots(s, pgds) && |t.mem| == |t.cnt| == |s.mem|
    requires t.roles == s.roles && t.users == s.users
    requires forall f: nat | (f in s.roles || f in s.users) && f < |s.mem| ::
      t.mem[f] == s.mem[f] && t.cnt[f] == s.cnt[f] && Block(f, 0) in t.live
    ensures Sound(t) && Roots(t, pgds) && ViewOf(t, pgds) == ViewOf(s, pgds)
  {
    TreesFrame(s.mem, t.mem, s.roles, s.users);
    forall p | 0 <= p < |pgds|
      ensures SpaceOf(t.mem, pgds[p]) == SpaceOf(s.mem, pgds[p]) && WordsOf(t.mem, pgds[p]) {
      forall v: nat | v < VPAGES ensures Lookup(t.mem, pgds[p], v) == Lookup(s.mem, pgds[p], v) {
        RootOnPath(s.roles, pgds[p], v);
        LeafFrame(s.mem, t.mem, s.roles, s.users, pgds[p], pgds[p], TOP, v);
      }
      SameSpace(s.mem, t.mem, pgds[p]);
    }
  }

  lemma StoreView(s: Phys, t: Phys, pgds: seq<nat>, f: nat, i: nat, x: Word)
    requires Sound(s) && Roots(s, pgds) && f in s.users && i < 512 && f < |s.mem|
    requires t == Phys(Put(s.mem, f, i, x), s.cnt, s.live, s.free, s.roles, s.users)
    ensures Sound(t) && Roots(t, pgds)
    ensures var v := ViewOf(s, pgds); ViewOf(t, pgds) == Cow.State(v.spaces, v.data[f := v.data[f][i := x]], v.cnt)
  {
    UserWrite(s, t, pgds);
  }

  lemma DropView(s: Phys, t: Phys, pgds: seq<nat>, f: nat)
    requires Sound(s) && Roots(s, pgds) && f in s.users && f < |s.cnt|
    requires t == Phys(s.mem, s.cnt[f := s.cnt[f] - 1], s.live, s.free, s.roles, s.users)
    ensures Sound(t) && Roots(t, pgds)
    ensures f in ViewOf(s, pgds).cnt && ViewOf(t, pgds) == Cow.Dropped(ViewOf(s, pgds), f)
  {
    UserWrite(s, t, pgds);
  }

  lemma NewPageView(s: Phys, u: Phys, f: nat, pgds: seq<nat>)
    requires Sound(s) && NewPage(s, u, f) && Roots(s, pgds)
    ensures Sound(u) && Roots(u, pgds) && Cow.Fresh(ViewOf(s, pgds), f) && u.users == s.users + {f}
    ensures var v := ViewOf(s, pgds); ViewOf(u, pgds) == Cow.State(v.spaces, v.data[f := ZeroPage()], v.cnt[f := 1])
  {
    var t :| Allocated(s, t, f) && Given(t, u, f);
    AllocatedOk(s, t, f);
    ExtendsView(s, t, pgds);
    assert Block(f, 0) in t.live;
    GivenView(t, u, f, pgds);
  }

  /** A user frame is overwritten with a whole page. */
  lemma FillView(s: Phys, t: Phys, pgds: seq<nat>, f: nat, page: Page)
    requires Sound(s) && Roots(s, pgds) && f in s.users && f < |s.mem|
    requires t == Phys(s.mem[f := page], s.cnt, s.live, s.free, s.roles, s.users)
    ensures Sound(t) && Roots(t, pgds)
    ensures var v := ViewOf(s, pgds); ViewOf(t, pgds) == Cow.State(v.spaces, v.data[f := page], v.cnt)
  {
    UserWrite(s, t, pgds);
  }

  ghost function Entered(v: Cow.State, p: nat, vpn: nat, e: Cow.Entry): Cow.State
    requires p < |v.spaces|
  {
    Cow.State(v.spaces[p := Cow.Enter(v.spaces[p], vpn, e)], v.data, v.cnt)
  }

  /** mappages of one page. */
  lemma MapsOneView(s: Phys, t: Phys, pgds: seq<nat>, p: nat, v: nat, f: nat, attr: int)
    requires Sound(s) && Roots(s, pgds) && p < |pgds| && MapsSoFar(s, t, pgds[p], v, 1, f, attr)
    requires Target(Pte(f, attr)) == f && UserWord(Pte(f, attr))
    ensures Sound(t) && Roots(t, pgds)
    ensures ViewOf(t, pgds) == Entered(ViewOf(s, pgds), p, Alias(v), Cow.Entry(f, ReadOnly(Pte(f, attr))))
  {
    OpenMaps(s, t, pgds[p], v, 1, f, attr);
    MapsOne(s, t, pgds[p], v, f, attr);
    assert Retargeted(s, t, pgds, p, Alias(v), Pte(f, attr));
    RetargetedView(s, t, pgds, p, Alias(v), Pte(f, attr));
    RootsAre(s, t, pgds);
  }

  /** mappages that has mapped no page yet. */
  lemma MapsNoneView(s: Phys, t: Phys, pgds: seq<nat>, root: nat, vpn: nat, f: nat, attr: int)
    requires Sound(s) && Roots(s, pgds) && MapsSoFar(s, t, root, vpn, 0, f, attr)
    ensures Sound(t) && Roots(t, pgds) && ViewOf(t, pgds) == ViewOf(s, pgds)
  {
    OpenMaps(s, t, root, vpn, 0, f, attr);
    forall p | 0 <= p < |pgds|
      ensures SpaceOf(t.mem, pgds[p]) == SpaceOf(s.mem, pgds[p]) && WordsOf(t.mem, pgds[p]) {
      assert IsRoot(s.roles, pgds[p]);
      SameSpace(s.mem, t.mem, pgds[p]);
    }
    RootsAre(s, t, pgds);
    forall f | f in s.users ensures PageAt(t.mem, f) == PageAt(s.mem, f) && CountAt(t.cnt, f) == CountAt(s.cnt, f) {
      SameUserPages(s, t, f);
    }
  }

  /** A level-0 entry is rewritten in place. */
  lemma RewrittenView(s: Phys, t: Phys, pgds: seq<nat>, p: nat, vpn: nat, tbl: nat, e: Word)
    requires Sound(s) && Roots(s, pgds) && p < |pgds| && vpn < VPAGES && Mapped(s, t, pgds[p], vpn, tbl, e)
    requires Descriptor(e) && Target(e) in s.users && UserWord(e)
    ensures Sound(t) && Roots(t, pgds)
    ensures ViewOf(t, pgds) == Entered(ViewOf(s, pgds), p, vpn, Cow.Entry(Target(e), ReadOnly(e)))
  {
    assert IsRoot(s.roles, pgds[p]);
    MappedOk(s, t, pgds[p], vpn, tbl, e);
    assert Retargeted(s, t, pgds, p, vpn, e);
    RetargetedView(s, t, pgds, p, vpn, e);
    RootsAre(s, t, pgds);
  }

  /** What a space says about a page is what its tree translates it to. */
  lemma EntryView(s: Phys, pgds: seq<nat>, p: nat, vpn: nat)
    requires Sound(s) && Roots(s, pgds) && p < |pgds| && vpn < VPAGES
    ensures var l, sp := Lookup(s.mem, pgds[p], vpn), ViewOf(s, pgds).spaces[p];
      && (l.Some? <==> vpn in sp)
      && (l.Some? ==> Descriptor(l.value) && Target(l.value) in s.users)
      && (l.Some? ==> sp[vpn] == Cow.Entry(Target(l.value), ReadOnly(l.value)))
      && (l.Some? ==> UserWord(l.value) && l.value == UserPte(sp[vpn].frame, sp[vpn].ro))
  {
    assert IsRoot(s.roles, pgds[p]);
    LookupTargets(s, pgds[p]);
    OpenWords(s.mem, pgds[p]);
  }

  /** The level-0 entry that a walk for a page ends at. */
  lemma EntryFound(s: Phys, pgds: seq<nat>, p: nat, vpn: nat, pte: Option<nat>)
    requires Sound(s) && Roots(s, pgds) && p < |pgds| && vpn < VPAGES && Bottom(s.mem, pgds[p], TOP, vpn) == pte
    ensures pte.None? ==> vpn !in ViewOf(s, pgds).spaces[p]
    ensures pte.Some? ==> pte.value < |s.mem|
    ensures pte.Some? ==> var e, sp := Read(s.mem, pte.value, Px(0, vpn)), ViewOf(s, pgds).spaces[p];
      if vpn in sp then Present(e) && Descriptor(e) && UserWord(e) && Target(e) in s.users
        && sp[vpn] == Cow.Entry(Target(e), ReadOnly(e)) else e == 0
  {
    EntryView(s, pgds, p, vpn);
    assert IsRoot(s.roles, pgds[p]);
    RootOnPath(s.roles, pgds[p], vpn);
    BottomOnPath(s.mem, s.roles, s.users, pgds[p], pgds[p], TOP, vpn);
    if pte.Some? {
      assert EntryOk(Read(s.mem, pte.value, Px(0, vpn)), s.roles[pte.value], Px(0, vpn), s.roles, s.users);
      UpSplit(vpn, 0);
      if Read(s.mem, pte.value, Px(0, vpn)) != 0 {
        DescriptorPresent(Read(s.mem, pte.value, Px(0, vpn)));
      }
    }
  }

  // ----- a new process

  /** A blank frame becomes the root table of a new process. */
  ghost predicate Rooted(s: Phys, t: Phys, g: nat) {
    && g < |s.mem| && t == Phys(s.mem, s.cnt, s.live, s.free, s.roles[g := Role(g, TOP, 0)], s.users)
  }

  lemma RootedOk(s: Phys, t: Phys, g: nat, pgds: seq<nat>)
    requires Sound(s) && Rooted(s, t, g) && Blank(s.mem, g) && g !in s.roles && g !in s.users
    requires g < |s.cnt| && Block(g, 0) in s.live && Roots(s, pgds)
    ensures Sound(t) && Roots(t, pgds + [g])
    ensures var v := ViewOf(s, pgds); ViewOf(t, pgds + [g]) == Cow.State(v.spaces + [map[]], v.data, v.cnt)
  {
    forall h, i | h in t.roles && 0 <= i < 512 ensures EntryOk(Read(t.mem, h, i), t.roles[h], i, t.roles, t.users) {
      if h != g {
        assert EntryOk(Read(s.mem, h, i), s.roles[h], i, s.roles, s.users);
      }
    }
    forall v: nat | v < VPAGES ensures Lookup(t.mem, g, v) == None {
      assert Read(t.mem, g, Px(TOP, v)) == 0;
    }
    assert SpaceOf(t.mem, g) == map[];
    OpenWords(t.mem, g);
    assert SpacesOf(t.mem, pgds + [g]) == SpacesOf(s.mem, pgds) + [SpaceOf(t.mem, g)];
  }

  // ----- fork

  lemma NamingRoot(m: Mem, root: nat, f: nat)
    requires forall v: nat | v < VPAGES && Lookup(m, root, v).Some? :: Target(Lookup(m, root, v).value) >= 0
    ensures Naming(m, root, TOP, 0, 512, f) == Cow.PagesOf(SpaceOf(m, root), f)
  {
  }

  lemma LookupTargets(s: Phys, root: nat)
    requires Sound(s) && IsRoot(s.roles, root)
    ensures forall v: nat | v < VPAGES && Lookup(s.mem, root, v).Some? ::
      Descriptor(Lookup(s.mem, root, v).value) && Target(Lookup(s.mem, root, v).value) in s.users
  {
  }

  lemma FrozenWords(m: Mem, rs: nat, m': Mem, r: nat)
    requires WordsOf(m, rs) && forall v: nat | v < VPAGES :: Lookup(m', r, v) == Frozen(Lookup(m, rs, v))
    ensures WordsOf(m', r)
  {
    OpenWords(m, rs);
    OpenWords(m', r);
    forall v: nat | v < VPAGES && Lookup(m', r, v).Some? ensures UserWord(Lookup(m', r, v).value) {
      UserWordRO(Lookup(m, rs, v).value);
    }
  }

  lemma FrozenSpace(s: Phys, m: Mem, rs: nat, r: nat)
    requires Sound(s) && IsRoot(s.roles, rs)
    requires forall v: nat | v < VPAGES :: Lookup(m, r, v) == Frozen(Lookup(s.mem, rs, v))
    ensures SpaceOf(m, r) == Cow.Frozen(SpaceOf(s.mem, rs))
  {
    LookupTargets(s, rs);
    forall v: nat | v < VPAGES && Lookup(s.mem, rs, v).Some?
      ensures EntryOf(Lookup(m, r, v)) == Cow.Entry(EntryOf(Lookup(s.mem, rs, v)).frame, true)
    {
      ROParts(Lookup(s.mem, rs, v).value);
    }
  }

  /** The copy as seen from the roots: both trees map what the source mapped, read-only. */
  lemma CopiedRoots(s: Phys, t: Phys, rd: nat, rs: nat, r: nat, v: nat)
    requires Sound(s) && CopiedTo(s, t, TreeCopy(rd, rs), 512) && Pair(s, TreeCopy(rd, rs)) && v < VPAGES
    requires IsRoot(s.roles, r)
    ensures Lookup(t.mem, r, v) == if r == rd || r == rs then Frozen(Lookup(s.mem, rs, v)) else Lookup(s.mem, r, v)
  {
    TopIndex(v);
    UpSplit(v, TOP);
    assert Under(TOP, 0, v);
    if r != rd && r != rs {
      RootOnPath(s.roles, r, v);
      forall g: nat, l: nat | l <= TOP && OnPath(s.roles, r, g, l, v)
        ensures Read(t.mem, g, Px(l, v)) == Read(s.mem, g, Px(l, v)) {
        assert WordKept(s, t, TOP, 0, rs, g, Px(l, v));
      }
      LeafFrame(s.mem, t.mem, s.roles, s.users, r, r, TOP, v);
    }
  }

  lemma ForkCounts(s: Phys, t: Phys, rs: nat, rd: nat, f: nat)
    requires Sound(s) && IsRoot(s.roles, rs) && CopiedTo(s, t, TreeCopy(rd, rs), 512) && f in s.users
    requires rd in s.roles
    ensures CountAt(t.cnt, f) == CountAt(s.cnt, f) + |Cow.PagesOf(SpaceOf(s.mem, rs), f)|
    ensures PageAt(t.mem, f) == PageAt(s.mem, f)
  {
    LookupTargets(s, rs);
    NamingRoot(s.mem, rs, f);
    forall i | 0 <= i < 512 ensures t.mem[f][i] == s.mem[f][i] {
      assert WordKept(s, t, TOP, 0, rs, f, i);
    }
  }

  lemma ForkSpace(s: Phys, t: Phys, rd: nat, rs: nat, r: nat)
    requires Sound(s) && CopiedTo(s, t, TreeCopy(rd, rs), 512) && Pair(s, TreeCopy(rd, rs))
    requires IsRoot(s.roles, r)
    ensures SpaceOf(t.mem, r) == if r == rd || r == rs then Cow.Frozen(SpaceOf(s.mem, rs)) else SpaceOf(s.mem, r)
    ensures WordsOf(s.mem, rs) && WordsOf(s.mem, r) ==> WordsOf(t.mem, r)
  {
    forall v: nat | v < VPAGES
      ensures Lookup(t.mem, r, v) == if r == rd || r == rs then Frozen(Lookup(s.mem, rs, v)) else Lookup(s.mem, r, v)
    {
      CopiedRoots(s, t, rd, rs, r, v);
    }
    if r == rd || r == rs {
      FrozenSpace(s, t.mem, rs, r);
      if WordsOf(s.mem, rs) {
        FrozenWords(s.mem, rs, t.mem, r);
      }
    } else {
      SameSpace(s.mem, t.mem, r);
    }
  }

  lemma ForkSpaces(s: Phys, t: Phys, pgds: seq<nat>, p: nat, rd: nat)
    requires Sound(s) && Roots(s, pgds + [rd]) && p < |pgds|
    requires CopiedTo(s, t, TreeCopy(rd, pgds[p]), 512)
    ensures SpacesOf(t.mem, pgds + [rd]) == Cow.Forked(ViewOf(s, pgds), p).spaces
    ensures IsRoot(s.roles, pgds[p]) && rd in s.roles
    ensures forall q | 0 <= q <= |pgds| :: WordsOf(t.mem, (pgds + [rd])[q])
  {
    var rs, all := pgds[p], pgds + [rd];
    assert all[p] == rs && all[|pgds|] == rd && IsRoot(s.roles, all[p]) && IsRoot(s.roles, all[|pgds|]);
    forall q | 0 <= q < |all|
      ensures WordsOf(t.mem, all[q])
      ensures SpaceOf(t.mem, all[q]) == if q == p || q == |pgds| then Cow.Frozen(SpaceOf(s.mem, rs))
        else SpaceOf(s.mem, all[q])
    {
      assert IsRoot(s.roles, all[q]);
      assert q != p ==> all[q] != all[p];
      assert q != |pgds| ==> all[q] != all[|pgds|];
      ForkSpace(s, t, rd, rs, all[q]);
    }
  }

  ghost function Raised(cnt: map<nat, int>, sp: Cow.Space): map<nat, int> {
    map f | f in cnt :: cnt[f] + |Cow.PagesOf(sp, f)|
  }

  lemma RaisedMaps(s: Phys, t: Phys, sp: Cow.Space)
    requires t.users == s.users
    requires forall f | f in s.users :: CountAt(t.cnt, f) == CountAt(s.cnt, f) + |Cow.PagesOf(sp, f)|
    requires forall f | f in s.users :: PageAt(t.mem, f) == PageAt(s.mem, f)
    ensures DataOf(t) == DataOf(s) && CountsOf(t) == Raised(CountsOf(s), sp)
  {
  }

  lemma ForkMaps(s: Phys, t: Phys, rs: nat, rd: nat)
    requires Sound(s) && IsRoot(s.roles, rs) && rd in s.roles && CopiedTo(s, t, TreeCopy(rd, rs), 512)
    ensures DataOf(t) == DataOf(s) && CountsOf(t) == Raised(CountsOf(s), SpaceOf(s.mem, rs))
  {
    forall f | f in s.users
      ensures CountAt(t.cnt, f) == CountAt(s.cnt, f) + |Cow.PagesOf(SpaceOf(s.mem, rs), f)|
      ensures PageAt(t.mem, f) == PageAt(s.mem, f)
    {
      ForkCounts(s, t, rs, rd, f);
    }
    RaisedMaps(s, t, SpaceOf(s.mem, rs));
  }

  /** copy_page_table into the blank tree of the newest process is the fork step. */
  lemma ForkView(s: Phys, t: Phys, pgds: seq<nat>, p: nat, rd: nat)
    requires Sound(s) && Roots(s, pgds + [rd]) && p < |pgds|
    requires CopiedTo(s, t, TreeCopy(rd, pgds[p]), 512)
    ensures Sound(t) && Roots(t, pgds + [rd]) && ViewOf(t, pgds + [rd]) == Cow.Forked(ViewOf(s, pgds), p)
  {
    ForkSpaces(s, t, pgds, p, rd);
    ForkMaps(s, t, pgds[p], rd);
    RootsAre(s, t, pgds + [rd]);
    assert ViewOf(s, pgds).spaces[p] == SpaceOf(s.mem, pgds[p]);
  }
}
