// What copy_page_table does to memory: the relation between the state before and the state after
// some entries of a table have been copied, and how each kind of turn of its loop extends it.
module CopySpec {
  import opened BlockTree
  import opened Machine
  import opened PhysState
  import opened TableCounts
  import opened Translation

  /** A copy of table c to table d, which have this level and prefix in the trees of rs and rd. */
  datatype Task = Task(d: nat, c: nat, level: nat, pfx: nat, rd: nat, rs: nat)

  /** The copy of a whole tree. */
  function TreeCopy(rd: nat, rs: nat): Task {
    Task(rd, rs, TOP, 0, rd, rs)
  }

  /** Page vpn is translated through the table with this level and prefix. */
  ghost predicate Under(level: nat, pfx: nat, vpn: nat) {
    vpn < VPAGES && Up(vpn, level + 1) == pfx
  }

  /** An entry as the copy leaves it on both sides. */
  ghost function Frozen(l: Option<int>): Option<int> {
    if l.Some? then Some(SetRO(l.value)) else None
  }

  /** The pages below entries 0..lim of table c whose entry names frame f. */
  ghost function Naming(m: Mem, c: int, level: nat, pfx: nat, lim: nat, f: int): set<nat> {
    set vpn: nat | vpn < VPAGES && Under(level, pfx, vpn) && Px(level, vpn) < lim && Names(Leaf(m, c, level, vpn), f)
  }

  ghost predicate Names(l: Option<int>, f: int) {
    l.Some? && Target(l.value) == f
  }

  /** The two tables are where the task says. */
  ghost predicate Pair(s: Phys, k: Task) {
    && k.rd != k.rs && k.level <= TOP
    && k.d in s.roles && s.roles[k.d] == Role(k.rd, k.level, k.pfx)
    && k.c in s.roles && s.roles[k.c] == Role(k.rs, k.level, k.pfx)
  }

  /** Number of prefixes at a level. */
  function Prefixes(level: nat): nat
    decreases TOP - level
  {
    if level >= TOP then 1 else 512 * Prefixes(level + 1)
  }

  lemma PrefixBound(level: nat, pfx: nat, i: nat)
    requires level <= TOP && pfx < Prefixes(level) && i < 512
    ensures level == 0 ==> pfx * 512 + i < VPAGES
    ensures level > 0 ==> pfx * 512 + i < Prefixes(level - 1)
  {
    assert Prefixes(0) == 512 * Prefixes(1) == 512 * 512 * Prefixes(2);
  }

  /** A word of a frame in use: unchanged, or a level-0 entry of the copied part, now read-only. */
  ghost predicate WordKept(s: Phys, t: Phys, level: nat, pfx: nat, rs: nat, f: nat, i: int) {
    || Read(t.mem, f, i) == Read(s.mem, f, i)
    || (f in s.roles && s.roles[f].root == rs && s.roles[f].level == 0 && Up(s.roles[f].pfx, level) == pfx
        && Present(Read(s.mem, f, i)) && Read(t.mem, f, i) == SetRO(Read(s.mem, f, i)))
  }

  ghost predicate Framed(s: Phys, t: Phys, k: Task) {
    && Sound(t) && t.users == s.users && t.free <= s.free && |t.cnt| == |s.cnt|
    && (forall f | f in s.roles :: f in t.roles && t.roles[f] == s.roles[f])
    && (forall f | f in t.roles && f !in s.roles :: f in s.free && t.roles[f].root == k.rd)
    && (forall f: nat, i: int | (f in s.roles || f in s.users) && f != k.d ::
         WordKept(s, t, k.level, k.pfx, k.rs, f, i))
  }

  /** Entries 0..lim have been copied. */
  ghost predicate Leaves(s: Phys, t: Phys, k: Task, lim: nat) {
    && (forall vpn: nat | Under(k.level, k.pfx, vpn) ::
         && Leaf(t.mem, k.c, k.level, vpn) == (if Px(k.level, vpn) < lim then Frozen(Leaf(s.mem, k.c, k.level, vpn))
           else Leaf(s.mem, k.c, k.level, vpn))
         && (Px(k.level, vpn) < lim ==> Leaf(t.mem, k.d, k.level, vpn) == Frozen(Leaf(s.mem, k.c, k.level, vpn))))
    && (forall i: int | i >= lim :: Read(t.mem, k.d, i) == 0)
  }

  ghost predicate Counts(s: Phys, t: Phys, k: Task, lim: nat) {
    |t.cnt| == |s.cnt| &&
    forall f | f in s.users && f < |s.cnt| :: t.cnt[f] == s.cnt[f] + |Naming(s.mem, k.c, k.level, k.pfx, lim, f)|
  }

  ghost predicate CopiedTo(s: Phys, t: Phys, k: Task, lim: nat) {
    Framed(s, t, k) && Leaves(s, t, k, lim) && Counts(s, t, k, lim)
  }

  lemma {:induction false} UpUp(v: nat, a: nat, b: nat)
    ensures Up(Up(v, a), b) == Up(v, a + b)
  {
    if b > 0 {
      UpUp(v, a, b - 1);
    }
  }

  lemma UpChild(vpn: nat, level: nat, pfx: nat, i: nat)
    requires i < 512
    ensures Up(vpn, level) == pfx * 512 + i <==> Up(vpn, level + 1) == pfx && Px(level, vpn) == i
  {
  }

  /** Nothing copied yet. */
  lemma CopyStart(s: Phys, k: Task)
    requires Sound(s) && Pair(s, k) && Blank(s.mem, k.d)
    ensures CopiedTo(s, s, k, 0)
  {
  }

  // ----- turns that copy nothing

  lemma SameNaming(m: Mem, c: int, level: nat, pfx: nat, i: nat)
    requires forall vpn: nat | Under(level, pfx, vpn) && Px(level, vpn) == i :: Leaf(m, c, level, vpn) == None
    ensures forall f :: Naming(m, c, level, pfx, i + 1, f) == Naming(m, c, level, pfx, i, f)
  {
  }

  lemma SkipLeaves(s: Phys, t: Phys, k: Task, i: nat)
    requires Leaves(s, t, k, i) && Read(t.mem, k.c, i) == 0
    ensures Leaves(s, t, k, i + 1)
    ensures forall vpn: nat | Under(k.level, k.pfx, vpn) && Px(k.level, vpn) == i ::
      Leaf(s.mem, k.c, k.level, vpn) == None
  {
    forall vpn: nat | Under(k.level, k.pfx, vpn) && Px(k.level, vpn) == i
      ensures Leaf(t.mem, k.c, k.level, vpn) == Leaf(s.mem, k.c, k.level, vpn) == Leaf(t.mem, k.d, k.level, vpn) == None
    {
      assert Read(t.mem, k.d, i) == 0;
    }
  }

  lemma EmptyWord(t: Phys, c: nat, i: nat)
    requires Sound(t) && c in t.roles && i < 512 && !Present(Read(t.mem, c, i))
    ensures Read(t.mem, c, i) == 0
  {
    assert EntryOk(Read(t.mem, c, i), t.roles[c], i, t.roles, t.users);
  }

  lemma SkipCounts(s: Phys, t: Phys, k: Task, i: nat)
    requires Counts(s, t, k, i)
    requires forall f :: Naming(s.mem, k.c, k.level, k.pfx, i + 1, f) == Naming(s.mem, k.c, k.level, k.pfx, i, f)
    ensures Counts(s, t, k, i + 1)
  {
  }

  lemma SkipEmpty(s: Phys, t: Phys, k: Task, i: nat)
    requires Pair(s, k) && CopiedTo(s, t, k, i) && i < 512 && !Present(Read(t.mem, k.c, i))
    ensures CopiedTo(s, t, k, i + 1)
  {
    EmptyWord(t, k.c, i);
    SkipLeaves(s, t, k, i);
    SameNaming(s.mem, k.c, k.level, k.pfx, i);
    SkipCounts(s, t, k, i);
  }

  // ----- turns at level 0

  /** pt_src[i] |= PT_RO; pt_dest[i] = pt_src[i]; reference_cnt++ */
  ghost predicate Shared(t: Phys, u: Phys, d: nat, c: nat, i: nat, e: Word) {
    && d < |t.mem| && c < |t.mem| && i < 512 && Present(Read(t.mem, c, i)) && e == SetRO(Read(t.mem, c, i))
    && 0 <= Target(e) < |t.cnt|
    && u == Phys(Put(Put(t.mem, c, i, e), d, i, e), t.cnt[Target(e) := t.cnt[Target(e)] + 1], t.live, t.free,
      t.roles, t.users)
  }

  lemma SharedSound(t: Phys, u: Phys, d: nat, c: nat, i: nat, e: Word)
    requires Sound(t) && d in t.roles && c in t.roles && t.roles[d].level == t.roles[c].level == 0
    requires Shared(t, u, d, c, i, e)
    ensures Sound(u) && Target(e) in t.users && Descriptor(e) && Target(e) == Target(Read(t.mem, c, i)) && Present(e)
  {
    assert EntryOk(Read(t.mem, c, i), t.roles[c], i, t.roles, t.users);
    ROParts(Read(t.mem, c, i));
    DescriptorPresent(e);
    WriteTrees(t.mem, t.roles, t.users, c, i, e);
    WriteTrees(Put(t.mem, c, i, e), t.roles, t.users, d, i, e);
  }

  lemma SharedOthers(t: Phys, u: Phys, d: nat, c: nat, i: nat, e: Word)
    requires Sound(t) && d in t.roles && c in t.roles && t.roles[d].level == t.roles[c].level == 0
    requires Shared(t, u, d, c, i, e)
    ensures OthersKept(t, u)
  {
    SharedSound(t, u, d, c, i, e);
    OthersInPlace(t, u);
  }

  /** At level 0 the page below entry i is unique. */
  lemma OnePageBelow(pfx: nat, vpn: nat, i: nat)
    requires Under(0, pfx, vpn) && Px(0, vpn) == i
    ensures vpn == pfx * 512 + i
  {
  }

  lemma SharedLeaves(s: Phys, t: Phys, u: Phys, k: Task, i: nat, e: Word)
    requires Leaves(s, t, k, i) && Shared(t, u, k.d, k.c, i, e) && k.d != k.c && Present(e) && k.level == 0
    requires Read(t.mem, k.c, i) == Read(s.mem, k.c, i)
    ensures Leaves(s, u, k, i + 1)
  {
  }

  /** One page more names the frame that the entry names. */
  lemma SharedNaming(m: Mem, c: nat, pfx: nat, i: nat, f: int)
    requires Present(Read(m, c, i)) && i < 512 && pfx * 512 + i < VPAGES
    ensures |Naming(m, c, 0, pfx, i + 1, f)| ==
      if f == Target(Read(m, c, i)) then |Naming(m, c, 0, pfx, i, f)| + 1 else |Naming(m, c, 0, pfx, i, f)|
  {
    var page: nat := pfx * 512 + i;
    UpChild(page, 0, pfx, i);
    forall vpn: nat | Under(0, pfx, vpn) && Px(0, vpn) == i ensures vpn == page {
      OnePageBelow(pfx, vpn, i);
    }
    var was, now := Naming(m, c, 0, pfx, i, f), Naming(m, c, 0, pfx, i + 1, f);
    assert page !in was;
    assert now == if f == Target(Read(m, c, i)) then was + {page} else was;
  }

  lemma SharedCounts(s: Phys, t: Phys, u: Phys, k: Task, i: nat, e: Word)
    requires Counts(s, t, k, i) && Shared(t, u, k.d, k.c, i, e) && Read(t.mem, k.c, i) == Read(s.mem, k.c, i)
    requires k.level == 0 && k.pfx * 512 + i < VPAGES && Target(e) == Target(Read(s.mem, k.c, i))
    ensures Counts(s, u, k, i + 1)
  {
    forall f | f in s.users && f < |s.cnt| ensures u.cnt[f] == s.cnt[f] + |Naming(s.mem, k.c, 0, k.pfx, i + 1, f)| {
      SharedNaming(s.mem, k.c, k.pfx, i, f);
    }
  }

  lemma ShareEntry(s: Phys, t: Phys, u: Phys, k: Task, i: nat, e: Word)
    requires Sound(s) && Pair(s, k) && CopiedTo(s, t, k, i) && Shared(t, u, k.d, k.c, i, e)
    requires k.level == 0 && k.pfx * 512 + i < VPAGES
    ensures CopiedTo(s, u, k, i + 1)
  {
    SharedSound(t, u, k.d, k.c, i, e);
    var page: nat := k.pfx * 512 + i;
    UpChild(page, 0, k.pfx, i);
    assert Read(t.mem, k.c, i) == Read(s.mem, k.c, i) by {
      assert Leaf(t.mem, k.c, 0, page) == Leaf(s.mem, k.c, 0, page);
    }
    ROParts(Read(t.mem, k.c, i));
    SharedLeaves(s, t, u, k, i, e);
    SharedCounts(s, t, u, k, i, e);
    forall f: nat, j: int | (f in s.roles || f in s.users) && f != k.d ensures WordKept(s, u, 0, k.pfx, k.rs, f, j) {
      assert WordKept(s, t, 0, k.pfx, k.rs, f, j);
    }
  }

  // ----- turns at higher levels

  /** A copy in progress: lim entries of the pair of tables have been copied since state s. */
  ghost predicate Proceeding(s: Phys, t: Phys, k: Task, lim: nat) {
    Sound(s) && Pair(s, k) && k.pfx < Prefixes(k.level) && CopiedTo(s, t, k, lim)
  }

  /** Proceeding, wrapped so that proofs which only pass it on do not open it. */
  ghost predicate Copying(s: Phys, t: Phys, k: Task, lim: nat, layers: nat := 4) {
    if layers > 0 then Copying(s, t, k, lim, layers - 1) else Proceeding(s, t, k, lim)
  }

  lemma {:induction false} OpenCopying(s: Phys, t: Phys, k: Task, lim: nat, layers: nat := 4)
    ensures Copying(s, t, k, lim, layers) <==> Proceeding(s, t, k, lim)
  {
    if layers > 0 {
      OpenCopying(s, t, k, lim, layers - 1);
    }
  }

  /** The task of the recursive call: tables g and c behind entries i. */
  function Below(k: Task, i: nat, g: nat, c: nat): Task
    requires k.level > 0
  {
    Task(g, c, k.level - 1, k.pfx * 512 + i, k.rd, k.rs)
  }

  /** Before the recursive call: frame g is a blank table behind entry i of d, next to the table behind entry i of c. */
  lemma PairBelow(s: Phys, t: Phys, u: Phys, k: Task, i: nat, g: nat, e: Word)
    requires Sound(s) && Pair(s, k) && CopiedTo(s, t, k, i) && k.level > 0
    requires Grown(t, u, k.d, i, g, e) && Present(Read(t.mem, k.c, i)) && i < 512
    ensures Sound(u) && Extends(t, u) && Blank(u.mem, g) && g in t.free && g !in t.roles && g !in t.users
    ensures Descriptor(Read(t.mem, k.c, i)) && Pair(u, Below(k, i, g, Target(Read(t.mem, k.c, i))))
    ensures Target(Read(t.mem, k.c, i)) in t.roles
    ensures u.roles == t.roles[g := Role(k.rd, k.level - 1, k.pfx * 512 + i)]
    ensures Read(u.mem, k.d, i) == e && Linked(e) && Target(e) == g
    ensures forall h: int, j: int :: h != g && (h != k.d || j != i) ==> Read(u.mem, h, j) == Read(t.mem, h, j)
  {
    assert Read(t.mem, k.d, i) == 0;
    GrownOk(t, u, k.d, i, g, e);
    assert EntryOk(Read(t.mem, k.c, i), t.roles[k.c], i, t.roles, t.users);
  }

  /** Leaves of the source tree are the same before and after the new table is hung in. */
  lemma SourceUnmoved(t: Phys, u: Phys, d: nat, rd: nat, rs: nat, i: nat, g: nat, x: nat, l: nat, vpn: nat)
    requires Sound(t) && d in t.roles && t.roles[d].root == rd != rs && g !in t.roles
    requires forall h: int, j: int :: h != g && (h != d || j != i) ==> Read(u.mem, h, j) == Read(t.mem, h, j)
    requires OnPath(t.roles, rs, x, l, vpn)
    ensures Leaf(u.mem, x, l, vpn) == Leaf(t.mem, x, l, vpn)
  {
    LeafFrame(t.mem, u.mem, t.roles, t.users, rs, x, l, vpn);
  }

  /** A word that the recursive call may not touch: outside the new table and not below the source table. */
  lemma Untouched(u: Phys, w: Phys, b: Task, f: nat, j: int)
    requires Framed(u, w, b) && f in u.roles && f != b.d
    requires u.roles[f].root != b.rs || u.roles[f].level > 0 || Up(u.roles[f].pfx, b.level) != b.pfx
    ensures Read(w.mem, f, j) == Read(u.mem, f, j)
  {
    assert WordKept(u, w, b.level, b.pfx, b.rs, f, j);
  }

  /** A table on a way past entry i of the tables of k lies outside what the recursive call copies. */
  lemma OtherTable(u: Phys, w: Phys, k: Task, i: nat, b: Task, r: nat, f: nat, l: nat, vpn: nat)
    requires k.level > 0 && k.rd != k.rs && i < 512 && b == Below(k, i, b.d, b.c) && Framed(u, w, b)
    requires b.d in u.roles && u.roles[b.d] == Role(k.rd, k.level - 1, k.pfx * 512 + i)
    requires Under(k.level, k.pfx, vpn) && Px(k.level, vpn) != i
    requires l <= k.level && OnPath(u.roles, r, f, l, vpn)
    ensures Read(w.mem, f, Px(l, vpn)) == Read(u.mem, f, Px(l, vpn))
  {
    UpChild(vpn, k.level, k.pfx, i);
    UpUp(vpn, 1, k.level - 1);
    Untouched(u, w, b, f, Px(l, vpn));
  }

  /** Pages below the other entries translate after the recursive call as before it. */
  lemma OtherEntries(u: Phys, w: Phys, k: Task, i: nat, b: Task, r: nat, x: nat, vpn: nat)
    requires Sound(u) && k.level > 0 && k.rd != k.rs && i < 512 && b == Below(k, i, b.d, b.c) && Framed(u, w, b)
    requires b.d in u.roles && u.roles[b.d] == Role(k.rd, k.level - 1, k.pfx * 512 + i)
    requires OnPath(u.roles, r, x, k.level, vpn) && Under(k.level, k.pfx, vpn) && Px(k.level, vpn) != i
    ensures Leaf(w.mem, x, k.level, vpn) == Leaf(u.mem, x, k.level, vpn)
  {
    forall f: nat, l: nat | l <= k.level && OnPath(u.roles, r, f, l, vpn)
      ensures Read(w.mem, f, Px(l, vpn)) == Read(u.mem, f, Px(l, vpn)) {
      OtherTable(u, w, k, i, b, r, f, l, vpn);
    }
    LeafFrame(u.mem, w.mem, u.roles, u.users, r, x, k.level, vpn);
  }

  /** A turn for entry i of task k since state s: state t before it, u with the new table g hung in by entry e,
      w after the recursive call. */
  datatype Turn = Turn(s: Phys, t: Phys, u: Phys, w: Phys, k: Task, i: nat, g: nat, e: Word)

  /** The entry of the source that the turn is about, and the table behind it. */
  function Source(x: Turn): int {
    Read(x.t.mem, x.k.c, x.i)
  }

  /** The turn is one at a higher level; b is the task of its recursive call. */
  ghost predicate Descended(x: Turn, b: Task) {
    && x.k.level > 0 && x.i < 512 && Target(Source(x)) >= 0 && b == Below(x.k, x.i, x.g, Target(Source(x)))
    && Copying(x.s, x.t, x.k, x.i)
    && Present(Source(x)) && Grown(x.t, x.u, x.k.d, x.i, x.g, x.e)
    && Copying(x.u, x.w, b, 512)
  }

  lemma OpenDescended(x: Turn, b: Task)
    requires Descended(x, b)
    ensures Sound(x.s) && Pair(x.s, x.k) && CopiedTo(x.s, x.t, x.k, x.i) && CopiedTo(x.u, x.w, b, 512)
  {
    OpenCopying(x.s, x.t, x.k, x.i);
    OpenCopying(x.u, x.w, b, 512);
  }

  lemma LeafBelow(m: Mem, c: int, level: nat, vpn: nat)
    requires level > 0 && Linked(Read(m, c, Px(level, vpn)))
    ensures Leaf(m, c, level, vpn) == Leaf(m, Target(Read(m, c, Px(level, vpn))), level - 1, vpn)
  {
  }

  lemma NotYetCopied(s: Phys, t: Phys, k: Task, lim: nat, vpn: nat)
    requires CopiedTo(s, t, k, lim) && Under(k.level, k.pfx, vpn) && Px(k.level, vpn) >= lim
    ensures Leaf(t.mem, k.c, k.level, vpn) == Leaf(s.mem, k.c, k.level, vpn)
  {
  }

  /** Page vpn lies below the entry of the turn. */
  ghost predicate BelowEntry(x: Turn, vpn: nat) {
    Under(x.k.level, x.k.pfx, vpn) && Px(x.k.level, vpn) == x.i
  }

  /** The source below entry i before the recursive call. */
  lemma DescendedSource(x: Turn, b: Task, vpn: nat)
    requires Descended(x, b) && BelowEntry(x, vpn)
    ensures Leaf(x.u.mem, b.c, b.level, vpn) == Leaf(x.s.mem, x.k.c, x.k.level, vpn)
  {
    OpenDescended(x, b);
    PairBelow(x.s, x.t, x.u, x.k, x.i, x.g, x.e);
    UpChild(vpn, x.k.level, x.k.pfx, x.i);
    UpSplit(vpn, b.level);
    DescriptorPresent(Source(x));
    LeafBelow(x.t.mem, x.k.c, x.k.level, vpn);
    NotYetCopied(x.s, x.t, x.k, x.i, vpn);
    SourceUnmoved(x.t, x.u, x.k.d, x.k.rd, x.k.rs, x.i, x.g, b.c, b.level, vpn);
  }

  /** The entries i themselves after the recursive call. */
  lemma DescendedWords(x: Turn, b: Task)
    requires Descended(x, b)
    ensures Read(x.w.mem, x.k.d, x.i) == x.e && Linked(x.e) && Target(x.e) == x.g
    ensures Read(x.w.mem, x.k.c, x.i) == Source(x) && Linked(Source(x))
  {
    OpenDescended(x, b);
    PairBelow(x.s, x.t, x.u, x.k, x.i, x.g, x.e);
    Untouched(x.u, x.w, b, x.k.d, x.i);
    Untouched(x.u, x.w, b, x.k.c, x.i);
    DescriptorPresent(Source(x));
  }

  lemma DescendedEntry(x: Turn, b: Task, vpn: nat)
    requires Descended(x, b) && BelowEntry(x, vpn)
    ensures Leaf(x.w.mem, x.k.d, x.k.level, vpn) == Leaf(x.w.mem, x.g, b.level, vpn)
    ensures Leaf(x.w.mem, x.k.c, x.k.level, vpn) == Leaf(x.w.mem, b.c, b.level, vpn)
  {
    DescendedWords(x, b);
    LeafBelow(x.w.mem, x.k.d, x.k.level, vpn);
    LeafBelow(x.w.mem, x.k.c, x.k.level, vpn);
  }

  /** What the recursive call did below entry i. */
  lemma DescendedCopy(x: Turn, b: Task, vpn: nat)
    requires Descended(x, b) && BelowEntry(x, vpn)
    ensures Leaf(x.w.mem, b.c, b.level, vpn) == Leaf(x.w.mem, x.g, b.level, vpn)
         == Frozen(Leaf(x.u.mem, b.c, b.level, vpn))
  {
    OpenDescended(x, b);
    UpChild(vpn, x.k.level, x.k.pfx, x.i);
    UpSplit(vpn, b.level);
    assert Under(b.level, b.pfx, vpn);
  }

  lemma DescendedLeaf(x: Turn, b: Task, vpn: nat)
    requires Descended(x, b) && BelowEntry(x, vpn)
    ensures Leaf(x.w.mem, x.k.c, x.k.level, vpn) == Leaf(x.w.mem, x.k.d, x.k.level, vpn)
         == Frozen(Leaf(x.s.mem, x.k.c, x.k.level, vpn))
    ensures Leaf(x.u.mem, b.c, b.level, vpn) == Leaf(x.s.mem, x.k.c, x.k.level, vpn)
  {
    DescendedSource(x, b, vpn);
    DescendedEntry(x, b, vpn);
    DescendedCopy(x, b, vpn);
  }

  lemma DescendedOther(x: Turn, b: Task, vpn: nat)
    requires Descended(x, b) && Under(x.k.level, x.k.pfx, vpn) && Px(x.k.level, vpn) != x.i
    ensures Leaf(x.w.mem, x.k.c, x.k.level, vpn) == Leaf(x.t.mem, x.k.c, x.k.level, vpn)
    ensures Leaf(x.w.mem, x.k.d, x.k.level, vpn) == Leaf(x.t.mem, x.k.d, x.k.level, vpn)
  {
    OpenDescended(x, b);
    PairBelow(x.s, x.t, x.u, x.k, x.i, x.g, x.e);
    OtherEntries(x.u, x.w, x.k, x.i, b, x.k.rd, x.k.d, vpn);
    OtherEntries(x.u, x.w, x.k, x.i, b, x.k.rs, x.k.c, vpn);
    SourceUnmoved(x.t, x.u, x.k.d, x.k.rd, x.k.rs, x.i, x.g, x.k.c, x.k.level, vpn);
    LeafFrame(x.t.mem, x.u.mem, x.t.roles, x.t.users, x.k.rd, x.k.d, x.k.level, vpn);
  }

  lemma DescendedLeaves(x: Turn, b: Task)
    requires Descended(x, b)
    ensures Leaves(x.s, x.w, x.k, x.i + 1)
  {
    OpenDescended(x, b);
    var c, d, level := x.k.c, x.k.d, x.k.level;
    forall vpn: nat | Under(level, x.k.pfx, vpn)
      ensures Leaf(x.w.mem, c, level, vpn) == (if Px(level, vpn) < x.i + 1 then Frozen(Leaf(x.s.mem, c, level, vpn))
        else Leaf(x.s.mem, c, level, vpn))
      ensures Px(level, vpn) < x.i + 1 ==> Leaf(x.w.mem, d, level, vpn) == Frozen(Leaf(x.s.mem, c, level, vpn))
    {
      if Px(level, vpn) == x.i {
        DescendedLeaf(x, b, vpn);
      } else {
        DescendedOther(x, b, vpn);
      }
    }
    PairBelow(x.s, x.t, x.u, x.k, x.i, x.g, x.e);
    forall j: int | j >= x.i + 1 ensures Read(x.w.mem, d, j) == 0 {
      Untouched(x.u, x.w, b, d, j);
    }
  }

  lemma DescendedNaming(x: Turn, b: Task, f: int)
    requires Descended(x, b)
    ensures var more := Naming(x.u.mem, b.c, b.level, b.pfx, 512, f);
      var was := Naming(x.s.mem, x.k.c, x.k.level, x.k.pfx, x.i, f);
      Naming(x.s.mem, x.k.c, x.k.level, x.k.pfx, x.i + 1, f) == was + more && was !! more
  {
    var more := Naming(x.u.mem, b.c, b.level, b.pfx, 512, f);
    forall vpn: nat
      ensures vpn in more <==> BelowEntry(x, vpn) && Names(Leaf(x.s.mem, x.k.c, x.k.level, vpn), f)
    {
      UpChild(vpn, x.k.level, x.k.pfx, x.i);
      if BelowEntry(x, vpn) {
        DescendedLeaf(x, b, vpn);
        UpSplit(vpn, b.level);
      }
    }
  }

  lemma Parity(e: int, q: int)
    ensures (2 * q + e) % 2 == e % 2
  {
  }

  lemma SetROTwice(e: int)
    ensures SetRO(SetRO(e)) == SetRO(e) && (Present(SetRO(e)) <==> Present(e))
  {
    if !ReadOnly(e) {
      Bit7Set(e);
      Parity(e, 64);
    }
  }

  lemma KeptThrough(x: Turn, b: Task, f: nat, j: int)
    requires x.k.level > 0 && x.i < 512 && b == Below(x.k, x.i, b.d, b.c)
    requires WordKept(x.s, x.t, x.k.level, x.k.pfx, x.k.rs, f, j) && Read(x.u.mem, f, j) == Read(x.t.mem, f, j)
    requires WordKept(x.u, x.w, b.level, b.pfx, b.rs, f, j)
    requires if f in x.u.roles then f in x.s.roles && x.u.roles[f] == x.s.roles[f] else f !in x.s.roles
    ensures WordKept(x.s, x.w, x.k.level, x.k.pfx, x.k.rs, f, j)
  {
    SetROTwice(Read(x.s.mem, f, j));
    if f in x.s.roles && Up(x.s.roles[f].pfx, b.level) == b.pfx {
      assert Up(x.s.roles[f].pfx, x.k.level) == x.k.pfx;
    }
  }

  lemma DescendedRoles(x: Turn, b: Task)
    requires Descended(x, b)
    ensures Sound(x.w) && x.w.users == x.u.users == x.s.users && x.w.free <= x.s.free
    ensures |x.w.cnt| == |x.u.cnt| == |x.s.cnt|
    ensures forall f | f in x.s.roles ::
      f in x.u.roles && f in x.w.roles && x.u.roles[f] == x.w.roles[f] == x.s.roles[f]
    ensures forall f | f in x.w.roles && f !in x.s.roles :: f in x.s.free && x.w.roles[f].root == x.k.rd
    ensures forall f | f in x.s.users :: f !in x.u.roles && f !in x.s.roles
    ensures forall f | f in x.s.roles || f in x.s.users :: f != x.g
    ensures forall f: nat, j: int | f != x.g && f != x.k.d :: Read(x.u.mem, f, j) == Read(x.t.mem, f, j)
  {
    OpenDescended(x, b);
    PairBelow(x.s, x.t, x.u, x.k, x.i, x.g, x.e);
  }

  lemma DescendedFramed(x: Turn, b: Task)
    requires Descended(x, b)
    ensures Framed(x.s, x.w, x.k)
  {
    OpenDescended(x, b);
    DescendedRoles(x, b);
    forall f: nat, j: int | (f in x.s.roles || f in x.s.users) && f != x.k.d
      ensures WordKept(x.s, x.w, x.k.level, x.k.pfx, x.k.rs, f, j) {
      KeptThrough(x, b, f, j);
    }
  }

  lemma DescendedCounts(x: Turn, b: Task)
    requires Descended(x, b)
    ensures Counts(x.s, x.w, x.k, x.i + 1)
  {
    OpenDescended(x, b);
    DescendedRoles(x, b);
    PairBelow(x.s, x.t, x.u, x.k, x.i, x.g, x.e);
    forall f | f in x.s.users && f < |x.s.cnt|
      ensures x.w.cnt[f] == x.s.cnt[f] + |Naming(x.s.mem, x.k.c, x.k.level, x.k.pfx, x.i + 1, f)| {
      DescendedNaming(x, b, f);
    }
  }

  lemma CopyDescend(x: Turn, b: Task)
    requires Descended(x, b)
    ensures CopiedTo(x.s, x.w, x.k, x.i + 1)
  {
    DescendedFramed(x, b);
    DescendedLeaves(x, b);
    DescendedCounts(x, b);
  }

  // ----- the same for the methods, wrapped

  lemma BeginCopying(s: Phys, k: Task)
    requires Sound(s) && Pair(s, k) && Blank(s.mem, k.d) && k.pfx < Prefixes(k.level)
    ensures Copying(s, s, k, 0)
  {
    CopyStart(s, k);
    OpenCopying(s, s, k, 0);
  }

  /** What the code finds at entry i of the two tables. */
  lemma CopyingTables(s: Phys, t: Phys, k: Task, i: nat)
    requires Copying(s, t, k, i) && i < 512
    ensures k.d in t.roles && k.c in t.roles && k.d < |t.mem| && k.c < |t.mem| && k.level <= TOP
    ensures t.roles[k.d].level == t.roles[k.c].level == k.level && Read(t.mem, k.d, i) == 0
    ensures var e := Read(t.mem, k.c, i); Present(e) ==> Target(e) >= 0 && (k.level > 0 ==> Attr(e) == PT_PAGE)
  {
    OpenCopying(s, t, k, i);
    assert EntryOk(Read(t.mem, k.c, i), t.roles[k.c], i, t.roles, t.users);
  }

  lemma SkipTurn(s: Phys, t: Phys, k: Task, i: nat)
    requires Copying(s, t, k, i) && i < 512 && !Present(Read(t.mem, k.c, i))
    ensures Copying(s, t, k, i + 1)
  {
    OpenCopying(s, t, k, i);
    SkipEmpty(s, t, k, i);
    OpenCopying(s, t, k, i + 1);
  }

  lemma SharedTurn(s: Phys, t: Phys, u: Phys, k: Task, i: nat, e: Word)
    requires Copying(s, t, k, i) && Shared(t, u, k.d, k.c, i, e) && k.level == 0
    ensures Copying(s, u, k, i + 1)
  {
    OpenCopying(s, t, k, i);
    PrefixBound(0, k.pfx, i);
    ShareEntry(s, t, u, k, i, e);
    OpenCopying(s, u, k, i + 1);
  }

  /** The two tables that the recursive call gets. */
  lemma BelowPair(s: Phys, t: Phys, u: Phys, k: Task, i: nat, g: nat, e: Word)
    requires Copying(s, t, k, i) && k.level > 0 && i < 512
    requires Grown(t, u, k.d, i, g, e) && Present(Read(t.mem, k.c, i)) && Target(Read(t.mem, k.c, i)) >= 0
    ensures var b := Below(k, i, g, Target(Read(t.mem, k.c, i)));
      Blank(u.mem, g) && b.pfx < Prefixes(b.level) && Pair(u, b)
  {
    OpenCopying(s, t, k, i);
    PairBelow(s, t, u, k, i, g, e);
    PrefixBound(k.level, k.pfx, i);
  }

  lemma DescendedTurn(x: Turn, b: Task)
    requires Descended(x, b)
    ensures Copying(x.s, x.w, x.k, x.i + 1)
  {
    OpenCopying(x.s, x.t, x.k, x.i);
    CopyDescend(x, b);
    OpenCopying(x.s, x.w, x.k, x.i + 1);
  }

  // ----- frames taken

  /** A copy takes one frame for each table below the entries done, and leaves the frames of others alone. */
  ghost predicate Taken(s: Phys, t: Phys, k: Task, lim: nat) {
    OthersKept(s, t) && |t.free| + Tables(s.mem, k.c, k.level, lim) == |s.free|
  }

  /** There are fewer frames than the copy needs. */
  ghost predicate Short(s: Phys, k: Task) {
    Tables(s.mem, k.c, k.level, 512) > |s.free|
  }

  /** Tables of the source above level 0 are as they were. */
  lemma SourceTables(s: Phys, t: Phys, k: Task, lim: nat)
    requires Sound(s) && Pair(s, k) && CopiedTo(s, t, k, lim) && k.level > 0
    ensures forall f, j: int | f in s.roles && s.roles[f].root == k.rs && s.roles[f].level > 0 ::
      Read(t.mem, f, j) == Read(s.mem, f, j)
  {
    forall f, j: int | f in s.roles && s.roles[f].root == k.rs && s.roles[f].level > 0
      ensures Read(t.mem, f, j) == Read(s.mem, f, j) {
      assert WordKept(s, t, k.level, k.pfx, k.rs, f, j);
    }
  }

  lemma SourceEntry(s: Phys, t: Phys, k: Task, i: nat)
    requires Copying(s, t, k, i) && k.level > 0
    ensures Read(t.mem, k.c, i) == Read(s.mem, k.c, i)
  {
    OpenCopying(s, t, k, i);
    SourceTables(s, t, k, i);
  }

  /** The tables below the entry of the turn, counted in the state before the copy. */
  lemma SourceBelow(x: Turn, b: Task)
    requires Copying(x.s, x.t, x.k, x.i) && x.k.level > 0 && x.i < 512
    requires Grown(x.t, x.u, x.k.d, x.i, x.g, x.e) && Present(Source(x)) && Target(Source(x)) >= 0
    requires b == Below(x.k, x.i, x.g, Target(Source(x)))
    ensures Tables(x.u.mem, b.c, b.level, 512) == Tables(x.s.mem, b.c, b.level, 512)
    ensures OthersKept(x.t, x.u) && |x.u.free| + 1 == |x.t.free|
  {
    OpenCopying(x.s, x.t, x.k, x.i);
    SourceTables(x.s, x.t, x.k, x.i);
    PairBelow(x.s, x.t, x.u, x.k, x.i, x.g, x.e);
    assert EntryOk(Read(x.s.mem, x.k.c, x.i), x.s.roles[x.k.c], x.i, x.s.roles, x.s.users);
    TablesSame(x.s.mem, x.u.mem, x.s.roles, x.s.users, b.c, 512);
    GrownOne(x.t, x.u, x.k.d, x.i, x.g, x.e);
  }

  lemma TakenNothing(s: Phys, k: Task)
    ensures Taken(s, s, k, 0)
  {
    OthersSame(s);
  }

  lemma TakenSkip(s: Phys, t: Phys, k: Task, i: nat)
    requires Copying(s, t, k, i) && Taken(s, t, k, i) && !Present(Read(t.mem, k.c, i))
    ensures Taken(s, t, k, i + 1)
  {
    if k.level > 0 {
      SourceEntry(s, t, k, i);
      TablesNext(s.mem, k.c, k.level, i);
    }
  }

  lemma TakenShared(s: Phys, t: Phys, u: Phys, k: Task, i: nat, e: Word)
    requires Copying(s, t, k, i) && Taken(s, t, k, i) && Shared(t, u, k.d, k.c, i, e) && k.level == 0
    ensures Taken(s, u, k, i + 1)
  {
    OpenCopying(s, t, k, i);
    SharedOthers(t, u, k.d, k.c, i, e);
    OthersNext(s, t, u);
  }

  lemma TakenBelow(x: Turn, b: Task)
    requires Descended(x, b) && Taken(x.s, x.t, x.k, x.i) && Taken(x.u, x.w, b, 512)
    ensures Taken(x.s, x.w, x.k, x.i + 1)
  {
    SourceEntry(x.s, x.t, x.k, x.i);
    SourceBelow(x, b);
    TablesNext(x.s.mem, x.k.c, x.k.level, x.i);
    OthersNext(x.s, x.t, x.u);
    OthersNext(x.s, x.u, x.w);
  }

  /** No frame for the table behind entry i. */
  lemma CopyStops(s: Phys, t: Phys, k: Task, i: nat)
    requires Copying(s, t, k, i) && Taken(s, t, k, i)
    requires k.level > 0 && i < 512 && Present(Read(t.mem, k.c, i)) && t.free == {}
    ensures Short(s, k) && OthersKept(s, t)
  {
    SourceEntry(s, t, k, i);
    TablesNext(s.mem, k.c, k.level, i);
    TablesMono(s.mem, k.c, k.level, i + 1, 512);
  }

  /** Too few frames for the tables below it. */
  lemma CopyStopsBelow(x: Turn, b: Task)
    requires Copying(x.s, x.t, x.k, x.i) && Taken(x.s, x.t, x.k, x.i) && x.k.level > 0 && x.i < 512
    requires Grown(x.t, x.u, x.k.d, x.i, x.g, x.e) && Present(Source(x)) && Target(Source(x)) >= 0
    requires b == Below(x.k, x.i, x.g, Target(Source(x))) && Short(x.u, b) && OthersKept(x.u, x.w)
    ensures Short(x.s, x.k) && OthersKept(x.s, x.w)
  {
    SourceEntry(x.s, x.t, x.k, x.i);
    SourceBelow(x, b);
    TablesNext(x.s.mem, x.k.c, x.k.level, x.i);
    TablesMono(x.s.mem, x.k.c, x.k.level, x.i + 1, 512);
    OthersNext(x.s, x.t, x.u);
    OthersNext(x.s, x.u, x.w);
  }
}
