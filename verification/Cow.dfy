// Copy-on-write address spaces as a state machine, and the machine it must look like to every
// process: one in which fork copies all pages at once and pages never mapped read as zero.
module Cow {
  import opened Machine

  /** A mapped page: the frame behind it and whether it is read-only. */
  datatype Entry = Entry(frame: nat, ro: bool)

  type Space = map<nat, Entry>

  /** The spaces of all processes ever created, and contents and reference count of each user frame. */
  datatype State = State(spaces: seq<Space>, data: map<nat, Page>, cnt: map<nat, int>)

  /** Strand is the allocation of a frame for a page that is then not mapped. */
  datatype Event =
    | Spawn
    | MapPage(pid: nat, vpn: nat, page: Page, ro: bool)
    | Strand(page: Page)
    | DemandFault(pid: nat, vpn: nat, writable: bool)
    | WriteFault(pid: nat, vpn: nat)
    | Fork(pid: nat)
    | Store(pid: nat, vpn: nat, i: nat, x: Word)
    | Load(pid: nat, vpn: nat, i: nat)

  // ----- steps of the kernel

  ghost function Enter(m: Space, vpn: nat, e: Entry): Space {
    m[vpn := e]
  }

  /** A fresh frame f with the given contents and one reference is mapped at vpn. */
  ghost function Mapped(s: State, pid: nat, vpn: nat, f: nat, page: Page, ro: bool): State
    requires pid < |s.spaces|
  {
    State(s.spaces[pid := Enter(s.spaces[pid], vpn, Entry(f, ro))], s.data[f := page], s.cnt[f := 1])
  }

  /** A frame is allocated; no entry names it. */
  ghost function Spare(s: State, f: nat, page: Page): State {
    State(s.spaces, s.data[f := page], s.cnt[f := 1])
  }

  ghost function Unprotected(s: State, pid: nat, vpn: nat): State
    requires pid < |s.spaces| && vpn in s.spaces[pid]
  {
    State(s.spaces[pid := Enter(s.spaces[pid], vpn, Entry(s.spaces[pid][vpn].frame, false))], s.data, s.cnt)
  }

  /** One reference to frame g fewer. */
  ghost function Dropped(s: State, g: nat): State
    requires g in s.cnt
  {
    State(s.spaces, s.data, s.cnt[g := s.cnt[g] - 1])
  }

  ghost function Frozen(m: Space): Space {
    map v | v in m :: Entry(m[v].frame, true)
  }

  ghost function PagesOf(m: Space, f: nat): set<nat> {
    set v | v in m && m[v].frame == f
  }

  ghost function Forked(s: State, pid: nat): State
    requires pid < |s.spaces|
  {
    var m := s.spaces[pid];
    State(s.spaces[pid := Frozen(m)] + [Frozen(m)], s.data, map f | f in s.cnt :: s.cnt[f] + |PagesOf(m, f)|)
  }

  ghost function Stored(s: State, pid: nat, vpn: nat, i: nat, x: Word): State
    requires pid < |s.spaces| && vpn in s.spaces[pid] && s.spaces[pid][vpn].frame in s.data && i < 512
  {
    var f := s.spaces[pid][vpn].frame;
    State(s.spaces, s.data[f := s.data[f][i := x]], s.cnt)
  }

  ghost predicate HasPage(s: State, pid: nat, vpn: nat) {
    pid < |s.spaces| && vpn in s.spaces[pid] && s.spaces[pid][vpn].frame in s.data && s.spaces[pid][vpn].frame in s.cnt
  }

  ghost predicate Fresh(s: State, f: nat) {
    f !in s.data && f !in s.cnt
  }

  ghost predicate Step(s: State, e: Event, t: State) {
    match e
    case Spawn =>
      t == State(s.spaces + [map[]], s.data, s.cnt)
    case MapPage(pid, vpn, page, ro) =>
      pid < |s.spaces| && exists f: nat :: Fresh(s, f) && t == Mapped(s, pid, vpn, f, page, ro)
    case Strand(page) =>
      exists f: nat :: Fresh(s, f) && t == Spare(s, f, page)
    case DemandFault(pid, vpn, writable) =>
      pid < |s.spaces| && vpn !in s.spaces[pid]
      && exists f: nat :: Fresh(s, f) && t == Mapped(s, pid, vpn, f, ZeroPage(), !writable)
    case WriteFault(pid, vpn) =>
      HasPage(s, pid, vpn) && s.spaces[pid][vpn].ro
      && var g := s.spaces[pid][vpn].frame;
         if s.cnt[g] == 1 then t == Unprotected(s, pid, vpn)
         else exists f: nat :: Fresh(s, f) && t == Mapped(Dropped(s, g), pid, vpn, f, s.data[g], false)
    case Fork(pid) =>
      pid < |s.spaces| && t == Forked(s, pid)
    case Store(pid, vpn, i, x) =>
      HasPage(s, pid, vpn) && !s.spaces[pid][vpn].ro && i < 512 && t == Stored(s, pid, vpn, i, x)
    case Load(pid, vpn, i) =>
      HasPage(s, pid, vpn) && i < 512 && t == s
  }

  // ----- the eager machine

  /** Contents of each process; a page that is missing is all zero. */
  type Image = map<nat, Page>

  type Eager = seq<Image>

  ghost function Patch(m: Image, vpn: nat, page: Page): Image {
    m[vpn := page]
  }

  ghost function Contents(e: Eager, pid: nat, vpn: nat): Page {
    if pid < |e| && vpn in e[pid] then e[pid][vpn] else ZeroPage()
  }

  ghost function EagerStep(e: Eager, ev: Event): Eager {
    match ev
    case Spawn => e + [map[]]
    case MapPage(pid, vpn, page, _) => if pid < |e| then e[pid := Patch(e[pid], vpn, page)] else e
    case Strand(_) => e
    case DemandFault(_, _, _) => e
    case WriteFault(_, _) => e
    case Fork(pid) => if pid < |e| then e + [e[pid]] else e
    case Store(pid, vpn, i, x) =>
      if pid < |e| && i < 512 then e[pid := Patch(e[pid], vpn, Contents(e, pid, vpn)[i := x])] else e
    case Load(_, _, _) => e
  }

  ghost predicate Refines(s: State, e: Eager) {
    && |e| == |s.spaces|
    && forall pid: nat, vpn: nat | pid < |e| ::
         if vpn in s.spaces[pid]
         then s.spaces[pid][vpn].frame in s.data && Contents(e, pid, vpn) == s.data[s.spaces[pid][vpn].frame]
         else Contents(e, pid, vpn) == ZeroPage()
  }

  // ----- the invariant

  ghost predicate Names(sp: seq<Space>, pid: nat, vpn: nat, f: nat) {
    pid < |sp| && vpn in sp[pid] && sp[pid][vpn].frame == f
  }

  /** All entries, of all processes, that name frame f. */
  ghost function Refs(sp: seq<Space>, f: nat): set<(nat, nat)> {
    set pid: nat, vpn: nat | pid < |sp| && vpn in sp[pid] && Names(sp, pid, vpn, f) :: (pid, vpn)
  }

  /** A frame that some process may write is named by no other entry anywhere. */
  ghost predicate SoleWriter(s: State) {
    forall p: nat, v: nat, q: nat, w: nat, f: nat ::
      Names(s.spaces, p, v, f) && !s.spaces[p][v].ro && Names(s.spaces, q, w, f) ==> p == q && v == w
  }

  ghost predicate Counted(s: State) {
    && s.cnt.Keys == s.data.Keys
    && (forall p: nat, v: nat | p < |s.spaces| && v in s.spaces[p] :: s.spaces[p][v].frame in s.cnt)
    && (forall f | f in s.cnt :: s.cnt[f] >= |Refs(s.spaces, f)|)
  }

  ghost predicate Inv(s: State) {
    SoleWriter(s) && Counted(s)
  }

  // ----- the kernel refines the eager machine

  lemma RefsNames(sp: seq<Space>, f: nat, p: nat, v: nat)
    ensures (p, v) in Refs(sp, f) <==> Names(sp, p, v, f)
  {
  }

  lemma TwoElements<T>(s: set<T>, a: T, b: T)
    requires a in s && b in s && a != b
    ensures |s| >= 2
  {
    assert |s - {a}| == |s| - 1 && b in s - {a};
  }

  /** A frame with one reference is named by one entry only. */
  lemma SoleReference(s: State, g: nat, p: nat, v: nat, q: nat, w: nat)
    requires Counted(s) && g in s.cnt && s.cnt[g] <= 1 && Names(s.spaces, p, v, g) && Names(s.spaces, q, w, g)
    ensures p == q && v == w
  {
    var refs := Refs(s.spaces, g);
    assert |refs| <= 1;
    RefsNames(s.spaces, g, p, v);
    RefsNames(s.spaces, g, q, w);
    if (p, v) != (q, w) {
      TwoElements(refs, (p, v), (q, w));
    }
  }

  /** Two lists of spaces in which frames f and g are named by the same entries. */
  lemma SameRefs(sp: seq<Space>, sq: seq<Space>, f: nat)
    requires forall p: nat, v: nat :: Names(sq, p, v, f) <==> Names(sp, p, v, f)
    ensures Refs(sq, f) == Refs(sp, f)
  {
  }

  /** One entry now names f; whatever frame it named before has one name fewer. */
  lemma EnteredRefs(sp: seq<Space>, pid: nat, vpn: nat, f: nat, ro: bool, h: nat)
    requires pid < |sp| && forall p: nat, v: nat :: !Names(sp, p, v, f)
    ensures var sq := sp[pid := Enter(sp[pid], vpn, Entry(f, ro))];
      Refs(sq, h) == if h == f then {(pid, vpn)} else Refs(sp, h) - {(pid, vpn)}
  {
    var sq := sp[pid := Enter(sp[pid], vpn, Entry(f, ro))];
    forall x: (nat, nat)
      ensures x in Refs(sq, h) <==> x in if h == f then {(pid, vpn)} else Refs(sp, h) - {(pid, vpn)}
    {
      RefsNames(sp, h, x.0, x.1);
      RefsNames(sq, h, x.0, x.1);
    }
  }

  lemma FreshUnnamed(s: State, f: nat)
    requires Counted(s) && Fresh(s, f)
    ensures forall p: nat, v: nat :: !Names(s.spaces, p, v, f)
  {
  }

  lemma MappedNames(s: State, pid: nat, vpn: nat, f: nat, page: Page, ro: bool, p: nat, v: nat, g: nat)
    requires pid < |s.spaces|
    ensures Names(Mapped(s, pid, vpn, f, page, ro).spaces, p, v, g) <==>
      if p == pid && v == vpn then g == f else Names(s.spaces, p, v, g)
  {
  }

  /** Entries other than that of vpn that name g. */
  ghost function Others(sp: seq<Space>, g: nat, pid: nat, vpn: nat): set<(nat, nat)> {
    Refs(sp, g) - {(pid, vpn)}
  }

  lemma MappedRefs(s: State, u: State, pid: nat, vpn: nat, f: nat, page: Page, ro: bool, g: nat)
    requires Counted(s) && pid < |s.spaces| && Fresh(s, f) && u.spaces == s.spaces
    ensures |Refs(Mapped(u, pid, vpn, f, page, ro).spaces, g)| == if g == f then 1 else |Others(s.spaces, g, pid, vpn)|
  {
    FreshUnnamed(s, f);
    EnteredRefs(s.spaces, pid, vpn, f, ro, g);
  }

  /** u differs from s in counts only, and still has one reference for each entry other than that of vpn. */
  ghost predicate Lent(s: State, u: State, pid: nat, vpn: nat) {
    && u.spaces == s.spaces && u.data == s.data && u.cnt.Keys == s.cnt.Keys
    && forall g | g in u.cnt :: u.cnt[g] >= |Others(s.spaces, g, pid, vpn)|
  }

  lemma MappedFrames(s: State, u: State, pid: nat, vpn: nat, f: nat, page: Page, ro: bool)
    requires Counted(s) && pid < |s.spaces| && Lent(s, u, pid, vpn)
    ensures var t := Mapped(u, pid, vpn, f, page, ro);
      && t.cnt.Keys == t.data.Keys
      && forall p: nat, v: nat | p < |t.spaces| && v in t.spaces[p] :: t.spaces[p][v].frame in t.cnt
  {
  }

  lemma MappedCounted(s: State, u: State, pid: nat, vpn: nat, f: nat, page: Page, ro: bool)
    requires Counted(s) && pid < |s.spaces| && Fresh(s, f) && Lent(s, u, pid, vpn)
    ensures Counted(Mapped(u, pid, vpn, f, page, ro))
  {
    var t := Mapped(u, pid, vpn, f, page, ro);
    MappedFrames(s, u, pid, vpn, f, page, ro);
    forall g | g in t.cnt ensures t.cnt[g] >= |Refs(t.spaces, g)| {
      MappedRefs(s, u, pid, vpn, f, page, ro, g);
    }
  }

  lemma MappedSole(s: State, u: State, pid: nat, vpn: nat, f: nat, page: Page, ro: bool)
    requires SoleWriter(s) && Counted(s) && pid < |s.spaces| && Fresh(s, f) && u.spaces == s.spaces
    ensures SoleWriter(Mapped(u, pid, vpn, f, page, ro))
  {
    var t := Mapped(u, pid, vpn, f, page, ro);
    FreshUnnamed(s, f);
    forall p: nat, v: nat, g: nat
      ensures Names(t.spaces, p, v, g) <==> if p == pid && v == vpn then g == f else Names(s.spaces, p, v, g)
    {
      MappedNames(u, pid, vpn, f, page, ro, p, v, g);
    }
    MappedWriter(s, t, pid, vpn, f);
  }

  lemma MappedInv(s: State, u: State, pid: nat, vpn: nat, f: nat, page: Page, ro: bool)
    requires Inv(s) && pid < |s.spaces| && Fresh(s, f) && Lent(s, u, pid, vpn)
    ensures Inv(Mapped(u, pid, vpn, f, page, ro))
  {
    MappedSole(s, u, pid, vpn, f, page, ro);
    MappedCounted(s, u, pid, vpn, f, page, ro);
  }

  lemma MappedWriter(s: State, t: State, pid: nat, vpn: nat, f: nat)
    requires SoleWriter(s) && |t.spaces| == |s.spaces| && forall p: nat, v: nat :: !Names(s.spaces, p, v, f)
    requires forall p: nat, v: nat, g: nat ::
      Names(t.spaces, p, v, g) <==> if p == pid && v == vpn then g == f else Names(s.spaces, p, v, g)
    requires forall p: nat, v: nat | p < |s.spaces| && v in s.spaces[p] && (p != pid || v != vpn) ::
      v in t.spaces[p] && t.spaces[p][v] == s.spaces[p][v]
    ensures SoleWriter(t)
  {
  }

  lemma FewerOthers(sp: seq<Space>, g: nat, pid: nat, vpn: nat)
    ensures |Others(sp, g, pid, vpn)| == if Names(sp, pid, vpn, g) then |Refs(sp, g)| - 1 else |Refs(sp, g)|
  {
  }

  lemma LentSame(s: State, pid: nat, vpn: nat)
    requires Counted(s)
    ensures Lent(s, s, pid, vpn)
  {
  }

  lemma LentDropped(s: State, pid: nat, vpn: nat)
    requires Counted(s) && HasPage(s, pid, vpn)
    ensures Lent(s, Dropped(s, s.spaces[pid][vpn].frame), pid, vpn)
  {
    var u := Dropped(s, s.spaces[pid][vpn].frame);
    forall g | g in u.cnt ensures u.cnt[g] >= |Others(s.spaces, g, pid, vpn)| {
      FewerOthers(s.spaces, g, pid, vpn);
    }
  }

  lemma UnprotectedNames(s: State, pid: nat, vpn: nat)
    requires pid < |s.spaces| && vpn in s.spaces[pid]
    ensures forall p: nat, v: nat, g: nat ::
      Names(Unprotected(s, pid, vpn).spaces, p, v, g) <==> Names(s.spaces, p, v, g)
  {
  }

  lemma UnprotectedCounted(s: State, pid: nat, vpn: nat)
    requires Counted(s) && pid < |s.spaces| && vpn in s.spaces[pid]
    ensures Counted(Unprotected(s, pid, vpn))
  {
    var t := Unprotected(s, pid, vpn);
    UnprotectedNames(s, pid, vpn);
    forall g ensures Refs(t.spaces, g) == Refs(s.spaces, g) {
      SameRefs(s.spaces, t.spaces, g);
    }
    forall p: nat, v: nat | p < |t.spaces| && v in t.spaces[p] ensures t.spaces[p][v].frame in t.cnt {
      assert v in s.spaces[p];
    }
  }

  lemma UnprotectedInv(s: State, pid: nat, vpn: nat)
    requires Inv(s) && HasPage(s, pid, vpn) && s.cnt[s.spaces[pid][vpn].frame] == 1
    ensures Inv(Unprotected(s, pid, vpn))
  {
    var t := Unprotected(s, pid, vpn);
    UnprotectedNames(s, pid, vpn);
    UnprotectedCounted(s, pid, vpn);
    forall p: nat, v: nat, q: nat, w: nat, f: nat | Names(t.spaces, p, v, f) && !t.spaces[p][v].ro
      && Names(t.spaces, q, w, f)
      ensures p == q && v == w
    {
      if p == pid && v == vpn {
        SoleReference(s, f, p, v, q, w);
      } else {
        assert s.spaces[p][v] == t.spaces[p][v];
      }
    }
  }

  lemma CopiedInv(s: State, pid: nat, vpn: nat, f: nat)
    requires Inv(s) && HasPage(s, pid, vpn) && Fresh(s, f)
    ensures var g := s.spaces[pid][vpn].frame; Inv(Mapped(Dropped(s, g), pid, vpn, f, s.data[g], false))
  {
    var g := s.spaces[pid][vpn].frame;
    LentDropped(s, pid, vpn);
    MappedInv(s, Dropped(s, g), pid, vpn, f, s.data[g], false);
  }

  ghost function Paired(pid: nat, a: set<nat>): set<(nat, nat)> {
    set v | v in a :: (pid, v)
  }

  lemma {:induction false} PairedSize(pid: nat, a: set<nat>)
    ensures |Paired(pid, a)| == |a|
  {
    if a != {} {
      var v :| v in a;
      PairedSize(pid, a - {v});
      assert Paired(pid, a) == Paired(pid, a - {v}) + {(pid, v)};
    }
  }

  lemma ForkedRefs(s: State, pid: nat, f: nat)
    requires pid < |s.spaces|
    ensures Refs(Forked(s, pid).spaces, f) == Refs(s.spaces, f) + Paired(|s.spaces|, PagesOf(s.spaces[pid], f))
    ensures Refs(s.spaces, f) !! Paired(|s.spaces|, PagesOf(s.spaces[pid], f))
  {
  }

  lemma ForkedInv(s: State, pid: nat)
    requires Inv(s) && pid < |s.spaces|
    ensures Inv(Forked(s, pid))
  {
    var t, n := Forked(s, pid), |s.spaces|;
    forall f | f in t.cnt ensures t.cnt[f] >= |Refs(t.spaces, f)| {
      ForkedRefs(s, pid, f);
      PairedSize(n, PagesOf(s.spaces[pid], f));
    }
    forall p: nat, v: nat, q: nat, w: nat, f: nat | Names(t.spaces, p, v, f) && !t.spaces[p][v].ro
      && Names(t.spaces, q, w, f)
      ensures p == q && v == w
    {
      assert p != pid && p != n && Names(s.spaces, p, v, f) && s.spaces[p][v] == t.spaces[p][v];
      var q' := if q == n then pid else q;
      assert Names(s.spaces, q', w, f);
    }
    forall p: nat, v: nat | p < |t.spaces| && v in t.spaces[p] ensures t.spaces[p][v].frame in t.cnt {
      var p' := if p == n then pid else p;
      assert v in s.spaces[p'] && s.spaces[p'][v].frame in s.cnt;
    }
  }

  lemma StoredInv(s: State, pid: nat, vpn: nat, i: nat, x: Word)
    requires Inv(s) && HasPage(s, pid, vpn) && i < 512
    ensures Inv(Stored(s, pid, vpn, i, x))
  {
  }

  lemma SpareInv(s: State, f: nat, page: Page)
    requires Inv(s) && Fresh(s, f)
    ensures Inv(Spare(s, f, page))
  {
    FreshUnnamed(s, f);
    assert Refs(s.spaces, f) == {};
  }

  /** Every step of the kernel keeps the sole-writer invariant and the reference counts. */
  lemma StepInv(s: State, e: Event, t: State)
    requires Inv(s) && Step(s, e, t)
    ensures Inv(t)
  {
    match e
    case Spawn =>
      forall p: nat, v: nat, f: nat ensures Names(t.spaces, p, v, f) <==> Names(s.spaces, p, v, f) {
      }
      forall g ensures Refs(t.spaces, g) == Refs(s.spaces, g) {
      }
    case MapPage(pid, vpn, page, ro) =>
      var f: nat :| Fresh(s, f) && t == Mapped(s, pid, vpn, f, page, ro);
      LentSame(s, pid, vpn);
      MappedInv(s, s, pid, vpn, f, page, ro);
    case Strand(page) =>
      var f: nat :| Fresh(s, f) && t == Spare(s, f, page);
      SpareInv(s, f, page);
    case DemandFault(pid, vpn, writable) =>
      var f: nat :| Fresh(s, f) && t == Mapped(s, pid, vpn, f, ZeroPage(), !writable);
      LentSame(s, pid, vpn);
      MappedInv(s, s, pid, vpn, f, ZeroPage(), !writable);
    case WriteFault(pid, vpn) =>
      var g := s.spaces[pid][vpn].frame;
      if s.cnt[g] == 1 {
        UnprotectedInv(s, pid, vpn);
      } else {
        var f: nat :| Fresh(s, f) && t == Mapped(Dropped(s, g), pid, vpn, f, s.data[g], false);
        CopiedInv(s, pid, vpn, f);
      }
    case Fork(pid) =>
      ForkedInv(s, pid);
    case Store(pid, vpn, i, x) =>
      StoredInv(s, pid, vpn, i, x);
    case Load(_, _, _) =>
  }

  lemma MappedRefines(s: State, e: Eager, u: State, pid: nat, vpn: nat, f: nat, page: Page, ro: bool)
    requires Inv(s) && Refines(s, e) && pid < |s.spaces| && Fresh(s, f)
    requires u.spaces == s.spaces && u.data == s.data
    ensures Refines(Mapped(u, pid, vpn, f, page, ro), e[pid := Patch(e[pid], vpn, page)])
  {
  }

  /** Mapping a page with the contents the process sees there already changes nothing it can see. */
  lemma PatchSame(s: State, e: Eager, pid: nat, vpn: nat, page: Page)
    requires pid < |e| && Contents(e, pid, vpn) == page && Refines(s, e[pid := Patch(e[pid], vpn, page)])
    ensures Refines(s, e)
  {
    var e' := e[pid := Patch(e[pid], vpn, page)];
    forall p: nat, v: nat | p < |e| ensures Contents(e, p, v) == Contents(e', p, v) {
    }
  }

  lemma ForkRefines(s: State, e: Eager, pid: nat)
    requires Refines(s, e) && pid < |s.spaces|
    ensures Refines(Forked(s, pid), e + [e[pid]])
  {
    var t, e' := Forked(s, pid), e + [e[pid]];
    forall p: nat, v: nat | p < |e'|
      ensures if v in t.spaces[p] then
        t.spaces[p][v].frame in t.data && Contents(e', p, v) == t.data[t.spaces[p][v].frame]
              else Contents(e', p, v) == ZeroPage()
    {
      var p' := if p == |e| then pid else p;
      assert Contents(e', p, v) == Contents(e, p', v);
      assert v in t.spaces[p] <==> v in s.spaces[p'];
    }
  }

  lemma EagerStored(e: Eager, pid: nat, vpn: nat, i: nat, x: Word, p: nat, v: nat)
    requires pid < |e| && i < 512
    ensures Contents(EagerStep(e, Store(pid, vpn, i, x)), p, v) ==
      if p == pid && v == vpn then Contents(e, pid, vpn)[i := x] else Contents(e, p, v)
  {
  }

  /** Only the page of process pid at vpn is in the frame that the store writes. */
  lemma StoredFrame(s: State, pid: nat, vpn: nat, i: nat, x: Word, p: nat, v: nat)
    requires SoleWriter(s) && HasPage(s, pid, vpn) && !s.spaces[pid][vpn].ro && i < 512
    requires p < |s.spaces| && v in s.spaces[p] && s.spaces[p][v].frame in s.data
    ensures var f := s.spaces[p][v].frame;
      Stored(s, pid, vpn, i, x).data[f] == if p == pid && v == vpn then s.data[f][i := x] else s.data[f]
  {
    assert Names(s.spaces, pid, vpn, s.spaces[pid][vpn].frame);
    assert Names(s.spaces, p, v, s.spaces[p][v].frame);
  }

  lemma StoreRefines(s: State, e: Eager, pid: nat, vpn: nat, i: nat, x: Word)
    requires Inv(s) && Refines(s, e) && HasPage(s, pid, vpn) && !s.spaces[pid][vpn].ro && i < 512
    ensures Refines(Stored(s, pid, vpn, i, x), EagerStep(e, Store(pid, vpn, i, x)))
  {
    var t, e' := Stored(s, pid, vpn, i, x), EagerStep(e, Store(pid, vpn, i, x));
    forall p: nat, v: nat | p < |e'|
      ensures if v in t.spaces[p] then
        t.spaces[p][v].frame in t.data && Contents(e', p, v) == t.data[t.spaces[p][v].frame]
              else Contents(e', p, v) == ZeroPage()
    {
      EagerStored(e, pid, vpn, i, x, p, v);
      if v in s.spaces[p] {
        StoredFrame(s, pid, vpn, i, x, p, v);
      }
    }
  }

  /** Mapping a page whose contents the process sees there already. */
  lemma FilledRefines(s: State, e: Eager, u: State, pid: nat, vpn: nat, f: nat, page: Page, ro: bool)
    requires Inv(s) && Refines(s, e) && pid < |s.spaces| && Fresh(s, f) && Contents(e, pid, vpn) == page
    requires u.spaces == s.spaces && u.data == s.data
    ensures Refines(Mapped(u, pid, vpn, f, page, ro), e)
  {
    MappedRefines(s, e, u, pid, vpn, f, page, ro);
    PatchSame(Mapped(u, pid, vpn, f, page, ro), e, pid, vpn, page);
  }

  lemma UnprotectedRefines(s: State, e: Eager, pid: nat, vpn: nat)
    requires Refines(s, e) && HasPage(s, pid, vpn)
    ensures Refines(Unprotected(s, pid, vpn), e)
  {
  }

  /** Each step of the kernel is matched by the same step of the eager machine. */
  lemma StepRefines(s: State, e: Eager, ev: Event, t: State)
    requires Inv(s) && Refines(s, e) && Step(s, ev, t)
    ensures Refines(t, EagerStep(e, ev))
  {
    match ev
    case Spawn =>
    case MapPage(pid, vpn, page, ro) =>
      var f: nat :| Fresh(s, f) && t == Mapped(s, pid, vpn, f, page, ro);
      MappedRefines(s, e, s, pid, vpn, f, page, ro);
    case Strand(page) =>
    case DemandFault(pid, vpn, writable) =>
      var f: nat :| Fresh(s, f) && t == Mapped(s, pid, vpn, f, ZeroPage(), !writable);
      FilledRefines(s, e, s, pid, vpn, f, ZeroPage(), !writable);
    case WriteFault(pid, vpn) =>
      var g := s.spaces[pid][vpn].frame;
      if s.cnt[g] == 1 {
        UnprotectedRefines(s, e, pid, vpn);
      } else {
        var f: nat :| Fresh(s, f) && t == Mapped(Dropped(s, g), pid, vpn, f, s.data[g], false);
        FilledRefines(s, e, Dropped(s, g), pid, vpn, f, s.data[g], false);
      }
    case Fork(pid) =>
      ForkRefines(s, e, pid);
    case Store(pid, vpn, i, x) =>
      StoreRefines(s, e, pid, vpn, i, x);
    case Load(_, _, _) =>
  }

  // ----- exact counts

  /** References counted that no entry holds. */
  ghost function Excess(s: State, f: nat): int {
    if f in s.cnt then s.cnt[f] - |Refs(s.spaces, f)| else 0
  }

  /** Every reference counted belongs to an entry. */
  ghost predicate Exact(s: State) {
    forall f :: Excess(s, f) == 0
  }

  /** A page is mapped where another one is mapped already. */
  ghost predicate Overwrites(s: State, e: Event) {
    e.MapPage? && e.pid < |s.spaces| && e.vpn in s.spaces[e.pid]
  }

  /** A reference is left that no entry holds: that of the page mapped over, or of the frame stranded. */
  ghost predicate Stray(s: State, e: Event) {
    e.Strand? || Overwrites(s, e)
  }

  /** The reference left is to frame f. */
  ghost predicate Loses(s: State, e: Event, t: State, f: nat) {
    || (Overwrites(s, e) && s.spaces[e.pid][e.vpn].frame == f)
    || (e.Strand? && f in t.cnt && f !in s.cnt)
  }

  lemma MappedExcess(s: State, u: State, pid: nat, vpn: nat, f: nat, page: Page, ro: bool, g: nat)
    requires Counted(s) && pid < |s.spaces| && Fresh(s, f) && u.spaces == s.spaces && u.cnt.Keys == s.cnt.Keys
    ensures Excess(Mapped(u, pid, vpn, f, page, ro), g) ==
      if g == f || g !in s.cnt then 0
        else u.cnt[g] - if Names(s.spaces, pid, vpn, g) then |Refs(s.spaces, g)| - 1 else |Refs(s.spaces, g)|
  {
    MappedRefs(s, u, pid, vpn, f, page, ro, g);
    FewerOthers(s.spaces, g, pid, vpn);
  }

  /** The frame that is mapped over keeps a reference that no entry holds. */
  lemma OverwritingLoses(s: State, pid: nat, vpn: nat, f: nat, page: Page, ro: bool)
    requires Inv(s) && pid < |s.spaces| && Fresh(s, f) && vpn in s.spaces[pid]
    ensures var g := s.spaces[pid][vpn].frame; Excess(Mapped(s, pid, vpn, f, page, ro), g) == Excess(s, g) + 1
  {
    MappedExcess(s, s, pid, vpn, f, page, ro, s.spaces[pid][vpn].frame);
  }

  lemma SpareExcess(s: State, f: nat, page: Page, g: nat)
    requires Counted(s) && Fresh(s, f)
    ensures Excess(Spare(s, f, page), g) == if g == f then 1 else Excess(s, g)
  {
    FreshUnnamed(s, f);
    assert Refs(s.spaces, f) == {};
  }

  lemma ForkedExcess(s: State, pid: nat, g: nat)
    requires pid < |s.spaces|
    ensures Excess(Forked(s, pid), g) == Excess(s, g)
  {
    ForkedRefs(s, pid, g);
    PairedSize(|s.spaces|, PagesOf(s.spaces[pid], g));
  }

  lemma SameExcess(s: State, t: State, g: nat)
    requires t.cnt == s.cnt
    requires forall p: nat, v: nat :: Names(t.spaces, p, v, g) <==> Names(s.spaces, p, v, g)
    ensures Excess(t, g) == Excess(s, g)
  {
    SameRefs(s.spaces, t.spaces, g);
  }

  lemma FaultExcess(s: State, pid: nat, vpn: nat, t: State, g: nat)
    requires Inv(s) && Step(s, WriteFault(pid, vpn), t)
    ensures Excess(t, g) == Excess(s, g)
  {
    var h := s.spaces[pid][vpn].frame;
    if s.cnt[h] == 1 {
      SameExcess(s, t, g);
    } else {
      var f: nat :| Fresh(s, f) && t == Mapped(Dropped(s, h), pid, vpn, f, s.data[h], false);
      MappedExcess(s, Dropped(s, h), pid, vpn, f, s.data[h], false, g);
    }
  }

  /** A step leaves one reference behind exactly where it maps over a page or strands a frame, and never
      takes one back. */
  lemma StepExcess(s: State, e: Event, t: State, g: nat)
    requires Inv(s) && Step(s, e, t)
    ensures Excess(t, g) == if Loses(s, e, t, g) then Excess(s, g) + 1 else Excess(s, g)
  {
    match e
    case Spawn =>
      SameExcess(s, t, g);
    case MapPage(pid, vpn, page, ro) =>
      var f: nat :| Fresh(s, f) && t == Mapped(s, pid, vpn, f, page, ro);
      MappedExcess(s, s, pid, vpn, f, page, ro, g);
    case Strand(page) =>
      var f: nat :| Fresh(s, f) && t == Spare(s, f, page);
      SpareExcess(s, f, page, g);
    case DemandFault(pid, vpn, writable) =>
      var f: nat :| Fresh(s, f) && t == Mapped(s, pid, vpn, f, ZeroPage(), !writable);
      MappedExcess(s, s, pid, vpn, f, ZeroPage(), !writable, g);
    case WriteFault(pid, vpn) =>
      FaultExcess(s, pid, vpn, t, g);
    case Fork(pid) =>
      ForkedExcess(s, pid, g);
    case Store(_, _, _, _) =>
    case Load(_, _, _) =>
  }

  /** The counts are exact after a step if and only if they were before it and it leaves no reference behind. */
  lemma StepExact(s: State, e: Event, t: State)
    requires Inv(s) && Step(s, e, t)
    ensures Exact(t) <==> Exact(s) && !Stray(s, e)
  {
    forall g ensures Excess(t, g) == if Loses(s, e, t, g) then Excess(s, g) + 1 else Excess(s, g) {
      StepExcess(s, e, t, g);
    }
    if e.Strand? {
      var f: nat :| Fresh(s, f) && t == Spare(s, f, e.page);
      assert Loses(s, e, t, f) && Excess(s, f) == 0 && Excess(t, f) != 0;
    } else if Overwrites(s, e) {
      var f := s.spaces[e.pid][e.vpn].frame;
      assert Loses(s, e, t, f) && Excess(s, f) >= 0 && Excess(t, f) != 0;
    }
    if f: nat :| Excess(s, f) != 0 {
      assert Excess(s, f) > 0 && Excess(t, f) > 0;
    }
  }

  // ----- what a fault changes

  ghost function PageEntry(s: State, pid: nat, vpn: nat): Option<Entry> {
    if pid < |s.spaces| && vpn in s.spaces[pid] then Some(s.spaces[pid][vpn]) else None
  }

  /** All entries but that of one page are the same. */
  ghost predicate OnlyPage(s: State, t: State, pid: nat, vpn: nat) {
    forall p: nat, v: nat | p != pid || v != vpn :: PageEntry(t, p, v) == PageEntry(s, p, v)
  }

  /** An event that gives a process a page: a fresh one, or its own with write permission. */
  ghost predicate GivesPage(e: Event) {
    e.DemandFault? || e.WriteFault? || e.MapPage?
  }

  /** Whether the page is read-only afterwards. */
  ghost function GivenReadOnly(e: Event): bool
    requires GivesPage(e)
  {
    if e.DemandFault? then !e.writable else e.MapPage? && e.ro
  }

  lemma EnteredPage(s: State, t: State, pid: nat, vpn: nat, e: Entry)
    requires pid < |s.spaces| && t.spaces == s.spaces[pid := Enter(s.spaces[pid], vpn, e)]
    ensures PageEntry(t, pid, vpn) == Some(e) && OnlyPage(s, t, pid, vpn)
  {
  }

  lemma FreshPage(s: State, f: nat, ro: bool, pid: nat, vpn: nat)
    requires Counted(s) && Fresh(s, f)
    ensures PageEntry(s, pid, vpn) != Some(Entry(f, ro))
  {
  }

  /** Such an event changes the entry of its page and no other. */
  lemma FaultMaps(s: State, e: Event, t: State)
    requires Counted(s) && Step(s, e, t) && GivesPage(e)
    ensures PageEntry(t, e.pid, e.vpn).Some? && PageEntry(t, e.pid, e.vpn).value.ro == GivenReadOnly(e)
    ensures PageEntry(t, e.pid, e.vpn) != PageEntry(s, e.pid, e.vpn) && OnlyPage(s, t, e.pid, e.vpn)
  {
    if e.WriteFault? && s.cnt[s.spaces[e.pid][e.vpn].frame] == 1 {
      EnteredPage(s, t, e.pid, e.vpn, Entry(s.spaces[e.pid][e.vpn].frame, false));
    } else {
      var f: nat :| Fresh(s, f) && e.pid < |s.spaces|
        && t.spaces == s.spaces[e.pid := Enter(s.spaces[e.pid], e.vpn, Entry(f, GivenReadOnly(e)))];
      EnteredPage(s, t, e.pid, e.vpn, Entry(f, GivenReadOnly(e)));
      FreshPage(s, f, GivenReadOnly(e), e.pid, e.vpn);
    }
  }

  /** Processes see nothing of such an event, except that a page mapped over takes the contents of the new one. */
  lemma FaultSeen(e: Eager, ev: Event)
    requires GivesPage(ev) && ev.pid < |e|
    ensures (forall p: nat, v: nat :: Contents(EagerStep(e, ev), p, v) == Contents(e, p, v)) <==>
      (ev.MapPage? ==> Contents(e, ev.pid, ev.vpn) == ev.page)
  {
    if ev.MapPage? {
      assert Contents(EagerStep(e, ev), ev.pid, ev.vpn) == ev.page;
      forall p: nat, v: nat | p != ev.pid || v != ev.vpn ensures Contents(EagerStep(e, ev), p, v) == Contents(e, p, v) {
      }
    }
  }

  // ----- what the events alone decide

  ghost function EagerRun(log: seq<Event>): Eager {
    if log == [] then [] else EagerStep(EagerRun(log[..|log| - 1]), log[|log| - 1])
  }

  ghost function AddPage(d: seq<set<nat>>, pid: nat, vpn: nat): seq<set<nat>> {
    if pid < |d| then d[pid := d[pid] + {vpn}] else d
  }

  ghost function DomainStep(d: seq<set<nat>>, e: Event): seq<set<nat>> {
    match e
    case Spawn => d + [{}]
    case MapPage(pid, vpn, _, _) => AddPage(d, pid, vpn)
    case DemandFault(pid, vpn, _) => AddPage(d, pid, vpn)
    case Fork(pid) => if pid < |d| then d + [d[pid]] else d
    case _ => d
  }

  /** The pages that each process has mapped. */
  ghost function Domains(log: seq<Event>): seq<set<nat>> {
    if log == [] then [] else DomainStep(Domains(log[..|log| - 1]), log[|log| - 1])
  }

  ghost predicate TidyStep(d: seq<set<nat>>, e: Event) {
    !e.Strand? && (e.MapPage? && e.pid < |d| ==> e.vpn !in d[e.pid])
  }

  /** No event maps over a mapped page or strands a frame. */
  ghost predicate Tidy(log: seq<Event>) {
    log == [] || (Tidy(log[..|log| - 1]) && TidyStep(Domains(log[..|log| - 1]), log[|log| - 1]))
  }

  lemma NextRun(log: seq<Event>, e: Event)
    ensures EagerRun(log + [e]) == EagerStep(EagerRun(log), e)
    ensures Domains(log + [e]) == DomainStep(Domains(log), e)
    ensures Tidy(log + [e]) <==> Tidy(log) && TidyStep(Domains(log), e)
  {
    assert (log + [e])[..|log|] == log;
  }

  ghost predicate HasDomains(s: State, d: seq<set<nat>>) {
    |d| == |s.spaces| && forall p | 0 <= p < |d| :: s.spaces[p].Keys == d[p]
  }

  lemma StepDomains(s: State, d: seq<set<nat>>, e: Event, t: State)
    requires HasDomains(s, d) && Step(s, e, t)
    ensures HasDomains(t, DomainStep(d, e)) && (Stray(s, e) <==> !TidyStep(d, e))
  {
  }

  // ----- whole runs

  /** What holds of a state with a history: the invariant, the refinement, and exact counts if and only if
      the history is tidy. */
  ghost predicate Reached(s: State, log: seq<Event>) {
    Inv(s) && Refines(s, EagerRun(log)) && HasDomains(s, Domains(log)) && (Exact(s) <==> Tidy(log))
  }

  lemma StepReached(s: State, log: seq<Event>, e: Event, t: State)
    requires Reached(s, log) && Step(s, e, t)
    ensures Reached(t, log + [e])
  {
    NextRun(log, e);
    StepInv(s, e, t);
    StepRefines(s, EagerRun(log), e, t);
    StepDomains(s, Domains(log), e, t);
    StepExact(s, e, t);
  }

  /** Reached, wrapped so that proofs which only pass it on do not open it. */
  ghost predicate Good(s: State, log: seq<Event>, layers: nat := 4) {
    if layers == 0 then Reached(s, log) else Good(s, log, layers - 1)
  }

  lemma {:induction false} OpenGood(s: State, log: seq<Event>, layers: nat := 4)
    ensures Good(s, log, layers) <==> Reached(s, log)
  {
    if layers > 0 {
      OpenGood(s, log, layers - 1);
    }
  }

  lemma NothingGood()
    ensures Good(State([], map[], map[]), [])
  {
    OpenGood(State([], map[], map[]), []);
    assert forall f :: Refs([], f) == {};
  }

  lemma StepGood(s: State, log: seq<Event>, e: Event, t: State)
    requires Good(s, log) && Step(s, e, t)
    ensures Good(t, log + [e])
  {
    OpenGood(s, log);
    OpenGood(t, log + [e]);
    StepReached(s, log, e, t);
  }

  /** What a process reads is what the eager machine holds. */
  lemma GoodContents(s: State, log: seq<Event>, pid: nat, vpn: nat)
    requires Good(s, log) && pid < |s.spaces| && vpn in s.spaces[pid]
    ensures HasPage(s, pid, vpn) && Contents(EagerRun(log), pid, vpn) == s.data[s.spaces[pid][vpn].frame]
  {
    OpenGood(s, log);
  }

  /** The log decides which pages are mapped and whether the counts are exact. */
  lemma GoodExact(s: State, log: seq<Event>)
    requires Good(s, log)
    ensures HasDomains(s, Domains(log)) && (Exact(s) <==> Tidy(log))
  {
    OpenGood(s, log);
  }

  /** An entry always has its reference counted. */
  lemma GoodCount(s: State, log: seq<Event>, pid: nat, vpn: nat)
    requires Good(s, log) && pid < |s.spaces| && vpn in s.spaces[pid]
    ensures HasPage(s, pid, vpn) && s.cnt[s.spaces[pid][vpn].frame] >= 1
  {
    OpenGood(s, log);
    var f := s.spaces[pid][vpn].frame;
    FewerOthers(s.spaces, f, pid, vpn);
  }

  ghost predicate Run(ss: seq<State>, evs: seq<Event>) {
    && |ss| == |evs| + 1
    && ss[0] == State([], map[], map[])
    && forall k | 0 <= k < |evs| :: Step(ss[k], evs[k], ss[k + 1])
  }

  lemma {:induction false} RunGood(ss: seq<State>, evs: seq<Event>, k: nat)
    requires Run(ss, evs) && k <= |evs|
    ensures Good(ss[k], evs[..k])
  {
    if k == 0 {
      NothingGood();
    } else {
      RunGood(ss, evs, k - 1);
      assert evs[..k] == evs[..k - 1] + [evs[k - 1]];
      StepGood(ss[k - 1], evs[..k - 1], evs[k - 1], ss[k]);
    }
  }

  /** In every reachable state a writable frame has one name and counts cover all names, and the
      memory of every process is that of the eager machine. */
  lemma RunRefines(ss: seq<State>, evs: seq<Event>, k: nat)
    requires Run(ss, evs) && k <= |evs|
    ensures Inv(ss[k]) && Refines(ss[k], EagerRun(evs[..k]))
  {
    RunGood(ss, evs, k);
    OpenGood(ss[k], evs[..k]);
  }

  /** Every count is the number of entries naming the frame if and only if no step so far has mapped over a
      mapped page or stranded a frame. */
  lemma {:induction false} RunExact(ss: seq<State>, evs: seq<Event>, k: nat)
    requires Run(ss, evs) && k <= |evs|
    ensures Exact(ss[k]) <==> forall n | 0 <= n < k :: !Stray(ss[n], evs[n])
  {
    if k == 0 {
      assert forall f :: Refs([], f) == {};
    } else {
      RunExact(ss, evs, k - 1);
      RunRefines(ss, evs, k - 1);
      StepExact(ss[k - 1], evs[k - 1], ss[k]);
    }
  }

  /** What a load returns. */
  ghost function Loaded(s: State, pid: nat, vpn: nat, i: nat): Word
    requires HasPage(s, pid, vpn) && i < 512
  {
    s.data[s.spaces[pid][vpn].frame][i]
  }

  /** A store changes one word of one page of one process: the next load of that word returns what was stored, and
      every word j of every page v of every process p but that one is kept. */
  lemma StoreLoad(s: State, pid: nat, vpn: nat, i: nat, x: Word, t: State, p: nat, v: nat, j: nat)
    requires Inv(s) && Step(s, Store(pid, vpn, i, x), t) && j < 512 && HasPage(s, p, v)
    ensures t.spaces == s.spaces && HasPage(t, p, v)
    ensures Loaded(t, p, v, j) == if p == pid && v == vpn && j == i then x else Loaded(s, p, v, j)
  {
    StoredFrame(s, pid, vpn, i, x, p, v);
  }

  /** What the steps of the eager machine do to the contents of each process: a new process has zeros, a forked one
      what its parent has, a store one other word, and everything else is kept. */
  lemma EagerStore(e: Eager, pid: nat, vpn: nat, i: nat, x: Word)
    requires pid < |e| && i < 512
    ensures var e' := EagerStep(e, Store(pid, vpn, i, x));
      && |e'| == |e| && Contents(e', pid, vpn)[i] == x
      && forall p: nat, v: nat, j: nat | j < 512 && (p != pid || v != vpn || j != i) ::
           Contents(e', p, v)[j] == Contents(e, p, v)[j]
  {
  }

  lemma EagerProcesses(e: Eager, pid: nat, p: nat, v: nat)
    requires pid < |e|
    ensures |EagerStep(e, Spawn)| == |EagerStep(e, Fork(pid))| == |e| + 1
    ensures Contents(EagerStep(e, Spawn), p, v) == if p == |e| then ZeroPage() else Contents(e, p, v)
    ensures Contents(EagerStep(e, Fork(pid)), p, v) == Contents(e, if p == |e| then pid else p, v)
  {
  }

  lemma EagerMap(e: Eager, pid: nat, vpn: nat, page: Page, ro: bool, p: nat, v: nat)
    requires pid < |e|
    ensures Contents(EagerStep(e, MapPage(pid, vpn, page, ro)), p, v) ==
      if p == pid && v == vpn then page else Contents(e, p, v)
  {
  }

  /** Loads cannot tell copy-on-write fork from eager fork: every load of every run returns what the process would
      read had each fork copied all pages at once. Stores can, where exec has mapped a page writable that its area
      protects: see Faults.StoreAfterFork. */
  lemma ForkLooksEager(ss: seq<State>, evs: seq<Event>, k: nat)
    requires Run(ss, evs) && k < |evs| && evs[k].Load?
    ensures HasPage(ss[k], evs[k].pid, evs[k].vpn) && evs[k].i < 512
    ensures Loaded(ss[k], evs[k].pid, evs[k].vpn, evs[k].i)
         == Contents(EagerRun(evs[..k]), evs[k].pid, evs[k].vpn)[evs[k].i]
  {
    RunRefines(ss, evs, k);
    assert Step(ss[k], evs[k], ss[k + 1]);
  }
}
