// What mem_abort_handler decides and what its decision means, for any 64-bit fault address. The tables of a
// process reach 2^48 bytes; the walk for a page beyond ends at the entry of another one, its alias.
module Faults {
  import opened Machine
  import opened Translation
  import opened Areas
  import opened AreaList
  import Cow

  /** How mem_abort_handler ends: back to the process, the process killed, the endless loop, or a
      write through the null pointer of a failed allocation. */
  datatype Outcome = Resumed | Killed | Hung | NoMemory

  /** (esr & 0x3F & 0b111100) == 0b100 */
  predicate TranslationFault(esr: nat) {
    4 <= esr % 64 <= 7
  }

  predicate PermissionFault(esr: nat) {
    13 <= esr % 64 <= 15
  }

  /** vm_prot & PROT_WRITE */
  predicate Writable(prot: nat) {
    prot / PROT_WRITE % 2 == 1
  }

  predicate WritableAt(rs: seq<Range>, addr: nat) {
    |rs| > 0 && Writable(rs[Chosen(rs, addr)].prot)
  }

  /** The handler kills the process. */
  predicate Refused(rs: seq<Range>, esr: nat, addr: nat) {
    || (TranslationFault(esr) && !Accepted(rs, addr))
    || (PermissionFault(esr) && (!Accepted(rs, addr) || !WritableAt(rs, addr)))
  }

  /** The test of the faulting address and the search for the area that both branches begin with. */
  method CheckAreas(areas: AreaList, addr: nat) returns (valid: bool, writable: bool)
    requires areas.Valid()
    ensures valid <==> Accepted(areas.areas, addr)
    ensures valid ==> writable == WritableAt(areas.areas, addr)
  {
    writable := false;
    valid := areas.ChkAddrValid(addr);
    if valid {
      var prot := areas.FindProt(addr);
      writable := Writable(prot);
    }
  }

  /** What the hardware guarantees of the faults it reports: below 2^48, a translation fault only where nothing is
      mapped and a permission fault only where something is. Beyond, it uses no table of the process. */
  ghost predicate Reported(s: Cow.State, pid: nat, esr: nat, addr: nat) {
    addr < SPACE_END ==>
      && (TranslationFault(esr) ==> Cow.PageEntry(s, pid, addr / PAGE_SIZE).None?)
      && (PermissionFault(esr) ==> Cow.PageEntry(s, pid, addr / PAGE_SIZE).Some?)
  }

  /** The event of mapping a zeroed page: over another one, or where there was none. */
  ghost function PageEvent(s: Cow.State, pid: nat, vpn: nat, writable: bool): Cow.Event {
    if Cow.PageEntry(s, pid, vpn).Some? then Cow.MapPage(pid, vpn, ZeroPage(), !writable)
    else Cow.DemandFault(pid, vpn, writable)
  }

  /** The step that a fault handled to the end makes, at the page that the walk ends at. */
  ghost function FaultEvent(s: Cow.State, pid: nat, esr: nat, addr: nat, writable: bool): Cow.Event {
    if TranslationFault(esr) then PageEvent(s, pid, Alias(addr / PAGE_SIZE), writable)
    else Cow.WriteFault(pid, Alias(addr / PAGE_SIZE))
  }

  /** The page is read-only and its frame has other references. */
  ghost predicate NeedsCopy(s: Cow.State, pid: nat, vpn: nat) {
    Cow.HasPage(s, pid, vpn) && s.spaces[pid][vpn].ro && s.cnt[s.spaces[pid][vpn].frame] != 1
  }

  /** A store to the page goes through without a fault. */
  ghost predicate MayStore(s: Cow.State, pid: nat, vpn: nat) {
    Cow.PageEntry(s, pid, vpn).Some? && !Cow.PageEntry(s, pid, vpn).value.ro
  }

  /** What an outcome means: resumed, exactly the step e was made; killed or hung, nothing has changed. */
  ghost predicate Handled(out: Outcome, e: Cow.Event, s: Cow.State, t: Cow.State, was: seq<Cow.Event>,
      log: seq<Cow.Event>)
  {
    match out
    case Resumed => log == was + [e] && Cow.Step(s, e, t)
    case NoMemory => true
    case _ => log == was && t == s
  }

  // ----- inside an area

  /** The address lies in an area that may be written. */
  ghost predicate InWritable(rs: seq<Range>, addr: nat) {
    exists i | 0 <= i < |rs| :: rs[i].start <= addr < rs[i].end && Writable(rs[i].prot)
  }

  /** Inside an area a translation fault is never refused, a page becomes writable if and only if its area
      is, and a permission fault is refused if and only if the area is not writable. */
  lemma FaultInside(rs: seq<Range>, esr: nat, addr: nat)
    requires Sorted(rs) && Inside(rs, addr)
    ensures WritableAt(rs, addr) <==> InWritable(rs, addr)
    ensures TranslationFault(esr) ==> !Refused(rs, esr, addr)
    ensures PermissionFault(esr) ==> (Refused(rs, esr, addr) <==> !InWritable(rs, addr))
  {
  }

  /** Entries are below 2^48. */
  ghost predicate LowPages(s: Cow.State) {
    forall p: nat, v: nat | Cow.PageEntry(s, p, v).Some? :: v < VPAGES
  }

  lemma PageOf(addr: nat)
    requires addr < U64
    ensures addr / PAGE_SIZE < VPAGES <==> addr < SPACE_END
    ensures addr < SPACE_END <==> Alias(addr / PAGE_SIZE) == addr / PAGE_SIZE
  {
  }

  /** A fault inside an area, once handled, changes the entry of the alias and no other, and leaves it writable if and
      only if the area of the address is. So it leaves the faulting page mapped, and all other pages as they were,
      exactly when the address is below 2^48. */
  lemma FaultProgress(rs: seq<Range>, pid: nat, esr: nat, addr: nat, s: Cow.State, t: Cow.State, was: seq<Cow.Event>,
      log: seq<Cow.Event>)
    requires Sorted(rs) && Inside(rs, addr) && addr < U64 && (TranslationFault(esr) || PermissionFault(esr))
    requires !Refused(rs, esr, addr) && Cow.Inv(s) && LowPages(s)
    requires Handled(Resumed, FaultEvent(s, pid, esr, addr, WritableAt(rs, addr)), s, t, was, log)
    ensures var page := addr / PAGE_SIZE;
      && Cow.PageEntry(t, pid, Alias(page)).Some? && Cow.OnlyPage(s, t, pid, Alias(page))
      && (Cow.PageEntry(t, pid, Alias(page)).value.ro <==> !InWritable(rs, addr))
      && (Cow.PageEntry(t, pid, page).Some? <==> addr < SPACE_END)
      && (Cow.OnlyPage(s, t, pid, page) <==> addr < SPACE_END)
  {
    var page, e := addr / PAGE_SIZE, FaultEvent(s, pid, esr, addr, WritableAt(rs, addr));
    FaultInside(rs, esr, addr);
    Cow.FaultMaps(s, e, t);
    PageOf(addr);
    if addr >= SPACE_END {
      assert Cow.PageEntry(s, pid, page).None?;
      assert Cow.PageEntry(t, pid, page) == Cow.PageEntry(s, pid, page);
    }
  }

  /** What processes see changes only where a translation fault beyond 2^48 hits the alias of a mapped page whose
      contents are not zero. */
  lemma FaultInvisible(s: Cow.State, e: Cow.Eager, pid: nat, esr: nat, addr: nat, writable: bool)
    requires Cow.Refines(s, e) && pid < |e| && addr < U64 && Reported(s, pid, esr, addr)
    requires TranslationFault(esr) || PermissionFault(esr)
    ensures var ev := FaultEvent(s, pid, esr, addr, writable);
      (exists p: nat, v: nat :: Cow.Contents(Cow.EagerStep(e, ev), p, v) != Cow.Contents(e, p, v)) <==>
        && TranslationFault(esr) && addr >= SPACE_END
        && Cow.PageEntry(s, pid, Alias(addr / PAGE_SIZE)).Some?
        && Cow.Contents(e, pid, Alias(addr / PAGE_SIZE)) != ZeroPage()
  {
    Cow.FaultSeen(e, FaultEvent(s, pid, esr, addr, writable));
    PageOf(addr);
  }

  // ----- outside all areas

  /** An area ends at the address. */
  ghost predicate EndsAt(rs: seq<Range>, addr: nat) {
    exists i | 0 <= i < |rs| :: addr == rs[i].end >= rs[i].start
  }

  /** Outside every area a fault kills the process, except at the very address where an area ends; and there it is
      the last area of the list that decides whether the page may be written. */
  lemma FaultOutside(rs: seq<Range>, esr: nat, addr: nat)
    requires !Inside(rs, addr)
    ensures TranslationFault(esr) ==> (Refused(rs, esr, addr) <==> !EndsAt(rs, addr))
    ensures PermissionFault(esr) ==>
      (Refused(rs, esr, addr) <==> !EndsAt(rs, addr) || !Writable(rs[|rs| - 1].prot))
    ensures WritableAt(rs, addr) <==> |rs| > 0 && Writable(rs[|rs| - 1].prot)
  {
    AcceptedExact(rs, addr);
  }

  lemma WritableFlag()
    ensures Writable(PROT_WRITE)
  {
  }

  /** There the process is given a page that no area covers. */
  lemma EndAddressExample(s: Cow.State, esr: nat)
    requires TranslationFault(esr) && Reported(s, 0, esr, 4096)
    ensures var rs := [Range(0, 4096, PROT_WRITE, 0)];
      !Inside(rs, 4096) && !Refused(rs, esr, 4096)
        && FaultEvent(s, 0, esr, 4096, WritableAt(rs, 4096)) == Cow.DemandFault(0, 1, true)
  {
    var rs := [Range(0, 4096, PROT_WRITE, 0)];
    assert rs[0].start <= 4096 <= rs[0].end;
    WritableFlag();
  }

  /** And a page behind an area without write permission becomes writable by the permission of another area. */
  lemma EndAddressWriteExample(s: Cow.State, esr: nat)
    requires PermissionFault(esr)
    ensures var rs := [Range(0, 4096, 0, 0), Range(0x1_0000, 0x1_4000, PROT_WRITE, 0)];
      Sorted(rs) && !Inside(rs, 4096) && !Refused(rs, esr, 4096)
        && FaultEvent(s, 0, esr, 4096, WritableAt(rs, 4096)) == Cow.WriteFault(0, 1)
  {
    var rs := [Range(0, 4096, 0, 0), Range(0x1_0000, 0x1_4000, PROT_WRITE, 0)];
    assert rs[0].start <= 4096 <= rs[0].end && rs[|rs| - 1].prot == PROT_WRITE;
    WritableFlag();
    FaultOutside(rs, esr, 4096);
  }

  // ----- faults that must be resolved

  /** The page is mapped read-only, and its frame has this many references. */
  ghost predicate Protected(s: Cow.State, pid: nat, vpn: nat, count: int) {
    Cow.HasPage(s, pid, vpn) && s.spaces[pid][vpn].ro && s.cnt[s.spaces[pid][vpn].frame] == count
  }

  /** The process writes in a writable area, below 2^48, to a page that is mapped read-only. */
  ghost predicate WritesShared(s: Cow.State, rs: seq<Range>, pid: nat, esr: nat, addr: nat, count: int) {
    && PermissionFault(esr) && addr < SPACE_END && Sorted(rs) && InWritable(rs, addr)
    && Protected(s, pid, addr / PAGE_SIZE, count)
  }

  /** The process uses an address inside an area, below 2^48, where nothing is mapped. */
  ghost predicate UsesUnmapped(s: Cow.State, rs: seq<Range>, pid: nat, esr: nat, addr: nat) {
    && TranslationFault(esr) && addr < SPACE_END && Sorted(rs) && Inside(rs, addr)
    && pid < |s.spaces| && Cow.PageEntry(s, pid, addr / PAGE_SIZE).None?
  }

  /** What handling a fault must achieve, from state s with this many free frames to state t. A write in a writable
      area to a page mapped read-only goes through afterwards, for a sole owner in any case, who keeps the frame and
      takes none, and for others if a frame is free. A use of an address inside an area where nothing is mapped finds
      a zeroed page afterwards, writable if and only if the area is, if there are frames for it and three tables. */
  ghost predicate Resolved(s: Cow.State, t: Cow.State, rs: seq<Range>, pid: nat, esr: nat, addr: nat, free: nat,
      out: Outcome, noneTaken: bool)
  {
    var vpn := addr / PAGE_SIZE;
    && (forall count: int | WritesShared(s, rs, pid, esr, addr, count) && (count == 1 || free > 0) ::
          out == Resumed && MayStore(t, pid, vpn) && Cow.HasPage(t, pid, vpn)
          && t.data[t.spaces[pid][vpn].frame] == s.data[s.spaces[pid][vpn].frame])
    && (WritesShared(s, rs, pid, esr, addr, 1) ==>
          noneTaken && pid < |t.spaces| && vpn in t.spaces[pid] && t.spaces[pid][vpn].frame == s.spaces[pid][vpn].frame)
    && (UsesUnmapped(s, rs, pid, esr, addr) && free >= 1 + TOP ==>
          && out == Resumed && Cow.HasPage(t, pid, vpn) && t.data[t.spaces[pid][vpn].frame] == ZeroPage()
          && (MayStore(t, pid, vpn) <==> InWritable(rs, addr)))
  }

  /** Everything an answer to a fault promises; wrapped so that proofs which only pass it on do not open it. */
  ghost predicate Answered(s: Cow.State, t: Cow.State, rs: seq<Range>, pid: nat, esr: nat, addr: nat, free: nat,
      out: Outcome, noneTaken: bool, was: seq<Cow.Event>, log: seq<Cow.Event>, layers: nat := 4)
  {
    if layers > 0 then Answered(s, t, rs, pid, esr, addr, free, out, noneTaken, was, log, layers - 1)
    else
      && (out == Killed <==> Refused(rs, esr, addr))
      && (!TranslationFault(esr) && !PermissionFault(esr) ==> out == Hung)
      && Handled(out, FaultEvent(s, pid, esr, addr, WritableAt(rs, addr)), s, t, was, log)
      && Resolved(s, t, rs, pid, esr, addr, free, out, noneTaken)
  }

  lemma {:induction false} OpenAnswered(s: Cow.State, t: Cow.State, rs: seq<Range>, pid: nat, esr: nat, addr: nat,
      free: nat, out: Outcome, noneTaken: bool, was: seq<Cow.Event>, log: seq<Cow.Event>, layers: nat := 4)
    ensures Answered(s, t, rs, pid, esr, addr, free, out, noneTaken, was, log, layers) <==>
      && (out == Killed <==> Refused(rs, esr, addr))
      && (!TranslationFault(esr) && !PermissionFault(esr) ==> out == Hung)
      && Handled(out, FaultEvent(s, pid, esr, addr, WritableAt(rs, addr)), s, t, was, log)
      && Resolved(s, t, rs, pid, esr, addr, free, out, noneTaken)
  {
    if layers > 0 {
      OpenAnswered(s, t, rs, pid, esr, addr, free, out, noneTaken, was, log, layers - 1);
    }
  }

  lemma SharedResolved(s: Cow.State, rs: seq<Range>, pid: nat, esr: nat, addr: nat, count: int, t: Cow.State)
    requires WritesShared(s, rs, pid, esr, addr, count) && Cow.Counted(s)
    requires Cow.Step(s, FaultEvent(s, pid, esr, addr, WritableAt(rs, addr)), t)
    ensures var vpn := addr / PAGE_SIZE;
      && MayStore(t, pid, vpn) && Cow.HasPage(t, pid, vpn)
      && t.data[t.spaces[pid][vpn].frame] == s.data[s.spaces[pid][vpn].frame]
      && (count == 1 ==> t.spaces[pid][vpn].frame == s.spaces[pid][vpn].frame)
  {
    PageOf(addr);
    Cow.FaultMaps(s, FaultEvent(s, pid, esr, addr, WritableAt(rs, addr)), t);
  }

  lemma UnmappedResolved(s: Cow.State, rs: seq<Range>, pid: nat, esr: nat, addr: nat, t: Cow.State)
    requires UsesUnmapped(s, rs, pid, esr, addr) && Cow.Counted(s)
    requires Cow.Step(s, FaultEvent(s, pid, esr, addr, WritableAt(rs, addr)), t)
    ensures var vpn := addr / PAGE_SIZE;
      && Cow.HasPage(t, pid, vpn) && t.data[t.spaces[pid][vpn].frame] == ZeroPage()
      && (MayStore(t, pid, vpn) <==> InWritable(rs, addr))
  {
    PageOf(addr);
    FaultInside(rs, esr, addr);
    Cow.FaultMaps(s, FaultEvent(s, pid, esr, addr, WritableAt(rs, addr)), t);
  }

  /** A handler that makes the step of the fault, and does so where it must, achieves that. */
  lemma StepResolves(s: Cow.State, t: Cow.State, rs: seq<Range>, pid: nat, esr: nat, addr: nat, free: nat,
      out: Outcome, noneTaken: bool, was: seq<Cow.Event>, log: seq<Cow.Event>)
    requires Cow.Counted(s)
    requires Handled(out, FaultEvent(s, pid, esr, addr, WritableAt(rs, addr)), s, t, was, log)
    requires forall count: int | WritesShared(s, rs, pid, esr, addr, count) && (count == 1 || free > 0) ::
      out == Resumed
    requires WritesShared(s, rs, pid, esr, addr, 1) ==> noneTaken
    requires UsesUnmapped(s, rs, pid, esr, addr) && free >= 1 + TOP ==> out == Resumed
    requires out == Killed <==> Refused(rs, esr, addr)
    requires !TranslationFault(esr) && !PermissionFault(esr) ==> out == Hung
    ensures Answered(s, t, rs, pid, esr, addr, free, out, noneTaken, was, log)
  {
    OpenAnswered(s, t, rs, pid, esr, addr, free, out, noneTaken, was, log);
    if out == Resumed {
      forall count: int | WritesShared(s, rs, pid, esr, addr, count)
        ensures var vpn := addr / PAGE_SIZE;
          && MayStore(t, pid, vpn) && Cow.HasPage(t, pid, vpn)
          && t.data[t.spaces[pid][vpn].frame] == s.data[s.spaces[pid][vpn].frame]
          && (count == 1 ==> t.spaces[pid][vpn].frame == s.spaces[pid][vpn].frame)
      {
        SharedResolved(s, rs, pid, esr, addr, count, t);
      }
      if UsesUnmapped(s, rs, pid, esr, addr) {
        UnmappedResolved(s, rs, pid, esr, addr, t);
      }
    }
  }

  // ----- areas from 2^48 bytes up

  /** All addresses inside areas are translated by the tables of the process exactly if no area reaches beyond 2^48. */
  lemma InsideLow(rs: seq<Range>)
    ensures (forall addr: nat | Inside(rs, addr) :: addr < SPACE_END) <==>
      (forall i | 0 <= i < |rs| && rs[i].start < rs[i].end :: rs[i].end <= SPACE_END)
  {
    if i :| 0 <= i < |rs| && rs[i].start < rs[i].end && rs[i].end > SPACE_END {
      assert rs[i].start <= rs[i].end - 1 < rs[i].end;
      assert Inside(rs, rs[i].end - 1);
    }
  }

  /** All addresses that the handler accepts are exactly if every area ends below 2^48. */
  lemma AcceptedLow(rs: seq<Range>)
    ensures (forall addr: nat | Accepted(rs, addr) :: addr < SPACE_END) <==> EndBy(rs, SPACE_END - 1)
  {
    if i :| 0 <= i < |rs| && rs[i].start <= rs[i].end && rs[i].end >= SPACE_END {
      assert Accepted(rs, rs[i].end);
    }
  }

  /** Over a run of mmap requests that are placeable and end below 2^48, every fault that the handler accepts is
      handled at the page where it happened. */
  lemma RunLands(lists: seq<seq<Range>>, qs: seq<Request>, k: nat, addr: nat)
    requires MmapRun(lists, qs) && k <= |qs| && addr < U64 && Accepted(lists[k], addr)
    requires forall j | 0 <= j < k ::
      EndsInReach(lists[j], RoundDown(qs[j].addr), RoundUp(qs[j].len), SPACE_END - 1)
    ensures addr < SPACE_END && Alias(addr / PAGE_SIZE) == addr / PAGE_SIZE
  {
    RunEnds(lists, qs, SPACE_END - 1, k);
    AcceptedLow(lists[k]);
    PageOf(addr);
  }

  /** The area that mmap grants for a page at 2^48. */
  function HighArea(): Range {
    Range(SPACE_END, SPACE_END + 4096, PROT_WRITE, 0)
  }

  lemma HighAreaGranted()
    ensures MmapStep([], [HighArea()], Request(SPACE_END, 4096, PROT_WRITE, 0))
    ensures Sorted([HighArea()]) && Aligned([HighArea()]) && Inside([HighArea()], SPACE_END)
    ensures Accepted([HighArea()], SPACE_END) && WritableAt([HighArea()], SPACE_END)
  {
    var a, q := HighArea(), Request(SPACE_END, 4096, PROT_WRITE, 0);
    assert a == NewArea(SPACE_END, RoundUp(4096), PROT_WRITE, 0) && Inserted([], a) == [a];
    assert Placed([], RoundDown(SPACE_END), RoundUp(4096), SPACE_END);
    MmapAt([], q, SPACE_END);
    assert [a][0].start <= SPACE_END < [a][0].end;
    WritableFlag();
  }

  /** mmap grants an area at 2^48. A translation fault there maps a page of zeros over page 0: the program loses what
      it had there, the old frame keeps a reference, and the access faults again. */
  lemma AliasExample(s: Cow.State, t: Cow.State, esr: nat)
    requires TranslationFault(esr) && Cow.Inv(s) && LowPages(s) && Cow.PageEntry(s, 0, 0).Some?
    requires Cow.Step(s, FaultEvent(s, 0, esr, SPACE_END, WritableAt([HighArea()], SPACE_END)), t)
    ensures MmapStep([], [HighArea()], Request(SPACE_END, 4096, PROT_WRITE, 0)) && Sorted([HighArea()])
    ensures Inside([HighArea()], SPACE_END) && !Refused([HighArea()], esr, SPACE_END)
    ensures FaultEvent(s, 0, esr, SPACE_END, true) == Cow.MapPage(0, 0, ZeroPage(), false)
    ensures Cow.HasPage(t, 0, 0) && t.data[t.spaces[0][0].frame] == ZeroPage()
    ensures Cow.PageEntry(t, 0, SPACE_END / PAGE_SIZE).None?
    ensures var f := s.spaces[0][0].frame; Cow.Excess(t, f) == Cow.Excess(s, f) + 1
  {
    HighAreaGranted();
    var e := FaultEvent(s, 0, esr, SPACE_END, true);
    assert SPACE_END / PAGE_SIZE == VPAGES && e == Cow.MapPage(0, 0, ZeroPage(), false);
    Cow.StepExcess(s, e, t, s.spaces[0][0].frame);
    Cow.FaultMaps(s, e, t);
    assert Cow.PageEntry(t, 0, VPAGES) == Cow.PageEntry(s, 0, VPAGES);
  }

  /** An area at the start of the kernel half lets a permission fault there make page 0 writable, which lies in no
      area. */
  lemma AliasWriteExample(s: Cow.State, t: Cow.State, esr: nat)
    requires PermissionFault(esr) && Cow.Inv(s) && Cow.Step(s, FaultEvent(s, 0, esr, KERNEL_VIRT, true), t)
    ensures var rs := [Range(KERNEL_VIRT, KERNEL_VIRT + 4096, PROT_WRITE, 0)];
      && Sorted(rs) && Inside(rs, KERNEL_VIRT) && !Refused(rs, esr, KERNEL_VIRT) && WritableAt(rs, KERNEL_VIRT)
      && !Inside(rs, 0)
    ensures FaultEvent(s, 0, esr, KERNEL_VIRT, true) == Cow.WriteFault(0, 0)
    ensures Cow.PageEntry(s, 0, 0).Some? && Cow.PageEntry(s, 0, 0).value.ro
    ensures Cow.PageEntry(t, 0, 0).Some? && !Cow.PageEntry(t, 0, 0).value.ro
  {
    var rs := [Range(KERNEL_VIRT, KERNEL_VIRT + 4096, PROT_WRITE, 0)];
    assert rs[0].start <= KERNEL_VIRT < rs[0].end;
    WritableFlag();
    Cow.FaultMaps(s, FaultEvent(s, 0, esr, KERNEL_VIRT, true), t);
  }

  // ----- stores after fork

  /** A store is carried out: at once, or after its permission fault has been handled. */
  ghost predicate GoesThrough(rs: seq<Range>, esr: nat, s: Cow.State, pid: nat, addr: nat) {
    var vpn := addr / PAGE_SIZE;
    || MayStore(s, pid, vpn)
    || (!Refused(rs, esr, addr) && exists t :: Cow.Step(s, Cow.WriteFault(pid, vpn), t) && MayStore(t, pid, vpn))
  }

  /** There is always another frame number. */
  lemma FreshExists(s: Cow.State) returns (f: nat)
    ensures Cow.Fresh(s, f)
  {
    f := AboveAll(s.data.Keys + s.cnt.Keys);
  }

  lemma {:induction false} AboveAll(a: set<nat>) returns (f: nat)
    ensures forall x | x in a :: x < f
  {
    f := 0;
    if a != {} {
      var x :| x in a;
      var g := AboveAll(a - {x});
      f := if x < g then g else x + 1;
      assert a == a - {x} + {x};
    }
  }

  lemma WriteFaultPossible(s: Cow.State, pid: nat, vpn: nat) returns (t: Cow.State)
    requires Cow.HasPage(s, pid, vpn) && s.spaces[pid][vpn].ro
    ensures Cow.Step(s, Cow.WriteFault(pid, vpn), t) && MayStore(t, pid, vpn)
  {
    var g := s.spaces[pid][vpn].frame;
    if s.cnt[g] == 1 {
      t := Cow.Unprotected(s, pid, vpn);
    } else {
      var f := FreshExists(s);
      t := Cow.Mapped(Cow.Dropped(s, g), pid, vpn, f, s.data[g], false);
    }
  }

  /** A store that was possible before a fork faults after it, in the parent and in the child, and goes through if and
      only if the area of the address is writable. */
  lemma StoreAfterFork(rs: seq<Range>, esr: nat, addr: nat, s: Cow.State, pid: nat, q: nat)
    requires Cow.Inv(s) && MayStore(s, pid, addr / PAGE_SIZE) && (q == pid || q == |s.spaces|)
    requires PermissionFault(esr) && Sorted(rs) && Inside(rs, addr)
    ensures var t := Cow.Forked(s, pid);
      !MayStore(t, q, addr / PAGE_SIZE) && (GoesThrough(rs, esr, t, q, addr) <==> InWritable(rs, addr))
  {
    FaultInside(rs, esr, addr);
    var vpn, t := addr / PAGE_SIZE, Cow.Forked(s, pid);
    assert Cow.HasPage(t, q, vpn) && t.spaces[q][vpn].ro;
    var u := WriteFaultPossible(t, q, vpn);
  }

  /** The areas that __exec creates for an image of one page: its text may not be written by its area, but exec maps it
      writable, so that a store there is carried out before a fork and refused after it. */
  lemma ExecStoreExample(esr: nat)
    requires PermissionFault(esr)
    ensures var rs := [Range(0, 0x1000, 0, 0), Range(0xffff_ffff_b000, 0xffff_ffff_f000, 3, 0)];
      Sorted(rs) && Inside(rs, 0) && !InWritable(rs, 0) && Refused(rs, esr, 0)
  {
    var rs := [Range(0, 0x1000, 0, 0), Range(0xffff_ffff_b000, 0xffff_ffff_f000, 3, 0)];
    assert rs[0].start <= 0 < rs[0].end && !Writable(0);
    FaultInside(rs, esr, 0);
  }
}
