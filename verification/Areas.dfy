// The list of memory areas of an address space: placement by mmap, insertion, lookup and copy.
module Areas {
  import opened Machine

  const PROT_WRITE := 2

  /** [start, end) with its protection. */
  datatype Range = Range(start: nat, end: nat, prot: nat, flags: int)

  // ----- placement on values

  /** No area meets the closed interval from start to end. */
  predicate Clear(rs: seq<Range>, start: int, end: int) {
    forall i | 0 <= i < |rs| :: rs[i].start > end || rs[i].end < start
  }

  /** Areas in address order, pairwise disjoint as half-open intervals. */
  ghost predicate Sorted(rs: seq<Range>) {
    && (forall i | 0 <= i < |rs| :: rs[i].start <= rs[i].end)
    && (forall i, j | 0 <= i < j < |rs| :: rs[i].end <= rs[j].start)
  }

  ghost predicate Aligned(rs: seq<Range>) {
    forall i | 0 <= i < |rs| :: PageAligned(rs[i])
  }

  ghost predicate PageAligned(r: Range) {
    OnPage(r.start) && OnPage(r.end) && r.end + PAGE_SIZE <= U64
  }

  /** The gap that the search of chk_vma_valid sees behind area i. */
  function Gap(rs: seq<Range>, i: nat): int
    requires i + 1 < |rs|
  {
    Wrap(RoundDown(rs[i + 1].start) - RoundUp(rs[i].end))
  }

  predicate GapFits(rs: seq<Range>, i: nat, size: int) {
    i + 1 < |rs| && Gap(rs, i) > size
  }

  /** Where chk_vma_valid places a request. */
  ghost predicate Placed(rs: seq<Range>, start: int, size: int, r: int) {
    if Clear(rs, start, Wrap(start + size)) then r == start
    else if exists i: nat :: GapFits(rs, i, size) then
      exists i: nat :: GapFits(rs, i, size) && r == RoundUp(rs[i].end) && forall j: nat ::
        j < i ==> !GapFits(rs, j, size)
    else r == 0
  }

  predicate Between(x: int, low: int, high: int) {
    low <= x <= high
  }

  /** The area and the interval from start to end, both with their ends, have an address in common. */
  ghost predicate Meets(a: Range, start: int, end: int) {
    exists x: int :: Between(x, a.start, a.end) && Between(x, start, end)
  }

  /** So an area is in the way even if the request only touches it, at either side. */
  lemma ClearMeans(rs: seq<Range>, start: int, end: int)
    requires start <= end && forall i | 0 <= i < |rs| :: rs[i].start <= rs[i].end
    ensures Clear(rs, start, end) <==> forall i | 0 <= i < |rs| :: !Meets(rs[i], start, end)
  {
    forall i | 0 <= i < |rs| ensures Meets(rs[i], start, end) <==> !(rs[i].start > end || rs[i].end < start) {
      var x := if start <= rs[i].start then rs[i].start else start;
      if !(rs[i].start > end || rs[i].end < start) {
        assert Between(x, rs[i].start, rs[i].end) && Between(x, start, end);
      }
    }
  }

  /** Index of the first area from i on that starts above the end of the new one. */
  function PositionFrom(rs: seq<Range>, end: int, i: nat): (p: nat)
    requires i <= |rs|
    ensures i <= p <= |rs|
    ensures forall j | i <= j < p :: rs[j].start <= end
    ensures p < |rs| ==> rs[p].start > end
    decreases |rs| - i
  {
    if i == |rs| || rs[i].start > end then i else PositionFrom(rs, end, i + 1)
  }

  function Position(rs: seq<Range>, end: int): (p: nat)
    ensures p <= |rs|
    ensures forall i | 0 <= i < p :: rs[i].start <= end
    ensures p < |rs| ==> rs[p].start > end
  {
    PositionFrom(rs, end, 0)
  }

  function Spliced<T>(s: seq<T>, x: T, p: nat): seq<T>
    requires p <= |s|
  {
    s[..p] + [x] + s[p..]
  }

  function Inserted(rs: seq<Range>, r: Range): seq<Range> {
    Spliced(rs, r, Position(rs, r.end))
  }

  /** The new area can go into the list: each old one starts above its end or ends at or below its start. */
  ghost predicate Room(rs: seq<Range>, r: Range) {
    forall i | 0 <= i < |rs| :: rs[i].start > r.end || rs[i].end <= r.start
  }

  lemma InsertedAt(rs: seq<Range>, r: Range, i: nat)
    requires i <= |rs|
    ensures |Inserted(rs, r)| == |rs| + 1
    ensures var p := Position(rs, r.end);
      Inserted(rs, r)[i] == if i < p then rs[i] else if i == p then r else rs[i - 1]
  {
  }

  lemma SortedHasRoom(rs: seq<Range>, r: Range)
    requires Sorted(rs) && Sorted(Inserted(rs, r))
    ensures Room(rs, r)
  {
    var p := Position(rs, r.end);
    InsertedAt(rs, r, p);
    forall i | 0 <= i < |rs| ensures rs[i].start > r.end || rs[i].end <= r.start {
      if i < p {
        InsertedAt(rs, r, i);
      } else if i > p {
        assert rs[p].end <= rs[i].start;
      }
    }
  }

  lemma RoomKeepsSorted(rs: seq<Range>, r: Range)
    requires Sorted(rs) && r.start <= r.end && Room(rs, r)
    ensures Sorted(Inserted(rs, r))
  {
    var p, t := Position(rs, r.end), Inserted(rs, r);
    InsertedAt(rs, r, p);
    forall i | 0 <= i < |t| ensures t[i].start <= t[i].end {
      InsertedAt(rs, r, i);
    }
    forall i, j | 0 <= i < j < |t| ensures t[i].end <= t[j].start {
      InsertedAt(rs, r, i);
      InsertedAt(rs, r, j);
      if i == p && j > p + 1 {
        assert rs[p].end <= rs[j - 1].start;
      }
    }
  }

  /** Insertion keeps the list sorted and disjoint exactly when there is room. */
  lemma InsertSorted(rs: seq<Range>, r: Range)
    requires Sorted(rs) && r.start <= r.end
    ensures Sorted(Inserted(rs, r)) <==> Room(rs, r)
  {
    if Sorted(Inserted(rs, r)) {
      SortedHasRoom(rs, r);
    }
    if Room(rs, r) {
      RoomKeepsSorted(rs, r);
    }
  }

  /** In a sorted page-aligned list the gap seen is the distance between the two areas. */
  lemma GapIsDistance(rs: seq<Range>, i: nat)
    requires Sorted(rs) && Aligned(rs) && i + 1 < |rs|
    ensures Gap(rs, i) == rs[i + 1].start - rs[i].end && RoundUp(rs[i].end) == rs[i].end
  {
    RoundUpOnPage(rs[i].end);
    RoundUpOnPage(rs[i + 1].start);
    assert rs[i].end <= rs[i + 1].start;
  }

  /** What chk_vma_valid grants, in terms of the areas: the request itself if it has no address in common with any of
      them, else the end of the first one from which the next is further away than the size, else 0. */
  lemma PlacedMeans(rs: seq<Range>, start: nat, size: nat, r: nat)
    requires Sorted(rs) && Aligned(rs) && Placed(rs, start, size, r) && start + size < U64
    ensures (forall i | 0 <= i < |rs| :: !Meets(rs[i], start, start + size)) ==> r == start
    ensures (exists i | 0 <= i < |rs| :: Meets(rs[i], start, start + size)) ==>
      || (exists i: nat :: i + 1 < |rs| && r == rs[i].end && Apart(rs, i) > size && forall j: nat | j < i ::
            Apart(rs, j) <= size)
      || (r == 0 && forall i: nat | i + 1 < |rs| :: Apart(rs, i) <= size)
  {
    ClearMeans(rs, start, start + size);
    forall i: nat | i + 1 < |rs| ensures GapFits(rs, i, size) <==> Apart(rs, i) > size {
      GapIsDistance(rs, i);
    }
    if !Clear(rs, start, start + size) && exists i: nat :: GapFits(rs, i, size) {
      var i: nat :| GapFits(rs, i, size) && r == RoundUp(rs[i].end) && forall j: nat :: j < i ==> !GapFits(rs, j, size);
      GapIsDistance(rs, i);
      assert Apart(rs, i) > size;
    }
  }

  /** The distance from area i to the next. */
  function Apart(rs: seq<Range>, i: nat): int
    requires i + 1 < |rs|
  {
    rs[i + 1].start - rs[i].end
  }

  /** The request is clear and its end does not wrap, or it is not clear and some gap is larger than it, or the
      bottom of the address space up to and including its size lies below every non-empty area. */
  ghost predicate Placeable(rs: seq<Range>, start: int, size: int) {
    if Clear(rs, start, Wrap(start + size)) then start + size < U64
    else
      || (exists i: nat :: GapFits(rs, i, size))
      || (forall i | 0 <= i < |rs| :: rs[i].start > size || rs[i].end == 0)
  }

  lemma GapHasRoom(rs: seq<Range>, i: nat, size: nat, a: Range)
    requires Sorted(rs) && Aligned(rs) && GapFits(rs, i, size) && a.start == RoundUp(rs[i].end)
    requires a.end == Wrap(a.start + size)
    ensures a.end == a.start + size && Room(rs, a)
  {
    GapIsDistance(rs, i);
    assert rs[i + 1].start <= rs[i + 1].end;
    forall j | 0 <= j < |rs| ensures rs[j].start > a.end || rs[j].end <= a.start {
      if j < i {
        assert rs[j].end <= rs[i].start <= rs[i].end;
      } else if j > i + 1 {
        assert rs[i + 1].start <= rs[i + 1].end <= rs[j].start;
      }
    }
  }

  /** An area that ends below its start leaves no order. */
  lemma InvertedUnsorted(rs: seq<Range>, a: Range)
    requires a.end < a.start
    ensures !Sorted(Inserted(rs, a))
  {
    InsertedAt(rs, a, Position(rs, a.end));
  }

  /** mmap keeps the list sorted and disjoint exactly when the request is placeable. */
  lemma PlacementSorted(rs: seq<Range>, start: nat, size: nat, a: Range)
    requires Sorted(rs) && Aligned(rs) && Placed(rs, start, size, a.start) && a.end == Wrap(a.start + size)
    requires start < U64 && size < U64
    ensures Sorted(Inserted(rs, a)) <==> Placeable(rs, start, size)
  {
    if Clear(rs, start, Wrap(start + size)) {
      if start + size < U64 {
        InsertSorted(rs, a);
      } else {
        InvertedUnsorted(rs, a);
      }
    } else if exists i: nat :: GapFits(rs, i, size) {
      var i: nat :| GapFits(rs, i, size) && a.start == RoundUp(rs[i].end) && forall j: nat ::
        j < i ==> !GapFits(rs, j, size);
      GapHasRoom(rs, i, size, a);
      InsertSorted(rs, a);
    } else {
      InsertSorted(rs, a);
    }
  }

  lemma PlacedAligned(rs: seq<Range>, start: nat, size: nat, r: nat)
    requires Sorted(rs) && Aligned(rs) && Placed(rs, start, size, r)
    requires OnPage(start) && OnPage(size) && start < U64 && size < U64
    ensures OnPage(r) && r < U64
  {
    assert 0 == Bytes(0);
    if !Clear(rs, start, Wrap(start + size)) && exists i: nat :: GapFits(rs, i, size) {
      var i: nat :| GapFits(rs, i, size) && r == RoundUp(rs[i].end) && forall j: nat :: j < i ==> !GapFits(rs, j, size);
      GapIsDistance(rs, i);
    }
  }

  lemma InsertAligned(rs: seq<Range>, r: Range)
    requires Aligned(rs) && PageAligned(r)
    ensures Aligned(Inserted(rs, r))
  {
  }

  lemma PlacementAligned(rs: seq<Range>, start: nat, size: nat, a: Range)
    requires Sorted(rs) && Aligned(rs) && Placed(rs, start, size, a.start) && a.end == Wrap(a.start + size)
    requires OnPage(start) && OnPage(size) && start < U64 && size < U64
    ensures Aligned(Inserted(rs, a))
  {
    PlacedAligned(rs, start, size, a.start);
    WrapOnPage(a.start, size);
    InsertAligned(rs, a);
  }

  // ----- runs of mmap

  /** The end of a new area is a 64-bit sum. */
  function NewArea(start: nat, size: nat, prot: nat, flags: int): Range {
    Range(start, if Wrap(start + size) >= 0 then Wrap(start + size) else 0, prot, flags)
  }

  datatype Request = Request(addr: nat, len: nat, prot: nat, flags: int)

  /** The list after one call of __mmap. */
  ghost predicate MmapStep(rs: seq<Range>, rs': seq<Range>, q: Request) {
    exists r: nat ::
      && Placed(rs, RoundDown(q.addr), RoundUp(q.len), r)
      && rs' == Inserted(rs, NewArea(r, RoundUp(q.len), q.prot, q.flags))
  }

  lemma MmapAt(rs: seq<Range>, q: Request, r: nat)
    requires Sorted(rs) && Aligned(rs) && Placed(rs, RoundDown(q.addr), RoundUp(q.len), r)
    requires q.addr < U64 && q.len < U64
    ensures var rs' := Inserted(rs, NewArea(r, RoundUp(q.len), q.prot, q.flags));
      Aligned(rs') && (Sorted(rs') <==> Placeable(rs, RoundDown(q.addr), RoundUp(q.len)))
  {
    var a := NewArea(r, RoundUp(q.len), q.prot, q.flags);
    RoundedOnPage(q.addr, q.len);
    PlacementSorted(rs, RoundDown(q.addr), RoundUp(q.len), a);
    PlacementAligned(rs, RoundDown(q.addr), RoundUp(q.len), a);
  }

  /** One call keeps the areas page-aligned, and keeps them sorted and disjoint exactly when it is placeable. */
  lemma MmapKeeps(rs: seq<Range>, rs': seq<Range>, q: Request)
    requires Sorted(rs) && Aligned(rs) && MmapStep(rs, rs', q) && q.addr < U64 && q.len < U64
    ensures Aligned(rs') && (Sorted(rs') <==> Placeable(rs, RoundDown(q.addr), RoundUp(q.len)))
  {
    var r: nat :| Placed(rs, RoundDown(q.addr), RoundUp(q.len), r)
      && rs' == Inserted(rs, NewArea(r, RoundUp(q.len), q.prot, q.flags));
    MmapAt(rs, q, r);
  }

  ghost predicate MmapRun(lists: seq<seq<Range>>, qs: seq<Request>) {
    && |lists| == |qs| + 1 && lists[0] == []
    && forall k | 0 <= k < |qs| ::
         && MmapStep(lists[k], lists[k + 1], qs[k]) && qs[k].addr < U64 && qs[k].len < U64
         && Placeable(lists[k], RoundDown(qs[k].addr), RoundUp(qs[k].len))
  }

  /** Over any run of placeable requests the areas stay sorted, disjoint and page-aligned. */
  lemma {:induction false} RunSorted(lists: seq<seq<Range>>, qs: seq<Request>, k: nat)
    requires MmapRun(lists, qs) && k <= |qs|
    ensures Sorted(lists[k]) && Aligned(lists[k])
  {
    if k > 0 {
      RunSorted(lists, qs, k - 1);
      MmapKeeps(lists[k - 1], lists[k], qs[k - 1]);
    }
  }

  // ----- how far areas reach

  /** Every area that contains or ends at some address ends at or below the limit. */
  ghost predicate EndBy(rs: seq<Range>, limit: nat) {
    forall i | 0 <= i < |rs| && rs[i].start <= rs[i].end :: rs[i].end <= limit
  }

  /** What a request must meet before the call, so that its area ends at or below the limit. */
  ghost predicate EndsInReach(rs: seq<Range>, start: nat, size: nat, limit: nat) {
    if Clear(rs, start, Wrap(start + size)) then start + size >= U64 || start + size <= limit
    else (exists i: nat :: GapFits(rs, i, size)) || size <= limit
  }

  lemma PlacedEnds(rs: seq<Range>, start: nat, size: nat, a: Range, limit: nat)
    requires Sorted(rs) && Aligned(rs) && Placed(rs, start, size, a.start) && a.end == Wrap(a.start + size)
    requires start < U64 && size < U64 && EndBy(rs, limit)
    ensures (a.start > a.end || a.end <= limit) <==> EndsInReach(rs, start, size, limit)
  {
    if !Clear(rs, start, Wrap(start + size)) && exists i: nat :: GapFits(rs, i, size) {
      var i: nat :| GapFits(rs, i, size) && a.start == RoundUp(rs[i].end) && forall j: nat ::
        j < i ==> !GapFits(rs, j, size);
      GapIsDistance(rs, i);
      assert rs[i + 1].start <= rs[i + 1].end;
    }
  }

  lemma MmapEndsAt(rs: seq<Range>, q: Request, r: nat, limit: nat)
    requires Sorted(rs) && Aligned(rs) && Placed(rs, RoundDown(q.addr), RoundUp(q.len), r)
    requires q.addr < U64 && q.len < U64 && EndBy(rs, limit)
    ensures EndBy(Inserted(rs, NewArea(r, RoundUp(q.len), q.prot, q.flags)), limit) <==>
      EndsInReach(rs, RoundDown(q.addr), RoundUp(q.len), limit)
  {
    var a := NewArea(r, RoundUp(q.len), q.prot, q.flags);
    InsertedEnds(rs, a, limit);
    PlacedEnds(rs, RoundDown(q.addr), RoundUp(q.len), a, limit);
  }

  /** While all areas end by a limit, a call keeps them so exactly if the request meets that condition. */
  lemma MmapEnds(rs: seq<Range>, rs': seq<Range>, q: Request, limit: nat)
    requires Sorted(rs) && Aligned(rs) && MmapStep(rs, rs', q) && q.addr < U64 && q.len < U64 && EndBy(rs, limit)
    ensures EndBy(rs', limit) <==> EndsInReach(rs, RoundDown(q.addr), RoundUp(q.len), limit)
  {
    var r: nat :| Placed(rs, RoundDown(q.addr), RoundUp(q.len), r)
      && rs' == Inserted(rs, NewArea(r, RoundUp(q.len), q.prot, q.flags));
    MmapEndsAt(rs, q, r, limit);
  }

  lemma InsertedEnds(rs: seq<Range>, a: Range, limit: nat)
    requires EndBy(rs, limit)
    ensures EndBy(Inserted(rs, a), limit) <==> a.start > a.end || a.end <= limit
  {
    var p := Position(rs, a.end);
    InsertedAt(rs, a, p);
    forall i | 0 <= i <= |rs| ensures Inserted(rs, a)[i] == if i < p then rs[i] else if i == p then a else rs[i - 1] {
      InsertedAt(rs, a, i);
    }
  }

  /** Over a run of requests that are placeable and in reach, no area ends beyond the limit. */
  lemma {:induction false} RunEnds(lists: seq<seq<Range>>, qs: seq<Request>, limit: nat, k: nat)
    requires MmapRun(lists, qs) && k <= |qs|
    requires forall j | 0 <= j < k :: EndsInReach(lists[j], RoundDown(qs[j].addr), RoundUp(qs[j].len), limit)
    ensures EndBy(lists[k], limit)
  {
    if k > 0 {
      RunEnds(lists, qs, limit, k - 1);
      RunSorted(lists, qs, k - 1);
      MmapEnds(lists[k - 1], lists[k], qs[k - 1], limit);
    }
  }

  /** A request that cannot be placed is granted at address 0 all the same and breaks the order. */
  lemma UnplaceableExample()
    ensures var rs := [Range(0, 4096, 0, 0)];
      && Sorted(rs) && Aligned(rs) && !Placeable(rs, 0, 4096) && Placed(rs, 0, 4096, 0)
      && !Sorted(Inserted(rs, Range(0, 4096, 2, 0)))
  {
    var rs := [Range(0, 4096, 0, 0)];
    assert rs[0] == Range(0, 4096, 0, 0);
    assert 0 == Bytes(0) && 4096 == Bytes(1);
    PlacementSorted(rs, 0, 4096, Range(0, 4096, 2, 0));
  }

  /** A request whose end wraps around is granted as asked, on an empty list at least, and ends below its start. */
  lemma WrappingExample()
    ensures var a := NewArea(U64 - 4096, 8192, 0, 0);
      Placed([], U64 - 4096, 8192, a.start) && a.end == 4096 && !Sorted(Inserted([], a))
  {
    InvertedUnsorted([], NewArea(U64 - 4096, 8192, 0, 0));
  }

  // ----- lookup on values

  /** chk_addr_valid: the end address of an area is accepted too. */
  predicate Accepted(rs: seq<Range>, addr: int) {
    exists i | 0 <= i < |rs| :: rs[i].start <= addr <= rs[i].end
  }

  /** Index of the area whose protection the fault handler uses: the first one that contains the
      address, or the last one of the list. */
  function ChosenFrom(rs: seq<Range>, addr: int, i: nat): (c: nat)
    requires i < |rs|
    ensures i <= c < |rs|
    ensures c < |rs| - 1 ==> rs[c].start <= addr < rs[c].end
    ensures forall j | i <= j < c :: !(rs[j].start <= addr < rs[j].end)
    decreases |rs| - i
  {
    if i == |rs| - 1 || rs[i].start <= addr < rs[i].end then i else ChosenFrom(rs, addr, i + 1)
  }

  function Chosen(rs: seq<Range>, addr: int): (c: nat)
    requires |rs| > 0
    ensures c < |rs|
    ensures c < |rs| - 1 ==> rs[c].start <= addr < rs[c].end
    ensures forall j | 0 <= j < c :: !(rs[j].start <= addr < rs[j].end)
  {
    ChosenFrom(rs, addr, 0)
  }

  /** The address lies in an area. */
  predicate Inside(rs: seq<Range>, addr: int) {
    exists i | 0 <= i < |rs| :: rs[i].start <= addr < rs[i].end
  }

  /** Inside some area the handler finds the one area that contains the address. */
  lemma ChosenContains(rs: seq<Range>, addr: nat)
    requires |rs| > 0 && Sorted(rs) && Inside(rs, addr)
    ensures rs[Chosen(rs, addr)].start <= addr < rs[Chosen(rs, addr)].end
    ensures forall j | 0 <= j < |rs| && rs[j].start <= addr < rs[j].end :: j == Chosen(rs, addr)
  {
  }

  /** The closed test agrees with the areas except at addresses where an area ends and none begins. */
  lemma AcceptedExact(rs: seq<Range>, addr: nat)
    ensures Accepted(rs, addr) <==> (Inside(rs, addr) || exists i | 0 <= i < |rs| :: addr == rs[i].end >= rs[i].start)
  {
  }
}
