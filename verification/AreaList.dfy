// The linked list of areas of src/mm.c, updated in place.
module AreaList {
  import opened Machine
  import opened Areas
  import opened Sequences

  class Area {
    var start: nat
    var end: nat
    var prot: nat
    var flags: int
    var next: Area?

    constructor (start: nat, end: nat, prot: nat, flags: int)
      ensures this.start == start && this.end == end && this.prot == prot && this.flags == flags && next == null
    {
      this.start, this.end, this.prot, this.flags, next := start, end, prot, flags, null;
    }

    function Value(): Range
      reads `start, `end, `prot, `flags
    {
      Range(start, end, prot, flags)
    }
  }

  class AreaList {
    var head: Area?
    ghost var nodes: seq<Area>
    ghost var areas: seq<Range>

    ghost predicate Valid()
      reads this, nodes
    {
      Chained() && Described()
    }

    ghost predicate Chained()
      reads this, nodes
    {
      && Distinct(nodes)
      && head == Next(-1)
      && (forall i | 0 <= i < |nodes| :: nodes[i].next == Next(i))
    }

    ghost predicate Described()
      reads this, nodes
    {
      && |areas| == |nodes|
      && (forall i | 0 <= i < |nodes| :: areas[i] == nodes[i].Value())
    }

    /** The node after the i-th, where -1 stands for the head pointer. */
    ghost function Next(i: int): Area?
      requires -1 <= i < |nodes|
      reads this
    {
      if i + 1 < |nodes| then nodes[i + 1] else null
    }

    constructor ()
      ensures Valid() && nodes == [] && areas == []
    {
      head := null;
      nodes, areas := [], [];
    }

    /** chk_addr_valid */
    method ChkAddrValid(addr: nat) returns (ok: bool)
      requires Valid()
      ensures ok <==> Accepted(areas, addr)
    {
      var area := head;
      ghost var i := 0;
      while area != null
        invariant 0 <= i <= |nodes| && area == Next(i - 1)
        invariant forall j | 0 <= j < i :: !(areas[j].start <= addr <= areas[j].end)
        decreases |nodes| - i
      {
        if addr >= area.start && addr <= area.end {
          assert areas[i] == area.Value();
          return true;
        }
        area := area.next;
        i := i + 1;
      }
      ok := false;
    }

    /** The loop of the fault handler that picks the area whose protection counts. */
    method FindProt(addr: nat) returns (prot: nat)
      requires Valid() && nodes != []
      ensures prot == areas[Chosen(areas, addr)].prot
    {
      var now := head;
      var next := now.next;
      ghost var i := 0;
      ghost var rs := areas;
      while next != null
        invariant 0 <= i < |nodes| && now == nodes[i] && next == Next(i)
        invariant Chosen(rs, addr) == ChosenFrom(rs, addr, i)
        decreases |nodes| - i
      {
        if addr >= now.start && addr < now.end {
          break;
        }
        now := next;
        next := now.next;
        i := i + 1;
      }
      prot := now.prot;
    }

    /** chk_vma_valid on a non-empty list. */
    method ChkVmaValid(start: nat, size: nat) returns (r: nat)
      requires Valid() && nodes != [] && start < U64 && size < U64
      ensures Placed(areas, start, size, r)
    {
      var end := Wrap(start + size);
      var first := head;
      ghost var i := 0;
      ghost var rs := areas;
      while first != null && (first.start > end || first.end < start)
        invariant 0 <= i <= |nodes| && first == Next(i - 1)
        invariant forall j | 0 <= j < i :: rs[j].start > end || rs[j].end < start
        decreases |nodes| - i
      {
        first := first.next;
        i := i + 1;
      }
      if first == null {
        return start;
      }
      assert !(rs[i].start > end || rs[i].end < start);
      r := FirstGap(size);
    }

    /** The search of chk_vma_valid for the first gap, 0 when there is none. */
    method FirstGap(size: nat) returns (r: nat)
      requires Valid() && nodes != []
      ensures var rs := areas;
        || (exists i: nat :: GapFits(rs, i, size) && r == RoundUp(rs[i].end) && forall j: nat ::
          j < i ==> !GapFits(rs, j, size))
        || (r == 0 && forall i: nat :: !GapFits(rs, i, size))
    {
      var left := head;
      var right := left.next;
      ghost var i: nat := 0;
      ghost var rs := areas;
      while right != null
        invariant 0 <= i < |nodes| && left == nodes[i] && right == Next(i)
        invariant forall j: nat :: j < i ==> !GapFits(rs, j, size)
        decreases |nodes| - i
      {
        if Wrap(RoundDown(right.start) - RoundUp(left.end)) > size {
          assert GapFits(rs, i, size);
          return RoundUp(left.end);
        }
        left := right;
        right := right.next;
        i := i + 1;
      }
      r := 0;
    }

    /** The new area becomes the first of the list. */
    method LinkHead(area: Area)
      requires Valid() && area !in nodes
      modifies this, area
      ensures Valid() && nodes == [area] + old(nodes) && areas == [old(area.Value())] + old(areas)
    {
      area.next := head;
      head := area;
      areas := [area.Value()] + areas;
      nodes := [area] + nodes;
    }

    /** The new area comes between left, the p-th of the list, and right: the pointers. */
    method Relink(left: Area, area: Area, right: Area?, ghost p: nat)
      requires Chained() && area !in nodes && p < |nodes| && left == nodes[p] && right == Next(p)
      modifies this`nodes, left`next, area`next
      ensures Chained() && nodes == Spliced(old(nodes), area, p + 1)
    {
      ghost var was := nodes;
      SplicedDistinct(was, area, p + 1);
      left.next := area;
      area.next := right;
      assert forall i | 0 <= i < |was| && i != p :: was[i].next == Next(i);
      nodes := Spliced(nodes, area, p + 1);
      forall i | 0 <= i < |nodes| ensures nodes[i].next == Next(i) {
        SplicedAt(was, area, p + 1, i);
        if i + 1 < |nodes| {
          SplicedAt(was, area, p + 1, i + 1);
        }
      }
    }

    /** The new area comes between left, the p-th of the list, and right. */
    method LinkAfter(left: Area, area: Area, right: Area?, ghost p: nat)
      requires Valid() && area !in nodes && p < |nodes| && left == nodes[p] && right == Next(p)
      modifies this`nodes, this`areas, left`next, area`next
      ensures Valid() && nodes == Spliced(old(nodes), area, p + 1)
      ensures areas == Spliced(old(areas), old(area.Value()), p + 1)
    {
      ghost var was := nodes;
      Relink(left, area, right, p);
      SplicedValues(was, areas, area, p + 1);
      areas := Spliced(areas, area.Value(), p + 1);
    }

    /** The search of vma_insert: the area after which, and the one before which, the new one goes. */
    method FindPlace(end: nat) returns (left: Area?, right: Area?)
      requires Valid()
      ensures right == Next(Position(areas, end) - 1)
      ensures left == if Position(areas, end) == 0 then null else nodes[Position(areas, end) - 1]
    {
      ghost var rs := areas;
      left, right := null, head;
      if right == null || right.start > end {
        return;
      }
      ghost var p: nat := 1;
      left, right := right, right.next;
      while right != null && right.start <= end
        invariant 1 <= p <= |nodes| && right == Next(p - 1) && left == nodes[p - 1]
        invariant Position(rs, end) == PositionFrom(rs, end, p)
        decreases |nodes| - p
      {
        left, right, p := right, right.next, p + 1;
      }
    }

    /** vma_insert: before the first area that starts above the end of the new one, else at the tail. */
    method VmaInsert(area: Area, ghost a: Range)
      requires Valid() && area !in nodes && area.Value() == a
      modifies this, nodes, area
      ensures Valid() && areas == Inserted(old(areas), a)
      ensures forall n :: n in nodes <==> n in old(nodes) || n == area
    {
      ghost var p := Position(areas, area.end);
      var left, right := FindPlace(area.end);
      SplicedIn(nodes, area, p);
      if left == null {
        LinkHead(area);
      } else {
        LinkAfter(left, area, right, p - 1);
      }
    }

    /** The start address that create_vma settles on. */
    method Place(start: nat, size: nat) returns (r: nat)
      requires Valid() && start < U64 && size < U64
      ensures Placed(areas, start, size, r)
    {
      if head == null {
        return start;
      }
      r := ChkVmaValid(start, size);
    }

    /** create_vma */
    method CreateVma(start: nat, size: nat, prot: nat, flags: int) returns (r: nat, ghost a: Range)
      requires Valid() && start < U64 && size < U64
      modifies this, nodes
      ensures Valid() && Placed(old(areas), start, size, r)
      ensures a == NewArea(r, size, prot, flags) && areas == Inserted(old(areas), a)
      ensures forall n :: n in nodes ==> n in old(nodes) || fresh(n)
    {
      r := Place(start, size);
      a := NewArea(r, size, prot, flags);
      var area := new Area(r, Wrap(r + size), prot, flags);
      assert area !in nodes && area.Value() == a;
      VmaInsert(area, a);
    }

    /** __mmap */
    method Mmap(addr: nat, len: nat, prot: nat, flags: int) returns (r: nat, ghost a: Range)
      requires Valid() && addr < U64 && len < U64
      modifies this, nodes
      ensures Valid() && Placed(old(areas), RoundDown(addr), RoundUp(len), r)
      ensures a == NewArea(r, RoundUp(len), prot, flags) && areas == Inserted(old(areas), a)
      ensures a in areas && a.start == r && a.prot == prot && a.flags == flags
      ensures len + PAGE_SIZE - 1 < U64 && a.start <= a.end ==> len <= a.end - r < len + PAGE_SIZE
      ensures forall n :: n in nodes ==> n in old(nodes) || fresh(n)
    {
      var size, start := RoundUp(len), RoundDown(addr);
      r, a := CreateVma(start, size, prot, flags);
      InsertedAt(old(areas), a, Position(old(areas), a.end));
      if len + PAGE_SIZE - 1 < U64 {
        RoundUpCovers(len);
      }
    }

    /** A new zeroed node behind the last one (the head pointer if there is none). */
    method Append(last: Area?) returns (area: Area)
      requires Valid() && last == if nodes == [] then null else nodes[|nodes| - 1]
      modifies this, last
      ensures Valid() && fresh(area) && nodes == old(nodes) + [area]
      ensures areas == old(areas) + [Range(0, 0, 0, 0)]
    {
      area := new Area(0, 0, 0, 0);
      if last == null {
        head := area;
      } else {
        last.next := area;
      }
      nodes, areas := nodes + [area], areas + [Range(0, 0, 0, 0)];
    }

    /** memcpy of a node's fields into the last node. */
    method Fill(last: Area, from: Area)
      requires Valid() && nodes != [] && last == nodes[|nodes| - 1] && from !in nodes
      modifies this, last
      ensures nodes == old(nodes) && unchanged(this`head)
      ensures Valid() && areas == old(areas)[|nodes| - 1 := from.Value()]
    {
      last.start, last.end, last.prot, last.flags := from.start, from.end, from.prot, from.flags;
      areas := areas[|nodes| - 1 := from.Value()];
    }

    /** copy_vma into a list that is still empty. The first node is allocated before the source is
        looked at, so copying an empty list leaves one empty area at address 0. */
    method CopyVma(src: AreaList)
      requires Valid() && nodes == [] && src.Valid() && src != this
      modifies this
      ensures Valid() && forall j | 0 <= j < |nodes| :: fresh(nodes[j])
      ensures areas == if src.nodes == [] then [Range(0, 0, 0, 0)] else src.areas
    {
      var dest := Append(null);
      var from := src.head;
      ghost var rs, i: nat := src.areas, 0;
      while from != null
        invariant i <= |rs| && from == src.Next(i - 1)
        invariant Valid() && (forall j | 0 <= j < |nodes| :: fresh(nodes[j])) && areas == Copied(rs, i)
        invariant nodes != [] && dest == nodes[|nodes| - 1]
        decreases |rs| - i
      {
        from, dest := CopyNode(src, from, dest, rs, i);
        i := i + 1;
      }
      assert areas == if rs == [] then [Range(0, 0, 0, 0)] else rs;
    }

    /** One turn of the loop of copy_vma. */
    method CopyNode(src: AreaList, from: Area, dest: Area, ghost rs: seq<Range>, ghost i: nat) returns (next: Area?,
        dest': Area)
      requires Valid() && src.Valid() && src != this && rs == src.areas && (forall a | a in nodes :: a !in src.nodes)
      requires i < |rs| && from == src.nodes[i] && nodes != [] && dest == nodes[|nodes| - 1] && areas == Copied(rs, i)
      modifies this, nodes
      ensures Valid() && areas == Copied(rs, i + 1) && next == src.Next(i)
      ensures nodes != [] && dest' == nodes[|nodes| - 1]
      ensures |nodes| >= |old(nodes)|
      ensures forall j | 0 <= j < |nodes| :: if j < |old(nodes)| then nodes[j] == old(nodes)[j] else fresh(nodes[j])
    {
      assert from.Value() == rs[i];
      assert from in src.nodes;
      CopiedNext(rs, i);
      Fill(dest, from);
      next, dest' := from.next, dest;
      if next != null {
        dest' := Append(dest);
      }
    }
  }

  /** The copy when i areas have been filled in: one more node, still zero, waits for the next one. */
  ghost function Copied(rs: seq<Range>, i: nat): seq<Range>
    requires i <= |rs|
  {
    if 0 < |rs| == i then rs else rs[..i] + [Range(0, 0, 0, 0)]
  }

  lemma CopiedNext(rs: seq<Range>, i: nat)
    requires i < |rs|
    ensures |Copied(rs, i)| == i + 1 && Copied(rs, i)[i := rs[i]] == rs[..i + 1]
    ensures Copied(rs, i + 1) == if i + 1 < |rs| then rs[..i + 1] + [Range(0, 0, 0, 0)] else rs[..i + 1]
  {
  }

  lemma SplicedIn<T>(s: seq<T>, x: T, p: nat)
    requires p <= |s|
    ensures forall y :: y in Spliced(s, x, p) <==> y in s || y == x
  {
  }

  lemma SplicedAt<T>(s: seq<T>, x: T, p: nat, i: nat)
    requires p <= |s| && i <= |s|
    ensures |Spliced(s, x, p)| == |s| + 1
    ensures Spliced(s, x, p)[i] == if i < p then s[i] else if i == p then x else s[i - 1]
  {
  }

  lemma SplicedValues(nodes: seq<Area>, areas: seq<Range>, area: Area, p: nat)
    requires |areas| == |nodes| && p <= |nodes| && forall i | 0 <= i < |nodes| :: areas[i] == nodes[i].Value()
    ensures |Spliced(nodes, area, p)| == |Spliced(areas, area.Value(), p)| == |nodes| + 1
    ensures forall i | 0 <= i <= |nodes| :: Spliced(areas, area.Value(), p)[i] == Spliced(nodes, area, p)[i].Value()
  {
    forall i | 0 <= i <= |nodes| ensures Spliced(areas, area.Value(), p)[i] == Spliced(nodes, area, p)[i].Value() {
      SplicedAt(nodes, area, p, i);
      SplicedAt(areas, area.Value(), p, i);
    }
  }

  lemma SplicedDistinct<T>(s: seq<T>, x: T, p: nat)
    requires p <= |s| && x !in s && Distinct(s)
    ensures Distinct(Spliced(s, x, p))
  {
  }
}
