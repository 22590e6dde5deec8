// The free lists of the page allocator: one circular doubly linked list per order, threaded
// through the page frames. Node x < pages is the list field of page frame x, node pages + k is
// the head of list k, and NIL is the null pointer. Ghost `lists` holds the frames in list order.
module FreeLists {
  import opened Sequences

  const NIL := -1

  /** next and prev are mutually inverse along the whole ring. */
  ghost predicate Ring(next: seq<int>, prev: seq<int>, head: int, s: seq<int>) {
    && |next| == |prev|
    && (forall i | 0 <= i <= |s| + 1 :: 0 <= At(head, s, i) < |next|)
    && (forall i, j | 0 <= i <= |s| && j == i + 1 ::
         next[At(head, s, i)] == At(head, s, j) && prev[At(head, s, j)] == At(head, s, i))
  }

  lemma RingStep(next: seq<int>, prev: seq<int>, head: int, s: seq<int>, i: int)
    requires Ring(next, prev, head, s) && 0 <= i <= |s|
    ensures 0 <= At(head, s, i) < |next| && 0 <= At(head, s, i + 1) < |next|
    ensures next[At(head, s, i)] == At(head, s, i + 1) && prev[At(head, s, i + 1)] == At(head, s, i)
  {
  }

  lemma RingInsert(next: seq<int>, prev: seq<int>, head: int, s: seq<int>, x: int)
    requires Ring(next, prev, head, s) && Simple(head, s)
    requires 0 <= x < |next| && x != head && x !in s
    ensures 0 <= head < |next| && prev[head] == At(head, s, |s|) && 0 <= prev[head] < |next|
    ensures Ring(next[x := head][prev[head] := x], prev[head := x][x := prev[head]], head, s + [x])
  {
    var t := s + [x];
    RingStep(next, prev, head, s, |s|);
    var n, p := next[x := head][prev[head] := x], prev[head := x][x := prev[head]];
    forall i | 0 <= i <= |t| + 1
      ensures At(head, t, i) == if i <= |s| then At(head, s, i) else if i == |s| + 1 then x else head
    {
    }
    forall i, j | 0 <= i <= |t| && j == i + 1
      ensures n[At(head, t, i)] == At(head, t, j) && p[At(head, t, j)] == At(head, t, i)
    {
      if i < |s| {
        RingStep(next, prev, head, s, i);
        AtDiffer(head, s, i, |s|);
        AtDiffer(head, s, 0, j);
      }
    }
  }

  lemma RemovedNext(next: seq<int>, prev: seq<int>, head: int, s: seq<int>, j: nat, a: nat)
    requires Ring(next, prev, head, s) && Simple(head, s) && j < |s| && a <= |s| && a != j + 1
    ensures 0 <= s[j] < |next| && 0 <= prev[s[j]] < |next| && 0 <= At(head, s, a) < |next|
    ensures next[prev[s[j]] := next[s[j]]][s[j] := NIL][At(head, s, a)] == At(head, s, if a == j then j + 2
      else a + 1)
  {
    RingStep(next, prev, head, s, j);
    RingStep(next, prev, head, s, j + 1);
    RingStep(next, prev, head, s, a);
    AtDiffer(head, s, a, j + 1);
    if a != j {
      AtDiffer(head, s, a, j);
    }
  }

  lemma RemovedPrev(next: seq<int>, prev: seq<int>, head: int, s: seq<int>, j: nat, b: nat)
    requires Ring(next, prev, head, s) && Simple(head, s) && j < |s| && 1 <= b <= |s| + 1 && b != j + 1
    ensures 0 <= s[j] < |next| && 0 <= next[s[j]] < |next| && 0 <= At(head, s, b) < |next|
    ensures prev[next[s[j]] := prev[s[j]]][s[j] := NIL][At(head, s, b)] == At(head, s, if b == j + 2 then j
      else b - 1)
  {
    RingStep(next, prev, head, s, j);
    RingStep(next, prev, head, s, j + 1);
    RingStep(next, prev, head, s, b - 1);
    AtDiffer(head, s, Lap(s, b), j + 1);
    if b != j + 2 {
      AtDiffer(head, s, Lap(s, b), Lap(s, j + 2));
    }
  }

  lemma RingRemove(next: seq<int>, prev: seq<int>, head: int, s: seq<int>, j: nat)
    requires Ring(next, prev, head, s) && Simple(head, s) && j < |s|
    ensures 0 <= s[j] < |next|
    ensures prev[s[j]] == At(head, s, j) && next[s[j]] == At(head, s, j + 2)
    ensures 0 <= prev[s[j]] < |next| && 0 <= next[s[j]] < |next|
    ensures var x := s[j];
      Ring(next[prev[x] := next[x]][x := NIL], prev[next[x] := prev[x]][x := NIL], head, Without(s, j))
  {
    var x, t := s[j], Without(s, j);
    RingStep(next, prev, head, s, j);
    RingStep(next, prev, head, s, j + 1);
    var n, p := next[prev[x] := next[x]][x := NIL], prev[next[x] := prev[x]][x := NIL];
    forall i | 0 <= i <= |t| + 1
      ensures At(head, t, i) == (if i <= j then At(head, s, i) else At(head, s, i + 1))
      ensures 0 <= At(head, t, i) < |next|
    {
      assert 0 <= At(head, s, i) < |next| && 0 <= At(head, s, i + 1) < |next|;
    }
    forall i, k | 0 <= i <= |t| && k == i + 1
      ensures n[At(head, t, i)] == At(head, t, k) && p[At(head, t, k)] == At(head, t, i)
    {
      RemovedNext(next, prev, head, s, j, if i <= j then i else i + 1);
      RemovedPrev(next, prev, head, s, j, if k <= j then k else k + 1);
    }
  }

  /** A ring does not notice writes to nodes outside it. */
  lemma RingFrame(next: seq<int>, prev: seq<int>, n: seq<int>, p: seq<int>, head: int, s: seq<int>)
    requires Ring(next, prev, head, s) && |n| == |p| == |next|
    requires forall y | 0 <= y < |next| && (y == head || y in s) :: n[y] == next[y] && p[y] == prev[y]
    ensures Ring(n, p, head, s)
  {
  }

  /** Frames below pages, each on at most one list and at most once. */
  ghost predicate Separate(pages: nat, lists: seq<seq<int>>) {
    && (forall k, i | 0 <= k < |lists| && 0 <= i < |lists[k]| :: 0 <= lists[k][i] < pages)
    && (forall k, i, l, j | 0 <= k < |lists| && 0 <= l < |lists| && 0 <= i < |lists[k]| && 0 <= j < |lists[l]| ::
         lists[k][i] == lists[l][j] ==> k == l && i == j)
  }

  ghost predicate Listed(lists: seq<seq<int>>, x: int) {
    exists k :: 0 <= k < |lists| && x in lists[k]
  }

  ghost predicate Rings(next: seq<int>, prev: seq<int>, pages: nat, lists: seq<seq<int>>) {
    && |next| == |prev| == pages + |lists|
    && (forall k | 0 <= k < |lists| :: Ring(next, prev, pages + k, lists[k]))
  }

  lemma InsertDisjoint(pages: nat, lists: seq<seq<int>>, k: nat, x: nat)
    requires Separate(pages, lists) && k < |lists| && x < pages && !Listed(lists, x)
    ensures Separate(pages, lists[k := lists[k] + [x]])
  {
  }

  /** Nodes of one ring are not on another. */
  lemma Elsewhere(pages: nat, lists: seq<seq<int>>, k: nat, i: int, l: nat)
    requires Separate(pages, lists) && k < |lists| && l < |lists| && k != l && 0 <= i <= |lists[k]| + 1
    ensures var y := At(pages + k, lists[k], i); y != pages + l && y !in lists[l]
  {
  }

  /** A ring that none of the nodes in changed is on stays as it is. */
  lemma OtherRing(next: seq<int>, prev: seq<int>, n: seq<int>, p: seq<int>, head: int, s: seq<int>, changed: set<int>)
    requires Ring(next, prev, head, s) && |n| == |p| == |next|
    requires forall y | 0 <= y < |next| && y !in changed :: n[y] == next[y] && p[y] == prev[y]
    requires forall y | y in changed :: y != head && y !in s
    ensures Ring(n, p, head, s)
  {
    RingFrame(next, prev, n, p, head, s);
  }

  lemma InsertOther(next: seq<int>, prev: seq<int>, pages: nat, lists: seq<seq<int>>, k: nat, x: nat, l: nat)
    requires Rings(next, prev, pages, lists) && Separate(pages, lists)
    requires k < |lists| && l < |lists| && k != l && x < pages && !Listed(lists, x)
    ensures 0 <= prev[pages + k] < |next|
    ensures var head := pages + k;
      Ring(next[x := head][prev[head] := x], prev[head := x][x := prev[head]], pages + l, lists[l])
  {
    var head := pages + k;
    RingStep(next, prev, head, lists[k], |lists[k]|);
    Elsewhere(pages, lists, k, |lists[k]|, l);
    OtherRing(next, prev, next[x := head][prev[head] := x], prev[head := x][x := prev[head]], pages + l, lists[l],
      {x, head, prev[head]});
  }

  lemma InsertRings(next: seq<int>, prev: seq<int>, pages: nat, lists: seq<seq<int>>, k: nat, x: nat)
    requires Rings(next, prev, pages, lists) && Separate(pages, lists)
    requires k < |lists| && x < pages && !Listed(lists, x)
    ensures 0 <= prev[pages + k] < |next|
    ensures var head := pages + k;
      Rings(next[x := head][prev[head] := x], prev[head := x][x := prev[head]], pages, lists[k := lists[k] + [x]])
  {
    RingInsert(next, prev, pages + k, lists[k], x);
    forall l | 0 <= l < |lists| && l != k
      ensures Ring(next[x := pages + k][prev[pages + k] := x], prev[pages + k := x][x := prev[pages + k]], pages + l,
        lists[l])
    {
      InsertOther(next, prev, pages, lists, k, x, l);
    }
  }

  lemma RemoveDisjoint(pages: nat, lists: seq<seq<int>>, k: nat, j: nat)
    requires Separate(pages, lists) && k < |lists| && j < |lists[k]|
    ensures Separate(pages, lists[k := Without(lists[k], j)])
    ensures !Listed(lists[k := Without(lists[k], j)], lists[k][j])
  {
  }

  /** A node and its neighbours. */
  ghost function Nodes(next: seq<int>, prev: seq<int>, x: int): set<int>
    requires 0 <= x < |next| && |prev| == |next|
  {
    {x, prev[x], next[x]}
  }

  /** The three nodes that change are not on ring l. */
  lemma RemoveTouches(next: seq<int>, prev: seq<int>, pages: nat, lists: seq<seq<int>>, k: nat, j: nat, l: nat)
    requires Rings(next, prev, pages, lists) && Separate(pages, lists)
    requires k < |lists| && j < |lists[k]| && l < |lists| && k != l
    ensures 0 <= lists[k][j] < |next| && 0 <= prev[lists[k][j]] < |next| && 0 <= next[lists[k][j]] < |next|
    ensures forall y | y in Nodes(next, prev, lists[k][j]) :: y != pages + l && y !in lists[l]
  {
    RingStep(next, prev, pages + k, lists[k], j);
    RingStep(next, prev, pages + k, lists[k], j + 1);
    Elsewhere(pages, lists, k, j, l);
    Elsewhere(pages, lists, k, j + 1, l);
    Elsewhere(pages, lists, k, j + 2, l);
  }

  lemma RemoveOther(next: seq<int>, prev: seq<int>, pages: nat, lists: seq<seq<int>>, k: nat, j: nat, l: nat)
    requires Rings(next, prev, pages, lists) && Separate(pages, lists)
    requires k < |lists| && j < |lists[k]| && l < |lists| && k != l
    ensures 0 <= prev[lists[k][j]] < |next| && 0 <= next[lists[k][j]] < |next|
    ensures var x := lists[k][j];
      Ring(next[prev[x] := next[x]][x := NIL], prev[next[x] := prev[x]][x := NIL], pages + l, lists[l])
  {
    var x := lists[k][j];
    RemoveTouches(next, prev, pages, lists, k, j, l);
    OtherRing(next, prev, next[prev[x] := next[x]][x := NIL], prev[next[x] := prev[x]][x := NIL], pages + l, lists[l],
      Nodes(next, prev, x));
  }

  lemma RemoveRings(next: seq<int>, prev: seq<int>, pages: nat, lists: seq<seq<int>>, k: nat, j: nat)
    requires Rings(next, prev, pages, lists) && Separate(pages, lists)
    requires k < |lists| && j < |lists[k]|
    ensures 0 <= prev[lists[k][j]] < |next| && 0 <= next[lists[k][j]] < |next|
    ensures var x := lists[k][j];
      Rings(next[prev[x] := next[x]][x := NIL], prev[next[x] := prev[x]][x := NIL], pages,
            lists[k := Without(lists[k], j)])
  {
    var x := lists[k][j];
    RingRemove(next, prev, pages + k, lists[k], j);
    forall l | 0 <= l < |lists| && l != k
      ensures Ring(next[prev[x] := next[x]][x := NIL], prev[next[x] := prev[x]][x := NIL], pages + l, lists[l])
    {
      RemoveOther(next, prev, pages, lists, k, j, l);
    }
  }

  class FreeLists {
    const pages: nat
    const orders: nat
    const next: array<int>
    const prev: array<int>
    const pgFree: array<int>
    ghost var lists: seq<seq<int>>

    ghost predicate Valid()
      reads this, next, prev, pgFree
    {
      && next != prev && next != pgFree && prev != pgFree
      && pgFree.Length == orders == |lists|
      && Separate(pages, lists)
      && Rings(next[..], prev[..], pages, lists)
      && (forall k: nat | k < orders :: pgFree[k] == |lists[k]|)
    }

    constructor (pages: nat, orders: nat)
      ensures Valid() && this.pages == pages && this.orders == orders
      ensures fresh(next) && fresh(prev) && fresh(pgFree)
      ensures forall k :: 0 <= k < orders ==> lists[k] == []
    {
      this.pages := pages;
      this.orders := orders;
      next := new int[pages + orders](_ => NIL);
      prev := new int[pages + orders](_ => NIL);
      pgFree := new int[orders](_ => 0);
      lists := seq(orders, _ => []);
      new;
      for k := 0 to orders
        invariant fresh(next) && fresh(prev) && fresh(pgFree)
        invariant lists == seq(orders, _ => []) && pgFree.Length == orders
        invariant next != prev && next != pgFree && prev != pgFree
        invariant next.Length == prev.Length == pages + orders
        invariant forall h :: pages <= h < pages + k ==> next[h] == prev[h] == h
        invariant forall j :: 0 <= j < k ==> pgFree[j] == 0
      {
        next[pages + k] := pages + k;
        prev[pages + k] := pages + k;
        pgFree[k] := 0;
      }
    }

    /** insert_pageframe: append frame x to list k. */
    method Insert(k: nat, x: nat)
      requires Valid() && k < orders && x < pages && !Listed(lists, x)
      modifies this, next, prev, pgFree
      ensures Valid()
      ensures lists == old(lists)[k := old(lists)[k] + [x]]
    {
      ghost var n, p := next[..], prev[..];
      InsertRings(n, p, pages, lists, k, x);
      InsertDisjoint(pages, lists, k, x);
      var head := pages + k;
      var last := prev[head];
      next[x] := head;
      prev[head] := x;
      prev[x] := last;
      next[last] := x;
      pgFree[k] := pgFree[k] + 1;
      lists := lists[k := lists[k] + [x]];
      assert next[..] == n[x := head][last := x] && prev[..] == p[head := x][x := last];
    }

    /** The boot loop that lists every frame, in order, on list 0. */
    method InsertAll()
      requires Valid() && orders > 0 && forall k :: 0 <= k < orders ==> lists[k] == []
      modifies this, next, prev, pgFree
      ensures Valid() && |lists[0]| == pages
      ensures forall j :: 0 <= j < pages ==> lists[0][j] == j
      ensures forall k :: 0 < k < orders ==> lists[k] == []
    {
      for i := 0 to pages
        invariant Valid() && lists[0] == seq(i, j => j)
        invariant forall k :: 0 < k < orders ==> lists[k] == []
      {
        Insert(0, i);
      }
    }

    /** remove_pageframe: unlink frame x, the j-th of list k. */
    method Remove(k: nat, x: nat, ghost j: nat)
      requires Valid() && k < orders && j < |lists[k]| && lists[k][j] == x
      modifies this, next, prev, pgFree
      ensures Valid() && !Listed(lists, x)
      ensures lists == old(lists)[k := Without(old(lists)[k], j)]
      ensures next[x] == NIL && prev[x] == NIL
    {
      ghost var n, p := next[..], prev[..];
      RemoveRings(n, p, pages, lists, k, j);
      RemoveDisjoint(pages, lists, k, j);
      pgFree[k] := pgFree[k] - 1;
      next[prev[x]] := next[x];
      prev[next[x]] := prev[x];
      prev[x] := NIL;
      next[x] := NIL;
      lists := lists[k := Without(lists[k], j)];
      assert next[..] == n[p[x] := n[x]][x := NIL] && prev[..] == p[n[x] := p[x]][x := NIL];
    }
  }
}
