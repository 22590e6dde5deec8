// The circular doubly linked list of include/list.h. The list field and the thread that it is
// embedded in are one object here, so that container_of is the identity.
module ThreadList {
  import opened Sequences

  datatype Status = IDLE | RUN | ZONBIE

  class Thread {
    var next: Thread?
    var prev: Thread?
    var status: Status

    constructor (status: Status)
      ensures this.status == status
    {
      this.status := status;
    }

    /** INIT_LIST_HEAD */
    method InitList()
      modifies this`next, this`prev
      ensures next == this && prev == this
    {
      next := this;
      prev := this;
    }
  }

  /** next and prev are mutually inverse along the whole ring. */
  ghost predicate Circular(head: Thread, s: seq<Thread>)
    reads head, s
  {
    && Simple(head, s)
    && (forall i, j | 0 <= i <= |s| && j == i + 1 :: At(head, s, i).next == At(head, s, j))
    && (forall i, j | 0 <= i <= |s| && j == i + 1 :: At(head, s, j).prev == At(head, s, i))
  }

  lemma FirstOf(head: Thread, s: seq<Thread>)
    requires Circular(head, s)
    ensures head.next == if s == [] then head else s[0]
  {
    assert At(head, s, 0).next == At(head, s, 1);
  }

  /** tmp is the first thread of the ring that may run, the j-th, or the head if there is none. */
  ghost predicate FirstToRun(head: Thread, s: seq<Thread>, tmp: Thread, j: nat)
    reads s
  {
    && j <= |s| && tmp == At(head, s, j + 1) && (j < |s| ==> s[j].status == RUN)
    && forall i | 0 <= i < j :: s[i].status != RUN
  }

  /** The search of schedule. */
  method FirstRunnable(head: Thread, ghost s: seq<Thread>) returns (tmp: Thread)
    requires Circular(head, s)
    ensures exists j :: FirstToRun(head, s, tmp, j)
  {
    FirstOf(head, s);
    tmp := head.next;
    ghost var j: nat := 0;
    while tmp != head && tmp.status != RUN
      invariant j <= |s| && tmp == At(head, s, j + 1)
      invariant forall i | 0 <= i < j :: s[i].status != RUN
      decreases |s| - j
    {
      assert At(head, s, j + 1).next == At(head, s, j + 2);
      tmp, j := tmp.next, j + 1;
    }
    assert FirstToRun(head, s, tmp, j);
  }

  /** __list_add */
  method ListAdd(x: Thread, prev: Thread, next: Thread)
    requires x != prev && x != next
    modifies x`next, x`prev, prev`next, next`prev
    ensures next.prev == x && x.next == next && x.prev == prev && prev.next == x
  {
    next.prev := x;
    x.next := next;
    x.prev := prev;
    prev.next := x;
  }

  /** list_add_tail */
  method ListAddTail(x: Thread, head: Thread, ghost s: seq<Thread>)
    requires Circular(head, s) && x != head && x !in s
    modifies x`next, x`prev, head`prev, At<Thread>(head, s, |s|)`next
    ensures Circular(head, s + [x])
  {
    ghost var t := s + [x];
    assert At(head, s, |s| + 1).prev == At(head, s, |s|);
    ListAdd(x, head.prev, head);
    forall i | 0 <= i <= |t| + 1
      ensures At(head, t, i) == if i <= |s| then At(head, s, i) else if i == |s| + 1 then x else head
    {
    }
    forall i, j | 0 <= i <= |t| && j == i + 1
      ensures At(head, t, i).next == At(head, t, j) && At(head, t, j).prev == At(head, t, i)
    {
      if i < |s| {
        AtDiffer(head, s, i, |s|);
        AtDiffer(head, s, 0, j);
        assert old(At(head, s, i).next) == At(head, s, j) && old(At(head, s, j).prev) == At(head, s, i);
      }
    }
  }

  /** list_del; the poison pointers count as null. */
  method ListDel(entry: Thread, head: Thread, ghost s: seq<Thread>, ghost k: nat)
    requires Circular(head, s) && k < |s| && s[k] == entry
    modifies entry`next, entry`prev, At<Thread>(head, s, k)`next, At<Thread>(head, s, k + 2)`prev
    ensures Circular(head, Without(s, k)) && entry.next == null && entry.prev == null
  {
    ghost var t := Without(s, k);
    AtDiffer(head, s, k, k + 1);
    assert entry == At(head, s, k + 1);
    assert entry.prev == At(head, s, k) && entry.next == At(head, s, k + 2);
    entry.next.prev := entry.prev;
    entry.prev.next := entry.next;
    entry.next := null;
    entry.prev := null;
    forall i | 0 <= i <= |t| + 1
      ensures At(head, t, i) == if i <= k then At(head, s, i) else At(head, s, i + 1)
    {
    }
    forall i, j | 0 <= i <= |t| && j == i + 1 ensures At(head, t, i).next == At(head, t, j) {
      var a := if i <= k then i else i + 1;
      AtDiffer(head, s, a, k + 1);
      if a != k {
        AtDiffer(head, s, a, k);
        assert old(At(head, s, a).next) == At(head, s, a + 1);
      }
    }
    forall i, j | 0 <= i <= |t| && j == i + 1 ensures At(head, t, j).prev == At(head, t, i) {
      var b := if j <= k then j else j + 1;
      AtDiffer(head, s, Lap(s, b), k + 1);
      if b != k + 2 {
        AtDiffer(head, s, Lap(s, b), Lap(s, k + 2));
        assert old(At(head, s, b).prev) == At(head, s, b - 1);
      }
    }
  }
}
