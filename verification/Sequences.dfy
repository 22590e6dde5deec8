// Facts about sequences and finite sets that several modules share: distinct elements, rings, and
// how many elements a set has.
module Sequences {

  predicate Distinct<T(==)>(s: seq<T>) {
    forall i, j | 0 <= i < j < |s| :: s[i] != s[j]
  }

  ghost function Without<T>(s: seq<T>, j: nat): seq<T>
    requires j < |s|
  {
    s[..j] + s[j + 1..]
  }

  // ----- rings

  /** The i-th node on the way around a ring: the head, the nodes s, and the head again. */
  ghost function At<T>(head: T, s: seq<T>, i: int): T {
    if 0 < i <= |s| then s[i - 1] else head
  }

  /** Position 0 of the ring for its last node, which is the head again. */
  ghost function Lap<T>(s: seq<T>, i: int): int {
    if i == |s| + 1 then 0 else i
  }

  ghost predicate Simple<T>(head: T, s: seq<T>) {
    head !in s && Distinct(s)
  }

  lemma AtDiffer<T>(head: T, s: seq<T>, i: int, j: int)
    requires Simple(head, s) && 0 <= i <= |s| && 0 <= j <= |s| && i != j
    ensures At(head, s, i) != At(head, s, j)
  {
  }

  lemma AtIn<T>(head: T, s: seq<T>, i: int)
    ensures At(head, s, i) == head || At(head, s, i) in s
  {
  }

  // ----- sizes

  lemma {:induction false} IntervalSize(from: nat, n: nat, s: set<nat>)
    requires forall i: nat :: i in s <==> from <= i < from + n
    ensures |s| == n
    decreases n
  {
    if n > 0 {
      IntervalSize(from, n - 1, s - {from + n - 1});
    } else {
      assert s == {};
    }
  }

  ghost function Elements<T>(s: seq<T>): set<T> {
    set x | x in s
  }

  lemma {:induction false} ElementsSize<T>(s: seq<T>)
    requires Distinct(s)
    ensures |Elements(s)| == |s|
  {
    if s != [] {
      var front := s[..|s| - 1];
      ElementsSize(front);
      assert s == front + [s[|s| - 1]];
      assert Elements(s) == Elements(front) + {s[|s| - 1]};
      assert s[|s| - 1] !in front;
    } else {
      assert Elements(s) == {};
    }
  }

  lemma SubsetSize<T>(a: set<T>, b: set<T>)
    requires a <= b
    ensures |a| <= |b|
  {
    assert b == a + (b - a);
  }
}
