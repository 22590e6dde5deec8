// How many tables the trees have, and how many a range of pages still needs: what walk, mappages and
// copy_page_table allocate.
module TableCounts {
  import opened Machine
  import opened Sequences
  import opened Translation

  // ----- how many tables are missing, and how many there are

  /** The number of tables that a walk for vpn finds missing below table f of the given level. */
  function Missing(m: Mem, f: int, level: nat, vpn: nat): (n: nat)
    ensures n <= level && (n == 0 <==> Bottom(m, f, level, vpn).Some?)
    decreases level
  {
    if level == 0 then 0
    else
      var e := Read(m, f, Px(level, vpn));
      if Linked(e) then Missing(m, Target(e), level - 1, vpn) else level
  }

  /** The tables missing are those of the lowest levels. */
  lemma {:induction false} MissingTable(m: Mem, root: nat, level: nat, vpn: nat)
    requires level <= TOP
    ensures Table(m, root, level, vpn).None? <==> level < Missing(m, root, TOP, vpn)
    ensures Table(m, root, level, vpn).Some? ==>
      Missing(m, root, TOP, vpn) == Missing(m, Table(m, root, level, vpn).value, level, vpn)
    decreases TOP - level
  {
    if level < TOP {
      MissingTable(m, root, level + 1, vpn);
    }
  }

  /** Page v shares the way to vpn down to the given level. */
  predicate Shares(level: nat, v: nat, vpn: nat) {
    Up(v, level + 1) == Up(vpn, level + 1)
  }

  predicate NotBefore(first: nat, v: nat) {
    first <= v
  }

  ghost predicate Lacks(m: Mem, root: nat, level: nat, vpn: nat) {
    Table(m, root, level, vpn).None?
  }

  /** The tables, by level and prefix, that the pages from first to before end need and the tree does not have. */
  ghost function Absent(m: Mem, root: nat, first: nat, end: nat): set<(nat, nat)> {
    set l: nat, v: nat | l < TOP && v < end && NotBefore(first, v) && Lacks(m, root, l, Alias(v)) ::
      (l, Up(Alias(v), l + 1))
  }

  lemma AbsentIn(m: Mem, root: nat, first: nat, end: nat, l: nat, v: nat)
    requires l < TOP && first <= v < end && Lacks(m, root, l, Alias(v))
    ensures (l, Up(Alias(v), l + 1)) in Absent(m, root, first, end)
  {
    assert NotBefore(first, v);
  }

  lemma AbsentPage(m: Mem, root: nat, first: nat, end: nat, x: (nat, nat)) returns (v: nat)
    requires x in Absent(m, root, first, end)
    ensures x.0 < TOP && first <= v < end && Lacks(m, root, x.0, Alias(v)) && x.1 == Up(Alias(v), x.0 + 1)
  {
    var l: nat, w: nat :| l < TOP && w < end && NotBefore(first, w) && Lacks(m, root, l, Alias(w))
      && x == (l, Up(Alias(w), l + 1));
    v := w;
  }

  /** Levels below n with the prefixes of vpn there. */
  function Way(vpn: nat, n: nat): set<(nat, nat)> {
    if n == 0 then {} else Way(vpn, n - 1) + {(n - 1, Up(vpn, n))}
  }

  lemma {:induction false} WaySize(vpn: nat, n: nat)
    ensures |Way(vpn, n)| == n && forall x: (nat, nat) :: x in Way(vpn, n) <==> x.0 < n && x.1 == Up(vpn, x.0 + 1)
  {
    if n > 0 {
      WaySize(vpn, n - 1);
    }
  }

  /** For one page: the tables that the walk finds missing. */
  lemma AbsentOne(m: Mem, root: nat, v: nat)
    ensures |Absent(m, root, v, v + 1)| == Missing(m, root, TOP, Alias(v))
  {
    var vpn := Alias(v);
    var n := Missing(m, root, TOP, vpn);
    WaySize(vpn, n);
    forall x: (nat, nat) ensures x in Absent(m, root, v, v + 1) <==> x in Way(vpn, n) {
      if x in Absent(m, root, v, v + 1) {
        var w := AbsentPage(m, root, v, v + 1, x);
        MissingTable(m, root, x.0, vpn);
      }
      if x in Way(vpn, n) {
        MissingTable(m, root, x.0, vpn);
        AbsentIn(m, root, v, v + 1, x.0, v);
      }
    }
    assert Absent(m, root, v, v + 1) == Way(vpn, n);
  }

  /** In m' the tree of root has the tables on the way to vpn that it has, and otherwise those of m. */
  ghost predicate GrownOnWay(m: Mem, m': Mem, root: nat, vpn: nat) {
    forall l: nat, v: nat | l < TOP && v < VPAGES ::
      Lacks(m', root, l, v) <==> Lacks(m, root, l, v) && (Shares(l, v, vpn) ==> Lacks(m', root, l, vpn))
  }

  lemma SameWay(m: Mem, root: nat, vpn: nat)
    ensures GrownOnWay(m, m, root, vpn)
  {
    forall l: nat, v: nat | l < TOP && v < VPAGES
      ensures Lacks(m, root, l, v) ==> (Shares(l, v, vpn) ==> Lacks(m, root, l, vpn)) {
      if Shares(l, v, vpn) {
        TablePrefix(m, root, l, v, vpn);
      }
    }
  }

  lemma WayNext(m: Mem, m': Mem, m'': Mem, root: nat, vpn: nat)
    requires GrownOnWay(m, m', root, vpn) && GrownOnWay(m', m'', root, vpn) && vpn < VPAGES
    ensures GrownOnWay(m, m'', root, vpn)
  {
    forall l: nat, v: nat | l < TOP && v < VPAGES
      ensures Lacks(m'', root, l, v) <==>
        Lacks(m, root, l, v) && (Shares(l, v, vpn) ==> Lacks(m'', root, l, vpn)) {
      assert Lacks(m'', root, l, vpn) ==> Lacks(m', root, l, vpn);
    }
  }

  /** The way to the alias of v is built in m', and m' has otherwise the tables of m. */
  ghost predicate WayBuilt(m: Mem, m': Mem, root: nat, v: nat) {
    GrownOnWay(m, m', root, Alias(v)) && forall l: nat | l < TOP :: !Lacks(m', root, l, Alias(v))
  }

  lemma AbsentSplit(m: Mem, m': Mem, root: nat, v: nat, end: nat, x: (nat, nat))
    requires WayBuilt(m, m', root, v) && v < end
    ensures x in Absent(m, root, v, end) ==> x in Absent(m, root, v, v + 1) || x in Absent(m', root, v + 1, end)
  {
    if x in Absent(m, root, v, end) {
      var w := AbsentPage(m, root, v, end, x);
      if Shares(x.0, Alias(w), Alias(v)) {
        TablePrefix(m, root, x.0, Alias(w), Alias(v));
        AbsentIn(m, root, v, v + 1, x.0, v);
      } else {
        AbsentIn(m', root, v + 1, end, x.0, w);
      }
    }
  }

  lemma AbsentHere(m: Mem, root: nat, v: nat, x: (nat, nat))
    ensures x in Absent(m, root, v, v + 1) ==> x.1 == Up(Alias(v), x.0 + 1)
  {
    if x in Absent(m, root, v, v + 1) {
      var w := AbsentPage(m, root, v, v + 1, x);
    }
  }

  lemma AbsentRest(m: Mem, m': Mem, root: nat, v: nat, end: nat, x: (nat, nat))
    requires WayBuilt(m, m', root, v) && v < end && x in Absent(m', root, v + 1, end)
    ensures x in Absent(m, root, v, end) && x !in Absent(m, root, v, v + 1)
  {
    var w := AbsentPage(m', root, v + 1, end, x);
    AbsentIn(m, root, v, end, x.0, w);
    AbsentHere(m, root, v, x);
  }

  lemma AbsentFirst(m: Mem, root: nat, v: nat, end: nat)
    requires v < end
    ensures Absent(m, root, v, v + 1) <= Absent(m, root, v, end)
  {
    forall x | x in Absent(m, root, v, v + 1) ensures x in Absent(m, root, v, end) {
      var w := AbsentPage(m, root, v, v + 1, x);
      AbsentIn(m, root, v, end, x.0, w);
    }
  }

  /** Once the way to the first page of a range is built, what the rest lacks is what the range lacked
      without that way. */
  lemma AbsentNext(m: Mem, m': Mem, root: nat, v: nat, end: nat)
    requires GrownOnWay(m, m', root, Alias(v)) && v < end && Bottom(m', root, TOP, Alias(v)).Some?
    ensures |Absent(m, root, v, end)| == |Absent(m', root, v + 1, end)| + Missing(m, root, TOP, Alias(v))
  {
    var all, one, rest := Absent(m, root, v, end), Absent(m, root, v, v + 1), Absent(m', root, v + 1, end);
    forall l: nat | l < TOP ensures !Lacks(m', root, l, Alias(v)) {
      MissingTable(m', root, l, Alias(v));
    }
    forall x | x in all ensures x in one + rest {
      AbsentSplit(m, m', root, v, end, x);
    }
    forall x | x in rest ensures x in all && x !in one {
      AbsentRest(m, m', root, v, end, x);
    }
    AbsentFirst(m, root, v, end);
    assert all == one + rest && one !! rest;
    AbsentOne(m, root, v);
  }

  lemma AbsentAtLeast(m: Mem, root: nat, v: nat, end: nat)
    requires v < end
    ensures |Absent(m, root, v, end)| >= Missing(m, root, TOP, Alias(v))
  {
    AbsentOne(m, root, v);
    AbsentFirst(m, root, v, end);
    SubsetSize(Absent(m, root, v, v + 1), Absent(m, root, v, end));
  }

  /** Never more than three a page. */
  lemma {:induction false} AbsentAtMost(m: Mem, root: nat, first: nat, end: nat)
    requires first <= end
    ensures |Absent(m, root, first, end)| <= TOP * (end - first)
    decreases end - first
  {
    if first < end {
      AbsentAtMost(m, root, first + 1, end);
      AbsentOne(m, root, first);
      var one, rest := Absent(m, root, first, first + 1), Absent(m, root, first + 1, end);
      forall x | x in Absent(m, root, first, end) ensures x in one + rest {
        var v := AbsentPage(m, root, first, end, x);
        if v == first {
          AbsentIn(m, root, first, first + 1, x.0, v);
        } else {
          AbsentIn(m, root, first + 1, end, x.0, v);
        }
      }
      SubsetSize(Absent(m, root, first, end), one + rest);
    }
  }

  lemma AbsentSame(m: Mem, m': Mem, root: nat, first: nat, end: nat)
    requires forall l: nat, v: nat | l < TOP && v < VPAGES :: Table(m', root, l, v) == Table(m, root, l, v)
    ensures Absent(m', root, first, end) == Absent(m, root, first, end)
  {
    forall x: (nat, nat) ensures x in Absent(m', root, first, end) <==> x in Absent(m, root, first, end) {
      if x in Absent(m', root, first, end) {
        var v := AbsentPage(m', root, first, end, x);
        AbsentIn(m, root, first, end, x.0, v);
      }
      if x in Absent(m, root, first, end) {
        var v := AbsentPage(m, root, first, end, x);
        AbsentIn(m', root, first, end, x.0, v);
      }
    }
  }

  /** A table g hung into entry i of table f, where the way to vpn ended at the given level. */
  ghost predicate HungAt(m: Mem, m': Mem, roles: Roles, root: nat, level: nat, vpn: nat, f: nat, g: nat) {
    && 0 < level <= TOP && vpn < VPAGES && IsRoot(roles, root) && g !in roles
    && Table(m, root, level, vpn) == Some(f) && Read(m, f, Px(level, vpn)) == 0
    && Linked(Read(m', f, Px(level, vpn))) && Target(Read(m', f, Px(level, vpn))) == g && Blank(m', g)
    && forall h: int, j: int :: h != g && (h != f || j != Px(level, vpn)) ==> Read(m', h, j) == Read(m, h, j)
  }

  lemma SharesSplit(level: nat, v: nat, vpn: nat)
    requires level > 0
    ensures Shares(level - 1, v, vpn) <==> Shares(level, v, vpn) && Px(level, v) == Px(level, vpn)
  {
    UpSplit(v, level);
    UpSplit(vpn, level);
  }

  /** The table behind an entry. */
  function Next(m: Mem, t: Option<int>, i: int): Option<int> {
    if t.Some? && Linked(Read(m, t.value, i)) then Some(Target(Read(m, t.value, i))) else None
  }

  lemma TableNext(m: Mem, root: nat, l: nat, v: nat)
    requires l < TOP
    ensures Table(m, root, l, v) == Next(m, Table(m, root, l + 1, v), Px(l + 1, v))
  {
  }

  lemma BlankNext(m: Mem, g: int, i: int)
    requires Blank(m, g)
    ensures Next(m, Some(g), i) == None
  {
    assert Read(m, g, i) == 0;
  }

  /** The way to every page as it was, except that it leads to g where it shares all of the way to vpn. */
  function Rerouted(m: Mem, root: nat, level: nat, vpn: nat, g: nat, l: nat, v: nat): Option<int> {
    if l + 1 == level && Shares(l, v, vpn) then Some(g) else Table(m, root, l, v)
  }

  lemma HungHere(m: Mem, m': Mem, roles: Roles, users: set<nat>, root: nat, level: nat, vpn: nat, f: nat, g: nat,
      v: nat)
    requires Trees(m, roles, users) && HungAt(m, m', roles, root, level, vpn, f, g) && v < VPAGES
    requires Shares(level - 1, v, vpn)
    ensures Table(m, root, level, v) == Some(f) && Px(level, v) == Px(level, vpn)
    ensures Table(m, root, level - 1, v).None?
  {
    SharesSplit(level, v, vpn);
    TablePrefix(m, root, level, v, vpn);
    TablePrefix(m, root, level - 1, v, vpn);
    TableNext(m, root, level - 1, vpn);
  }

  /** Elsewhere the entry that the walk looks at is the same. */
  lemma HungElsewhere(m: Mem, m': Mem, roles: Roles, users: set<nat>, root: nat, level: nat, vpn: nat, f: nat, g: nat,
      l: nat, v: nat)
    requires Trees(m, roles, users) && HungAt(m, m', roles, root, level, vpn, f, g) && 0 < l <= TOP && v < VPAGES
    requires l != level || !Shares(level - 1, v, vpn)
    ensures Next(m', Table(m, root, l, v), Px(l, v)) == Next(m, Table(m, root, l, v), Px(l, v))
  {
    TableOnPath(m, roles, users, root, l, v);
    TableOnPath(m, roles, users, root, level, vpn);
    SharesSplit(l, v, vpn);
  }

  lemma HungStep(m: Mem, m': Mem, roles: Roles, users: set<nat>, root: nat, level: nat, vpn: nat, f: nat, g: nat,
      l: nat, v: nat)
    requires Trees(m, roles, users) && HungAt(m, m', roles, root, level, vpn, f, g) && l < TOP && v < VPAGES
    ensures Next(m', Rerouted(m, root, level, vpn, g, l + 1, v), Px(l + 1, v)) ==
      Rerouted(m, root, level, vpn, g, l, v)
  {
    var now, next := Rerouted(m, root, level, vpn, g, l + 1, v), Rerouted(m, root, level, vpn, g, l, v);
    if Shares(level - 1, v, vpn) && l + 1 == level {
      HungHere(m, m', roles, users, root, level, vpn, f, g, v);
      assert now == Some(f) && next == Some(g);
    } else if Shares(level - 1, v, vpn) && l + 2 == level {
      HungHere(m, m', roles, users, root, level, vpn, f, g, v);
      TableNext(m, root, l, v);
      BlankNext(m', g, Px(l + 1, v));
      assert now == Some(g) && next == None;
    } else {
      HungElsewhere(m, m', roles, users, root, level, vpn, f, g, l + 1, v);
      TableNext(m, root, l, v);
      assert now == Table(m, root, l + 1, v) && next == Table(m, root, l, v);
    }
  }

  lemma {:induction false} HungTable(m: Mem, m': Mem, roles: Roles, users: set<nat>, root: nat, level: nat, vpn: nat,
      f: nat, g: nat, l: nat, v: nat)
    requires Trees(m, roles, users) && HungAt(m, m', roles, root, level, vpn, f, g) && l <= TOP && v < VPAGES
    ensures Table(m', root, l, v) == Rerouted(m, root, level, vpn, g, l, v)
    decreases TOP - l
  {
    if l < TOP {
      HungTable(m, m', roles, users, root, level, vpn, f, g, l + 1, v);
      HungStep(m, m', roles, users, root, level, vpn, f, g, l, v);
      TableNext(m', root, l, v);
    }
  }

  /** One table fewer is missing on the way to vpn. */
  lemma HungWay(m: Mem, m': Mem, roles: Roles, users: set<nat>, root: nat, level: nat, vpn: nat, f: nat, g: nat)
    requires Trees(m, roles, users) && HungAt(m, m', roles, root, level, vpn, f, g)
    ensures Table(m', root, level - 1, vpn) == Some(g) && GrownOnWay(m, m', root, vpn)
    ensures Missing(m, root, TOP, vpn) == Missing(m', root, TOP, vpn) + 1
  {
    HungTable(m, m', roles, users, root, level, vpn, f, g, level - 1, vpn);
    forall l: nat, v: nat | l < TOP && v < VPAGES
      ensures Lacks(m', root, l, v) <==> Lacks(m, root, l, v) && (Shares(l, v, vpn) ==> Lacks(m', root, l, vpn)) {
      HungTable(m, m', roles, users, root, level, vpn, f, g, l, v);
      HungTable(m, m', roles, users, root, level, vpn, f, g, l, vpn);
      if Shares(l, v, vpn) {
        TablePrefix(m, root, l, v, vpn);
      }
    }
    MissingTable(m, root, level, vpn);
    MissingTable(m', root, level - 1, vpn);
    if level > 1 {
      assert Read(m', g, Px(level - 1, vpn)) == 0;
    }
  }

  /** The number of tables below entries 0..lim of table c. */
  function Tables(m: Mem, c: int, level: nat, lim: nat): nat
    decreases level, lim
  {
    if level == 0 || lim == 0 then 0
    else
      var e := Read(m, c, lim - 1);
      Tables(m, c, level, lim - 1) + if Present(e) then 1 + Tables(m, Target(e), level - 1, 512) else 0
  }

  lemma TablesNext(m: Mem, c: int, level: nat, i: nat)
    requires level > 0
    ensures Tables(m, c, level, i + 1) ==
      Tables(m, c, level, i)
        + if Present(Read(m, c, i)) then 1 + Tables(m, Target(Read(m, c, i)), level - 1, 512) else 0
  {
  }

  lemma {:induction false} TablesMono(m: Mem, c: int, level: nat, lim: nat, all: nat)
    requires lim <= all
    ensures Tables(m, c, level, lim) <= Tables(m, c, level, all)
    decreases all
  {
    if lim < all && level > 0 {
      TablesMono(m, c, level, lim, all - 1);
    }
  }

  /** They depend only on the tables above level 0. */
  lemma {:induction false} TablesSame(m: Mem, m': Mem, roles: Roles, users: set<nat>, c: nat, lim: nat)
    requires Trees(m, roles, users) && c in roles && lim <= 512
    requires forall f, i: int | f in roles && roles[f].root == roles[c].root && roles[f].level > 0 ::
      Read(m', f, i) == Read(m, f, i)
    ensures Tables(m', c, roles[c].level, lim) == Tables(m, c, roles[c].level, lim)
    decreases roles[c].level, lim
  {
    if roles[c].level > 0 && lim > 0 {
      TablesSame(m, m', roles, users, c, lim - 1);
      var e := Read(m, c, lim - 1);
      assert EntryOk(e, roles[c], lim - 1, roles, users);
      if Present(e) {
        TablesSame(m, m', roles, users, Target(e), 512);
      }
    }
  }
}
