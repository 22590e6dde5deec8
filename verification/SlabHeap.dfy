// The slab allocator of src/mm.c on values: pages cut into objects of one size, with the free objects
// of each page chained through their own first words.
module SlabHeap {
  import opened Dyadic
  import opened BlockTree
  import opened Machine
  import opened Sequences
  import opened Translation

  /** MEMPOOL_TYPE size classes of MAX_DYNAMIC_PAGE pages each; the classes below 3 are never used. */
  const TYPES: nat := 12
  const PAGES: nat := 16
  const SLOTS: nat := TYPES * PAGES

  /** struct DYNAMIC_PAGE */
  datatype Slot = Slot(used: bool, freeObj: int, pageAddr: int, head: int)

  function ClassOf(d: nat): nat {
    d / PAGES
  }

  /** Page j of class i. */
  function SlotNo(i: nat, j: nat): nat {
    PAGES * i + j
  }

  lemma SlotClass(i: nat, j: nat)
    requires j < PAGES
    ensures ClassOf(SlotNo(i, j)) == i
    ensures SlotNo(i, j) > 0 ==> (ClassOf(SlotNo(i, j) - 1) == i <==> j > 0)
  {
  }

  /** Address of the freelist field of page d of the pools, which lies below the managed frames. */
  function Sentinel(d: nat): int {
    KERNEL_VIRT + 8 * d
  }

  // ----- objects within a page

  /** Size of an object of class i in words. */
  function Words(i: nat): nat
    requires i >= 3
  {
    Pow2(i - 3)
  }

  function PerPage(i: nat): nat
    requires i <= 12
  {
    Pow2(12 - i)
  }

  /** First word of object k of a page of class i. */
  function WordAt(i: nat, k: nat): nat
    requires i >= 3
  {
    Start(k, i - 3)
  }

  function ObjAddr(f: nat, i: nat, k: nat): int
    requires i >= 3
  {
    AddrOf(f) + 8 * WordAt(i, k)
  }

  lemma ObjectFits(i: nat, k: nat)
    requires 3 <= i < TYPES && k < PerPage(i)
    ensures WordAt(i, k) + Words(i) <= 512
  {
    BlockFits(k, i - 3, 9);
    assert Pow2(9) == 512 by { assert Pow2(4) == 16; }
  }

  lemma ObjectsApart(i: nat, k: nat, l: nat)
    requires i >= 3 && k < l
    ensures WordAt(i, k) + Words(i) <= WordAt(i, l)
  {
    StartNext(k, i - 3);
    StartMono(k + 1, l, i - 3);
  }

  /** Word of a page that an address points to. */
  function WordOf(a: int): int {
    (a - PAGE_INIT) % PAGE_SIZE / 8
  }

  lemma Located(f: nat, w: nat)
    requires w < 512
    ensures FrameOf(AddrOf(f) + 8 * w) == f && WordOf(AddrOf(f) + 8 * w) == w
  {
    Div4096(f * PAGE_SIZE + 8 * w, f, 8 * w);
    assert AddrOf(f) + 8 * w - PAGE_INIT == f * PAGE_SIZE + 8 * w;
  }

  // ----- chains

  /** What the t-th link of a chain points to. */
  function LinkAt(f: nat, i: nat, s: seq<nat>, t: nat, sent: int): int
    requires i >= 3
  {
    if t < |s| then ObjAddr(f, i, s[t]) else sent
  }

  /** The chain from head visits the objects s of frame f, each once, and ends at the sentinel. */
  ghost predicate Chain(m: Mem, f: nat, i: nat, s: seq<nat>, head: int, sent: int)
    requires 3 <= i < TYPES
  {
    && Distinct(s) && (forall t | 0 <= t < |s| :: s[t] < PerPage(i))
    && head == LinkAt(f, i, s, 0, sent)
    && (forall t, u | 0 <= t < |s| && u == t + 1 :: Read(m, f, WordAt(i, s[t])) == LinkAt(f, i, s, u, sent))
  }

  /** Chains notice only writes to the first words of their own objects. */
  lemma ChainFrame(m: Mem, m': Mem, f: nat, i: nat, s: seq<nat>, head: int, sent: int)
    requires 3 <= i < TYPES && Chain(m, f, i, s, head, sent)
    requires forall t | 0 <= t < |s| :: Read(m', f, WordAt(i, s[t])) == Read(m, f, WordAt(i, s[t]))
    ensures Chain(m', f, i, s, head, sent)
  {
  }

  lemma ChainPop(m: Mem, m': Mem, f: nat, i: nat, s: seq<nat>, head: int, sent: int)
    requires 3 <= i < TYPES && Chain(m, f, i, s, head, sent) && s != []
    requires forall w: int | !(WordAt(i, s[0]) <= w < WordAt(i, s[0]) + Words(i)) :: Read(m', f, w) == Read(m, f, w)
    ensures head == ObjAddr(f, i, s[0]) && s[0] < PerPage(i)
    ensures Chain(m', f, i, s[1..], Read(m, f, WordAt(i, s[0])), sent)
  {
    var r := s[1..];
    assert Read(m, f, WordAt(i, s[0])) == LinkAt(f, i, s, 1, sent) == LinkAt(f, i, r, 0, sent);
    forall t, u | 0 <= t < |r| && u == t + 1 ensures Read(m', f, WordAt(i, r[t])) == LinkAt(f, i, r, u, sent) {
      assert r[t] == s[t + 1] && s[t + 1] != s[0];
      ObjectOutside(i, s[0], s[t + 1]);
      assert Read(m, f, WordAt(i, s[t + 1])) == LinkAt(f, i, s, t + 2, sent) == LinkAt(f, i, r, u, sent);
    }
  }

  lemma ObjectOutside(i: nat, k: nat, l: nat)
    requires i >= 3 && k != l
    ensures !(WordAt(i, k) <= WordAt(i, l) < WordAt(i, k) + Words(i))
  {
    if k < l {
      ObjectsApart(i, k, l);
    } else {
      ObjectsApart(i, l, k);
    }
  }

  lemma ChainPush(m: Mem, f: nat, i: nat, s: seq<nat>, head: Word, sent: int, k: nat)
    requires 3 <= i < TYPES && Chain(m, f, i, s, head, sent) && k !in s && k < PerPage(i) && f < |m|
    ensures WordAt(i, k) < 512
    ensures Chain(Put(m, f, WordAt(i, k), head), f, i, [k] + s, ObjAddr(f, i, k), sent)
  {
    ObjectFits(i, k);
    var m', r := Put(m, f, WordAt(i, k), head), [k] + s;
    forall t, u | 0 <= t < |r| && u == t + 1 ensures Read(m', f, WordAt(i, r[t])) == LinkAt(f, i, r, u, sent) {
      if t > 0 {
        ObjectOutside(i, k, s[t - 1]);
        assert Read(m, f, WordAt(i, s[t - 1])) == LinkAt(f, i, s, t, sent);
      }
    }
  }

  lemma EightTimes(k: int, x: int)
    ensures 8 * (k * x) == k * (8 * x)
  {
  }

  lemma PowEight(i: nat)
    requires i >= 3
    ensures Pow2(i) == 8 * Pow2(i - 3)
  {
    assert Pow2(i - 2) == 2 * Pow2(i - 3) && Pow2(i - 1) == 2 * Pow2(i - 2);
  }

  lemma ObjAddrProduct(f: nat, i: nat, k: nat)
    requires i >= 3
    ensures ObjAddr(f, i, k) == AddrOf(f) + k * Pow2(i)
  {
    StartProduct(k, i - 3);
    PowEight(i);
    EightTimes(k, Pow2(i - 3));
  }

  lemma SmallPowers()
    ensures Pow2(1) == 2 && Pow2(2) == 4 && Pow2(3) == 8 && Pow2(4) == 16 && Pow2(5) == 32 && Pow2(6) == 64
    ensures Pow2(7) == 128 && Pow2(8) == 256 && Pow2(9) == 512 && Pow2(10) == 1024 && Pow2(11) == 2048
  {
    assert Pow2(3) == 8;
    assert Pow2(6) == 64;
    assert Pow2(9) == 512;
  }

  /** PAGE_SIZE / size */
  lemma PerPageQuotient(i: nat)
    requires 3 <= i < TYPES
    ensures PAGE_SIZE / Pow2(i) == PerPage(i)
  {
    SmallPowers();
    if i <= 5 {
      assert i == 3 || i == 4 || i == 5;
    } else if i <= 8 {
      assert i == 6 || i == 7 || i == 8;
    } else {
      assert i == 9 || i == 10 || i == 11;
    }
  }

  // ----- a fresh page

  function Ascending(n: nat): seq<nat> {
    seq(n, t requires 0 <= t < n => t)
  }

  /** The first n objects have been strung together, the last of them not linked yet. */
  ghost predicate Strung(m: Mem, f: nat, i: nat, n: nat)
    requires i >= 3
  {
    forall t, u | 0 <= t && u == t + 1 < n :: Read(m, f, WordAt(i, t)) == ObjAddr(f, i, u)
  }

  lemma StringNext(m: Mem, f: nat, i: nat, n: nat, e: Word)
    requires 3 <= i < TYPES && 0 < n < PerPage(i) && f < |m| && Strung(m, f, i, n) && e == ObjAddr(f, i, n)
    ensures WordAt(i, n - 1) < 512 && Strung(Put(m, f, WordAt(i, n - 1), e), f, i, n + 1)
  {
    ObjectFits(i, n - 1);
    forall t, u | 0 <= t && u == t + 1 < n + 1
      ensures Read(Put(m, f, WordAt(i, n - 1), e), f, WordAt(i, t)) == ObjAddr(f, i, u) {
      if t != n - 1 {
        ObjectOutside(i, n - 1, t);
      }
    }
  }

  lemma StringLast(m: Mem, f: nat, i: nat, n: nat, e: Word)
    requires 3 <= i < TYPES && n == PerPage(i) && f < |m| && Strung(m, f, i, n)
    ensures WordAt(i, n - 1) < 512
    ensures Chain(Put(m, f, WordAt(i, n - 1), e), f, i, Ascending(n), ObjAddr(f, i, 0), e)
  {
    ObjectFits(i, n - 1);
    var m', s := Put(m, f, WordAt(i, n - 1), e), Ascending(n);
    forall t, u | 0 <= t < |s| && u == t + 1 ensures Read(m', f, WordAt(i, s[t])) == LinkAt(f, i, s, u, e) {
      if t != n - 1 {
        ObjectOutside(i, n - 1, t);
      }
    }
  }

  // ----- all pages

  /** The pools, with the frame behind each opened page and the chain of its free objects. */
  datatype Heap = Heap(slots: seq<Slot>, frames: seq<nat>, chains: seq<seq<nat>>)

  ghost predicate SlotOk(m: Mem, live: set<Block>, d: nat, sl: Slot, f: nat, s: seq<nat>) {
    if sl.used then
      && 3 <= ClassOf(d) < TYPES && f < |m| && Block(f, 0) in live && sl.pageAddr == AddrOf(f)
      && sl.freeObj == |s| && Chain(m, f, ClassOf(d), s, sl.head, Sentinel(d))
    else s == [] && sl.freeObj == 0
  }

  ghost predicate Sized(h: Heap) {
    |h.slots| == |h.frames| == |h.chains| == SLOTS
  }

  /** Opened pages are distinct live frames, and in each class they form a prefix. */
  ghost predicate HeapOk(m: Mem, live: set<Block>, h: Heap) {
    && Sized(h)
    && (forall d | 0 <= d < SLOTS :: SlotOk(m, live, d, h.slots[d], h.frames[d], h.chains[d]))
    && (forall d, e | 0 <= d < e < SLOTS && h.slots[d].used && h.slots[e].used :: h.frames[d] != h.frames[e])
    && (forall d, e | 0 <= d < SLOTS && e == d + 1 < SLOTS && ClassOf(e) == ClassOf(d) && h.slots[e].used ::
      h.slots[d].used)
  }

  /** HeapOk, wrapped so that proofs which only pass it on do not open it. */
  ghost predicate InOrder(m: Mem, live: set<Block>, h: Heap, layers: nat := 4) {
    if layers == 0 then HeapOk(m, live, h) else InOrder(m, live, h, layers - 1)
  }

  lemma {:induction false} OpenInOrder(m: Mem, live: set<Block>, h: Heap, layers: nat := 4)
    ensures InOrder(m, live, h, layers) <==> HeapOk(m, live, h)
  {
    if layers > 0 {
      OpenInOrder(m, live, h, layers - 1);
    }
  }

  ghost predicate InObject(w: int, i: nat, k: nat)
    requires i >= 3
  {
    WordAt(i, k) <= w < WordAt(i, k) + Words(i)
  }

  /** Object k of page d has been handed out. */
  ghost predicate LiveObject(h: Heap, d: nat, k: nat) {
    && d < |h.slots| && d < |h.chains| && h.slots[d].used
    && 3 <= ClassOf(d) < TYPES && k < PerPage(ClassOf(d)) && k !in h.chains[d]
  }

  ghost function WithSlot(h: Heap, d: nat, sl: Slot, f: nat, s: seq<nat>): Heap
    requires Sized(h) && d < SLOTS
  {
    Heap(h.slots[d := sl], h.frames[d := f], h.chains[d := s])
  }

  /** Changing the page of one slot, or opening it, leaves the rest as it is. */
  lemma SlotChanged(m: Mem, m': Mem, live: set<Block>, live': set<Block>, h: Heap, d: nat, sl: Slot, f: nat,
      s: seq<nat>)
    requires HeapOk(m, live, h) && d < SLOTS && sl.used && SlotOk(m', live', d, sl, f, s) && |m'| == |m|
    requires forall e | 0 <= e < SLOTS && e != d && h.slots[e].used ::
      h.frames[e] != f && Block(h.frames[e], 0) in live'
    requires forall g: int, w: int | g != f :: Read(m', g, w) == Read(m, g, w)
    requires d > 0 && ClassOf(d - 1) == ClassOf(d) ==> h.slots[d - 1].used
    ensures HeapOk(m', live', WithSlot(h, d, sl, f, s))
  {
    var h' := WithSlot(h, d, sl, f, s);
    forall e | 0 <= e < SLOTS ensures SlotOk(m', live', e, h'.slots[e], h'.frames[e], h'.chains[e]) {
      assert SlotOk(m, live, e, h.slots[e], h.frames[e], h.chains[e]);
      if e != d && h.slots[e].used {
        ChainFrame(m, m', h.frames[e], ClassOf(e), h.chains[e], h.slots[e].head, Sentinel(e));
      }
    }
  }

  /** The address kept in an unused slot does not matter. */
  lemma UnusedChanged(m: Mem, live: set<Block>, h: Heap, d: nat, a: int)
    requires HeapOk(m, live, h) && d < SLOTS && !h.slots[d].used
    ensures HeapOk(m, live, Heap(h.slots[d := h.slots[d].(pageAddr := a)], h.frames, h.chains))
  {
  }

  /** A frame that no live block holds is not behind any slot. */
  lemma FrameUnused(m: Mem, live: set<Block>, h: Heap, f: nat)
    requires HeapOk(m, live, h) && forall b | b in live :: !In(f, b)
    ensures forall e | 0 <= e < SLOTS && h.slots[e].used :: h.frames[e] != f && Block(h.frames[e], 0) in live
  {
  }

  /** Memory outside the opened pages, and live blocks other than theirs, may change. */
  lemma HeapFrame(m: Mem, m': Mem, live: set<Block>, live': set<Block>, h: Heap)
    requires HeapOk(m, live, h) && |m'| == |m|
    requires forall d | 0 <= d < SLOTS && h.slots[d].used :: Block(h.frames[d], 0) in live'
    requires forall d, w: int | 0 <= d < SLOTS && h.slots[d].used :: Read(m', h.frames[d], w) == Read(m, h.frames[d], w)
    ensures HeapOk(m', live', h)
  {
  }

  // ----- what a client sees

  /** Object k, the first free one of page d, is handed out. */
  ghost predicate Took(h: Heap, h': Heap, d: nat, k: nat) {
    && Sized(h) && Sized(h') && d < SLOTS && h.slots[d].used && h.chains[d] != [] && k == h.chains[d][0]
    && h'.frames == h.frames && h'.chains == h.chains[d := h.chains[d][1..]]
    && (forall e | 0 <= e < SLOTS :: h'.slots[e].used == h.slots[e].used && h'.slots[e].pageAddr == h.slots[e].pageAddr)
  }

  /** Object k of page d is given back. */
  ghost predicate Gave(h: Heap, h': Heap, d: nat, k: nat) {
    && Sized(h) && Sized(h') && d < SLOTS && h.slots[d].used
    && h'.frames == h.frames && h'.chains == h.chains[d := [k] + h.chains[d]]
    && (forall e | 0 <= e < SLOTS :: h'.slots[e].used == h.slots[e].used && h'.slots[e].pageAddr == h.slots[e].pageAddr)
  }

  /** Page d, unused before, is now frame f with all its objects free. */
  ghost predicate PageOpened(h: Heap, h': Heap, d: nat, f: nat) {
    && Sized(h) && Sized(h') && d < SLOTS && !h.slots[d].used && 3 <= ClassOf(d) < TYPES
    && h'.frames == h.frames[d := f] && h'.chains == h.chains[d := Ascending(PerPage(ClassOf(d)))]
    && (forall e | 0 <= e < SLOTS :: h'.slots[e].used == (h.slots[e].used || e == d))
  }

  lemma SameLive(h: Heap, h': Heap)
    requires Sized(h) && Sized(h') && h'.chains == h.chains
    requires forall e | 0 <= e < SLOTS :: h'.slots[e].used == h.slots[e].used
    ensures forall e, l :: LiveObject(h', e, l) <==> LiveObject(h, e, l)
  {
  }

  /** The live objects are those of h, and object k of page d. */
  ghost predicate OneMore(h: Heap, h': Heap, d: nat, k: nat) {
    && LiveObject(h', d, k) && !LiveObject(h, d, k)
    && forall e, l :: LiveObject(h', e, l) <==> LiveObject(h, e, l) || (e == d && l == k)
  }

  lemma OneMoreAfterOpening(h: Heap, u: Heap, h': Heap, d: nat, f: nat, k: nat)
    requires PageOpened(h, u, d, f) && OneMore(u, h', d, k)
    ensures OneMore(h, h', d, k)
  {
    OpenedLive(h, u, d, f);
  }

  lemma TookLive(m: Mem, live: set<Block>, h: Heap, h': Heap, d: nat, k: nat)
    requires HeapOk(m, live, h) && Took(h, h', d, k)
    ensures OneMore(h, h', d, k)
  {
  }

  lemma GaveLive(h: Heap, h': Heap, d: nat, k: nat)
    requires Gave(h, h', d, k)
    ensures forall e, l :: LiveObject(h', e, l) <==> LiveObject(h, e, l) && !(e == d && l == k)
  {
  }

  lemma OpenedLive(h: Heap, h': Heap, d: nat, f: nat)
    requires PageOpened(h, h', d, f)
    ensures forall e, l :: LiveObject(h', e, l) <==> LiveObject(h, e, l)
  {
    forall l: nat | l < PerPage(ClassOf(d)) ensures l in Ascending(PerPage(ClassOf(d))) {
      assert Ascending(PerPage(ClassOf(d)))[l] == l;
    }
  }

  /** Two live objects never overlap. */
  lemma LiveObjectsApart(m: Mem, live: set<Block>, h: Heap, d: nat, k: nat, e: nat, l: nat)
    requires HeapOk(m, live, h) && LiveObject(h, d, k) && LiveObject(h, e, l) && (d != e || k != l)
    ensures h.frames[d] == h.frames[e] ==>
      WordAt(ClassOf(d), k) + Words(ClassOf(d)) <= WordAt(ClassOf(e), l) ||
      WordAt(ClassOf(e), l) + Words(ClassOf(e)) <= WordAt(ClassOf(d), k)
    ensures WordAt(ClassOf(d), k) + Words(ClassOf(d)) <= 512 && h.frames[d] < |m| && Block(h.frames[d], 0) in live
  {
    ObjectFits(ClassOf(d), k);
    assert SlotOk(m, live, d, h.slots[d], h.frames[d], h.chains[d]);
    if d == e {
      if k < l {
        ObjectsApart(ClassOf(d), k, l);
      } else {
        ObjectsApart(ClassOf(d), l, k);
      }
    }
  }

  /** A word of one live object is neither in another one nor in a page opened for another one. */
  lemma WordElsewhere(m: Mem, live: set<Block>, h: Heap, d: nat, k: nat, e: nat, l: nat, w: int, whole: bool)
    requires HeapOk(m, live, h) && LiveObject(h, d, k) && LiveObject(h, e, l) && (d != e || k != l)
    requires InObject(w, ClassOf(e), l) && (whole ==> d != e)
    ensures h.frames[e] != h.frames[d] || !(whole || InObject(w, ClassOf(d), k))
  {
    LiveObjectsApart(m, live, h, d, k, e, l);
  }

  ghost function LiveOf(h: Heap, d: nat): set<nat> {
    set k: nat | k < 512 && LiveObject(h, d, k)
  }

  /** In each opened page live and free objects add up to the 4096 / size objects it holds. */
  lemma PageConservation(m: Mem, live: set<Block>, h: Heap, d: nat)
    requires HeapOk(m, live, h) && d < SLOTS && h.slots[d].used
    ensures 3 <= ClassOf(d) < TYPES && |LiveOf(h, d)| + h.slots[d].freeObj == PerPage(ClassOf(d)) <= 512
  {
    assert SlotOk(m, live, d, h.slots[d], h.frames[d], h.chains[d]);
    var n, s := PerPage(ClassOf(d)), h.chains[d];
    Pow2Mono(12 - ClassOf(d), 9);
    assert Pow2(9) == 512 by { assert Pow2(4) == 16; }
    ElementsSize(s);
    assert LiveOf(h, d) !! Elements(s);
    IntervalSize(0, n, LiveOf(h, d) + Elements(s));
  }

  // ----- what kmalloc picks

  /** The smallest class from i on whose objects are large enough. */
  function ClassFor(size: int, i: nat): (c: nat)
    requires 3 <= i < TYPES && size <= Pow2(TYPES - 1)
    ensures i <= c < TYPES && size <= Pow2(c) && (c > i ==> size > Pow2(c - 1))
    decreases TYPES - i
  {
    if size <= Pow2(i) then i else ClassFor(size, i + 1)
  }

  /** The smallest order from i on that is large enough, or 0 when none up to m is. */
  function OrderFor(size: int, m: nat, i: nat): (ord: nat)
    requires i <= m + 1
    ensures ord <= m
    ensures size > Pow2(m) * PAGE_SIZE ==> ord == 0
    ensures i <= m && size <= Pow2(m) * PAGE_SIZE ==>
      i <= ord && size <= Pow2(ord) * PAGE_SIZE && (ord > i ==> size > Pow2(ord - 1) * PAGE_SIZE)
    decreases m + 1 - i
  {
    if i > m then 0 else if size <= Pow2(i) * PAGE_SIZE then (Pow2Mono(i, m); i) else OrderFor(size, m, i + 1)
  }

  /** Counts of frames outside the set are the same. */
  ghost predicate CountsKept(free: set<nat>, cnt: seq<int>, cnt': seq<int>) {
    |cnt'| == |cnt| && forall f: nat | f < |cnt| && f !in free :: cnt'[f] == cnt[f]
  }
}
