// Machine constants: 64-bit words, 4 KiB pages, and the kernel window of the managed pool.
module Machine {

  type Word = x: int | 0 <= x < 0x1_0000_0000_0000_0000

  /** A page of memory: 512 words, which is also the number of entries in a translation table. */
  type Page = s: seq<Word> | |s| == 512 witness seq(512, _ => 0)

  function ZeroPage(): (p: Page)
    ensures forall i :: 0 <= i < 512 ==> p[i] == 0
  {
    seq(512, _ => 0)
  }

  const PAGE_SIZE := 4096
  const KERNEL_VIRT := 0xffff_0000_0000_0000
  /** Kernel address of the first managed page. */
  const PAGE_INIT := KERNEL_VIRT + 0x1000_0000

  /** Kernel address of frame f. */
  function AddrOf(f: int): int {
    PAGE_INIT + f * PAGE_SIZE
  }

  /** Frame that holds the kernel address a. */
  function FrameOf(a: int): int {
    (a - PAGE_INIT) / PAGE_SIZE
  }

  datatype Option<+T> = None | Some(value: T)

  /** Conversion of an unsigned long to int. */
  function ToInt32(x: int): int {
    var y := x % 0x1_0000_0000;
    if y >= 0x8000_0000 then y - 0x1_0000_0000 else y
  }

  const U64 := 0x1_0000_0000_0000_0000

  /** The tables of a process translate addresses below 2^48. */
  const SPACE_END: nat := 0x1_0000_0000_0000

  /** The sum or difference of two 64-bit numbers as a 64-bit number. */
  function Wrap(x: int): int {
    if x < 0 then x + U64 else if x >= U64 then x - U64 else x
  }

  /** PGROUNDDOWN and PGROUNDUP on 64-bit addresses. */
  function RoundDown(a: nat): nat {
    a - a % PAGE_SIZE
  }

  function RoundUp(a: nat): nat {
    RoundDown(if a + PAGE_SIZE - 1 < U64 then a + PAGE_SIZE - 1 else a + PAGE_SIZE - 1 - U64)
  }

  /** Rounding up covers the number, with less than a page to spare, where it does not wrap around. */
  lemma RoundUpCovers(a: nat)
    requires a + PAGE_SIZE - 1 < U64
    ensures a <= RoundUp(a) < a + PAGE_SIZE && RoundUp(a) % PAGE_SIZE == 0
  {
  }

  function Bytes(pages: nat): nat {
    PAGE_SIZE * pages
  }

  ghost predicate OnPage(a: nat) {
    exists k: nat :: a == Bytes(k)
  }

  lemma RoundUpOnPage(a: nat)
    requires OnPage(a) && a + PAGE_SIZE <= U64
    ensures RoundUp(a) == a && RoundDown(a) == a
  {
    var k: nat :| a == Bytes(k);
  }

  /** Sums of 64-bit page addresses stay on pages, also where they wrap. */
  lemma WrapOnPage(a: nat, b: nat)
    requires OnPage(a) && OnPage(b) && a < U64 && b < U64
    ensures Wrap(a + b) >= 0 && OnPage(Wrap(a + b)) && Wrap(a + b) + PAGE_SIZE <= U64
  {
    var k: nat :| a == Bytes(k);
    var l: nat :| b == Bytes(l);
    assert U64 == Bytes(0x10_0000_0000_0000);
    assert Wrap(a + b) == Bytes(if a + b >= U64 then k + l - 0x10_0000_0000_0000 else k + l);
  }

  lemma RoundedOnPage(addr: nat, len: nat)
    ensures OnPage(RoundDown(addr)) && OnPage(RoundUp(len))
  {
    RoundDownOnPage(addr);
    RoundDownOnPage(if len + PAGE_SIZE - 1 < U64 then len + PAGE_SIZE - 1 else len + PAGE_SIZE - 1 - U64);
  }

  lemma RoundDownOnPage(a: nat)
    ensures OnPage(RoundDown(a))
  {
    assert RoundDown(a) == Bytes(a / PAGE_SIZE);
  }
}
