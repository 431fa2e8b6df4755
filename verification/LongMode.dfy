/** x86_64 long-mode page translation as the processor performs it: AMD64
    Architecture Programmer's Manual, volume 2, section 5.3 (Long-Mode Page
    Translation). Nothing here comes from the loader: this is what the tables
    it writes are read with. Words are naturals below 2^64; a bit test is a
    division by the bit's weight. */
module LongMode {
  const PAGE_SIZE: nat := 0x1000
  const PAGE_2M: nat := 0x20_0000
  const PAGE_1G: nat := 0x4000_0000
  const PHYSICAL_LIMIT: nat := 0x10_0000_0000_0000
  const ADDRESS_LIMIT: nat := 0x1_0000_0000_0000_0000
  const LOWER_HALF_END: nat := 0x8000_0000_0000
  const HIGHER_HALF: nat := 0xffff_8000_0000_0000

  const PRESENT: nat := 1
  const WRITABLE: nat := 2
  const HUGE: nat := 0x80
  const EXECUTE_DISABLE: nat := 0x8000_0000_0000_0000

  type Index = i: nat | i < 512

  /** The four table indices of a virtual address. */
  datatype VPath = VPath(l4: Index, l3: Index, l2: Index, l1: Index)

  function IndexPml4(address: nat): Index { address / 0x80_0000_0000 % 512 }
  function IndexPdpt(address: nat): Index { address / 0x4000_0000 % 512 }
  function IndexPd(address: nat): Index { address / 0x20_0000 % 512 }
  function IndexPt(address: nat): Index { address / 0x1000 % 512 }

  function PathOf(address: nat): VPath {
    VPath(IndexPml4(address), IndexPdpt(address), IndexPd(address), IndexPt(address))
  }

  predicate TestBit(word: nat, bit: nat)
    requires bit > 0
  {
    word / bit % 2 == 1
  }

  predicate Present(word: nat) { TestBit(word, PRESENT) }
  predicate Writable(word: nat) { TestBit(word, WRITABLE) }
  predicate Huge(word: nat) { TestBit(word, HUGE) }
  predicate NoExecute(word: nat) { TestBit(word, EXECUTE_DISABLE) }

  /** Bits 51 down to the page offset: the frame a word names. */
  function FrameBits(word: nat, size: nat): nat
    requires size > 0
  {
    word % PHYSICAL_LIMIT / size * size
  }

  /** The outcome of a walk. `Wild` is a walk that leaves the table pages. */
  datatype Translation =
    | Fault
    | Wild
    | Mapped(frame: nat, size: nat, writable: bool, noExecute: bool)

  /** The page at `table` holds a table of 512 words. */
  predicate ReadsTable(tables: map<nat, seq<nat>>, table: nat) {
    table in tables && |tables[table]| == 512
  }

  /** The four-level walk from the page-map level-4 table at `root`. Bit 7 ends
      the walk at the page-directory-pointer (1 GiB) and page-directory (2 MiB)
      levels; writable is the AND over the levels, no-execute the OR. */
  ghost function Walk(tables: map<nat, seq<nat>>, root: nat, p: VPath): Translation {
    if !ReadsTable(tables, root) then Wild else
    var e4 := tables[root][p.l4];
    if !Present(e4) then Fault else
    var t3 := FrameBits(e4, PAGE_SIZE);
    if !ReadsTable(tables, t3) then Wild else
    var e3 := tables[t3][p.l3];
    if !Present(e3) then Fault else
    if Huge(e3) then
      Mapped(FrameBits(e3, PAGE_1G), PAGE_1G, Writable(e4) && Writable(e3), NoExecute(e4) || NoExecute(e3))
    else
    var t2 := FrameBits(e3, PAGE_SIZE);
    if !ReadsTable(tables, t2) then Wild else
    var e2 := tables[t2][p.l2];
    if !Present(e2) then Fault else
    if Huge(e2) then
      Mapped(FrameBits(e2, PAGE_2M), PAGE_2M,
             Writable(e4) && Writable(e3) && Writable(e2),
             NoExecute(e4) || NoExecute(e3) || NoExecute(e2))
    else
    var t1 := FrameBits(e2, PAGE_SIZE);
    if !ReadsTable(tables, t1) then Wild else
    var e1 := tables[t1][p.l1];
    if !Present(e1) then Fault else
      Mapped(FrameBits(e1, PAGE_SIZE), PAGE_SIZE,
             Writable(e4) && Writable(e3) && Writable(e2) && Writable(e1),
             NoExecute(e4) || NoExecute(e3) || NoExecute(e2) || NoExecute(e1))
  }

  predicate Canonical(address: nat) {
    address < LOWER_HALF_END || HIGHER_HALF <= address < ADDRESS_LIMIT
  }

  /** Where an access to `address` lands, or why it does not. */
  datatype Access = PageFault | WildAccess | Access(physical: nat, writable: bool, noExecute: bool)

  ghost function Translate(tables: map<nat, seq<nat>>, root: nat, address: nat): Access {
    if !Canonical(address) then PageFault else
    match Walk(tables, root, PathOf(address))
    case Fault => PageFault
    case Wild => WildAccess
    case Mapped(frame, size, w, nx) => Access(frame + (if size == 0 then 0 else address % size), w, nx)
  }

  // ----- index arithmetic

  /** The four indices are the base-512 digits of the 36-bit page number. */
  lemma PageNumberDigits(a: nat)
    ensures a / PAGE_SIZE == IndexPt(a) + 512 * (a / PAGE_2M)
    ensures a / PAGE_2M == IndexPd(a) + 512 * (a / PAGE_1G)
    ensures a / PAGE_1G == IndexPdpt(a) + 512 * (a / 0x80_0000_0000)
    ensures a / 0x80_0000_0000 == IndexPml4(a) + 512 * (a / 0x1_0000_0000_0000)
  {
    assert a / PAGE_2M == a / PAGE_SIZE / 512;
    assert a / PAGE_1G == a / PAGE_2M / 512;
    assert a / 0x80_0000_0000 == a / PAGE_1G / 512;
    assert a / 0x1_0000_0000_0000 == a / 0x80_0000_0000 / 512;
  }

  /** The 36-bit page number a path spells. */
  function PageNumber(p: VPath): nat {
    p.l1 + 512 * p.l2 + 0x4_0000 * p.l3 + 0x800_0000 * p.l4
  }

  lemma PathSpellsPage(a: nat)
    ensures a / PAGE_SIZE % 0x10_0000_0000 == PageNumber(PathOf(a))
  {
    PageNumberDigits(a);
    Remainder(a / PAGE_SIZE, PageNumber(PathOf(a)), a / 0x1_0000_0000_0000);
  }

  lemma Remainder(n: nat, low: nat, high: nat)
    requires low < 0x10_0000_0000 && n == low + 0x10_0000_0000 * high
    ensures n % 0x10_0000_0000 == low
  {}

  lemma PageNumberInjective(p: VPath, q: VPath)
    requires PageNumber(p) == PageNumber(q)
    ensures p == q
  {
    LowDigit(p.l1, p.l2 + 512 * p.l3 + 0x4_0000 * p.l4, q.l1, q.l2 + 512 * q.l3 + 0x4_0000 * q.l4);
    LowDigit(p.l2, p.l3 + 512 * p.l4, q.l2, q.l3 + 512 * q.l4);
    LowDigit(p.l3, p.l4, q.l3, q.l4);
  }

  lemma LowDigit(a: Index, rest: nat, b: Index, other: nat)
    requires a + 512 * rest == b + 512 * other
    ensures a == b && rest == other
  {}

  /** Two addresses take the same path exactly when their low 48 bits lie in
      the same 4 KiB page. */
  lemma SamePathIffSamePage(a: nat, b: nat)
    ensures PathOf(a) == PathOf(b) <==>
            a / PAGE_SIZE % 0x10_0000_0000 == b / PAGE_SIZE % 0x10_0000_0000
  {
    PathSpellsPage(a);
    PathSpellsPage(b);
    if PageNumber(PathOf(a)) == PageNumber(PathOf(b)) {
      PageNumberInjective(PathOf(a), PathOf(b));
    }
  }

  /** On canonical addresses the path names the page outright. */
  lemma CanonicalPathInjective(a: nat, b: nat)
    requires Canonical(a) && Canonical(b)
    ensures PathOf(a) == PathOf(b) <==> a / PAGE_SIZE == b / PAGE_SIZE
  {
    SamePathIffSamePage(a, b);
    CanonicalPage(a);
    CanonicalPage(b);
  }

  lemma CanonicalPage(a: nat)
    requires Canonical(a)
    ensures a < LOWER_HALF_END ==> a / PAGE_SIZE % 0x10_0000_0000 == a / PAGE_SIZE < 0x8_0000_0000
    ensures a >= HIGHER_HALF ==>
      a / PAGE_SIZE % 0x10_0000_0000 == a / PAGE_SIZE - 0xf_fff0_0000_0000 >= 0x8_0000_0000
  {
    if a >= HIGHER_HALF {
      var n := a / PAGE_SIZE;
      assert 0xf_fff8_0000_0000 <= n < 0x10_0000_0000_0000;
      assert n - 0xf_fff0_0000_0000 < 0x10_0000_0000;
      assert n == (n - 0xf_fff0_0000_0000) + 0x10_0000_0000 * 0xffff;
    }
  }
}
