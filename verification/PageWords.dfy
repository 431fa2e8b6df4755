/** The 64-bit words the loader stores in page tables, and what the
    processor's bit tests see in them. */
module PageWords {
  import opened LongMode

  /** `word | bit` for a single bit of weight `bit`. */
  function SetBit(word: nat, bit: nat): nat
    requires bit > 0
  {
    if TestBit(word, bit) then word else word + bit
  }

  /** The word linking a parent table to the child table at `table`. */
  function TableWord(table: nat): nat {
    SetBit(SetBit(table, PRESENT), WRITABLE)
  }

  /** A 2 MiB leaf of the identity and HHDM windows. */
  function HugeWord(physical: nat): nat {
    SetBit(SetBit(SetBit(physical, PRESENT), WRITABLE), HUGE)
  }

  /** A 4 KiB leaf carrying the permissions of an ELF segment. */
  function LeafWord(physical: nat, writable: bool, noExecute: bool): nat {
    var present := SetBit(physical, PRESENT);
    var w := if writable then SetBit(present, WRITABLE) else present;
    if noExecute then SetBit(w, EXECUTE_DISABLE) else w
  }

  predicate PageAddress(a: nat) { a % PAGE_SIZE == 0 && a < PHYSICAL_LIMIT }

  /** Below the frame a word's bits are those of its low twelve, above it
      nothing is set. */
  lemma LowBits(a: nat, low: nat)
    requires PageAddress(a) && low < PAGE_SIZE
    ensures TestBit(a + low, PRESENT) == TestBit(low, PRESENT)
    ensures TestBit(a + low, WRITABLE) == TestBit(low, WRITABLE)
    ensures TestBit(a + low, HUGE) == TestBit(low, HUGE)
    ensures !TestBit(a + low, EXECUTE_DISABLE)
    ensures a + low < PHYSICAL_LIMIT && FrameBits(a + low, PAGE_SIZE) == a
  {
    var k := a / PAGE_SIZE;
    Bit0(k, low);
    Bit1(k, low);
    Bit7(k, low);
    FrameOf(k, low);
    Bit63(a + low);
  }

  lemma Bit0(k: nat, low: nat)
    ensures TestBit(PAGE_SIZE * k + low, PRESENT) == TestBit(low, PRESENT)
  {}

  lemma Bit1(k: nat, low: nat)
    ensures TestBit(PAGE_SIZE * k + low, WRITABLE) == TestBit(low, WRITABLE)
  {
    assert (PAGE_SIZE * k + low) / 2 == 2048 * k + low / 2;
  }

  lemma Bit7(k: nat, low: nat)
    ensures TestBit(PAGE_SIZE * k + low, HUGE) == TestBit(low, HUGE)
  {
    assert (PAGE_SIZE * k + low) / 0x80 == 32 * k + low / 0x80;
  }

  lemma Bit63(w: nat)
    requires w < PHYSICAL_LIMIT
    ensures !TestBit(w, EXECUTE_DISABLE)
  {
    assert w / EXECUTE_DISABLE == 0;
  }

  lemma FrameOf(k: nat, low: nat)
    requires PAGE_SIZE * k < PHYSICAL_LIMIT && low < PAGE_SIZE
    ensures PAGE_SIZE * k + low < PHYSICAL_LIMIT && FrameBits(PAGE_SIZE * k + low, PAGE_SIZE) == PAGE_SIZE * k
  {
    assert k < 0x100_0000_0000;
    assert (PAGE_SIZE * k + low) / PAGE_SIZE == k;
  }

  /** The three words in numbers. */
  lemma WordsInNumbers(a: nat, writable: bool, noExecute: bool)
    requires PageAddress(a)
    ensures TableWord(a) == a + 3 && (a % 0x20_0000 == 0 ==> HugeWord(a) == a + 0x83)
    ensures LeafWord(a, writable, noExecute) ==
      a + 1 + (if writable then 2 else 0) + (if noExecute then 0x8000_0000_0000_0000 else 0)
  {
    LowBits(a, 0);
    LowBits(a, 1);
    LowBits(a, 3);
  }

  lemma TableWordFacts(table: nat)
    requires PageAddress(table)
    ensures var w := TableWord(table);
      w < ADDRESS_LIMIT && Present(w) && Writable(w) && !Huge(w) && !NoExecute(w) && FrameBits(w, PAGE_SIZE) == table
  {
    LowBits(table, 0);
    LowBits(table, 1);
    LowBits(table, 3);
    assert TableWord(table) == table + 3;
  }

  lemma HugeWordFacts(physical: nat)
    requires physical % PAGE_2M == 0 && physical < PHYSICAL_LIMIT
    ensures var w := HugeWord(physical);
      w < ADDRESS_LIMIT && Present(w) && Writable(w) && Huge(w) && !NoExecute(w) &&
      FrameBits(w, PAGE_2M) == physical == FrameBits(w, PAGE_SIZE)
  {
    var k := physical / PAGE_2M;
    HugeIsPage(k);
    HugeFrame(k);
    LowBits(physical, 0);
    LowBits(physical, 1);
    LowBits(physical, 3);
    LowBits(physical, 0x83);
    assert HugeWord(physical) == physical + 0x83;
  }

  /** Read as a link to a table, a window leaf names the very memory it maps: a
      4 KiB mapping inside a window would store its entries there. */
  lemma WindowLeafReadAsTable(physical: nat)
    requires physical % PAGE_2M == 0 && physical < PHYSICAL_LIMIT
    ensures Present(HugeWord(physical)) && FrameBits(HugeWord(physical), PAGE_SIZE) == physical
  {
    HugeIsPage(physical / PAGE_2M);
    LowBits(physical, 0);
    LowBits(physical, 1);
    LowBits(physical, 3);
    LowBits(physical, 0x83);
    assert HugeWord(physical) == physical + 0x83;
  }

  lemma HugeIsPage(k: nat)
    ensures PAGE_2M * k % PAGE_SIZE == 0
  {
    assert PAGE_2M * k == PAGE_SIZE * (512 * k);
  }

  lemma HugeFrame(k: nat)
    requires PAGE_2M * k < PHYSICAL_LIMIT
    ensures FrameBits(PAGE_2M * k + 0x83, PAGE_2M) == PAGE_2M * k
  {
    assert k < 0x8000_0000;
    assert (PAGE_2M * k + 0x83) / PAGE_2M == k;
  }

  lemma LeafWordFacts(physical: nat, writable: bool, noExecute: bool)
    requires PageAddress(physical)
    ensures var w := LeafWord(physical, writable, noExecute);
      w < ADDRESS_LIMIT && Present(w) && (Writable(w) <==> writable) && (NoExecute(w) <==> noExecute) &&
      !Huge(w) && FrameBits(w, PAGE_SIZE) == physical
  {
    LowBits(physical, 0);
    LowBits(physical, 1);
    LowBits(physical, 3);
    var low := if writable then 3 else 1;
    assert LeafWord(physical, writable, false) == physical + low;
    if noExecute {
      HighBit(physical + low);
    }
  }

  /** Bit 63 leaves the other bits alone. */
  lemma HighBit(w: nat)
    requires w < PHYSICAL_LIMIT
    ensures var x := w + EXECUTE_DISABLE;
      && SetBit(w, EXECUTE_DISABLE) == x && x < ADDRESS_LIMIT && NoExecute(x)
      && (Present(x) <==> Present(w)) && (Writable(x) <==> Writable(w)) && (Huge(x) <==> Huge(w))
      && FrameBits(x, PAGE_SIZE) == FrameBits(w, PAGE_SIZE)
  {
    Bit63(w);
    Bit0(0x8_0000_0000_0000, w);
    Bit1(0x8_0000_0000_0000, w);
    Bit7(0x8_0000_0000_0000, w);
    var x := w + EXECUTE_DISABLE;
    assert x == w + PHYSICAL_LIMIT * 0x800;
    assert x % PHYSICAL_LIMIT == w;
    assert x / EXECUTE_DISABLE == 1;
  }
}
