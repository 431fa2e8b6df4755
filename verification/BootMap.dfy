/** The mapping steps of `boot_limine` (crates/r-boot/src/main.rs) and what the
    processor then sees at every address. */
module BootMap {
  import opened Wrappers
  import opened LongMode
  import opened PageWords
  import opened PageTree
  import opened Firmware
  import opened Paging
  import opened Elf

  const HHDM_OFFSET: nat := 0xffff_8000_0000_0000

  /** Bytes of physical memory the HHDM window covers. */
  function HhdmSpan(physicalEnd: nat): nat { HhdmGigabytes(physicalEnd) * PAGE_1G }

  /** What the code takes for granted about a loaded segment: its pages are
      real and do not wrap. */
  predicate Mappable(s: LoadedSegment) {
    && s.virtualAddress % PAGE_SIZE == 0 && PageAddress(s.physicalAddress) && !LengthOverflows(s.length)
    && s.physicalAddress + RangePages(s.length) * PAGE_SIZE <= PHYSICAL_LIMIT
    && s.virtualAddress + RangePages(s.length) * PAGE_SIZE <= ADDRESS_LIMIT
    && HHDM_OFFSET <= s.virtualAddress
  }

  predicate Covers(s: LoadedSegment, address: nat) {
    s.virtualAddress <= address < s.virtualAddress + RangePages(s.length) * PAGE_SIZE
  }

  /** The address map the kernel is promised: the low 4 GiB to themselves, the
      HHDM, then the segments (the last one loaded wins) as far as they are not
      under those windows, and nothing else. */
  function Promised(segments: seq<LoadedSegment>, physicalEnd: nat, address: nat): Access {
    if address < 4 * PAGE_1G then Access(address, true, false)
    else if InHhdm(physicalEnd, address) then
      Access(address - HHDM_OFFSET, true, false)
    else SegmentAccess(segments, address)
  }

  predicate InHhdm(physicalEnd: nat, a: nat) { HHDM_OFFSET <= a < HHDM_OFFSET + HhdmSpan(physicalEnd) }

  function SegmentAccess(segments: seq<LoadedSegment>, address: nat): Access {
    if segments == [] then PageFault else
    var s := segments[|segments| - 1];
    if Covers(s, address) then
      Access(s.physicalAddress + (address - s.virtualAddress), SegmentWritable(s.flags), SegmentNoExecute(s.flags))
    else SegmentAccess(segments[..|segments| - 1], address)
  }

  /** The segment through which the kernel sees an address: the last covering it. */
  function SegmentAt(segments: seq<LoadedSegment>, address: nat): (r: Option<nat>)
    ensures r.Some? ==> r.value < |segments| && Covers(segments[r.value], address)
    ensures forall j | (if r.Some? then r.value + 1 else 0) <= j < |segments| :: !Covers(segments[j], address)
  {
    if segments == [] then None
    else if Covers(segments[|segments| - 1], address) then Some(|segments| - 1)
    else SegmentAt(segments[..|segments| - 1], address)
  }

  lemma {:induction false} SegmentAtGivesAccess(segments: seq<LoadedSegment>, a: nat)
    ensures SegmentAccess(segments, a) ==
      match SegmentAt(segments, a)
      case None => PageFault
      case Some(k) => Access(segments[k].physicalAddress + (a - segments[k].virtualAddress),
                             SegmentWritable(segments[k].flags), SegmentNoExecute(segments[k].flags))
  {
    if segments != [] {
      SegmentAtGivesAccess(segments[..|segments| - 1], a);
    }
  }

  /** Permissions as the flags of a program header give them: bit 1 for
      writing, bit 0 for running. */
  predicate ByFlags(t: Access, flags: nat) {
    t.Access? && (t.writable <==> flags / 2 % 2 == 1) && (t.noExecute <==> flags % 2 == 0)
  }

  // ----- the same at the level of table paths

  ghost function SegmentsView(segments: seq<LoadedSegment>, p: VPath, before: Translation): Translation {
    if segments == [] then before else
    var s := segments[|segments| - 1];
    RangeView(s.virtualAddress, s.physicalAddress, RangePages(s.length), SegmentWritable(s.flags),
              SegmentNoExecute(s.flags), p, SegmentsView(segments[..|segments| - 1], p, before))
  }

  ghost function BootView(segments: seq<LoadedSegment>, physicalEnd: nat, p: VPath): Translation {
    SegmentsView(segments, p, WindowView(HHDM_OFFSET, HhdmGigabytes(physicalEnd), p, WindowView(0, 4, p, Fault)))
  }

  // ----- canonical addresses and their directories

  /** Canonical addresses share a page directory exactly when they lie in the
      same gigabyte. */
  lemma SameDirectoryIffSameGigabyte(a: nat, b: nat)
    requires Canonical(a) && Canonical(b)
    ensures SameDirectory(a, PathOf(b)) <==> a / PAGE_1G == b / PAGE_1G
  {
    DirectoryNumber(a);
    DirectoryNumber(b);
    CanonicalGigabyte(a);
    CanonicalGigabyte(b);
    if SameDirectory(a, PathOf(b)) {
      assert a / PAGE_1G % 0x4_0000 == b / PAGE_1G % 0x4_0000;
    } else if a / PAGE_1G == b / PAGE_1G {
      LowDigit(IndexPdpt(a), IndexPml4(a), IndexPdpt(b), IndexPml4(b));
      assert false;
    }
  }

  lemma DirectoryNumber(a: nat)
    ensures a / PAGE_1G % 0x4_0000 == IndexPdpt(a) + 512 * IndexPml4(a)
  {
    PageNumberDigits(a);
    var low := IndexPdpt(a) + 512 * IndexPml4(a);
    var high := a / 0x1_0000_0000_0000;
    assert a / PAGE_1G == low + 0x4_0000 * high;
  }

  lemma CanonicalGigabyte(a: nat)
    requires Canonical(a)
    ensures a < LOWER_HALF_END ==> a / PAGE_1G % 0x4_0000 == a / PAGE_1G < 0x2_0000
    ensures a >= HIGHER_HALF ==> a / PAGE_1G % 0x4_0000 == a / PAGE_1G - 0x3_fffc_0000 >= 0x2_0000
  {
    if a >= HIGHER_HALF {
      var n := a / PAGE_1G;
      assert 0x3_fffe_0000 <= n < 0x4_0000_0000;
      assert n == (n - 0x3_fffc_0000) + 0x4_0000 * 0xffff;
    }
  }

  // ----- windows

  predicate WindowInHalf(base: nat, gigabytes: nat) {
    base % PAGE_1G == 0 && base + gigabytes * PAGE_1G <= (if base == 0 then LOWER_HALF_END else ADDRESS_LIMIT) &&
    (base == 0 || base == HHDM_OFFSET)
  }

  lemma {:induction false} WindowCovers(base: nat, gigabytes: nat, a: nat)
    requires WindowInHalf(base, gigabytes) && Canonical(a)
    ensures WindowGigabyte(base, gigabytes, PathOf(a)) ==
      if base <= a < base + gigabytes * PAGE_1G then Some((a - base) / PAGE_1G) else None
  {
    if gigabytes != 0 {
      hide PathOf, IndexPml4, IndexPdpt, SameDirectory;
      var last := base + (gigabytes - 1) * PAGE_1G;
      SameDirectoryIffSameGigabyte(last, a);
      WindowCovers(base, gigabytes - 1, a);
      assert last / PAGE_1G == base / PAGE_1G + (gigabytes - 1);
    }
  }

  lemma WindowAddress(base: nat, a: nat)
    requires base % PAGE_1G == 0 && base <= a
    ensures (a - base) / PAGE_1G * PAGE_1G + IndexPd(a) * PAGE_2M + a % PAGE_2M == a - base
  {
    PageNumberDigits(a);
    var k := base / PAGE_1G;
    assert (a - base) / PAGE_1G == a / PAGE_1G - k;
  }

  // ----- segments

  lemma {:induction false} RangeCovers(s: nat, pages: nat, a: nat)
    requires s % PAGE_SIZE == 0 && HIGHER_HALF <= s && s + pages * PAGE_SIZE <= ADDRESS_LIMIT && Canonical(a)
    ensures RangePage(s, pages, PathOf(a)) ==
      if s <= a < s + pages * PAGE_SIZE then Some((a - s) / PAGE_SIZE) else None
  {
    if pages != 0 {
      hide PathOf;
      var last := s + (pages - 1) * PAGE_SIZE;
      CanonicalPathInjective(last, a);
      RangeCovers(s, pages - 1, a);
      assert last / PAGE_SIZE == s / PAGE_SIZE + (pages - 1);
    }
  }

  lemma PageOffset(s: nat, a: nat)
    requires s % PAGE_SIZE == 0 && s <= a
    ensures (a - s) / PAGE_SIZE * PAGE_SIZE + a % PAGE_SIZE == a - s
  {
    assert (a - s) % PAGE_SIZE == a % PAGE_SIZE;
  }

  // ----- from paths to addresses

  ghost function AccessOf(t: Translation, address: nat): Access {
    match t
    case Fault => PageFault
    case Wild => WildAccess
    case Mapped(frame, size, w, nx) => Access(frame + (if size == 0 then 0 else address % size), w, nx)
  }

  /** Segments neither hide a window nor make one. */
  lemma {:induction false} SegmentsKeepWindows(segments: seq<LoadedSegment>, p: VPath, before: Translation)
    ensures var v := SegmentsView(segments, p, before);
      (OnWindow(v) <==> OnWindow(before)) && (OnWindow(before) ==> v == before)
  {
    if segments != [] {
      hide PathOf, RangePage, RangePages;
      SegmentsKeepWindows(segments[..|segments| - 1], p, before);
    }
  }

  lemma {:induction false} SegmentsAccess(segments: seq<LoadedSegment>, a: nat, before: Translation)
    requires Canonical(a) && !OnWindow(before) && forall s <- segments :: Mappable(s)
    ensures AccessOf(SegmentsView(segments, PathOf(a), before), a) ==
      if SegmentAccess(segments, a).PageFault? then AccessOf(before, a) else SegmentAccess(segments, a)
  {
    if segments != [] {
      hide PathOf, SegmentWritable, SegmentNoExecute, RangePages, LengthOverflows;
      var s := segments[|segments| - 1];
      assert s in segments;
      SegmentsAccess(segments[..|segments| - 1], a, before);
      SegmentsKeepWindows(segments[..|segments| - 1], PathOf(a), before);
      RangeCovers(s.virtualAddress, RangePages(s.length), a);
      if Covers(s, a) {
        PageOffset(s.virtualAddress, a);
      }
    }
  }

  /** The window mappings alone. */
  lemma WindowAccess(physicalEnd: nat, a: nat)
    requires Canonical(a) && HhdmGigabytes(physicalEnd) <= 0x2_0000
    ensures AccessOf(WindowView(HHDM_OFFSET, HhdmGigabytes(physicalEnd), PathOf(a), WindowView(0, 4, PathOf(a), Fault)), a) ==
      if a < 4 * PAGE_1G then Access(a, true, false)
      else if HHDM_OFFSET <= a < HHDM_OFFSET + HhdmSpan(physicalEnd) then Access(a - HHDM_OFFSET, true, false)
      else PageFault
  {
    var n := HhdmGigabytes(physicalEnd);
    assert PathOf(a).l2 == IndexPd(a);
    hide PathOf, IndexPd, HhdmGigabytes, WindowGigabyte;
    WindowCovers(0, 4, a);
    WindowCovers(HHDM_OFFSET, n, a);
    WindowAddress(0, a);
    if HHDM_OFFSET <= a {
      WindowAddress(HHDM_OFFSET, a);
    }
  }

  /** The tables built by the mapping steps give exactly the promised map, at
      every one of the 2^64 addresses. */
  lemma BootMapIsPromised(tables: Tables, root: nat, segments: seq<LoadedSegment>, physicalEnd: nat, a: nat)
    requires forall s <- segments :: Mappable(s)
    requires HhdmGigabytes(physicalEnd) <= 0x2_0000 && a < ADDRESS_LIMIT
    requires forall p :: Walk(tables, root, p) == BootView(segments, physicalEnd, p)
    ensures Translate(tables, root, a) == if Canonical(a) then Promised(segments, physicalEnd, a) else PageFault
  {
    hide Walk, PathOf, HhdmGigabytes;
    if Canonical(a) {
      var p := PathOf(a);
      var windows := WindowView(HHDM_OFFSET, HhdmGigabytes(physicalEnd), p, WindowView(0, 4, p, Fault));
      assert Walk(tables, root, p) == SegmentsView(segments, p, windows);
      assert Translate(tables, root, a) == AccessOf(Walk(tables, root, p), a);
      WindowAccess(physicalEnd, a);
      WindowsAt(physicalEnd, a);
      hide WindowView, SegmentsView, SegmentAccess;
      if InWindows(physicalEnd, a) {
        SegmentsKeepWindows(segments, p, windows);
      } else {
        SegmentsAccess(segments, a, windows);
      }
    }
  }

  predicate InWindows(physicalEnd: nat, a: nat) { a < 4 * PAGE_1G || InHhdm(physicalEnd, a) }

  /** Where a window maps an address. */
  function WindowTarget(a: nat): nat { if a < HHDM_OFFSET then a else a - HHDM_OFFSET }

  /** The 2 MiB leaves of the windows, and the frame of the one over an address. */
  lemma WindowsAt(physicalEnd: nat, a: nat)
    requires Canonical(a) && HhdmGigabytes(physicalEnd) <= 0x2_0000
    ensures var windows := WindowView(HHDM_OFFSET, HhdmGigabytes(physicalEnd), PathOf(a), WindowView(0, 4, PathOf(a), Fault));
      && (OnWindow(windows) <==> InWindows(physicalEnd, a))
      && (OnWindow(windows) ==> windows.frame == WindowTarget(a) - WindowTarget(a) % PAGE_2M)
  {
    assert PathOf(a).l2 == IndexPd(a);
    hide PathOf, IndexPd, HhdmGigabytes, WindowGigabyte;
    WindowCovers(0, 4, a);
    WindowCovers(HHDM_OFFSET, HhdmGigabytes(physicalEnd), a);
    if a < HHDM_OFFSET { WindowAddress(0, a); } else { WindowAddress(HHDM_OFFSET, a); }
    TargetOffset(a);
    HalvesApart(a);
  }

  lemma TargetOffset(a: nat)
    ensures WindowTarget(a) % PAGE_2M == a % PAGE_2M
  {
    if a >= HHDM_OFFSET {
      var k := HHDM_OFFSET / PAGE_2M;
      assert a == WindowTarget(a) + PAGE_2M * k;
    }
  }

  lemma HalvesApart(a: nat)
    requires Canonical(a)
    ensures a < 4 * PAGE_1G ==> a < HHDM_OFFSET
  {}

  // ----- entries gone astray

  /** The page that the leaf over a segment's page maps first. */
  function StrayFrame(physicalEnd: nat, a: nat): nat
  {
    if InHhdm(physicalEnd, a) then (a - HHDM_OFFSET) - (a - HHDM_OFFSET) % PAGE_2M else 0
  }

  /** Memory after the entries of the first `pages` pages of a segment. */
  function RangeStrays(bytes: map<nat, bv8>, s: LoadedSegment, pages: nat, physicalEnd: nat): map<nat, bv8> {
    if pages == 0 then bytes else
    var before := RangeStrays(bytes, s, pages - 1, physicalEnd);
    var a := s.virtualAddress + (pages - 1) * PAGE_SIZE;
    if InHhdm(physicalEnd, a) then
      Overwritten(before, StrayFrame(physicalEnd, a) + 8 * IndexPt(a),
                  LeafWord(s.physicalAddress + (pages - 1) * PAGE_SIZE, SegmentWritable(s.flags), SegmentNoExecute(s.flags)))
    else before
  }

  /** Memory after the entries of all pages under the HHDM window were stored
      into the memory the window maps. */
  function Strays(bytes: map<nat, bv8>, segments: seq<LoadedSegment>, physicalEnd: nat): map<nat, bv8> {
    if segments == [] then bytes else
    var s := segments[|segments| - 1];
    RangeStrays(Strays(bytes, segments[..|segments| - 1], physicalEnd), s, RangePages(s.length), physicalEnd)
  }

  /** An entry gone astray is stored over this byte. */
  predicate Struck(segments: seq<LoadedSegment>, physicalEnd: nat, x: nat) {
    exists s <- segments :: SegmentStrikes(s, RangePages(s.length), physicalEnd, x)
  }

  predicate SegmentStrikes(s: LoadedSegment, pages: nat, physicalEnd: nat, x: nat) {
    pages != 0 && (SegmentStrikes(s, pages - 1, physicalEnd, x) || PageStrikes(s.virtualAddress + (pages - 1) * PAGE_SIZE, physicalEnd, x))
  }

  predicate PageStrikes(a: nat, physicalEnd: nat, x: nat) {
    InHhdm(physicalEnd, a) && var cell := StrayFrame(physicalEnd, a) + 8 * IndexPt(a); cell <= x < cell + 8
  }

  lemma {:induction false} RangeStraysElsewhere(bytes: map<nat, bv8>, s: LoadedSegment, pages: nat, physicalEnd: nat, x: nat)
    ensures x in RangeStrays(bytes, s, pages, physicalEnd) <==> x in bytes
    ensures x in bytes && !SegmentStrikes(s, pages, physicalEnd, x) ==> RangeStrays(bytes, s, pages, physicalEnd)[x] == bytes[x]
  {
    hide StrayFrame, LeafWord, HhdmSpan, IndexPt;
    if pages != 0 { RangeStraysElsewhere(bytes, s, pages - 1, physicalEnd, x); }
  }

  lemma {:induction false} StraysElsewhere(bytes: map<nat, bv8>, segments: seq<LoadedSegment>, physicalEnd: nat, x: nat)
    ensures x in Strays(bytes, segments, physicalEnd) <==> x in bytes
    ensures x in bytes && !Struck(segments, physicalEnd, x) ==> Strays(bytes, segments, physicalEnd)[x] == bytes[x]
  {
    hide RangeStrays, SegmentStrikes, RangePages;
    if segments != [] {
      var n := |segments| - 1;
      assert segments == segments[..n] + [segments[n]];
      StraysElsewhere(bytes, segments[..n], physicalEnd, x);
      RangeStraysElsewhere(Strays(bytes, segments[..n], physicalEnd), segments[n], RangePages(segments[n].length), physicalEnd, x);
    }
  }

  /** The segment has a page under the first leaf of the HHDM, whose frame is
      the null page. */
  predicate OverNullPage(s: LoadedSegment) { RangePages(s.length) > 0 && s.virtualAddress < HHDM_OFFSET + PAGE_2M }

  /** No entry gone astray lands in a page that is or may become a table. */
  ghost predicate Harmless(fw: Machine, segments: seq<LoadedSegment>, physicalEnd: nat)
    reads fw`script, fw`used, fw`tables
  {
    forall s <- segments :: RangeHarmless(fw, s, physicalEnd)
  }

  ghost predicate RangeHarmless(fw: Machine, s: LoadedSegment, physicalEnd: nat)
    reads fw`script, fw`used, fw`tables
  {
    forall k | 0 <= k < RangePages(s.length) :: fw.NeverTable(StrayFrame(physicalEnd, s.virtualAddress + k * PAGE_SIZE))
  }

  /** What the page tables say about the page of a segment. */
  lemma SegmentPage(t: PageTables, segments: seq<LoadedSegment>, physicalEnd: nat, s: LoadedSegment, k: nat)
    requires t.Valid() && BootMapped(t.fw.tables, t.root, segments, physicalEnd) && physicalEnd <= LOWER_HALF_END
    requires Mappable(s) && k < RangePages(s.length)
    ensures var a := s.virtualAddress + k * PAGE_SIZE;
      && (t.UnderWindow(a) <==> InHhdm(physicalEnd, a)) && t.LeafFrame(a) == StrayFrame(physicalEnd, a)
      && (t.NullLeaf(a) <==> a < HHDM_OFFSET + PAGE_2M)
  {
    var a := s.virtualAddress + k * PAGE_SIZE;
    hide PathOf, HhdmGigabytes, WindowView, Tree, Walk;
    HhdmBound(physicalEnd);
    WindowsAt(physicalEnd, a);
    var p := PathOf(a);
    var windows := WindowView(HHDM_OFFSET, HhdmGigabytes(physicalEnd), p, WindowView(0, 4, p, Fault));
    SegmentsKeepWindows(segments, p, windows);
    assert Walk(t.fw.tables, t.root, p) == BootView(segments, physicalEnd, p);
    FirstLeaf(physicalEnd, a);
  }

  lemma FirstLeaf(physicalEnd: nat, a: nat)
    requires HHDM_OFFSET <= a
    ensures InHhdm(physicalEnd, a) && StrayFrame(physicalEnd, a) == 0 <==> a < HHDM_OFFSET + PAGE_2M
  {
    assert HhdmSpan(physicalEnd) >= 4 * PAGE_1G;
  }

  lemma {:induction false} SameStrays(t: PageTables, bytes: map<nat, bv8>, segments: seq<LoadedSegment>, physicalEnd: nat,
                                      s: LoadedSegment, pages: nat)
    requires t.Valid() && BootMapped(t.fw.tables, t.root, segments, physicalEnd) && physicalEnd <= LOWER_HALF_END
    requires Mappable(s) && pages <= RangePages(s.length)
    ensures StrayBytes(bytes, t.fw.tables, t.root, s.virtualAddress, s.physicalAddress, pages, s.flags) ==
            RangeStrays(bytes, s, pages, physicalEnd)
  {
    hide PathOf, Walk, Tree, LeafWord, Overwritten, BootMapped, Mappable, StrayFrame;
    if pages != 0 {
      var a := s.virtualAddress + (pages - 1) * PAGE_SIZE;
      SameStrays(t, bytes, segments, physicalEnd, s, pages - 1);
      SegmentPage(t, segments, physicalEnd, s, pages - 1);
      PathEnd(a);
    }
  }

  lemma {:induction false} NothingAstray(bytes: map<nat, bv8>, s: LoadedSegment, pages: nat, physicalEnd: nat)
    requires HHDM_OFFSET + HhdmSpan(physicalEnd) <= s.virtualAddress
    ensures RangeStrays(bytes, s, pages, physicalEnd) == bytes
  {
    if pages != 0 { NothingAstray(bytes, s, pages - 1, physicalEnd); }
  }

  // ----- the mapping steps

  /** The HHDM directories lie above the identity map's. */
  lemma WindowsApart(gigabytes: nat, g: nat, h: nat)
    requires gigabytes <= 0x2_0000 && g < gigabytes && h < 4
    ensures DirectoryOf(HHDM_OFFSET + g * PAGE_1G) != DirectoryOf(h * PAGE_1G)
  {
    var a, b := HHDM_OFFSET + g * PAGE_1G, h * PAGE_1G;
    SameDirectoryIffSameGigabyte(a, b);
    assert a / PAGE_1G >= HHDM_OFFSET / PAGE_1G > b / PAGE_1G;
  }

  lemma IdentityThenHhdm(t0: Tables, t1: Tables, t2: Tables, root: nat, physicalEnd: nat)
    requires NothingMapped(t0, root)
    requires WindowMapped(t0, t1, root, 0, 4)
    requires WindowMapped(t1, t2, root, HHDM_OFFSET, HhdmGigabytes(physicalEnd))
    ensures BootMapped(t2, root, [], physicalEnd)
  {
    hide Walk, WindowView;
  }

  ghost predicate BootMapped(tables: Tables, root: nat, segments: seq<LoadedSegment>, physicalEnd: nat) {
    forall p :: Walk(tables, root, p) == BootView(segments, physicalEnd, p)
  }

  lemma SegmentMapped(t0: Tables, t1: Tables, root: nat, segments: seq<LoadedSegment>, s: LoadedSegment, physicalEnd: nat)
    requires BootMapped(t0, root, segments, physicalEnd)
    requires RangeMapped(t0, t1, root, s.virtualAddress, s.physicalAddress, RangePages(s.length), s.flags)
    ensures BootMapped(t1, root, segments + [s], physicalEnd)
  {
    hide Walk, WindowView, RangeView, HhdmGigabytes;
    var all := segments + [s];
    assert all[..|all| - 1] == segments;
    forall p ensures Walk(t1, root, p) == BootView(all, physicalEnd, p) {
      assert Walk(t0, root, p) == BootView(segments, physicalEnd, p);
    }
  }

  /** A fresh root, the low 4 GiB and the HHDM. */
  method MapWindows(fw: Machine, physicalEnd: nat) returns (r: Result<PageTables>)
    requires fw.Valid() && fw.tables == map[] && physicalEnd <= LOWER_HALF_END
    modifies fw`script, fw`used, fw`tables, fw`refusals
    ensures fw.Valid()
    ensures r.Ok? <==> fw.refusals == old(fw.refusals)
    ensures r.Ok? ==> fresh(r.value) && r.value.fw == fw && r.value.Valid()
    ensures forall f | old(fw.NeverTable(f)) :: fw.NeverTable(f)
    ensures r.Ok? ==> BootMapped(fw.tables, r.value.root, [], physicalEnd)
  {
    hide Tree, Walk, BootView;
    var tables := PageTables.New(fw);
    if tables.Err? { return tables; }
    var t := tables.value;
    ghost var empty := fw.tables;
    var identity, _ := t.MapIdentityFirst4G();
    if identity.Err? { return Err(identity.message); }
    ghost var low := fw.tables;
    assert HhdmGigabytes(physicalEnd) <= 0x2_0000;
    forall g | 0 <= g < HhdmGigabytes(physicalEnd) ensures DirectoryOf(HHDM_OFFSET + g * PAGE_1G) !in t.at {
      forall h | 0 <= h < 4 { WindowsApart(HhdmGigabytes(physicalEnd), g, h); }
    }
    var hhdm, _ := t.MapHhdmThrough(HHDM_OFFSET, physicalEnd);
    if hhdm.Err? { return Err(hhdm.message); }
    IdentityThenHhdm(empty, low, fw.tables, t.root, physicalEnd);
    r := Ok(t);
  }

  /** The mapping steps of `boot_limine`: the windows, then every segment in order.
      It fails exactly when the firmware refuses a page, or a segment reaches
      the null page's leaf. */
  method MapKernel(fw: Machine, segments: seq<LoadedSegment>, physicalEnd: nat) returns (r: Result<PageTables>)
    requires fw.Valid() && fw.tables == map[]
    requires physicalEnd <= LOWER_HALF_END && (forall s <- segments :: Mappable(s)) && Harmless(fw, segments, physicalEnd)
    modifies fw`script, fw`used, fw`tables, fw`bytes, fw`refusals
    ensures fw.Valid()
    ensures r.Ok? <==> fw.refusals == old(fw.refusals) && forall s <- segments :: !OverNullPage(s)
    ensures r.Ok? ==> fw.bytes == Strays(old(fw.bytes), segments, physicalEnd)
    ensures (forall s <- segments :: HHDM_OFFSET + HhdmSpan(physicalEnd) <= s.virtualAddress) ==> fw.bytes == old(fw.bytes)
    ensures r.Ok? ==> fresh(r.value) && r.value.fw == fw && r.value.Valid()
    ensures r.Ok? ==> forall a | 0 <= a < ADDRESS_LIMIT ::
      Translate(fw.tables, r.value.root, a) == if Canonical(a) then Promised(segments, physicalEnd, a) else PageFault
    ensures r.Ok? ==> forall a | 0 <= a < ADDRESS_LIMIT && SegmentAt(segments, a).Some? && !InWindows(physicalEnd, a) ::
      ByFlags(Translate(fw.tables, r.value.root, a), segments[SegmentAt(segments, a).value].flags)
  {
    hide Tree, Walk, BootView, PathOf, Translate, Promised, HhdmGigabytes, HhdmSpan, RangePages, RangeStrays, StrayFrame,
         OverNullPage, Mappable;
    r := MapWindows(fw, physicalEnd);
    if r.Err? { return; }
    var t := r.value;
    forall s <- segments ensures RangeHarmless(fw, s, physicalEnd) { assert old(RangeHarmless(fw, s, physicalEnd)); }
    hide RangeHarmless;
    for i := 0 to |segments|
      invariant t.Valid() && t.fw == fw && fresh(t) && BootMapped(fw.tables, t.root, segments[..i], physicalEnd)
      invariant fw.refusals == old(fw.refusals) && Harmless(fw, segments, physicalEnd)
      invariant forall s <- segments[..i] :: !OverNullPage(s)
      invariant fw.bytes == Strays(old(fw.bytes), segments[..i], physicalEnd)
      invariant (forall s <- segments :: HHDM_OFFSET + HhdmSpan(physicalEnd) <= s.virtualAddress) ==> fw.bytes == old(fw.bytes)
    {
      var s := segments[i];
      assert s in segments && forall u <- segments[..i] :: u in segments;
      var mapped := MapSegment(t, segments[..i], s, physicalEnd);
      if mapped.Err? { return Err(mapped.message); }
      assert segments[..i + 1] == segments[..i] + [s];
      StraysStep(old(fw.bytes), segments[..i], s, physicalEnd);
    }
    assert segments[..|segments|] == segments;
    HhdmBound(physicalEnd);
    forall a | 0 <= a < ADDRESS_LIMIT
      ensures Translate(fw.tables, t.root, a) == if Canonical(a) then Promised(segments, physicalEnd, a) else PageFault
    {
      BootMapIsPromised(fw.tables, t.root, segments, physicalEnd, a);
    }
    forall a | 0 <= a < ADDRESS_LIMIT && SegmentAt(segments, a).Some? && !InWindows(physicalEnd, a)
      ensures ByFlags(Translate(fw.tables, t.root, a), segments[SegmentAt(segments, a).value].flags)
    {
      FlagsSeen(fw.tables, t.root, segments, physicalEnd, a);
    }
  }

  /** The call of `map_range` for one segment. */
  method MapSegment(t: PageTables, segments: seq<LoadedSegment>, s: LoadedSegment, physicalEnd: nat) returns (r: Result<()>)
    requires t.Valid() && BootMapped(t.fw.tables, t.root, segments, physicalEnd) && physicalEnd <= LOWER_HALF_END
    requires Mappable(s) && RangeHarmless(t.fw, s, physicalEnd)
    modifies t`at, t.fw`script, t.fw`used, t.fw`tables, t.fw`bytes, t.fw`refusals
    ensures t.Valid()
    ensures forall u: LoadedSegment :: old(RangeHarmless(t.fw, u, physicalEnd)) ==> RangeHarmless(t.fw, u, physicalEnd)
    ensures r.Ok? <==> t.fw.refusals == old(t.fw.refusals) && !OverNullPage(s)
    ensures r.Ok? ==> BootMapped(t.fw.tables, t.root, segments + [s], physicalEnd)
    ensures r.Ok? ==> t.fw.bytes == RangeStrays(old(t.fw.bytes), s, RangePages(s.length), physicalEnd)
    ensures HHDM_OFFSET + HhdmSpan(physicalEnd) <= s.virtualAddress ==> t.fw.bytes == old(t.fw.bytes)
  {
    hide Tree, Walk, BootView, PathOf, HhdmGigabytes, HhdmSpan, RangePages, RangeStrays, StrayFrame, StrayBytes, LengthOverflows;
    ghost var before, bytes := t.fw.tables, t.fw.bytes;
    SegmentFits(t, segments, s, physicalEnd);
    PartStrays(t, bytes, segments, physicalEnd, s);
    var mapped, done := t.MapRange(s.virtualAddress, s.physicalAddress, s.length, s.flags);
    if HHDM_OFFSET + HhdmSpan(physicalEnd) <= s.virtualAddress { NothingAstray(bytes, s, done, physicalEnd); }
    if mapped.Ok? { SegmentMapped(before, t.fw.tables, t.root, segments, s, physicalEnd); }
    r := mapped;
  }

  /** The permissions of a page of a segment are those of its flags. */
  lemma FlagsSeen(tables: Tables, root: nat, segments: seq<LoadedSegment>, physicalEnd: nat, a: nat)
    requires a < ADDRESS_LIMIT && SegmentAt(segments, a).Some? && !InWindows(physicalEnd, a)
    requires forall s <- segments :: Mappable(s)
    requires Translate(tables, root, a) == if Canonical(a) then Promised(segments, physicalEnd, a) else PageFault
    ensures var s := segments[SegmentAt(segments, a).value];
      && ByFlags(Translate(tables, root, a), s.flags)
      && Translate(tables, root, a).physical == s.physicalAddress + (a - s.virtualAddress)
  {
    hide Translate, RangePages, SegmentAt, SegmentAccess, HhdmSpan;
    SegmentAtGivesAccess(segments, a);
    var s := segments[SegmentAt(segments, a).value];
    assert s in segments && Mappable(s);
    assert HHDM_OFFSET <= a;
    assert Canonical(a);
  }

  /** The HHDM covers all physical memory, in the least whole number of
      gigabytes, but four at least. */
  lemma HhdmIsLeast(physicalEnd: nat)
    ensures physicalEnd <= HhdmSpan(physicalEnd) && HhdmSpan(physicalEnd) % 0x4000_0000 == 0
    ensures HhdmSpan(physicalEnd) >= 0x1_0000_0000
    ensures forall n: nat | n >= 4 && physicalEnd <= n * 0x4000_0000 :: HhdmSpan(physicalEnd) <= n * 0x4000_0000
  {
    forall n: nat | n >= 4 && physicalEnd <= n * 0x4000_0000 ensures HhdmSpan(physicalEnd) <= n * 0x4000_0000 {
      assert (physicalEnd + (PAGE_1G - 1)) / PAGE_1G <= n;
    }
  }

  /** The identity and direct maps, in numbers: the first 4 GiB stand at their
      own addresses, and all physical memory at its address above the higher
      half, readable, writable and executable. */
  lemma MemoryIsVisible(segments: seq<LoadedSegment>, physicalEnd: nat, a: nat)
    ensures a < 0x1_0000_0000 ==> Promised(segments, physicalEnd, a) == Access(a, true, false)
    ensures a < 0x1_0000_0000 || a < physicalEnd ==>
      Promised(segments, physicalEnd, 0xffff_8000_0000_0000 + a) == Access(a, true, false)
  {
    hide SegmentAccess;
    HhdmIsLeast(physicalEnd);
  }

  lemma StraysStep(bytes: map<nat, bv8>, segments: seq<LoadedSegment>, s: LoadedSegment, physicalEnd: nat)
    ensures Strays(bytes, segments + [s], physicalEnd) ==
            RangeStrays(Strays(bytes, segments, physicalEnd), s, RangePages(s.length), physicalEnd)
  {
    assert (segments + [s])[..|segments|] == segments;
  }

  lemma PartStrays(t: PageTables, bytes: map<nat, bv8>, segments: seq<LoadedSegment>, physicalEnd: nat, s: LoadedSegment)
    requires t.Valid() && BootMapped(t.fw.tables, t.root, segments, physicalEnd) && physicalEnd <= LOWER_HALF_END
    requires Mappable(s)
    ensures forall n: nat | n <= RangePages(s.length) ::
      StrayBytes(bytes, t.fw.tables, t.root, s.virtualAddress, s.physicalAddress, n, s.flags) ==
      RangeStrays(bytes, s, n, physicalEnd)
  {
    forall n: nat | n <= RangePages(s.length)
      ensures StrayBytes(bytes, t.fw.tables, t.root, s.virtualAddress, s.physicalAddress, n, s.flags) ==
              RangeStrays(bytes, s, n, physicalEnd)
    {
      SameStrays(t, bytes, segments, physicalEnd, s, n);
    }
  }

  lemma HhdmBound(physicalEnd: nat)
    requires physicalEnd <= LOWER_HALF_END
    ensures HhdmGigabytes(physicalEnd) <= 0x2_0000
  {}

  lemma SegmentFits(t: PageTables, segments: seq<LoadedSegment>, s: LoadedSegment, physicalEnd: nat)
    requires t.Valid() && BootMapped(t.fw.tables, t.root, segments, physicalEnd) && physicalEnd <= LOWER_HALF_END
    requires Mappable(s) && RangeHarmless(t.fw, s, physicalEnd)
    ensures forall k | 0 <= k < RangePages(s.length) :: t.fw.NeverTable(t.LeafFrame(s.virtualAddress + k * PAGE_SIZE))
    ensures (exists k | 0 <= k < RangePages(s.length) :: t.NullLeaf(s.virtualAddress + k * PAGE_SIZE)) <==> OverNullPage(s)
  {
    hide BootMapped, Mappable, RangePages, Tree, Walk, PathOf, StrayFrame, HhdmSpan;
    forall k | 0 <= k < RangePages(s.length)
      ensures t.fw.NeverTable(t.LeafFrame(s.virtualAddress + k * PAGE_SIZE))
      ensures t.NullLeaf(s.virtualAddress + k * PAGE_SIZE) <==> s.virtualAddress + k * PAGE_SIZE < HHDM_OFFSET + PAGE_2M
    {
      SegmentPage(t, segments, physicalEnd, s, k);
    }
    if OverNullPage(s) { assert t.NullLeaf(s.virtualAddress + 0 * PAGE_SIZE); }
  }

  // ----- one page, wherever the file puts it

  /** The 2 MiB leaves are where the windows are. */
  lemma WindowsOnly(segments: seq<LoadedSegment>, physicalEnd: nat, a: nat)
    requires Canonical(a) && physicalEnd <= LOWER_HALF_END
    ensures OnWindow(BootView(segments, physicalEnd, PathOf(a))) <==> InWindows(physicalEnd, a)
  {
    HhdmBound(physicalEnd);
    hide PathOf, HhdmGigabytes, WindowView;
    WindowsAt(physicalEnd, a);
    SegmentsKeepWindows(segments, PathOf(a),
      WindowView(HHDM_OFFSET, HhdmGigabytes(physicalEnd), PathOf(a), WindowView(0, 4, PathOf(a), Fault)));
  }

  /** What the program header asks for one page is what the processor sees
      exactly when the page is off the windows, or asks for what the window has
      there anyway and its stray entry does not break the walk to it. */
  method MapSegmentPage(t: PageTables, segments: seq<LoadedSegment>, physicalEnd: nat, a: nat, physical: nat, flags: nat)
      returns (r: Result<()>)
    requires t.Valid() && BootMapped(t.fw.tables, t.root, segments, physicalEnd) && physicalEnd <= LOWER_HALF_END
    requires Canonical(a) && a % PAGE_SIZE == 0 && forall s <- segments :: Mappable(s)
    requires PageAddress(physical) && physical !in t.fw.tables
    modifies t`at, t.fw`script, t.fw`used, t.fw`tables, t.fw`bytes, t.fw`refusals
    ensures r.Ok? ==>
      (Translate(t.fw.tables, t.root, a) == Access(physical, SegmentWritable(flags), SegmentNoExecute(flags)) <==>
        !InWindows(physicalEnd, a) ||
        (physical == WindowTarget(a) && SegmentWritable(flags) && !SegmentNoExecute(flags) &&
         !Hits(old(t.at), PathOf(a), old(t.LeafFrame(a)))))
  {
    hide Walk, BootView, PathOf, Tree, SegmentWritable, SegmentNoExecute, TestBit, FrameBits, HhdmGigabytes, Hits, LeafWord;
    WindowsOnly(segments, physicalEnd, a);
    HhdmBound(physicalEnd);
    ghost var before, at, frame := t.fw.tables, t.at, t.LeafFrame(a);
    ghost var word := LeafWord(physical, SegmentWritable(flags), SegmentNoExecute(flags));
    BootMapIsPromised(before, t.root, segments, physicalEnd, a);
    LeafWordFacts(physical, SegmentWritable(flags), SegmentNoExecute(flags));
    NoTableHit(before, at, PathOf(a), frame);
    if frame in before && t.UnderWindow(a) { StrayWalk(before, at, PathOf(a), frame, word); }
    r := t.MapPage(a, physical, flags);
    if r.Ok? {
      if InWindows(physicalEnd, a) {
        PathEnd(a);
      } else {
        assert Walk(t.fw.tables, t.root, PathOf(a)) ==
          Mapped(physical, PAGE_SIZE, SegmentWritable(flags), SegmentNoExecute(flags));
      }
    }
  }

  /** Only a table can be hit, and every table can be read. */
  lemma NoTableHit(tables: Tables, at: Places, p: VPath, frame: nat)
    requires Tree(tables, at)
    ensures Hits(at, p, frame) ==> frame in tables
    ensures frame in tables ==> ReadsTable(tables, frame)
  {
    if frame in tables {
      assert frame in at.Values;
    }
  }
}
