/** `boot_limine` of crates/r-boot/src/main.rs from the ELF file to the tables:
    what the kernel's first instructions find in memory. */
module Handoff {
  import opened Wrappers
  import opened LongMode
  import opened PageTree
  import opened Firmware
  import opened Elf
  import opened Paging
  import opened ElfLayout
  import opened Loader
  import opened Responses
  import opened BootMap
  import opened MemoryMap

  // ----- the memory map

  function ImageRanges(segments: seq<LoadedSegment>): (r: seq<Range>)
    ensures |r| == |segments|
    ensures forall i | 0 <= i < |r| :: r[i] == Range(segments[i].physicalAddress, segments[i].length, 6)
  {
    seq(|segments|, i requires 0 <= i < |segments| => Range(segments[i].physicalAddress, segments[i].length, 6))
  }

  function ModuleRanges(modules: seq<(nat, nat)>): (r: seq<Range>)
    ensures forall e <- r :: e.kind == 6
  {
    seq(|modules|, i requires 0 <= i < |modules| => Range(modules[i].0, modules[i].1, 6))
  }

  function FramebufferRange(framebuffer: Option<(nat, nat)>): seq<Range> {
    match framebuffer case None => [] case Some(f) => [Range(f.0, f.1, 7)]
  }

  /** The special ranges of `Limine::prepare`: loaded segments and modules keep
      their exact lengths (kind 6), the framebuffer is kind 7. */
  function SpecialRanges(segments: seq<LoadedSegment>, modules: seq<(nat, nat)>,
                         framebuffer: Option<(nat, nat)>): seq<Range> {
    ImageRanges(segments) + ModuleRanges(modules) + FramebufferRange(framebuffer)
  }

  /** Every byte of a loaded segment is reported as kernel memory, or as
      framebuffer where the framebuffer covers it, and so never as usable,
      whatever the firmware says about the pages. */
  lemma ImageNeverUsable(segments: seq<LoadedSegment>, modules: seq<(nat, nat)>, framebuffer: Option<(nat, nat)>,
                         descriptors: seq<Descriptor>, k: nat, x: nat)
    requires k < |segments| && segments[k].physicalAddress <= x < segments[k].physicalAddress + segments[k].length
    requires x < MAX_U64
    ensures forall e <- FullMap(SpecialRanges(segments, modules, framebuffer), descriptors) :: InEntry(e, x) ==>
      e.kind == if exists f <- FramebufferRange(framebuffer) :: InRange(f, x) then 7 else 6
  {
    hide FullMap, KindAt, ImageRanges, ModuleRanges;
    var ranges := SpecialRanges(segments, modules, framebuffer);
    var image, more, last := ImageRanges(segments), ModuleRanges(modules), FramebufferRange(framebuffer);
    forall default: nat
      ensures KindAt(ranges, x, default) == if exists f <- last :: InRange(f, x) then 7 else 6
    {
      KindOfConcat(image + more, last, x, default);
      KindOfConcat(image, more, x, default);
      assert InRange(image[k], x) && image[k] in image;
      SameKindRanges(image, 6, x, default);
      SameKindRanges(more, 6, x, 6);
      SameKindRanges(last, 7, x, 6);
    }
    forall e <- FullMap(ranges, descriptors) | InEntry(e, x)
      ensures e.kind == if exists f <- last :: InRange(f, x) then 7 else 6
    {
      ReportedKind(ranges, descriptors, x, e.kind);
    }
  }

  /** Every byte of a loaded module likewise. */
  lemma ModulesNeverUsable(segments: seq<LoadedSegment>, modules: seq<(nat, nat)>, framebuffer: Option<(nat, nat)>,
                           descriptors: seq<Descriptor>, k: nat, x: nat)
    requires k < |modules| && modules[k].0 <= x < modules[k].0 + modules[k].1 && x < MAX_U64
    ensures forall e <- FullMap(SpecialRanges(segments, modules, framebuffer), descriptors) :: InEntry(e, x) ==>
      e.kind == if exists f <- FramebufferRange(framebuffer) :: InRange(f, x) then 7 else 6
  {
    hide FullMap, KindAt, ImageRanges;
    var ranges := SpecialRanges(segments, modules, framebuffer);
    var image, more, last := ImageRanges(segments), ModuleRanges(modules), FramebufferRange(framebuffer);
    assert more[k] == Range(modules[k].0, modules[k].1, 6) && more[k] in more && InRange(more[k], x);
    hide ModuleRanges;
    forall default: nat
      ensures KindAt(ranges, x, default) == if exists f <- last :: InRange(f, x) then 7 else 6
    {
      KindOfConcat(image + more, last, x, default);
      KindOfConcat(image, more, x, default);
      SameKindRanges(more, 6, x, KindAt(image, x, default));
      SameKindRanges(last, 7, x, 6);
    }
    forall e <- FullMap(ranges, descriptors) | InEntry(e, x)
      ensures e.kind == if exists f <- last :: InRange(f, x) then 7 else 6
    {
      ReportedKind(ranges, descriptors, x, e.kind);
    }
  }

  /** Every byte of the framebuffer is reported as framebuffer. */
  lemma FramebufferReported(segments: seq<LoadedSegment>, modules: seq<(nat, nat)>, base: nat, length: nat,
                            descriptors: seq<Descriptor>, x: nat)
    requires base <= x < base + length && x < MAX_U64
    ensures forall e <- FullMap(SpecialRanges(segments, modules, Some((base, length))), descriptors) ::
      InEntry(e, x) ==> e.kind == 7
  {
    hide FullMap, KindAt, ImageRanges, ModuleRanges;
    var ranges := SpecialRanges(segments, modules, Some((base, length)));
    var before, last := ImageRanges(segments) + ModuleRanges(modules), FramebufferRange(Some((base, length)));
    assert InRange(last[0], x) && last[0] in last;
    forall default: nat ensures KindAt(ranges, x, default) == 7 {
      KindOfConcat(before, last, x, default);
      SameKindRanges(last, 7, x, KindAt(before, x, default));
    }
    forall e <- FullMap(ranges, descriptors) | InEntry(e, x) ensures e.kind == 7 {
      ReportedKind(ranges, descriptors, x, e.kind);
    }
  }

  // ----- the image

  /** What the ELF reader does not check: the pages of a segment must not wrap. */
  predicate NoWrap(s: Segment) {
    PagesFor(s.memorySize).Ok? ==> s.virtualAddress + PagesFor(s.memorySize).value * PAGE_SIZE <= ADDRESS_LIMIT
  }

  /** The pages that take the entries of a segment's pages under the HHDM. */
  ghost function StrayFrames(s: Segment, physicalEnd: nat): iset<nat> {
    if PagesFor(s.memorySize).Err? then iset{} else
    iset k | 0 <= k < PagesFor(s.memorySize).value :: StrayFrame(physicalEnd, s.virtualAddress + k * PAGE_SIZE)
  }

  /** None of them may be or become a page table. */
  ghost predicate SegmentHarmless(fw: Machine, s: Segment, physicalEnd: nat)
    reads fw`script, fw`used, fw`tables
  {
    forall f <- StrayFrames(s, physicalEnd) :: fw.NeverTable(f)
  }

  /** The reader does not keep segments out of the HHDM window: whatever the
      file, a header asking for one byte at its start is accepted. */
  lemma AcceptedInsideWindow(image: Image, offset: nat, physicalEnd: nat)
    requires offset + PROGRAM_HEADER_SIZE <= |image.bytes|
    ensures var h := CheckHeader(image, offset, HHDM_OFFSET, 0, 0, 1);
      h.Loads? && PagesFor(h.segment.memorySize).Ok? && InHhdm(physicalEnd, h.segment.virtualAddress)
  {
    assert HhdmSpan(physicalEnd) >= 4 * PAGE_1G;
  }

  /** The state handed to the kernel. */
  datatype Booted = Booted(root: nat, loaded: seq<LoadedSegment>, memoryMap: seq<Entry>)

  /** Every request and tag the scan can meet has its cell in the file bytes of
      some segment. */
  ghost predicate AllAnswered(file: Bytes, segments: seq<Segment>, answers: Answers) {
    forall o: nat | o % 8 == 0 && o + 24 < |file| && PatchAt(file, o, answers).Some? ::
      exists s <- segments :: SegmentHasCell(s, PatchAt(file, o, answers).value.cell)
  }

  predicate SegmentHasCell(s: Segment, c: nat) { s.fileOffset <= c && c + 8 <= s.fileOffset + s.fileSize }

  lemma AnswerableIff(file: Bytes, segments: seq<Segment>, loaded: seq<LoadedSegment>, answers: Answers)
    requires |loaded| == |segments| && forall k | 0 <= k < |loaded| :: PlacedAs(segments[k], loaded[k])
    ensures Answerable(file, loaded, answers, |file|) <==> AllAnswered(file, segments, answers)
  {
    hide PatchAt, Owner;
    forall c: nat ensures Owner(loaded, c).Some? <==> exists s <- segments :: SegmentHasCell(s, c) {
      OwnerIsFirst(loaded, c);
      if Owner(loaded, c).Some? {
        var k := Owner(loaded, c).value;
        assert segments[k] in segments && SegmentHasCell(segments[k], c) by { PlacedAsFacts(segments[k], loaded[k]); }
      } else if exists s <- segments :: SegmentHasCell(s, c) {
        var k :| 0 <= k < |segments| && SegmentHasCell(segments[k], c);
        PlacedAsFacts(segments[k], loaded[k]);
        assert loaded[k] in loaded && HoldsCell(loaded[k], c);
      }
    }
  }

  /** The whole promise about one address of the kernel's image, off the
      windows: it is mapped with the segment's permissions, and the byte behind
      it is the patched file's byte, or zero past the file's share of the
      segment, unless an entry gone astray is there. */
  ghost predicate ImageByte(tables: Tables, bytes: map<nat, bv8>, file: Bytes, answers: Answers, b: Booted, physicalEnd: nat,
                            a: nat, k: nat)
    requires k < |b.loaded| && b.loaded[k].fileOffset + b.loaded[k].fileSize <= |file|
    requires b.loaded[k].virtualAddress <= a
  {
    var s := b.loaded[k];
    var i := a - s.virtualAddress;
    var t := Translate(tables, b.root, a);
    && t == Access(s.physicalAddress + i, SegmentWritable(s.flags), SegmentNoExecute(s.flags))
    && t.physical in bytes
    && (!Struck(b.loaded, physicalEnd, t.physical) ==>
          bytes[t.physical] == PatchedByte(file, b.loaded, answers, |file|, k, i))
  }

  /** The segments of a file, none when it is not one the loader takes. */
  function SegmentsOf(file: Bytes): seq<Segment> {
    match Parse(file)
    case Err(_) => []
    case Ok(image) => match SegmentsFrom(image, 0) case Err(_) => [] case Ok(segments) => segments
  }

  predicate FileLoads(file: Bytes) { Parse(file).Ok? && Loader.Loadable(Parse(file).value) }

  /** `boot_limine`: parse, load, answer the requests, build the tables, and
      fill in the memory map after leaving the firmware. `reservation` is the
      firmware's map when the kernel is prepared, `final` the one at the end. It
      fails exactly when the file does not load, the first map is refused, a
      request lies outside every segment, a segment reaches the leaf of the null
      page, or an allocation is refused. `image` is memory with the answers in
      it, before the tables are built. */
  method BootLimine(fw: Machine, file: Bytes, answers: Answers, modules: seq<(nat, nat)>, framebuffer: Option<(nat, nat)>,
                    reservation: Result<seq<Descriptor>>, final: seq<Descriptor>)
      returns (r: Result<Booted>, ghost image: map<nat, bv8>)
    requires fw.Valid() && fw.tables == map[]
    requires reservation.Ok? ==> PhysicalEnd(reservation.value) <= LOWER_HALF_END
    requires reservation.Ok? ==> forall s <- SegmentsOf(file) ::
      NoWrap(s) && SegmentHarmless(fw, s, PhysicalEnd(reservation.value))
    modifies fw
    ensures fw.Valid()
    ensures r.Ok? <==>
      && FileLoads(file) && reservation.Ok? && AllAnswered(file, SegmentsOf(file), answers)
      && (forall s <- SegmentsOf(file) :: HHDM_OFFSET + PAGE_2M <= s.virtualAddress)
      && fw.refusals == old(fw.refusals)
    ensures r.Ok? ==> |r.value.loaded| == |SegmentsOf(file)|
    ensures r.Ok? ==> forall k | 0 <= k < |r.value.loaded| :: PlacedAs(SegmentsOf(file)[k], r.value.loaded[k])
    ensures r.Ok? ==> InFile(file, r.value.loaded) && AllApart(r.value.loaded)
    ensures r.Ok? ==> PatchedTo(image, file, r.value.loaded, answers, |file|)
    ensures r.Ok? ==> fw.bytes == Strays(image, r.value.loaded, PhysicalEnd(reservation.value))
    ensures r.Ok? && (forall s <- SegmentsOf(file) :: HHDM_OFFSET + HhdmSpan(PhysicalEnd(reservation.value)) <= s.virtualAddress) ==>
      fw.bytes == image
    ensures r.Ok? ==> forall a | 0 <= a < ADDRESS_LIMIT ::
      Translate(fw.tables, r.value.root, a) ==
      if Canonical(a) then Promised(r.value.loaded, PhysicalEnd(reservation.value), a) else PageFault
    ensures r.Ok? ==>
      forall a | 0 <= a < ADDRESS_LIMIT && SegmentAt(r.value.loaded, a).Some? && !InWindows(PhysicalEnd(reservation.value), a) ::
        ByFlags(Translate(fw.tables, r.value.root, a), SegmentsOf(file)[SegmentAt(r.value.loaded, a).value].flags)
    ensures r.Ok? ==>
      forall a | 0 <= a < ADDRESS_LIMIT && SegmentAt(r.value.loaded, a).Some? && !InWindows(PhysicalEnd(reservation.value), a) ::
        ImageByte(fw.tables, fw.bytes, file, answers, r.value, PhysicalEnd(reservation.value), a,
                  SegmentAt(r.value.loaded, a).value)
    ensures r.Ok? ==>
      var ranges := SpecialRanges(r.value.loaded, modules, framebuffer);
      r.value.memoryMap == Take(FullMap(ranges, final), Capacity(|reservation.value|, ranges))
  {
    hide SegmentsFrom, Parse, PatchedTo, Holds, Translate, Promised, ImageByte, PlacedAs, RangePages, Untouched, Answerable,
         AllAnswered, NoWrap, StrayFrames, Harmless, Accepted, PhysicalEnd, SpecialRanges, FullMap, Take, Strays, HhdmSpan,
         OverNullPage, ByFlags;
    image := map[];
    var parsed := Parse(file);
    if parsed.Err? { return Err(parsed.message), image; }
    ParseKeepsFile(file);
    ghost var asked := SegmentsOf(file);
    var loaded := LoadImage(fw, parsed.value);
    if loaded.Err? { return Err(loaded.message), image; }
    var segments := loaded.value;
    if reservation.Err? { return Err("cannot reserve Limine memory map"), image; }
    var storage := new Storage(SpecialRanges(segments, modules, framebuffer), reservation.value);
    var physicalEnd := storage.physicalEnd;
    forall s <- asked ensures SegmentHarmless(fw, s, physicalEnd) {
      assert old(SegmentHarmless(fw, s, physicalEnd));
    }
    LoadedFacts(fw, file, asked, segments, physicalEnd);
    AnswerableIff(file, asked, segments, answers);
    var responses, _ := WriteResponses(fw, file, segments, answers);
    if responses.Err? { return Err(responses.message), image; }
    image := fw.bytes;
    assert Harmless(fw, segments, physicalEnd);
    var tables := MapKernel(fw, segments, physicalEnd);
    if tables.Err? { return Err(tables.message), image; }
    storage.Populate(final);
    var b := Booted(tables.value.root, segments, storage.entries[..storage.entryCount]);
    forall a | 0 <= a < ADDRESS_LIMIT && SegmentAt(segments, a).Some? && !InWindows(physicalEnd, a)
      ensures ImageByte(fw.tables, fw.bytes, file, answers, b, physicalEnd, a, SegmentAt(segments, a).value)
    {
      SeenThroughSegment(fw.tables, image, file, answers, b, physicalEnd, a);
    }
    forall a | 0 <= a < ADDRESS_LIMIT && SegmentAt(segments, a).Some? && !InWindows(physicalEnd, a)
      ensures ByFlags(Translate(fw.tables, b.root, a), asked[SegmentAt(segments, a).value].flags)
    {
      var k := SegmentAt(segments, a).value;
      PlacedAsFacts(asked[k], segments[k]);
    }
    r := Ok(b);
  }

  lemma ParseKeepsFile(file: Bytes)
    requires Parse(file).Ok?
    ensures Parse(file).value.bytes == file
  {}

  /** What loading guarantees the later steps. */
  lemma LoadedFacts(fw: Machine, file: Bytes, segments: seq<Segment>, loaded: seq<LoadedSegment>, physicalEnd: nat)
    requires Parse(file).Ok? && SegmentsFrom(Parse(file).value, 0) == Ok(segments)
    requires AllLoaded(fw.bytes, file, segments, loaded)
    requires forall s <- segments :: NoWrap(s) && SegmentHarmless(fw, s, physicalEnd)
    ensures InFile(file, loaded) && forall l <- loaded :: Mappable(l) && Holds(fw.bytes, file, l)
    ensures forall l <- loaded :: l.physicalAddress < 0x1_0000_0000
    ensures Harmless(fw, loaded, physicalEnd)
    ensures (forall l <- loaded :: !OverNullPage(l)) <==> (forall s <- segments :: HHDM_OFFSET + PAGE_2M <= s.virtualAddress)
    ensures (forall s <- segments :: HHDM_OFFSET + HhdmSpan(physicalEnd) <= s.virtualAddress) ==>
            (forall l <- loaded :: HHDM_OFFSET + HhdmSpan(physicalEnd) <= l.virtualAddress)
  {
    hide SegmentsFrom, Parse, Holds, NoWrap, SegmentHarmless, OverNullPage, HhdmSpan, RangeHarmless, Accepted, PlacedAs;
    SegmentsAccepted(file, 0);
    forall k | 0 <= k < |loaded|
      ensures loaded[k] in loaded && segments[k] in segments
      ensures Mappable(loaded[k]) && loaded[k].fileOffset % 8 == 0 && loaded[k].fileSize <= Extent(loaded[k])
      ensures loaded[k].physicalAddress < 0x1_0000_0000 && RangeHarmless(fw, loaded[k], physicalEnd)
      ensures loaded[k].virtualAddress == segments[k].virtualAddress
      ensures OverNullPage(loaded[k]) <==> segments[k].virtualAddress < HHDM_OFFSET + PAGE_2M
    {
      LoadedMappable(fw, Parse(file).value, segments[k], loaded[k], physicalEnd);
    }
  }

  lemma LoadedMappable(fw: Machine, image: Image, s: Segment, l: LoadedSegment, physicalEnd: nat)
    requires Accepted(image, s) && PlacedAs(s, l) && NoWrap(s) && SegmentHarmless(fw, s, physicalEnd)
    ensures Mappable(l) && l.fileOffset % 8 == 0 && l.fileSize <= Extent(l)
    ensures l.physicalAddress < 0x1_0000_0000 && RangeHarmless(fw, l, physicalEnd) && l.virtualAddress == s.virtualAddress
    ensures OverNullPage(l) <==> s.virtualAddress < HHDM_OFFSET + PAGE_2M
  {
    hide HhdmSpan, StrayFrame;
    assert RangePages(l.length) == PagesFor(s.memorySize).value;
    PagesForIsLeast(s.memorySize);
    var k := l.fileOffset / PAGE_SIZE;
    assert l.fileOffset == 8 * (512 * k);
  }

  lemma SeenThroughSegment(tables: Tables, image: map<nat, bv8>, file: Bytes, answers: Answers, b: Booted,
                           physicalEnd: nat, a: nat)
    requires InFile(file, b.loaded) && PatchedTo(image, file, b.loaded, answers, |file|)
    requires a < ADDRESS_LIMIT && SegmentAt(b.loaded, a).Some? && !InWindows(physicalEnd, a)
    requires forall s <- b.loaded :: Mappable(s)
    requires Translate(tables, b.root, a) == if Canonical(a) then Promised(b.loaded, physicalEnd, a) else PageFault
    ensures ImageByte(tables, Strays(image, b.loaded, physicalEnd), file, answers, b, physicalEnd, a,
                      SegmentAt(b.loaded, a).value)
  {
    hide Translate, PatchedByte, RangePages, SegmentAccess, SegmentAt, HhdmSpan, Strays, Struck;
    SegmentAtGivesAccess(b.loaded, a);
    var k := SegmentAt(b.loaded, a).value;
    var s := b.loaded[k];
    assert s in b.loaded && Mappable(s);
    assert HHDM_OFFSET <= a;
    assert Canonical(a);
    var x := s.physicalAddress + (a - s.virtualAddress);
    assert Owns(s, x);
    StraysElsewhere(image, b.loaded, physicalEnd, x);
  }

  /** From the program header a linker wrote to the walk: the kernel may write
      the page iff the header says so, and run it iff the header says so. */
  lemma WrittenPermissions(tables: Tables, root: nat, loaded: seq<LoadedSegment>, physicalEnd: nat, a: nat,
                           image: Image, index: nat, h: ProgramHeader, x: bool, w: bool, rest: nat)
    requires a < ADDRESS_LIMIT && (forall s <- loaded :: Mappable(s)) && SegmentAt(loaded, a).Some?
    requires !(a < 0x1_0000_0000) && !(0xffff_8000_0000_0000 <= a < 0xffff_8000_0000_0000 + HhdmSpan(physicalEnd))
    requires Translate(tables, root, a) == if Canonical(a) then Promised(loaded, physicalEnd, a) else PageFault
    requires At(image.bytes, image.headersOffset + index * image.headerSize, Encode(PhdrFields(h)))
    requires ReadHeader(image, index).Loads?
    requires PlacedAs(ReadHeader(image, index).segment, loaded[SegmentAt(loaded, a).value])
    requires h.flags == (if x then 1 else 0) + (if w then 2 else 0) + 4 * rest
    ensures var s := loaded[SegmentAt(loaded, a).value];
      && s.virtualAddress == h.virtualAddress
      && Translate(tables, root, a) == Access(s.physicalAddress + (a - s.virtualAddress), w, !x)
  {
    hide Translate, Promised, ReadHeader, At, Encode, HhdmSpan, SegmentAccess, SegmentAt, PlacedAs, Mappable, PhdrFields;
    FlagDigits(h.flags, x, w, rest);
    WrittenHeaderReads(image, index, h);
    var k := SegmentAt(loaded, a).value;
    PlacedAsFacts(ReadHeader(image, index).segment, loaded[k]);
    FlagsSeen(tables, root, loaded, physicalEnd, a);
  }

  lemma FlagDigits(flags: nat, x: bool, w: bool, rest: nat)
    requires flags == (if x then 1 else 0) + (if w then 2 else 0) + 4 * rest
    ensures (flags % 2 == 0 <==> !x) && (flags / 2 % 2 == 1 <==> w)
  {}
}
