/** Placing an ELF image in memory: `load_segments` of
    crates/r-boot/src/main.rs. */
module Loader {
  import opened Wrappers
  import opened LongMode
  import opened PageWords
  import opened Firmware
  import opened Elf
  import opened Paging

  /** Bytes of physical memory a loaded segment owns: whole pages. */
  function Extent(s: LoadedSegment): nat { RangePages(s.length) * PAGE_SIZE }

  predicate Owns(s: LoadedSegment, address: nat) {
    s.physicalAddress <= address < s.physicalAddress + Extent(s)
  }

  /** The byte the image asks for at offset `i` of a segment. */
  function Content(file: Bytes, s: LoadedSegment, i: nat): bv8
    requires s.fileOffset + s.fileSize <= |file|
  {
    if i < s.fileSize then file[s.fileOffset + i] else 0
  }

  /** Memory holds the segment: file bytes first, zeroes to the end of its last page. */
  ghost predicate Holds(bytes: map<nat, bv8>, file: Bytes, s: LoadedSegment)
    requires s.fileOffset + s.fileSize <= |file|
  {
    forall a: nat | Owns(s, a) :: a in bytes && bytes[a] == Content(file, s, a - s.physicalAddress)
  }

  /** `l` is segment `s` placed somewhere below 4 GiB, on whole pages. */
  predicate PlacedAs(s: Segment, l: LoadedSegment) {
    && l.virtualAddress == s.virtualAddress && l.length == s.memorySize && l.flags == s.flags
    && l.fileOffset == s.fileOffset && l.fileSize == s.fileSize
    && PageAddress(l.physicalAddress) && l.physicalAddress != 0
    && PagesFor(l.length).Ok? && l.physicalAddress + Extent(l) <= 0x1_0000_0000
  }

  ghost predicate Apart(s: LoadedSegment, t: LoadedSegment) {
    forall a :: !(Owns(s, a) && Owns(t, a))
  }

  ghost predicate AllApart(segments: seq<LoadedSegment>) {
    forall j, k | 0 <= j < k < |segments| :: Apart(segments[j], segments[k])
  }

  function RunOf(s: LoadedSegment): set<nat> { PageRun(s.physicalAddress, RangePages(s.length)) }

  lemma OwnedPage(s: LoadedSegment, a: nat)
    requires PageAddress(s.physicalAddress) && Owns(s, a)
    ensures PageBase(a) in RunOf(s)
  {
    var k := (a - s.physicalAddress) / PAGE_SIZE;
    var m := s.physicalAddress / PAGE_SIZE;
    assert s.physicalAddress == m * PAGE_SIZE;
    assert a / PAGE_SIZE == m + k;
    assert PageBase(a) == s.physicalAddress + k * PAGE_SIZE;
  }

  lemma DisjointRunsApart(s: LoadedSegment, t: LoadedSegment)
    requires PageAddress(s.physicalAddress) && PageAddress(t.physicalAddress) && RunOf(s) * RunOf(t) == {}
    ensures Apart(s, t)
  {
    forall a ensures !(Owns(s, a) && Owns(t, a)) {
      assert PageBase(a) !in RunOf(s) * RunOf(t);
      if Owns(s, a) {
        OwnedPage(s, a);
        if Owns(t, a) {
          OwnedPage(t, a);
        }
      }
    }
  }

  /** Memory after `content` is stored from `base` on. */
  function Filled(bytes: map<nat, bv8>, base: nat, content: Bytes): map<nat, bv8> {
    if content == [] then bytes
    else Filled(bytes, base, content[..|content| - 1])[base + |content| - 1 := content[|content| - 1]]
  }

  lemma {:induction false} FilledAt(bytes: map<nat, bv8>, base: nat, content: Bytes, a: nat)
    ensures base <= a < base + |content| ==>
      a in Filled(bytes, base, content) && Filled(bytes, base, content)[a] == content[a - base]
    ensures !(base <= a < base + |content|) ==>
      (a in Filled(bytes, base, content) <==> a in bytes) &&
      (a in bytes ==> Filled(bytes, base, content)[a] == bytes[a])
  {
    if content != [] {
      FilledAt(bytes, base, content[..|content| - 1], a);
    }
  }

  /** Zero-fill, then copy: `write_bytes` and `copy_nonoverlapping`. */
  function Placed(bytes: map<nat, bv8>, file: Bytes, l: LoadedSegment): map<nat, bv8>
    requires l.fileOffset + l.fileSize <= |file|
  {
    var zeroed := Filled(bytes, l.physicalAddress, seq(Extent(l), _ => 0));
    Filled(zeroed, l.physicalAddress, file[l.fileOffset..l.fileOffset + l.fileSize])
  }

  lemma PlacedAt(bytes: map<nat, bv8>, file: Bytes, l: LoadedSegment, a: nat)
    requires l.fileOffset + l.fileSize <= |file| && l.fileSize <= Extent(l)
    ensures Owns(l, a) ==>
      a in Placed(bytes, file, l) && Placed(bytes, file, l)[a] == Content(file, l, a - l.physicalAddress)
    ensures !Owns(l, a) ==> (a in Placed(bytes, file, l) <==> a in bytes) &&
                            (a in bytes ==> Placed(bytes, file, l)[a] == bytes[a])
  {
    hide Filled;
    FilledAt(bytes, l.physicalAddress, seq(Extent(l), _ => 0), a);
    FilledAt(Filled(bytes, l.physicalAddress, seq(Extent(l), _ => 0)), l.physicalAddress,
             file[l.fileOffset..l.fileOffset + l.fileSize], a);
  }

  /** What placing a segment does to memory: it holds the segment, and every
      byte outside the segment's pages is as it was. */
  ghost predicate OnlyAdds(before: map<nat, bv8>, after: map<nat, bv8>, file: Bytes, l: LoadedSegment)
    requires l.fileOffset + l.fileSize <= |file|
  {
    && Holds(after, file, l)
    && (forall a: nat | !Owns(l, a) :: (a in after <==> a in before) && (a in before ==> after[a] == before[a]))
  }

  lemma PlacedHolds(bytes: map<nat, bv8>, file: Bytes, l: LoadedSegment)
    requires l.fileOffset + l.fileSize <= |file| && l.fileSize <= Extent(l)
    ensures OnlyAdds(bytes, Placed(bytes, file, l), file, l)
  {
    hide Placed, Content, Extent;
    var after := Placed(bytes, file, l);
    forall a: nat | !Owns(l, a) ensures (a in after <==> a in bytes) && (a in bytes ==> after[a] == bytes[a]) {
      PlacedAt(bytes, file, l, a);
    }
    forall a: nat | Owns(l, a) ensures a in after && after[a] == Content(file, l, a - l.physicalAddress) {
      PlacedAt(bytes, file, l, a);
    }
  }

  /** A run of pages that were free holds no table and no byte. */
  lemma FreshRun(fw: Machine, used: set<nat>, l: LoadedSegment)
    requires fw.Valid() && PageAddress(l.physicalAddress)
    requires forall t <- fw.tables :: t in used
    requires RunOf(l) * used == {} && fw.used == used + RunOf(l)
    ensures forall a | Owns(l, a) :: PageBase(a) in fw.used && PageBase(a) !in fw.tables
  {
    forall a | Owns(l, a) ensures PageBase(a) in fw.used && PageBase(a) !in fw.tables {
      OwnedPage(l, a);
      assert PageBase(a) !in RunOf(l) * used;
    }
  }

  /** One segment, on pages of its own. */
  method Place(fw: Machine, file: Bytes, s: Segment) returns (r: Result<LoadedSegment>)
    requires fw.Valid() && s.fileOffset + s.fileSize <= |file| && s.fileSize <= s.memorySize
    modifies fw`script, fw`used, fw`bytes, fw`refusals
    ensures fw.Valid()
    ensures forall f | old(fw.NeverTable(f)) :: fw.NeverTable(f)
    ensures r.Ok? <==> PagesFor(s.memorySize).Ok? && fw.refusals == old(fw.refusals)
    ensures r.Ok? <==>
      PagesFor(s.memorySize).Ok? && old(fw.Grants(PagesFor(s.memorySize).value, KERNEL_MAX_ADDRESS + PAGE_SIZE))
    ensures r.Ok? ==> r.value.physicalAddress == old(fw.script)[0] && fw.script == old(fw.script)[1..]
    ensures r.Err? ==> fw.bytes == old(fw.bytes) && fw.used == old(fw.used) && r.message != TRUNCATED
    ensures r.Ok? ==> PlacedAs(s, r.value) && OnlyAdds(old(fw.bytes), fw.bytes, file, r.value)
    ensures r.Ok? ==> RunOf(r.value) * old(fw.used) == {} && fw.used == old(fw.used) + RunOf(r.value)
  {
    hide Placed, PageRun, PageBase, OnlyAdds;
    var pages := PagesFor(s.memorySize);
    if pages.Err? { return Err(pages.message); }
    var memory := fw.AllocateLow(pages.value);
    if memory.Err? { return Err(memory.message); }
    var l := LoadedSegment(s.virtualAddress, memory.value, s.memorySize, s.flags, s.fileOffset, s.fileSize);
    PlacedHolds(fw.bytes, file, l);
    FreshRun(fw, old(fw.used), l);
    PlacedDomain(fw, file, l);
    fw.bytes := Placed(fw.bytes, file, l);
    r := Ok(l);
  }

  const TRUNCATED := "truncated ELF header"

  lemma PlacedDomain(fw: Machine, file: Bytes, l: LoadedSegment)
    requires fw.Valid() && l.fileOffset + l.fileSize <= |file| && l.fileSize <= Extent(l)
    requires forall a | Owns(l, a) :: PageBase(a) in fw.used && PageBase(a) !in fw.tables
    ensures forall b <- Placed(fw.bytes, file, l) :: PageBase(b) in fw.used && PageBase(b) !in fw.tables
  {
    forall b <- Placed(fw.bytes, file, l) ensures PageBase(b) in fw.used && PageBase(b) !in fw.tables {
      PlacedAt(fw.bytes, file, l, b);
    }
  }

  /** What `load_segments` leaves behind: each PT_LOAD segment of the file in
      order, in memory of its own. */
  ghost predicate AllLoaded(bytes: map<nat, bv8>, file: Bytes, segments: seq<Segment>, loaded: seq<LoadedSegment>) {
    && |loaded| == |segments| && AllApart(loaded)
    && (forall k | 0 <= k < |loaded| :: PlacedAs(segments[k], loaded[k]))
    && (forall l <- loaded :: l.fileOffset + l.fileSize <= |file| && Holds(bytes, file, l))
  }

  lemma LoadStep(before: map<nat, bv8>, after: map<nat, bv8>, file: Bytes, segments: seq<Segment>,
                 loaded: seq<LoadedSegment>, s: Segment, l: LoadedSegment)
    requires AllLoaded(before, file, segments, loaded) && PlacedAs(s, l) && l.fileOffset + l.fileSize <= |file|
    requires OnlyAdds(before, after, file, l) && forall u <- loaded :: Apart(u, l)
    ensures AllLoaded(after, file, segments + [s], loaded + [l])
  {
    hide PlacedAs, Content, Extent;
    var all := loaded + [l];
    forall j, k | 0 <= j < k < |all| ensures Apart(all[j], all[k]) {
      if k == |loaded| { assert all[j] in loaded; }
    }
    forall u <- all ensures u.fileOffset + u.fileSize <= |file| && Holds(after, file, u) {
      if u in loaded {
        KeepsHolding(before, after, file, u, l);
      }
    }
  }

  lemma KeepsHolding(before: map<nat, bv8>, after: map<nat, bv8>, file: Bytes, u: LoadedSegment, l: LoadedSegment)
    requires u.fileOffset + u.fileSize <= |file| && l.fileOffset + l.fileSize <= |file|
    requires Holds(before, file, u) && OnlyAdds(before, after, file, l) && Apart(u, l)
    ensures Holds(after, file, u)
  {
    hide Content, Extent;
    forall a: nat | Owns(u, a) ensures a in after && after[a] == Content(file, u, a - u.physicalAddress) {
      assert !Owns(l, a);
    }
  }

  /** The program headers ask for something that can be loaded, memory
      permitting. */
  predicate Loadable(image: Image) {
    var segments := SegmentsFrom(image, 0);
    segments.Ok? && segments.value != [] && forall s <- segments.value :: PagesFor(s.memorySize).Ok?
  }

  /** `load_segments`. It succeeds exactly when the headers are loadable and no
      allocation is refused; a file that parsed never fails on a header read. */
  method LoadImage(fw: Machine, image: Image) returns (r: Result<seq<LoadedSegment>>)
    requires fw.Valid() && Parse(image.bytes) == Ok(image)
    modifies fw`script, fw`used, fw`bytes, fw`refusals
    ensures fw.Valid()
    ensures forall f | old(fw.NeverTable(f)) :: fw.NeverTable(f)
    ensures r.Ok? <==> Loadable(image) && fw.refusals == old(fw.refusals)
    ensures r.Ok? ==> r.value != []
    ensures r.Ok? ==> AllLoaded(fw.bytes, image.bytes, SegmentsFrom(image, 0).value, r.value)
    ensures r.Err? ==> r.message != TRUNCATED
  {
    hide Parse, SegmentsFrom, PlacedAs, AllLoaded, OnlyAdds;
    SegmentsAccepted(image.bytes, 0);
    var segments := LoadSegments(image);
    if segments.Err? { return Err(segments.message); }
    var loaded: seq<LoadedSegment> := [];
    LoadNothing(fw.bytes, image.bytes);
    for i := 0 to |segments.value|
      invariant fw.Valid() && AllLoaded(fw.bytes, image.bytes, segments.value[..i], loaded)
      invariant |loaded| == i && fw.refusals == old(fw.refusals)
      invariant forall f | old(fw.NeverTable(f)) :: fw.NeverTable(f)
      invariant forall s <- segments.value[..i] :: PagesFor(s.memorySize).Ok?
      invariant forall l <- loaded :: RunOf(l) <= fw.used && PageAddress(l.physicalAddress)
    {
      var s := segments.value[i];
      assert Accepted(image, s);
      ghost var before, used := fw.bytes, fw.used;
      var l := Place(fw, image.bytes, s);
      if l.Err? { return Err(l.message); }
      PlacedAsFacts(s, l.value);
      forall u <- loaded ensures Apart(u, l.value) { DisjointRunsApart(u, l.value); }
      LoadStep(before, fw.bytes, image.bytes, segments.value[..i], loaded, s, l.value);
      assert segments.value[..i + 1] == segments.value[..i] + [s];
      loaded := loaded + [l.value];
    }
    assert segments.value[..|segments.value|] == segments.value;
    if loaded == [] { return Err("ELF has no PT_LOAD segments"); }
    r := Ok(loaded);
  }

  lemma LoadNothing(bytes: map<nat, bv8>, file: Bytes)
    ensures AllLoaded(bytes, file, [], [])
  {}

  lemma PlacedAsFacts(s: Segment, l: LoadedSegment)
    requires PlacedAs(s, l)
    ensures PageAddress(l.physicalAddress) && l.fileOffset == s.fileOffset && l.fileSize == s.fileSize
    ensures l.flags == s.flags && l.virtualAddress == s.virtualAddress
  {}
}
