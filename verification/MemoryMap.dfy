/** The Limine memory map: UEFI descriptors cut along the special ranges
    (crates/r-boot/src/limine.rs, `MemoryMapStorage`). */
module MemoryMap {
  // UEFI memory types the classification names (UEFI 2.11, section 7.2).
  const LOADER_DATA: nat := 2
  const BOOT_SERVICES_CODE: nat := 3
  const BOOT_SERVICES_DATA: nat := 4
  const CONVENTIONAL: nat := 7
  const UNUSABLE: nat := 8
  const ACPI_RECLAIM: nat := 9
  const ACPI_NON_VOLATILE: nat := 10

  const MAX_U64: nat := 0xffff_ffff_ffff_ffff
  const UEFI_PAGE: nat := 4096

  datatype Descriptor = Descriptor(ty: nat, physStart: nat, pageCount: nat)
  datatype Range = Range(base: nat, length: nat, kind: nat)
  datatype Entry = Entry(base: nat, length: nat, kind: nat)

  function Saturate(a: nat): nat { if a > MAX_U64 then MAX_U64 else a }

  function End(d: Descriptor): nat { Saturate(d.physStart + Saturate(d.pageCount * UEFI_PAGE)) }

  function RangeEnd(r: Range): nat { Saturate(r.base + r.length) }

  /** `uefi_memory_kind`. */
  function UefiKind(ty: nat): nat {
    if ty == CONVENTIONAL then 0
    else if ty == ACPI_RECLAIM then 2
    else if ty == ACPI_NON_VOLATILE then 3
    else if ty == UNUSABLE then 4
    else if ty == BOOT_SERVICES_CODE || ty == BOOT_SERVICES_DATA then 5
    else 1
  }

  /** The highest address any descriptor reaches. */
  function PhysicalEnd(descriptors: seq<Descriptor>): (end: nat)
    ensures forall d <- descriptors :: End(d) <= end
    ensures end == 0 || exists d <- descriptors :: End(d) == end
  {
    if descriptors == [] then 0 else
    var n := |descriptors| - 1;
    assert descriptors == descriptors[..n] + [descriptors[n]];
    Max(PhysicalEnd(descriptors[..n]), End(descriptors[n]))
  }

  function Max(a: nat, b: nat): nat { if b > a then b else a }

  // ----- what the map should say, address by address

  predicate InRange(r: Range, x: nat) { r.base <= x < RangeEnd(r) }
  predicate InDescriptor(d: Descriptor, x: nat) { d.physStart <= x < End(d) }
  predicate InEntry(e: Entry, x: nat) { e.base <= x < e.base + e.length }

  /** The kind of an address: that of the last special range holding it, else
      the default. */
  function KindAt(ranges: seq<Range>, x: nat, default: nat): nat {
    if ranges == [] then default
    else if InRange(ranges[|ranges| - 1], x) then ranges[|ranges| - 1].kind
    else KindAt(ranges[..|ranges| - 1], x, default)
  }

  // ----- what the code computes

  /** The loop over the special ranges: the end and the kind of the piece that
      starts at `cursor`. */
  function Scan(ranges: seq<Range>, cursor: nat, end: nat, kind: nat): (r: (nat, nat))
    requires cursor < end
    ensures cursor < r.0 <= end
  {
    if ranges == [] then (end, kind) else
    var (next, k) := Scan(ranges[..|ranges| - 1], cursor, end, kind);
    ScanRange(ranges[|ranges| - 1], cursor, next, k)
  }

  function ScanRange(r: Range, cursor: nat, next: nat, kind: nat): (nat, nat) {
    if InRange(r, cursor) then (Min(next, RangeEnd(r)), r.kind)
    else if r.base > cursor then (Min(next, r.base), kind)
    else (next, kind)
  }

  function Min(a: nat, b: nat): nat { if b < a then b else a }

  /** All pieces of one descriptor from `cursor` on. */
  function Pieces(ranges: seq<Range>, cursor: nat, end: nat, kind: nat): seq<Entry>
    decreases end - cursor
  {
    if cursor >= end then [] else
    var (next, k) := Scan(ranges, cursor, end, kind);
    [Entry(cursor, next - cursor, k)] + Pieces(ranges, next, end, kind)
  }

  function Split(ranges: seq<Range>, d: Descriptor): seq<Entry> {
    Pieces(ranges, d.physStart, End(d), UefiKind(d.ty))
  }

  /** The map an unlimited array would receive. */
  function FullMap(ranges: seq<Range>, descriptors: seq<Descriptor>): seq<Entry> {
    if descriptors == [] then [] else Split(ranges, descriptors[0]) + FullMap(ranges, descriptors[1..])
  }

  function Take<T>(s: seq<T>, n: nat): seq<T> { if |s| <= n then s else s[..n] }

  /** The entries reserved when the kernel is prepared. */
  function Capacity(reserved: nat, ranges: seq<Range>): nat { reserved + |ranges| * 2 + 32 }

  class Storage {
    const entries: array<Entry>
    const ranges: seq<Range>
    const physicalEnd: nat
    /** The `entry_count` of the response the kernel reads. */
    var entryCount: nat

    /** `MemoryMapStorage::new`, from the memory map at reservation time. */
    constructor (ranges: seq<Range>, descriptors: seq<Descriptor>)
      ensures fresh(entries) && entries.Length == Capacity(|descriptors|, ranges)
      ensures this.ranges == ranges && entryCount == 0
      ensures physicalEnd == PhysicalEnd(descriptors)
    {
      var highest := 0;
      for i := 0 to |descriptors|
        invariant highest == PhysicalEnd(descriptors[..i])
      {
        assert descriptors[..i + 1][..i] == descriptors[..i];
        if End(descriptors[i]) > highest { highest := End(descriptors[i]); }
      }
      assert descriptors[..|descriptors|] == descriptors;
      this.entries := new Entry[Capacity(|descriptors|, ranges)](_ => Entry(0, 0, 1));
      this.ranges, this.physicalEnd, this.entryCount := ranges, highest, 0;
    }

    /** The piece at `cursor`: the inner loop of `populate`. */
    method Piece(cursor: nat, end: nat, ty: nat) returns (next: nat, kind: nat)
      requires cursor < end
      ensures (next, kind) == Scan(ranges, cursor, end, UefiKind(ty))
    {
      next, kind := end, UefiKind(ty);
      for i := 0 to |ranges|
        invariant (next, kind) == Scan(ranges[..i], cursor, end, UefiKind(ty))
      {
        assert ranges[..i + 1][..i] == ranges[..i];
        var range := ranges[i];
        var rangeEnd := RangeEnd(range);
        if cursor >= range.base && cursor < rangeEnd {
          kind := range.kind;
          next := Min(next, rangeEnd);
        } else if range.base > cursor {
          next := Min(next, range.base);
        }
      }
      assert ranges[..|ranges|] == ranges;
    }

    /** The pieces of one descriptor, appended while there is room. */
    method Append(d: Descriptor, start: nat) returns (count: nat)
      requires start <= entries.Length
      modifies entries
      ensures count <= entries.Length
      ensures entries[..count] == Take(old(entries[..start]) + Split(ranges, d), entries.Length)
    {
      hide Scan;
      count := start;
      var cursor := d.physStart;
      var end := End(d);
      while cursor < end && count < entries.Length
        invariant count <= entries.Length
        invariant Take(old(entries[..start]) + Split(ranges, d), entries.Length) ==
                  Take(entries[..count] + Pieces(ranges, cursor, end, UefiKind(d.ty)), entries.Length)
        decreases if cursor < end then end - cursor else 0
      {
        var next, kind := Piece(cursor, end, d.ty);
        ghost var before, e := entries[..count], Entry(cursor, next - cursor, kind);
        ghost var more := Pieces(ranges, next, end, UefiKind(d.ty));
        entries[count] := Entry(cursor, next - cursor, kind);
        assert entries[..count + 1] == before + [e];
        assert before + ([e] + more) == (before + [e]) + more;
        count := count + 1;
        cursor := next;
      }
      if cursor >= end {
        assert entries[..count] + [] == entries[..count];
      }
    }

    /** `populate`: the array receives the full map, or as much of its
        beginning as fits. */
    method Populate(descriptors: seq<Descriptor>)
      modifies this`entryCount, entries
      ensures entryCount <= entries.Length
      ensures entries[..entryCount] == Take(FullMap(ranges, descriptors), entries.Length)
    {
      hide Take, Split;
      var count: nat := 0;
      assert entries[..count] + FullMap(ranges, descriptors) == FullMap(ranges, descriptors);
      for i := 0 to |descriptors|
        invariant count <= entries.Length
        invariant Take(FullMap(ranges, descriptors), entries.Length) ==
                  Take(entries[..count] + FullMap(ranges, descriptors[i..]), entries.Length)
      {
        assert descriptors[i..][0] == descriptors[i] && descriptors[i..][1..] == descriptors[i + 1..];
        TakeChain(entries[..count], Split(ranges, descriptors[i]), FullMap(ranges, descriptors[i + 1..]), entries.Length);
        count := Append(descriptors[i], count);
      }
      assert entries[..count] + [] == entries[..count];
      TakeShort(entries[..count], entries.Length);
      entryCount := count;
    }
  }

  lemma TakeShort<T>(s: seq<T>, n: nat)
    requires |s| <= n
    ensures Take(s, n) == s
  {}

  lemma TakeChain<T>(s: seq<T>, a: seq<T>, b: seq<T>, n: nat)
    requires |s| <= n
    ensures Take(s + (a + b), n) == Take(Take(s + a, n) + b, n)
  {
    assert s + (a + b) == (s + a) + b;
  }

  // ----- classification

  /** The piece the scan finds is uniform: every address in it has its kind. */
  lemma {:induction false} ScanIsUniform(ranges: seq<Range>, cursor: nat, end: nat, kind: nat, x: nat)
    requires cursor < end && cursor <= x < Scan(ranges, cursor, end, kind).0
    ensures KindAt(ranges, x, kind) == Scan(ranges, cursor, end, kind).1
  {
    if ranges != [] {
      ScanIsUniform(ranges[..|ranges| - 1], cursor, end, kind, x);
    }
  }

  /** An address lies in a piece of kind `k` exactly when the descriptor holds
      it and the pointwise specification gives it kind `k`. */
  lemma {:induction false} PieceKinds(ranges: seq<Range>, cursor: nat, end: nat, kind: nat, x: nat, k: nat)
    ensures (exists e <- Pieces(ranges, cursor, end, kind) :: InEntry(e, x) && e.kind == k) <==>
            (cursor <= x < end && KindAt(ranges, x, kind) == k)
    decreases end - cursor
  {
    if cursor < end {
      var (next, found) := Scan(ranges, cursor, end, kind);
      var first := Entry(cursor, next - cursor, found);
      var rest := Pieces(ranges, next, end, kind);
      PieceKinds(ranges, next, end, kind, x, k);
      assert Pieces(ranges, cursor, end, kind) == [first] + rest;
      assert forall e :: e in [first] + rest <==> e == first || e in rest;
      if cursor <= x < next {
        ScanIsUniform(ranges, cursor, end, kind, x);
      }
    }
  }

  /** The whole map: an address is reported with kind `k` exactly when some
      descriptor holds it and its kind there is `k`. */
  lemma {:induction false} ReportedKind(ranges: seq<Range>, descriptors: seq<Descriptor>, x: nat, k: nat)
    ensures (exists e <- FullMap(ranges, descriptors) :: InEntry(e, x) && e.kind == k) <==>
            (exists d <- descriptors :: InDescriptor(d, x) && KindAt(ranges, x, UefiKind(d.ty)) == k)
  {
    if descriptors != [] {
      var d, rest := descriptors[0], descriptors[1..];
      PieceKinds(ranges, d.physStart, End(d), UefiKind(d.ty), x, k);
      ReportedKind(ranges, rest, x, k);
      assert forall e :: e in FullMap(ranges, descriptors) <==> e in Split(ranges, d) || e in FullMap(ranges, rest);
      assert forall c :: c in descriptors <==> c == d || c in rest by { assert descriptors == [d] + rest; }
    }
  }

  lemma {:induction false} DefaultKind(ranges: seq<Range>, x: nat, default: nat)
    requires forall r <- ranges :: r.kind != 0
    ensures KindAt(ranges, x, default) == 0 <==> default == 0 && forall r <- ranges :: !InRange(r, x)
  {
    if ranges != [] {
      var last := ranges[|ranges| - 1];
      assert last in ranges;
      DefaultKind(ranges[..|ranges| - 1], x, default);
      assert forall r :: r in ranges <==> r == last || r in ranges[..|ranges| - 1] by {
        assert ranges == ranges[..|ranges| - 1] + [last];
      }
    }
  }

  /** Usable memory is conventional memory outside every special range. */
  lemma UsableIffConventionalAndFree(ranges: seq<Range>, descriptors: seq<Descriptor>, x: nat)
    requires forall r <- ranges :: r.kind != 0
    ensures (exists e <- FullMap(ranges, descriptors) :: InEntry(e, x) && e.kind == 0) <==>
            ((exists d <- descriptors :: InDescriptor(d, x) && d.ty == CONVENTIONAL) &&
             forall r <- ranges :: !InRange(r, x))
  {
    ReportedKind(ranges, descriptors, x, 0);
    forall d <- descriptors
      ensures KindAt(ranges, x, UefiKind(d.ty)) == 0 <==> d.ty == CONVENTIONAL && forall r <- ranges :: !InRange(r, x)
    {
      DefaultKind(ranges, x, UefiKind(d.ty));
    }
  }

  /** Some descriptor of this type holds the address. */
  predicate HeldAs(descriptors: seq<Descriptor>, x: nat, ty: nat) {
    exists d <- descriptors :: Describes(d, x) && d.ty == ty
  }

  /** In numbers: pages of 4096 bytes, cut off at the last 64-bit address. */
  predicate Describes(d: Descriptor, x: nat) {
    d.physStart <= x < d.physStart + d.pageCount * 4096 && x < 0xffff_ffff_ffff_ffff
  }

  lemma DescribesIs(d: Descriptor, x: nat)
    ensures Describes(d, x) <==> InDescriptor(d, x)
  {}

  predicate Reported(entries: seq<Entry>, x: nat, kind: nat) { exists e <- entries :: InEntry(e, x) && e.kind == kind }

  lemma {:induction false} NoRangeNoKind(ranges: seq<Range>, x: nat, default: nat)
    requires forall r <- ranges :: !InRange(r, x)
    ensures KindAt(ranges, x, default) == default
  {
    if ranges != [] {
      var n := |ranges| - 1;
      assert ranges[n] in ranges;
      NoRangeNoKind(ranges[..n], x, default);
    }
  }

  /** The kinds of the Limine protocol by the type numbers of UEFI, for every
      address outside the special ranges. */
  lemma KindsByNumber(ranges: seq<Range>, descriptors: seq<Descriptor>, x: nat)
    requires forall r <- ranges :: !InRange(r, x)
    ensures var m := FullMap(ranges, descriptors);
      && (Reported(m, x, 0) <==> HeldAs(descriptors, x, 7))
      && (Reported(m, x, 2) <==> HeldAs(descriptors, x, 9))
      && (Reported(m, x, 3) <==> HeldAs(descriptors, x, 10))
      && (Reported(m, x, 4) <==> HeldAs(descriptors, x, 8))
      && (Reported(m, x, 5) <==> HeldAs(descriptors, x, 3) || HeldAs(descriptors, x, 4))
      && (Reported(m, x, 1) <==>
            exists d <- descriptors :: Describes(d, x) && d.ty !in {3, 4, 7, 8, 9, 10})
      && forall k: nat | k > 5 :: !Reported(m, x, k)
  {
    hide FullMap, KindAt;
    forall d: Descriptor ensures Describes(d, x) <==> InDescriptor(d, x) { DescribesIs(d, x); }
    hide Describes, InDescriptor;
    forall k: nat ensures Reported(FullMap(ranges, descriptors), x, k) <==>
                          exists d <- descriptors :: InDescriptor(d, x) && UefiKind(d.ty) == k {
      ReportedKind(ranges, descriptors, x, k);
      forall d <- descriptors ensures KindAt(ranges, x, UefiKind(d.ty)) == UefiKind(d.ty) {
        NoRangeNoKind(ranges, x, UefiKind(d.ty));
      }
    }
  }

  /** So also in what is stored, when the descriptors fit the reservation. */
  lemma StoredKindsByNumber(ranges: seq<Range>, descriptors: seq<Descriptor>, reserved: nat, x: nat)
    requires Disjoint(descriptors) && |descriptors| <= reserved + 32 && forall r <- ranges :: !InRange(r, x)
    ensures var m := Take(FullMap(ranges, descriptors), Capacity(reserved, ranges));
      && (Reported(m, x, 0) <==> HeldAs(descriptors, x, 7)) && (Reported(m, x, 2) <==> HeldAs(descriptors, x, 9))
      && (Reported(m, x, 3) <==> HeldAs(descriptors, x, 10)) && (Reported(m, x, 4) <==> HeldAs(descriptors, x, 8))
      && (Reported(m, x, 5) <==> HeldAs(descriptors, x, 3) || HeldAs(descriptors, x, 4))
  {
    hide FullMap, Take, Capacity, Reported, HeldAs;
    CapacitySuffices(ranges, descriptors, reserved);
    KindsByNumber(ranges, descriptors, x);
  }

  /** Disjoint descriptors give every address of a descriptor one kind. */
  lemma OneKind(ranges: seq<Range>, descriptors: seq<Descriptor>, d: Descriptor, x: nat)
    requires Disjoint(descriptors) && d in descriptors && InDescriptor(d, x)
    ensures exists e <- FullMap(ranges, descriptors) :: InEntry(e, x)
    ensures forall e <- FullMap(ranges, descriptors) :: InEntry(e, x) ==> e.kind == KindAt(ranges, x, UefiKind(d.ty))
  {
    hide FullMap, KindAt;
    ReportedKind(ranges, descriptors, x, KindAt(ranges, x, UefiKind(d.ty)));
    forall e <- FullMap(ranges, descriptors) | InEntry(e, x)
      ensures e.kind == KindAt(ranges, x, UefiKind(d.ty))
    {
      ReportedKind(ranges, descriptors, x, e.kind);
      var c :| c in descriptors && InDescriptor(c, x) && KindAt(ranges, x, UefiKind(c.ty)) == e.kind;
      var i, j :| 0 <= i < |descriptors| && 0 <= j < |descriptors| && descriptors[i] == c && descriptors[j] == d;
    }
  }

  /** Loader data, which is where page tables and the tails of segments live,
      is never reported usable. */
  lemma LoaderDataNeverUsable(ranges: seq<Range>, descriptors: seq<Descriptor>, d: Descriptor, x: nat)
    requires Disjoint(descriptors) && d in descriptors && InDescriptor(d, x) && d.ty == LOADER_DATA
    requires forall r <- ranges :: r.kind != 0
    ensures forall e <- FullMap(ranges, descriptors) :: InEntry(e, x) ==> e.kind != 0
  {
    hide FullMap;
    OneKind(ranges, descriptors, d, x);
    DefaultKind(ranges, x, UefiKind(d.ty));
  }

  // ----- ranges of one kind

  lemma {:induction false} KindOfConcat(a: seq<Range>, b: seq<Range>, x: nat, default: nat)
    ensures KindAt(a + b, x, default) == KindAt(b, x, KindAt(a, x, default))
  {
    if b == [] {
      assert a + b == a;
    } else {
      var n := |b| - 1;
      assert (a + b)[..|a + b| - 1] == a + b[..n] && (a + b)[|a + b| - 1] == b[n];
      KindOfConcat(a, b[..n], x, default);
    }
  }

  lemma {:induction false} SameKindRanges(ranges: seq<Range>, kind: nat, x: nat, default: nat)
    requires forall r <- ranges :: r.kind == kind
    ensures KindAt(ranges, x, default) == if exists r <- ranges :: InRange(r, x) then kind else default
  {
    if ranges != [] {
      var n := |ranges| - 1;
      assert ranges == ranges[..n] + [ranges[n]];
      SameKindRanges(ranges[..n], kind, x, default);
    }
  }

  // ----- conservation

  /** Non-empty pieces laid end to end from `base` to `end`. */
  ghost predicate Tiles(entries: seq<Entry>, base: nat, end: nat) {
    if entries == [] then base == end
    else entries[0].base == base && entries[0].length > 0 && Tiles(entries[1..], base + entries[0].length, end)
  }

  function TotalLength(entries: seq<Entry>): nat {
    if entries == [] then 0 else entries[0].length + TotalLength(entries[1..])
  }

  function TotalExtent(descriptors: seq<Descriptor>): nat {
    if descriptors == [] then 0
    else (if descriptors[0].physStart < End(descriptors[0]) then End(descriptors[0]) - descriptors[0].physStart else 0)
         + TotalExtent(descriptors[1..])
  }

  /** The pieces of a descriptor tile it, in order, without gap or overlap. */
  lemma {:induction false} PiecesTile(ranges: seq<Range>, cursor: nat, end: nat, kind: nat)
    requires cursor <= end
    ensures Tiles(Pieces(ranges, cursor, end, kind), cursor, end)
    ensures TotalLength(Pieces(ranges, cursor, end, kind)) == end - cursor
    decreases end - cursor
  {
    hide Scan;
    if cursor < end {
      var (next, k) := Scan(ranges, cursor, end, kind);
      var rest := Pieces(ranges, next, end, kind);
      PiecesTile(ranges, next, end, kind);
      assert ([Entry(cursor, next - cursor, k)] + rest)[1..] == rest;
    }
  }

  lemma {:induction false} TotalOfConcat(a: seq<Entry>, b: seq<Entry>)
    ensures TotalLength(a + b) == TotalLength(a) + TotalLength(b)
  {
    if a == [] {
      assert a + b == b;
    } else {
      assert (a + b)[1..] == a[1..] + b;
      TotalOfConcat(a[1..], b);
    }
  }

  /** No byte of the firmware's map is lost or counted twice. */
  lemma {:induction false} LengthConserved(ranges: seq<Range>, descriptors: seq<Descriptor>)
    ensures TotalLength(FullMap(ranges, descriptors)) == TotalExtent(descriptors)
  {
    if descriptors != [] {
      var d := descriptors[0];
      TotalOfConcat(Split(ranges, d), FullMap(ranges, descriptors[1..]));
      LengthConserved(ranges, descriptors[1..]);
      if d.physStart < End(d) {
        PiecesTile(ranges, d.physStart, End(d), UefiKind(d.ty));
      }
    }
  }

  /** Every piece is non-empty and stays inside its descriptor. */
  lemma {:induction false} PiecesInside(ranges: seq<Range>, cursor: nat, end: nat, kind: nat)
    ensures forall e <- Pieces(ranges, cursor, end, kind) :: cursor <= e.base && 0 < e.length && e.base + e.length <= end
    decreases end - cursor
  {
    if cursor < end {
      PiecesInside(ranges, Scan(ranges, cursor, end, kind).0, end, kind);
    }
  }

  predicate SortedEntries(entries: seq<Entry>) {
    forall i, j | 0 <= i < j < |entries| :: entries[i].base + entries[i].length <= entries[j].base
  }

  predicate SortedDescriptors(descriptors: seq<Descriptor>) {
    forall i, j | 0 <= i < j < |descriptors| :: End(descriptors[i]) <= descriptors[j].physStart
  }

  lemma {:induction false} PiecesSorted(ranges: seq<Range>, cursor: nat, end: nat, kind: nat)
    ensures SortedEntries(Pieces(ranges, cursor, end, kind))
    decreases end - cursor
  {
    if cursor < end {
      var next := Scan(ranges, cursor, end, kind).0;
      PiecesSorted(ranges, next, end, kind);
      PiecesInside(ranges, next, end, kind);
    }
  }

  /** Sorted, disjoint descriptors give a sorted, disjoint map. */
  lemma {:induction false} MapSorted(ranges: seq<Range>, descriptors: seq<Descriptor>)
    requires SortedDescriptors(descriptors)
    ensures SortedEntries(FullMap(ranges, descriptors))
    ensures forall e <- FullMap(ranges, descriptors) ::
      exists d <- descriptors :: d.physStart <= e.base && e.base + e.length <= End(d)
  {
    if descriptors != [] {
      var d, rest := descriptors[0], descriptors[1..];
      MapSorted(ranges, rest);
      PiecesSorted(ranges, d.physStart, End(d), UefiKind(d.ty));
      PiecesInside(ranges, d.physStart, End(d), UefiKind(d.ty));
      var a, b := Split(ranges, d), FullMap(ranges, rest);
      assert FullMap(ranges, descriptors) == a + b;
      hide FullMap, Split, Pieces, End;
      forall x <- a, y <- b ensures x.base + x.length <= y.base {
        var c :| c in rest && c.physStart <= y.base && y.base + y.length <= End(c);
        var n :| 0 <= n < |rest| && rest[n] == c;
        assert descriptors[n + 1] == c;
      }
      SortedConcat(a, b);
      assert descriptors == [d] + rest;
    }
  }

  lemma SortedConcat(a: seq<Entry>, b: seq<Entry>)
    requires SortedEntries(a) && SortedEntries(b) && forall x <- a, y <- b :: x.base + x.length <= y.base
    ensures SortedEntries(a + b)
  {
    forall i, j | 0 <= i < j < |a + b| ensures (a + b)[i].base + (a + b)[i].length <= (a + b)[j].base {
      if i < |a| <= j { assert a[i] in a && b[j - |a|] in b; }
    }
  }

  // ----- capacity

  /** Every address at which a special range can make a cut. */
  function Endpoints(ranges: seq<Range>): set<nat> {
    if ranges == [] then {}
    else Endpoints(ranges[..|ranges| - 1]) + {ranges[|ranges| - 1].base, RangeEnd(ranges[|ranges| - 1])}
  }

  lemma {:induction false} EndpointCount(ranges: seq<Range>)
    ensures |Endpoints(ranges)| <= 2 * |ranges|
  {
    if ranges != [] {
      EndpointCount(ranges[..|ranges| - 1]);
      var two := {ranges[|ranges| - 1].base, RangeEnd(ranges[|ranges| - 1])};
      assert |two| <= 2;
      UnionSize(Endpoints(ranges[..|ranges| - 1]), two);
    }
  }

  lemma UnionSize(a: set<nat>, b: set<nat>)
    ensures |a + b| <= |a| + |b|
  {
    assert a + b == a + (b - a);
    assert |a + (b - a)| == |a| + |b - a|;
  }

  lemma {:induction false} ScanCutsAtEndpoint(ranges: seq<Range>, cursor: nat, end: nat, kind: nat)
    requires cursor < end
    ensures var next := Scan(ranges, cursor, end, kind).0; next == end || next in Endpoints(ranges)
  {
    if ranges != [] {
      ScanCutsAtEndpoint(ranges[..|ranges| - 1], cursor, end, kind);
    }
  }

  /** The endpoints strictly inside an interval. */
  function Cuts(ranges: seq<Range>, base: nat, end: nat): set<nat> {
    set e | e in Endpoints(ranges) && base < e < end
  }

  /** One piece more than there are endpoints strictly inside. */
  lemma {:induction false} PieceCount(ranges: seq<Range>, cursor: nat, end: nat, kind: nat)
    ensures |Pieces(ranges, cursor, end, kind)| <= 1 + |Cuts(ranges, cursor, end)|
    decreases end - cursor
  {
    if cursor < end {
      var next := Scan(ranges, cursor, end, kind).0;
      PieceCount(ranges, next, end, kind);
      ScanCutsAtEndpoint(ranges, cursor, end, kind);
      if next < end {
        var inner := Cuts(ranges, next, end);
        assert inner + {next} <= Cuts(ranges, cursor, end);
        SubsetSize(inner + {next}, Cuts(ranges, cursor, end));
        assert |inner + {next}| == |inner| + 1;
      } else {
        assert Pieces(ranges, next, end, kind) == [];
      }
    }
  }

  lemma SubsetSize(a: set<nat>, b: set<nat>)
    requires a <= b
    ensures |a| <= |b|
  {
    assert b == a + (b - a);
  }

  /** The firmware's promise about a memory map: no address in two descriptors. */
  ghost predicate Disjoint(descriptors: seq<Descriptor>) {
    forall i, j, x | 0 <= i < j < |descriptors| :: !(InDescriptor(descriptors[i], x) && InDescriptor(descriptors[j], x))
  }

  lemma NotInBoth(descriptors: seq<Descriptor>, n: nat, x: nat)
    requires Disjoint(descriptors) && 0 < n < |descriptors|
    ensures InDescriptor(descriptors[n], x) ==> !InDescriptor(descriptors[0], x)
  {}

  /** All cuts of all descriptors. */
  function AllCuts(ranges: seq<Range>, descriptors: seq<Descriptor>): set<nat> {
    if descriptors == [] then {}
    else Cuts(ranges, descriptors[0].physStart, End(descriptors[0])) + AllCuts(ranges, descriptors[1..])
  }

  lemma {:induction false} CutsAreEndpoints(ranges: seq<Range>, descriptors: seq<Descriptor>)
    ensures AllCuts(ranges, descriptors) <= Endpoints(ranges)
    ensures forall x <- AllCuts(ranges, descriptors) :: exists d <- descriptors :: InDescriptor(d, x)
  {
    if descriptors != [] {
      CutsAreEndpoints(ranges, descriptors[1..]);
      forall x <- AllCuts(ranges, descriptors) ensures exists d <- descriptors :: InDescriptor(d, x) {
        if x in Cuts(ranges, descriptors[0].physStart, End(descriptors[0])) {
          assert InDescriptor(descriptors[0], x);
        } else {
          var c :| c in descriptors[1..] && InDescriptor(c, x);
          assert c in descriptors;
        }
      }
    }
  }

  lemma {:induction false} MapCount(ranges: seq<Range>, descriptors: seq<Descriptor>)
    requires Disjoint(descriptors)
    ensures |FullMap(ranges, descriptors)| <= |descriptors| + |AllCuts(ranges, descriptors)|
  {
    if descriptors != [] {
      var d, rest := descriptors[0], descriptors[1..];
      var here, there := Cuts(ranges, d.physStart, End(d)), AllCuts(ranges, rest);
      PieceCount(ranges, d.physStart, End(d), UefiKind(d.ty));
      MapCount(ranges, rest);
      CutsAreEndpoints(ranges, rest);
      assert here !! there by {
        forall x | x in there ensures x !in here {
          var c :| c in rest && InDescriptor(c, x);
          var n :| 0 <= n < |rest| && rest[n] == c;
          NotInBoth(descriptors, n + 1, x);
        }
      }
      assert |here + there| == |here| + |there|;
    }
  }

  /** The reservation suffices: with disjoint descriptors, at most 32 more than
      when the array was sized, nothing is ever cut off. */
  lemma CapacitySuffices(ranges: seq<Range>, descriptors: seq<Descriptor>, reserved: nat)
    requires Disjoint(descriptors) && |descriptors| <= reserved + 32
    ensures |FullMap(ranges, descriptors)| <= Capacity(reserved, ranges)
    ensures Take(FullMap(ranges, descriptors), Capacity(reserved, ranges)) == FullMap(ranges, descriptors)
  {
    MapCount(ranges, descriptors);
    CutsAreEndpoints(ranges, descriptors);
    SubsetSize(AllCuts(ranges, descriptors), Endpoints(ranges));
    EndpointCount(ranges);
  }
}
