/** The loader's page-table builder (crates/r-boot/src/paging.rs). */
module Paging {
  import opened Wrappers
  import opened LongMode
  import opened PageWords
  import opened PageTree
  import opened Firmware

  /** The page of the range that a path names: the last one, because a later
      store to the same slot wins. */
  function RangePage(address: nat, pages: nat, p: VPath): Option<nat> {
    if pages == 0 then None
    else if PathOf(address + (pages - 1) * PAGE_SIZE) == p then Some(pages - 1)
    else RangePage(address, pages - 1, p)
  }

  /** The gigabyte of the window that a path lies in. */
  function WindowGigabyte(base: nat, gigabytes: nat, p: VPath): Option<nat> {
    if gigabytes == 0 then None
    else if SameDirectory(base + (gigabytes - 1) * PAGE_1G, p) then Some(gigabytes - 1)
    else WindowGigabyte(base, gigabytes - 1, p)
  }

  predicate SameDirectory(address: nat, p: VPath) {
    IndexPml4(address) == p.l4 && IndexPdpt(address) == p.l3
  }

  function DirectoryOf(address: nat): Node { Pd(IndexPml4(address), IndexPdpt(address)) }

  /** What a window mapping makes of a path. */
  ghost function WindowView(base: nat, gigabytes: nat, p: VPath, before: Translation): Translation {
    match WindowGigabyte(base, gigabytes, p)
    case None => before
    case Some(g) => Mapped(g * PAGE_1G + p.l2 * PAGE_2M, PAGE_2M, true, false)
  }

  /** What a range mapping makes of a path: under a 2 MiB leaf nothing. */
  ghost function RangeView(address: nat, physical: nat, pages: nat, writable: bool, noExecute: bool,
                           p: VPath, before: Translation): Translation {
    if OnWindow(before) then before else
    match RangePage(address, pages, p)
    case None => before
    case Some(k) => Mapped(physical + k * PAGE_SIZE, PAGE_SIZE, writable, noExecute)
  }

  ghost predicate NothingMapped(tables: Tables, root: nat) {
    forall p :: Walk(tables, root, p) == Fault
  }

  /** No translation differs between two states of the tables. */
  ghost predicate SameViews(before: Tables, after: Tables, root: nat) {
    forall p :: Walk(after, root, p) == Walk(before, root, p)
  }

  /** The first `gigabytes` gigabytes of a window are mapped and nothing else
      changed. */
  ghost predicate WindowMapped(before: Tables, after: Tables, root: nat, base: nat, gigabytes: nat) {
    forall p :: Walk(after, root, p) == WindowView(base, gigabytes, p, Walk(before, root, p))
  }

  ghost predicate GigabyteOnly(before: Tables, after: Tables, root: nat, l4: Index, l3: Index, gigabyte: nat) {
    forall p :: Walk(after, root, p) == GigabyteView(l4, l3, gigabyte, p, Walk(before, root, p))
  }

  /** The first `pages` pages of a segment, those under a 2 MiB leaf apart, are
      mapped with its permissions and nothing else changed. */
  ghost predicate RangeMapped(before: Tables, after: Tables, root: nat,
                              address: nat, physical: nat, pages: nat, flags: nat) {
    forall p :: Walk(after, root, p) ==
                RangeView(address, physical, pages, SegmentWritable(flags), SegmentNoExecute(flags), p, Walk(before, root, p))
  }

  /** Memory after the entries of the first `pages` pages of a range: those of
      pages under a 2 MiB leaf go into the page that the leaf maps first. */
  ghost function StrayBytes(bytes: map<nat, bv8>, tables: Tables, root: nat, address: nat, physical: nat, pages: nat,
                            flags: nat): map<nat, bv8> {
    if pages == 0 then bytes else
    var before := StrayBytes(bytes, tables, root, address, physical, pages - 1, flags);
    var p := PathOf(address + (pages - 1) * PAGE_SIZE);
    StrayPage(before, Walk(tables, root, p), p.l1, physical + (pages - 1) * PAGE_SIZE, flags)
  }

  ghost function StrayPage(bytes: map<nat, bv8>, t: Translation, i: Index, physical: nat, flags: nat): map<nat, bv8> {
    if OnWindow(t)
    then Overwritten(bytes, t.frame + 8 * i, LeafWord(physical, SegmentWritable(flags), SegmentNoExecute(flags)))
    else bytes
  }

  /** One page is mapped and nothing else changed. */
  ghost predicate PageOnly(before: Tables, after: Tables, root: nat, path: VPath, physical: nat, flags: nat) {
    forall p :: Walk(after, root, p) ==
                PageView(path, physical, SegmentWritable(flags), SegmentNoExecute(flags), p, Walk(before, root, p))
  }

  class PageTables {
    const fw: Machine
    const root: nat
    ghost var at: Places

    ghost predicate Valid()
      reads this, fw
    {
      fw.Valid() && Tree(fw.tables, at) && at[Root] == root
    }

    /** What the processor sees through these tables. */
    ghost function View(p: VPath): Translation
      reads this, fw
    {
      Walk(fw.tables, root, p)
    }

    constructor Over(fw: Machine, root: nat)
      requires fw.Valid() && fw.tables == map[root := Zeroed()] && PageAddress(root) && root != 0
      ensures Valid() && this.fw == fw && this.root == root
      ensures NothingMapped(fw.tables, root)
      ensures forall l4, l3 :: Pd(l4, l3) !in at
    {
      this.fw, this.root, this.at := fw, root, map[Root := root];
      new;
      assert at.Values == {root} by { assert at[Root] == root; }
      forall p ensures Walk(fw.tables, root, p) == Fault { assert !Present(Zeroed()[p.l4]); }
    }

    /** `PageTables::new`. */
    static method New(fw: Machine) returns (r: Result<PageTables>)
      requires fw.Valid() && fw.tables == map[]
      modifies fw`script, fw`used, fw`tables, fw`refusals
      ensures forall f | old(fw.NeverTable(f)) :: fw.NeverTable(f)
      ensures fw.Valid()
      ensures r.Ok? <==> fw.refusals == old(fw.refusals)
      ensures r.Ok? ==>
        && fresh(r.value) && r.value.fw == fw && r.value.Valid()
        && NothingMapped(fw.tables, r.value.root) && (forall l4, l3 :: Pd(l4, l3) !in r.value.at)
    {
      var root := fw.AllocateTable();
      if root.Err? { return Err(root.message); }
      var t := new PageTables.Over(fw, root.value);
      r := Ok(t);
    }

    /** The child table behind a slot, allocated when the slot is empty; only a
        refused allocation is an error. A window leaf is taken for a link to a
        table: the answer is then the page the leaf maps first. */
    method ChildTable(parent: nat, index: Index, ghost node: Node) returns (r: Result<nat>)
      requires Valid() && node in at && at[node] == parent && !node.Pt?
      modifies this`at, fw`script, fw`used, fw`tables, fw`refusals
      ensures forall f | old(fw.NeverTable(f)) :: fw.NeverTable(f)
      ensures Valid()
      ensures SameViews(old(fw.tables), fw.tables, root)
      ensures forall n <- old(at) :: n in at && at[n] == old(at[n])
      ensures forall n <- at :: n in old(at) || n == Child(node, index)
      ensures r.Err? ==> at == old(at)
      ensures !old(IsLeafSlot(parent, index, node)) ==>
        && (r.Ok? <==> fw.refusals == old(fw.refusals))
        && (r.Ok? ==> r.value in fw.tables && Child(node, index) in at && at[Child(node, index)] == r.value)
        && (Child(node, index) in old(at) ==> r.Ok? && fw.tables == old(fw.tables) && at == old(at))
      ensures old(IsLeafSlot(parent, index, node)) ==>
        && fw.tables == old(fw.tables) && at == old(at) && fw.refusals == old(fw.refusals)
        && r == LeafAsTable(old(fw.tables[parent][index]))
    {
      hide Tree, Walk, Lookup, TestBit, FrameBits;
      TreeReads(fw.tables, at, node);
      var entry := fw.tables[parent][index];
      if Present(entry) {
        var child := FrameBits(entry, PAGE_SIZE);
        if !IsLeafSlot(parent, index, node) { SlotRead(fw.tables, at, node, index); }
        return if child != 0 then Ok(child) else Err("invalid page table entry");
      }
      SlotRead(fw.tables, at, node, index);
      ghost var before, places := fw.tables, at;
      var table := fw.AllocateTable();
      if table.Err? { return table; }
      fw.tables := Stored(fw.tables, parent, index, TableWord(table.value));
      at := at[Child(node, index) := table.value];
      TableMapped(before, places, node, index, table.value);
      r := table;
    }

    /** The slot of a page directory that holds a 2 MiB leaf. */
    ghost predicate IsLeafSlot(parent: nat, index: Index, node: Node)
      requires Valid() && node in at && at[node] == parent
      reads this, fw
    {
      node.Pd? && HugeLeaf(fw.tables[parent][index])
    }

    /** No page directory stands yet in any gigabyte of the window. */
    ghost predicate WindowFree(base: nat, gigabytes: nat)
      reads this
    {
      forall g | 0 <= g < gigabytes :: DirectoryOf(base + g * PAGE_1G) !in at
    }

    method MapIdentityFirst4G() returns (r: Result<()>, ghost done: nat)
      requires Valid() && WindowFree(0, 4)
      modifies this`at, fw`script, fw`used, fw`tables, fw`refusals
      ensures forall f | old(fw.NeverTable(f)) :: fw.NeverTable(f)
      ensures Valid()
      ensures done <= 4 && (r.Ok? <==> done == 4) && (r.Ok? <==> fw.refusals == old(fw.refusals))
      ensures WindowMapped(old(fw.tables), fw.tables, root, 0, done)
      ensures GrownWithin(old(at), 0, 4)
    {
      r, done := Map2MWindow(0, 4);
    }

    /** `map_hhdm_through`: the window covers whole gigabytes, at least four. */
    method MapHhdmThrough(offset: nat, physicalEnd: nat) returns (r: Result<()>, ghost done: nat)
      requires Valid() && physicalEnd < ADDRESS_LIMIT
      requires !HhdmOverflows(physicalEnd) ==>
        && WindowFree(offset, HhdmGigabytes(physicalEnd)) && HhdmGigabytes(physicalEnd) <= 0x4_0000
        && offset + HhdmGigabytes(physicalEnd) * PAGE_1G <= ADDRESS_LIMIT
      modifies this`at, fw`script, fw`used, fw`tables, fw`refusals
      ensures forall f | old(fw.NeverTable(f)) :: fw.NeverTable(f)
      ensures Valid()
      ensures done <= HhdmGigabytes(physicalEnd) && (r.Ok? <==> done == HhdmGigabytes(physicalEnd))
      ensures HhdmOverflows(physicalEnd) ==> done == 0
      ensures r.Ok? <==> !HhdmOverflows(physicalEnd) && fw.refusals == old(fw.refusals)
      ensures WindowMapped(old(fw.tables), fw.tables, root, offset, done)
      ensures GrownWithin(old(at), offset, HhdmGigabytes(physicalEnd))
    {
      if HhdmOverflows(physicalEnd) {
        done := 0;
        return Err("HHDM range overflow"), done;
      }
      var gigabytes := (physicalEnd + (PAGE_1G - 1)) / PAGE_1G;
      r, done := Map2MWindow(offset, if gigabytes < 4 then 4 else gigabytes);
    }

    ghost predicate GrownWithin(before: Places, base: nat, gigabytes: nat)
      reads this
    {
      forall l4, l3 | Pd(l4, l3) in at && Pd(l4, l3) !in before ::
        exists g | 0 <= g < gigabytes :: Pd(l4, l3) == DirectoryOf(base + g * PAGE_1G)
    }

    /** `map_2m_window`: whole gigabytes of 2 MiB leaves. When an allocation
        fails the first `done` gigabytes are mapped and nothing else changed. */
    method Map2MWindow(base: nat, gigabytes: nat) returns (r: Result<()>, ghost done: nat)
      requires Valid() && WindowFree(base, gigabytes)
      requires gigabytes <= 0x4_0000 && base + gigabytes * PAGE_1G <= ADDRESS_LIMIT
      modifies this`at, fw`script, fw`used, fw`tables, fw`refusals
      ensures forall f | old(fw.NeverTable(f)) :: fw.NeverTable(f)
      ensures Valid()
      ensures done <= gigabytes && (r.Ok? <==> done == gigabytes) && (r.Ok? <==> fw.refusals == old(fw.refusals))
      ensures WindowMapped(old(fw.tables), fw.tables, root, base, done)
      ensures GrownWithin(old(at), base, gigabytes)
    {
      hide Tree, Walk, IndexPml4, IndexPdpt, WindowView;
      ghost var start := fw.tables;
      WindowStart(start, root, base);
      done := 0;
      for gigabyte := 0 to gigabytes
        invariant Valid() && done == gigabyte && fw.refusals == old(fw.refusals)
        invariant forall f | old(fw.NeverTable(f)) :: fw.NeverTable(f)
        invariant WindowMapped(start, fw.tables, root, base, gigabyte)
        invariant forall g | gigabyte <= g < gigabytes :: DirectoryOf(base + g * PAGE_1G) !in at
        invariant GrownWithin(old(at), base, gigabyte)
      {
        var address := base + gigabyte * PAGE_1G;
        TreeReads(fw.tables, at, Root);
        var pdpt := ChildTable(root, IndexPml4(address), Root);
        if pdpt.Err? { return Err(pdpt.message), done; }
        ghost var before := fw.tables;
        var mapped := MapGigabyte(pdpt.value, IndexPdpt(address), gigabyte, Pdpt(IndexPml4(address)));
        if mapped.Err? { return mapped, done; }
        WindowStep(start, before, fw.tables, root, base, gigabyte);
        done := gigabyte + 1;
        forall g | gigabyte < g < gigabytes ensures DirectoryOf(base + g * PAGE_1G) != DirectoryOf(address) {
          DistinctDirectories(base, gigabyte, g);
        }
      }
      r := Ok(());
    }

    /** `map_range`: 4 KiB leaves for a loaded segment. When an allocation
        fails the first `done` pages are done and nothing else has changed.
        Pages under a 2 MiB leaf stay as they are, and their entries go astray
        (see `MapPage`); they must not hit a page table. */
    method MapRange(address: nat, physical: nat, length: nat, flags: nat) returns (r: Result<()>, ghost done: nat)
      requires Valid() && PageAddress(physical)
      requires !LengthOverflows(length) ==>
        && physical + RangePages(length) * PAGE_SIZE <= PHYSICAL_LIMIT
        && address + RangePages(length) * PAGE_SIZE <= ADDRESS_LIMIT
        && forall k | 0 <= k < RangePages(length) :: fw.NeverTable(LeafFrame(address + k * PAGE_SIZE))
      modifies this`at, fw`script, fw`used, fw`tables, fw`bytes, fw`refusals
      ensures Valid()
      ensures forall f | old(fw.NeverTable(f)) :: fw.NeverTable(f)
      ensures fw.bytes == StrayBytes(old(fw.bytes), old(fw.tables), root, address, physical, done, flags)
      ensures done <= RangePages(length) && (r.Ok? ==> done == RangePages(length))
      ensures LengthOverflows(length) ==> done == 0
      ensures r.Ok? <==>
        && !LengthOverflows(length) && fw.refusals == old(fw.refusals)
        && forall k | 0 <= k < RangePages(length) :: !old(NullLeaf(address + k * PAGE_SIZE))
      ensures RangeMapped(old(fw.tables), fw.tables, root, address, physical, done, flags)
    {
      hide Tree, PathOf, Walk, TestBit, RangeView, OnWindow, LeafWord, Overwritten, StrayBytes;
      done := 0;
      ghost var start := fw.tables;
      RangeStart(start, root, address, physical, flags);
      NoStray(fw.bytes, start, root, address, physical, flags);
      if LengthOverflows(length) { return Err("mapping length overflow"), done; }
      var pages := (length + (PAGE_SIZE - 1)) / PAGE_SIZE;
      for page := 0 to pages
        invariant Valid() && done == page && RangeMapped(start, fw.tables, root, address, physical, page, flags)
        invariant fw.refusals == old(fw.refusals)
        invariant forall f | old(fw.NeverTable(f)) :: fw.NeverTable(f)
        invariant fw.bytes == StrayBytes(old(fw.bytes), start, root, address, physical, page, flags)
        invariant forall k | 0 <= k < page :: !old(NullLeaf(address + k * PAGE_SIZE))
      {
        ghost var p := PathOf(address + page * PAGE_SIZE);
        PageInRange(physical, page, pages);
        SameWindows(start, fw.tables, root, address, physical, page, flags, p);
        assert old(LeafFrame(address + page * PAGE_SIZE)) == LeafFrame(address + page * PAGE_SIZE);
        ghost var before, under := fw.tables, UnderWindow(address + page * PAGE_SIZE);
        var mapped := MapPage(address + page * PAGE_SIZE, physical + page * PAGE_SIZE, flags);
        if mapped.Err? {
          if under { RangeSame(start, before, fw.tables, root, address, physical, page, flags); }
          return mapped, done;
        }
        if under {
          RangeStepUnder(start, fw.tables, root, address, physical, page, flags);
        } else {
          RangeStep(start, before, fw.tables, root, address, physical, page, flags);
        }
        StrayStep(old(fw.bytes), start, root, address, physical, page, flags);
        PathEnd(address + page * PAGE_SIZE);
        done := page + 1;
      }
      r := Ok(());
    }

    /** One page of `map_range`. Off the windows it is mapped unless an
        allocation is refused. Under a window it never is: the entry goes into
        the page that the window leaf maps first, be it data or another table,
        and no allocation is made. */
    method MapPage(address: nat, physical: nat, flags: nat) returns (r: Result<()>)
      requires Valid() && PageAddress(physical)
      modifies this`at, fw`script, fw`used, fw`tables, fw`bytes, fw`refusals
      ensures fw.Valid()
      ensures forall f | old(fw.NeverTable(f)) :: fw.NeverTable(f)
      ensures !old(UnderWindow(address)) ==>
        && Valid() && fw.bytes == old(fw.bytes) && (r.Ok? <==> fw.refusals == old(fw.refusals))
        && (r.Err? ==> SameViews(old(fw.tables), fw.tables, root))
        && (r.Ok? ==> PageOnly(old(fw.tables), fw.tables, root, PathOf(address), physical, flags))
      ensures old(UnderWindow(address)) ==>
        && (r.Ok? <==> !old(NullLeaf(address))) && fw.refusals == old(fw.refusals) && at == old(at)
        && (r.Err? ==> fw.tables == old(fw.tables) && fw.bytes == old(fw.bytes))
        && (r.Ok? ==> StoredAt(old(fw.tables), old(fw.bytes), fw.tables, fw.bytes, old(LeafFrame(address)), IndexPt(address),
                               LeafWord(physical, SegmentWritable(flags), SegmentNoExecute(flags))))
    {
      hide Tree, Walk, Lookup, IndexPml4, IndexPdpt, IndexPd, IndexPt, LeafWord, SegmentWritable, SegmentNoExecute,
           TestBit, FrameBits, Overwritten;
      ghost var path := PathOf(address);
      ghost var window := UnderWindow(address);
      TreeReads(fw.tables, at, Root);
      WindowPlaces(fw.tables, at, path);
      var pdpt := ChildTable(root, IndexPml4(address), Root);
      if pdpt.Err? { return Err(pdpt.message); }
      var pd := ChildTable(pdpt.value, IndexPdpt(address), Pdpt(path.l4));
      if pd.Err? { return Err(pd.message); }
      WindowPlaces(fw.tables, at, path);
      var pt := ChildTable(pd.value, IndexPd(address), Pd(path.l4, path.l3));
      if pt.Err? { return Err(pt.message); }
      ghost var before := fw.tables;
      var word := LeafWord(physical, SegmentWritable(flags), SegmentNoExecute(flags));
      if !window { TreeReads(fw.tables, at, Pt(path.l4, path.l3, path.l2)); }
      fw.StoreWord(pt.value, IndexPt(address), word);
      if !window { PageMapped(before, at, path, physical, flags); }
      r := Ok(());
    }

    /** The page lies under a 2 MiB leaf. */
    ghost predicate UnderWindow(address: nat)
      requires Valid()
      reads this, fw
    {
      OnWindow(View(PathOf(address)))
    }

    /** The frame of the leaf it lies under, zero if it lies under none. */
    ghost function LeafFrame(address: nat): nat
      requires Valid()
      reads this, fw
    {
      if UnderWindow(address) then View(PathOf(address)).frame else 0
    }

    /** The leaf it lies under maps the first page of memory. */
    ghost predicate NullLeaf(address: nat)
      requires Valid()
      reads this, fw
    {
      UnderWindow(address) && LeafFrame(address) == 0
    }

    /** One gigabyte of `map_2m_window`: a new page directory, linked and filled. */
    method MapGigabyte(pdpt: nat, index: Index, gigabyte: nat, ghost node: Node) returns (r: Result<()>)
      requires Valid() && node in at && node.Pdpt? && at[node] == pdpt && Child(node, index) !in at
      requires gigabyte < 0x4_0000
      modifies this`at, fw`script, fw`used, fw`tables, fw`refusals
      ensures forall f | old(fw.NeverTable(f)) :: fw.NeverTable(f)
      ensures Valid()
      ensures r.Ok? <==> fw.refusals == old(fw.refusals)
      ensures r.Err? ==> at == old(at) && SameViews(old(fw.tables), fw.tables, root)
      ensures r.Ok? ==> at.Keys == old(at).Keys + {Child(node, index)}
      ensures r.Ok? ==> GigabyteOnly(old(fw.tables), fw.tables, root, node.l4, index, gigabyte)
    {
      hide Tree, Walk, Lookup;
      ghost var before, places := fw.tables, at;
      TreeReads(before, places, node);
      var table := fw.AllocateTable();
      if table.Err? { return Err(table.message); }
      var pd := table.value;
      fw.tables := Stored(fw.tables, pdpt, index, TableWord(pd));
      FillDirectory(pd, gigabyte);
      at := at[Child(node, index) := pd];
      GigabyteMapped(before, places, node, index, pd, gigabyte, fw.tables);
      r := Ok(());
    }

    /** The 512 leaves of one page directory. */
    method FillDirectory(pd: nat, gigabyte: nat)
      requires fw.Valid() && pd in fw.tables && gigabyte < 0x4_0000
      modifies fw`tables
      ensures fw.tables.Keys == old(fw.tables.Keys)
      ensures fw.Valid() && pd in fw.tables && |fw.tables[pd]| == 512 && fw.tables == old(fw.tables)[pd := fw.tables[pd]]
      ensures forall i: Index :: GigabyteLeaf(fw.tables[pd][i], gigabyte, i)
    {
      for entry := 0 to 512
        invariant fw.Valid() && ReadsTable(fw.tables, pd) && fw.tables == old(fw.tables)[pd := fw.tables[pd]]
        invariant forall i: Index | i < entry :: GigabyteLeaf(fw.tables[pd][i], gigabyte, i)
      {
        var physical := gigabyte * PAGE_1G + entry * PAGE_2M;
        WindowFrame(gigabyte, entry);
        HugeWordFacts(physical);
        hide TestBit, SetBit, HugeWord, FrameBits, Writable, NoExecute, Huge, Present;
        fw.tables := Stored(fw.tables, pd, entry, HugeWord(physical));
      }
    }
  }

  ghost predicate GigabyteLeaf(word: nat, gigabyte: nat, i: Index) {
    HugeLeaf(word) && CleanLeaf(word) && Writable(word) && !NoExecute(word) &&
    FrameBits(word, PAGE_2M) == gigabyte * PAGE_1G + i * PAGE_2M
  }

  ghost function GigabyteView(l4: Index, l3: Index, gigabyte: nat, p: VPath, before: Translation): Translation {
    if p.l4 == l4 && p.l3 == l3
    then Mapped(gigabyte * PAGE_1G + p.l2 * PAGE_2M, PAGE_2M, true, false) else before
  }

  /** The page count of `map_range`, whose rounding can overflow. */
  predicate LengthOverflows(length: nat) { length + (PAGE_SIZE - 1) >= ADDRESS_LIMIT }

  function RangePages(length: nat): nat { (length + (PAGE_SIZE - 1)) / PAGE_SIZE }

  /** The ELF flag bits PF_W (2) and PF_X (1). */
  predicate SegmentWritable(flags: nat) { TestBit(flags, 2) }
  predicate SegmentNoExecute(flags: nat) { !TestBit(flags, 1) }

  /** What `child_table` makes of a leaf. */
  function LeafAsTable(leaf: nat): Result<nat> {
    if FrameBits(leaf, PAGE_SIZE) != 0 then Ok(FrameBits(leaf, PAGE_SIZE)) else Err("invalid page table entry")
  }

  /** One word was stored into the page at `frame`, table or not. */
  ghost predicate StoredAt(t0: Tables, b0: map<nat, bv8>, t1: Tables, b1: map<nat, bv8>, frame: nat, i: Index, word: nat) {
    if frame in t0 then ReadsTable(t0, frame) && t1 == Stored(t0, frame, i, word) && b1 == b0
    else t1 == t0 && b1 == Overwritten(b0, frame + 8 * i, word)
  }

  ghost predicate OnWindow(t: Translation) { t.Mapped? && t.size == PAGE_2M }

  ghost function PageView(path: VPath, physical: nat, writable: bool, noExecute: bool,
                          p: VPath, before: Translation): Translation {
    if p == path then Mapped(physical, PAGE_SIZE, writable, noExecute) else before
  }

  lemma WindowStart(tables: Tables, root: nat, base: nat)
    ensures WindowMapped(tables, tables, root, base, 0)
  {
    hide Walk;
  }

  lemma WindowStep(t0: Tables, t1: Tables, t2: Tables, root: nat, base: nat, g: nat)
    requires WindowMapped(t0, t1, root, base, g)
    requires GigabyteOnly(t1, t2, root, IndexPml4(base + g * PAGE_1G), IndexPdpt(base + g * PAGE_1G), g)
    ensures WindowMapped(t0, t2, root, base, g + 1)
  {
    hide Walk, IndexPml4, IndexPdpt;
    forall p ensures Walk(t2, root, p) == WindowView(base, g + 1, p, Walk(t0, root, p)) {
      assert Walk(t1, root, p) == WindowView(base, g, p, Walk(t0, root, p));
    }
  }

  lemma RangeStart(tables: Tables, root: nat, address: nat, physical: nat, flags: nat)
    ensures RangeMapped(tables, tables, root, address, physical, 0, flags)
  {
    hide Walk;
  }

  lemma RangeStep(t0: Tables, t1: Tables, t2: Tables, root: nat, address: nat, physical: nat, page: nat, flags: nat)
    requires RangeMapped(t0, t1, root, address, physical, page, flags)
    requires PageOnly(t1, t2, root, PathOf(address + page * PAGE_SIZE), physical + page * PAGE_SIZE, flags)
    requires !OnWindow(Walk(t1, root, PathOf(address + page * PAGE_SIZE)))
    ensures RangeMapped(t0, t2, root, address, physical, page + 1, flags)
  {
    hide Walk, PathOf, SegmentWritable, SegmentNoExecute;
    forall p ensures Walk(t2, root, p) == RangeView(address, physical, page + 1,
        SegmentWritable(flags), SegmentNoExecute(flags), p, Walk(t0, root, p)) {
      assert Walk(t1, root, p) == RangeView(address, physical, page,
        SegmentWritable(flags), SegmentNoExecute(flags), p, Walk(t0, root, p));
    }
  }

  /** A range mapping neither makes nor unmakes a 2 MiB leaf. */
  lemma SameWindows(t0: Tables, t1: Tables, root: nat, address: nat, physical: nat, page: nat, flags: nat, p: VPath)
    requires RangeMapped(t0, t1, root, address, physical, page, flags)
    ensures OnWindow(Walk(t0, root, p)) || OnWindow(Walk(t1, root, p)) ==> Walk(t1, root, p) == Walk(t0, root, p)
  {
    hide Walk, PathOf;
  }

  lemma RangeStepUnder(t0: Tables, t1: Tables, root: nat, address: nat, physical: nat, page: nat, flags: nat)
    requires RangeMapped(t0, t1, root, address, physical, page, flags)
    requires OnWindow(Walk(t1, root, PathOf(address + page * PAGE_SIZE)))
    ensures RangeMapped(t0, t1, root, address, physical, page + 1, flags)
  {
    hide Walk, PathOf, SegmentWritable, SegmentNoExecute;
    forall p ensures Walk(t1, root, p) == RangeView(address, physical, page + 1,
        SegmentWritable(flags), SegmentNoExecute(flags), p, Walk(t0, root, p)) {
      assert Walk(t1, root, p) == RangeView(address, physical, page,
        SegmentWritable(flags), SegmentNoExecute(flags), p, Walk(t0, root, p));
    }
  }

  lemma RangeSame(t0: Tables, t1: Tables, t2: Tables, root: nat, address: nat, physical: nat, page: nat, flags: nat)
    requires RangeMapped(t0, t1, root, address, physical, page, flags) && t2 == t1
    ensures RangeMapped(t0, t2, root, address, physical, page, flags)
  {}

  lemma NoStray(bytes: map<nat, bv8>, tables: Tables, root: nat, address: nat, physical: nat, flags: nat)
    ensures StrayBytes(bytes, tables, root, address, physical, 0, flags) == bytes
  {}

  lemma PathEnd(address: nat)
    ensures PathOf(address).l1 == IndexPt(address)
  {}

  lemma StrayStep(bytes: map<nat, bv8>, tables: Tables, root: nat, address: nat, physical: nat, page: nat, flags: nat)
    ensures var p := PathOf(address + page * PAGE_SIZE);
      StrayBytes(bytes, tables, root, address, physical, page + 1, flags) ==
      StrayPage(StrayBytes(bytes, tables, root, address, physical, page, flags), Walk(tables, root, p), p.l1,
                physical + page * PAGE_SIZE, flags)
  {
    hide Walk, PathOf, StrayPage;
  }

  lemma PageInRange(physical: nat, page: nat, pages: nat)
    requires PageAddress(physical) && page < pages && physical + pages * PAGE_SIZE <= PHYSICAL_LIMIT
    ensures PageAddress(physical + page * PAGE_SIZE)
  {
    var k := physical / PAGE_SIZE;
    assert physical + page * PAGE_SIZE == PAGE_SIZE * (k + page);
  }

  /** Where a path is under a 2 MiB leaf, and where it is not. */
  lemma WindowPlaces(tables: Tables, at: Places, p: VPath)
    requires Tree(tables, at)
    ensures OnWindow(Walk(tables, at[Root], p)) ==>
      && Pdpt(p.l4) in at && Pd(p.l4, p.l3) in at && ReadsTable(tables, at[Pd(p.l4, p.l3)])
      && HugeLeaf(tables[at[Pd(p.l4, p.l3)]][p.l2])
      && Walk(tables, at[Root], p).frame == FrameBits(tables[at[Pd(p.l4, p.l3)]][p.l2], PAGE_SIZE)
    ensures !OnWindow(Walk(tables, at[Root], p)) && Pd(p.l4, p.l3) in at ==>
      ReadsTable(tables, at[Pd(p.l4, p.l3)]) && !HugeLeaf(tables[at[Pd(p.l4, p.l3)]][p.l2])
  {
    WalkIsLookup(tables, at, p);
    var d := Pd(p.l4, p.l3);
    assert Parent(d) == Pdpt(p.l4);
    if d in at {
      assert SlotOk(tables, at, d, p.l2);
      if Child(d, p.l2) in at { TableWordFacts(at[Child(d, p.l2)]); }
    }
  }

  /** The stray entry of a page under a leaf lands in a slot that the walk of
      the page goes through. */
  ghost predicate Hits(at: Places, p: VPath, frame: nat) {
    || (Root in at && frame == at[Root] && p.l1 == p.l4)
    || (Pdpt(p.l4) in at && frame == at[Pdpt(p.l4)] && p.l1 == p.l3)
    || (Pd(p.l4, p.l3) in at && frame == at[Pd(p.l4, p.l3)] && p.l1 == p.l2)
  }

  /** What the walk of a page under a leaf makes of its stray entry: nothing,
      or it follows it out of the tables. */
  lemma StrayWalk(tables: Tables, at: Places, p: VPath, frame: nat, word: nat)
    requires Tree(tables, at) && OnWindow(Walk(tables, at[Root], p)) && frame in tables && ReadsTable(tables, frame)
    requires Present(word) && !Huge(word) && FrameBits(word, PAGE_SIZE) !in tables
    ensures Walk(Stored(tables, frame, p.l1, word), at[Root], p) ==
      if Hits(at, p, frame) then Wild else Walk(tables, at[Root], p)
  {
    WindowPlaces(tables, at, p);
    var c, d := Pdpt(p.l4), Pd(p.l4, p.l3);
    assert Child(Root, p.l4) == c && SlotOk(tables, at, Root, p.l4);
    assert Child(c, p.l3) == d && SlotOk(tables, at, c, p.l3);
    TableWordFacts(at[c]);
    TableWordFacts(at[d]);
    TreeReads(tables, at, Root);
    TreeReads(tables, at, c);
    TreeReads(tables, at, d);
    assert at[Root] != at[c] && at[Root] != at[d] && at[c] != at[d];
    hide Tree, TestBit, FrameBits, TableWord;
  }

  /** A stored 4 KiB leaf decides its own page and no other. */
  lemma PageMapped(tables: Tables, at: Places, path: VPath, physical: nat, flags: nat)
    requires Tree(tables, at) && Pt(path.l4, path.l3, path.l2) in at && PageAddress(physical)
    requires ReadsTable(tables, at[Pt(path.l4, path.l3, path.l2)])
    ensures var word := LeafWord(physical, SegmentWritable(flags), SegmentNoExecute(flags));
      var tables' := Stored(tables, at[Pt(path.l4, path.l3, path.l2)], path.l1, word);
      Tree(tables', at) && PageOnly(tables, tables', at[Root], path, physical, flags)
  {
    hide TestBit, FrameBits, Tree, Walk;
    var n := Pt(path.l4, path.l3, path.l2);
    var word := LeafWord(physical, SegmentWritable(flags), SegmentNoExecute(flags));
    var tables' := Stored(tables, at[n], path.l1, word);
    LeafWordFacts(physical, SegmentWritable(flags), SegmentNoExecute(flags));
    LeafKeepsTree(tables, at, n, path.l1, word);
    forall p ensures Walk(tables', at[Root], p) == PageView(path, physical,
        SegmentWritable(flags), SegmentNoExecute(flags), p, Walk(tables, at[Root], p)) {
      hide Lookup;
      WalkIsLookup(tables, at, p);
      WalkIsLookup(tables', at, p);
    }
  }

  /** What `child_table` finds in a slot: a link to the child, or nothing. */
  lemma SlotRead(tables: Tables, at: Places, n: Node, i: Index)
    requires Tree(tables, at) && n in at && !n.Pt? && ReadsTable(tables, at[n])
    requires !(n.Pd? && HugeLeaf(tables[at[n]][i]))
    ensures Present(tables[at[n]][i]) <==> Child(n, i) in at
    ensures Child(n, i) in at ==> at[Child(n, i)] == FrameBits(tables[at[n]][i], PAGE_SIZE) != 0 && at[Child(n, i)] in tables
  {
    assert SlotOk(tables, at, n, i);
    if Child(n, i) in at {
      TableWordFacts(at[Child(n, i)]);
    }
  }

  /** Linking a new table changes no translation. */
  lemma TableMapped(tables: Tables, at: Places, n: Node, i: Index, table: nat)
    requires Tree(tables, at) && n in at && !n.Pt? && Child(n, i) !in at && FreshTable(tables, table)
    requires ReadsTable(tables, at[n]) && !(n.Pd? && HugeLeaf(tables[at[n]][i]))
    ensures var tables' := Stored(tables[table := Zeroed()], at[n], i, TableWord(table));
      && Tree(tables', at[Child(n, i) := table])
      && SameViews(tables, tables', at[Root])
  {
    var tables' := Stored(tables[table := Zeroed()], at[n], i, TableWord(table));
    LinkKeepsTree(tables, at, n, i, table);
    forall p ensures Walk(tables', at[Root], p) == Walk(tables, at[Root], p) {
      WalkIsLookup(tables, at, p);
      WalkIsLookup(tables', at[Child(n, i) := table], p);
    }
  }

  lemma TreeReads(tables: Tables, at: Places, n: Node)
    requires Tree(tables, at) && (n in at || n.Root?)
    ensures n in at && ReadsTable(tables, at[n])
  {}

  /** A page directory that is linked in and filled maps its gigabyte and
      leaves every other translation as it was. */
  lemma GigabyteMapped(tables: Tables, at: Places, n: Node, i: Index, pd: nat, gigabyte: nat, tables': Tables)
    requires Tree(tables, at) && n in at && n.Pdpt? && Child(n, i) !in at && FreshTable(tables, pd)
    requires ReadsTable(tables', pd)
    requires tables' == Stored(tables[pd := Zeroed()], at[n], i, TableWord(pd))[pd := tables'[pd]]
    requires forall j: Index :: GigabyteLeaf(tables'[pd][j], gigabyte, j)
    ensures Tree(tables', at[Child(n, i) := pd])
    ensures GigabyteOnly(tables, tables', at[Root], n.l4, i, gigabyte)
  {
    TreeReads(tables, at, n);
    hide TestBit, FrameBits, Tree, Walk;
    var linked := Stored(tables[pd := Zeroed()], at[n], i, TableWord(pd));
    var child := Child(n, i);
    var at' := at[child := pd];
    LinkKeepsTree(tables, at, n, i, pd);
    NothingBelow(tables, at, child);
    FillKeepsTree(linked, at', child, tables'[pd]);
    forall p ensures Walk(tables', at[Root], p) == GigabyteView(n.l4, i, gigabyte, p, Walk(tables, at[Root], p)) {
      hide Lookup;
      WalkIsLookup(tables, at, p);
      WalkIsLookup(tables', at', p);
      assert GigabyteLeaf(tables'[pd][p.l2], gigabyte, p.l2);
    }
  }

  lemma WindowFrame(gigabyte: nat, i: Index)
    requires gigabyte < 0x4_0000
    ensures (gigabyte * PAGE_1G + i * PAGE_2M) % PAGE_2M == 0 && gigabyte * PAGE_1G + i * PAGE_2M < PHYSICAL_LIMIT
  {
    assert gigabyte * PAGE_1G + i * PAGE_2M == PAGE_2M * (512 * gigabyte + i);
  }

  /** Gigabytes less than 256 TiB apart never share a page directory. */
  lemma DistinctDirectories(base: nat, g: nat, h: nat)
    requires g < h < g + 0x4_0000
    ensures DirectoryOf(base + g * PAGE_1G) != DirectoryOf(base + h * PAGE_1G)
  {
    var a, b := base + g * PAGE_1G, base + h * PAGE_1G;
    PageNumberDigits(a);
    PageNumberDigits(b);
    assert a / PAGE_1G == base / PAGE_1G + g;
    assert b / PAGE_1G == base / PAGE_1G + h;
    var x, y := a / 0x1_0000_0000_0000, b / 0x1_0000_0000_0000;
    assert a / PAGE_1G == IndexPdpt(a) + 512 * IndexPml4(a) + 0x4_0000 * x;
    assert b / PAGE_1G == IndexPdpt(b) + 512 * IndexPml4(b) + 0x4_0000 * y;
    NoMultiple(h - g, y - x);
  }

  lemma NoMultiple(d: nat, k: int)
    requires 0 < d < 0x4_0000
    ensures d != 0x4_0000 * k
  {
  }

  /** `physical_end.checked_add((1 << 30) - 1)` fails. */
  predicate HhdmOverflows(physicalEnd: nat) { physicalEnd + (PAGE_1G - 1) >= ADDRESS_LIMIT }

  function HhdmGigabytes(physicalEnd: nat): nat {
    var gigabytes := (physicalEnd + (PAGE_1G - 1)) / PAGE_1G;
    if gigabytes < 4 then 4 else gigabytes
  }
}
