/** The Executable Address response of `write_responses` in
    crates/r-boot/src/limine.rs: the kernel is told one physical and one virtual
    base, and takes `address - virtual base + physical base` for the physical
    address of its own image. The loader places every segment by an allocation
    of its own. */
module ExecutableBase {
  import opened LongMode
  import opened PageTree
  import opened Firmware
  import opened Elf
  import opened Loader
  import opened Paging
  import opened BootMap
  import opened Handoff

  function Least(xs: seq<nat>): (m: nat)
    requires xs != []
    ensures m in xs && forall i | 0 <= i < |xs| :: m <= xs[i]
  {
    if |xs| == 1 then xs[0] else
    assert forall i | 1 <= i < |xs| :: xs[i] == xs[1..][i - 1];
    var m := Least(xs[1..]);
    if xs[0] <= m then xs[0] else m
  }

  function Physicals(segments: seq<LoadedSegment>): (r: seq<nat>)
    ensures |r| == |segments| && forall i | 0 <= i < |r| :: r[i] == segments[i].physicalAddress
  {
    seq(|segments|, i requires 0 <= i < |segments| => segments[i].physicalAddress)
  }

  function Virtuals(segments: seq<LoadedSegment>): (r: seq<nat>)
    ensures |r| == |segments| && forall i | 0 <= i < |r| :: r[i] == segments[i].virtualAddress
  {
    seq(|segments|, i requires 0 <= i < |segments| => segments[i].virtualAddress)
  }

  function PhysicalBase(segments: seq<LoadedSegment>): nat
    requires segments != []
  {
    Least(Physicals(segments))
  }

  function VirtualBase(segments: seq<LoadedSegment>): nat
    requires segments != []
  {
    Least(Virtuals(segments))
  }

  /** What the kernel computes from the response. */
  function FromBases(segments: seq<LoadedSegment>, address: nat): int
    requires segments != []
  {
    address - VirtualBase(segments) + PhysicalBase(segments)
  }

  /** All segments were placed at one displacement. */
  predicate OneDisplacement(segments: seq<LoadedSegment>) {
    forall i, j | 0 <= i < |segments| && 0 <= j < |segments| ::
      segments[i].virtualAddress - segments[i].physicalAddress == segments[j].virtualAddress - segments[j].physicalAddress
  }

  lemma BasesOf(segments: seq<LoadedSegment>)
    requires segments != []
    ensures exists p, v | 0 <= p < |segments| && 0 <= v < |segments| ::
      && PhysicalBase(segments) == segments[p].physicalAddress && VirtualBase(segments) == segments[v].virtualAddress
      && forall i | 0 <= i < |segments| ::
          segments[p].physicalAddress <= segments[i].physicalAddress && segments[v].virtualAddress <= segments[i].virtualAddress
  {
    hide Least, Physicals, Virtuals;
    var ps, vs := Physicals(segments), Virtuals(segments);
    assert |ps| == |segments| && |vs| == |segments|;
    var least, first := Least(ps), Least(vs);
    var p :| 0 <= p < |ps| && ps[p] == least;
    var v :| 0 <= v < |vs| && vs[v] == first;
    assert forall i | 0 <= i < |ps| :: least <= ps[i];
    assert forall i | 0 <= i < |vs| :: first <= vs[i];
    assert forall i | 0 <= i < |segments| ::
      segments[p].physicalAddress <= segments[i].physicalAddress && segments[v].virtualAddress <= segments[i].virtualAddress;
  }

  /** The bases describe the whole image exactly when the separate allocations
      happened to keep one displacement. */
  lemma BasesDescribeImageIff(segments: seq<LoadedSegment>)
    requires segments != []
    ensures (forall k | 0 <= k < |segments| ::
               FromBases(segments, segments[k].virtualAddress) == segments[k].physicalAddress)
            <==> OneDisplacement(segments)
  {
    hide PhysicalBase, VirtualBase;
    BasesOf(segments);
    if OneDisplacement(segments) {
      var p, v :| 0 <= p < |segments| && 0 <= v < |segments| &&
        PhysicalBase(segments) == segments[p].physicalAddress && VirtualBase(segments) == segments[v].virtualAddress &&
        forall i | 0 <= i < |segments| ::
          segments[p].physicalAddress <= segments[i].physicalAddress && segments[v].virtualAddress <= segments[i].virtualAddress;
    }
  }

  /** In the tables: for every address of the image, the physical address the
      kernel computes is the one the processor uses, under the same condition. */
  lemma BasesAgreeWithWalk(tables: Tables, root: nat, segments: seq<LoadedSegment>, physicalEnd: nat, a: nat)
    requires segments != [] && OneDisplacement(segments) && a < ADDRESS_LIMIT && SegmentAt(segments, a).Some?
    requires !InWindows(physicalEnd, a) && forall s <- segments :: Mappable(s)
    requires Translate(tables, root, a) == if Canonical(a) then Promised(segments, physicalEnd, a) else PageFault
    ensures Translate(tables, root, a).Access? && Translate(tables, root, a).physical == FromBases(segments, a)
  {
    hide Translate, PhysicalBase, VirtualBase, RangePages, SegmentAt, SegmentAccess, HhdmSpan;
    BasesDescribeImageIff(segments);
    SegmentAtGivesAccess(segments, a);
    var s := segments[SegmentAt(segments, a).value];
    assert s in segments && HHDM_OFFSET <= s.virtualAddress <= a;
    assert FromBases(segments, s.virtualAddress) == s.physicalAddress;
  }

  /** A firmware that answers with falling addresses: two segments a page
      apart, placed by the loader, end up in the other order, and the kernel
      computes a wrong address for both. */
  method SwappedPlacement() returns (first: LoadedSegment, second: LoadedSegment)
    ensures first.virtualAddress + PAGE_SIZE == second.virtualAddress && !OneDisplacement([first, second])
    ensures FromBases([first, second], first.virtualAddress) == second.physicalAddress != first.physicalAddress
    ensures FromBases([first, second], second.virtualAddress) == first.physicalAddress
  {
    var fw := new Machine([0x20_1000, 0x20_0000], {});
    var s := Segment(0xffff_ffff_8000_0000, 0, 0, 0x1000, 5);
    var t := Segment(0xffff_ffff_8000_1000, 0, 0, 0x1000, 6);
    OnePage(0x20_1000);
    OnePage(0x20_0000);
    assert fw.Grants(1, KERNEL_MAX_ADDRESS + PAGE_SIZE);
    var u := Place(fw, [], s);
    assert RunOf(u.value) == {0x20_1000};
    assert fw.used == {0x20_1000};
    assert fw.Grants(1, KERNEL_MAX_ADDRESS + PAGE_SIZE);
    var v := Place(fw, [], t);
    first, second := u.value, v.value;
    assert [first, second][0] == first && [first, second][1] == second;
    hide PhysicalBase, VirtualBase;
    BasesOf([first, second]);
  }
}
