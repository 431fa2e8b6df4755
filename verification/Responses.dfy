/** Answering Limine requests by patching the loaded image: `write_responses`
    and `write_at_offset` of crates/r-boot/src/limine.rs. */
module Responses {
  import opened Wrappers
  import opened LongMode
  import opened Firmware
  import opened Elf
  import opened Paging
  import opened Loader
  import opened ElfLayout

  const COMMON_MAGIC: (nat, nat) := (0xc7b1_dd30_df4c_8b88, 0x0a82_e883_a194_f07b)
  const BASE_MAGIC: (nat, nat) := (0xf956_2b2d_5c95_a6c8, 0x6a7b_3849_4453_6bdc)
  const BOOTLOADER_INFO: (nat, nat) := (0xf550_38d8_e2a1_202f, 0x2794_26fc_f5f5_9740)
  const FIRMWARE_TYPE: (nat, nat) := (0x8c2f_75d9_0bef_28a8, 0x7045_a468_8eac_00c3)
  const HHDM: (nat, nat) := (0x48dc_f1cb_8ad2_b852, 0x6398_4e95_9a98_244b)
  const EXECUTABLE_ADDRESS: (nat, nat) := (0x71ba_7686_3cc5_5f63, 0xb264_4a48_c516_a487)
  const FRAMEBUFFER: (nat, nat) := (0x9d58_27dc_d881_dd75, 0xa314_8604_f6fa_b11b)
  const MEMORY_MAP: (nat, nat) := (0x67cf_3d9d_378a_806f, 0xe304_acdf_c50c_3c62)
  const MODULES: (nat, nat) := (0x3e7e_2797_02be_32af, 0xca1c_4f3b_d128_0cee)
  const REQUEST_SIZE: nat := 48

  /** Addresses of the answers. `boxed(o)` is the HHDM address of the response
      allocated for the request at file offset `o`; the other three are fixed
      before the scan. */
  datatype Answers = Answers(boxed: nat -> nat, modules: nat, memoryMap: nat, framebuffer: nat)

  /** `u64_at`. */
  function U64At(file: Bytes, offset: nat): nat
    requires offset + 8 <= |file|
  {
    LittleEndian(file[offset..offset + 8])
  }

  function PairAt(file: Bytes, offset: nat): (nat, nat)
    requires offset + 16 <= |file|
  {
    (U64At(file, offset), U64At(file, offset + 8))
  }

  predicate IsBaseTag(file: Bytes, o: nat) { o + 24 < |file| && PairAt(file, o) == BASE_MAGIC }

  /** A request header followed by room for a whole request. */
  predicate IsRequest(file: Bytes, o: nat) { o + REQUEST_SIZE <= |file| && PairAt(file, o) == COMMON_MAGIC }

  /** The answer to a request, `None` for an id the loader does not know. */
  function Answer(file: Bytes, o: nat, answers: Answers): Option<nat>
    requires o + REQUEST_SIZE <= |file|
  {
    var id := PairAt(file, o + 16);
    if id == BOOTLOADER_INFO || id == FIRMWARE_TYPE || id == HHDM || id == EXECUTABLE_ADDRESS then Some(answers.boxed(o))
    else if id == FRAMEBUFFER then Some(answers.framebuffer)
    else if id == MEMORY_MAP then Some(answers.memoryMap)
    else if id == MODULES then Some(answers.modules)
    else None
  }

  /** One file cell to be written: its offset and its new value. */
  datatype Patch = Patch(cell: nat, value: nat)

  /** What the scan does at one offset. */
  function PatchAt(file: Bytes, o: nat, answers: Answers): Option<Patch>
    requires o + 24 < |file|
  {
    if IsBaseTag(file, o) then Some(Patch(o + 16, 0))
    else if !IsRequest(file, o) then None
    else match Answer(file, o, answers)
      case None => None
      case Some(v) => Some(Patch(o + 40, v))
  }

  /** The request or tag, if any, whose cell is at file offset `c`: the inverse
      of `PatchAt`. */
  function PatchOf(file: Bytes, c: nat, answers: Answers): Option<(nat, nat)> {
    if 16 <= c && IsBaseTag(file, c - 16) then Some((c - 16, 0))
    else if 40 <= c && IsRequest(file, c - 40) && Answer(file, c - 40, answers).Some? then
      Some((c - 40, Answer(file, c - 40, answers).value))
    else None
  }

  /** Two matches never share a cell: a request's id ends where a base tag's
      magic would have to start, and the constants differ. */
  lemma CellsNeverCoincide(file: Bytes, o: nat, answers: Answers)
    requires o + 24 < |file| && PatchAt(file, o, answers).Some?
    ensures var p := PatchAt(file, o, answers).value; PatchOf(file, p.cell, answers) == Some((o, p.value))
  {}

  /** `PatchOf` finds nothing but what the scan would write. */
  lemma PatchOfIsPatchAt(file: Bytes, c: nat, answers: Answers)
    requires PatchOf(file, c, answers).Some?
    ensures var (o, v) := PatchOf(file, c, answers).value; o + 24 < |file| && PatchAt(file, o, answers) == Some(Patch(c, v))
  {}

  // ----- where a cell lives

  predicate HoldsCell(s: LoadedSegment, c: nat) {
    s.fileOffset <= c && c + 8 <= s.fileOffset + s.fileSize
  }

  /** The first segment whose file bytes contain the cell. */
  function Owner(segments: seq<LoadedSegment>, c: nat): Option<nat> {
    if segments == [] then None
    else if HoldsCell(segments[0], c) then Some(0)
    else match Owner(segments[1..], c) case None => None case Some(k) => Some(k + 1)
  }

  lemma {:induction false} OwnerIsFirst(segments: seq<LoadedSegment>, c: nat)
    ensures match Owner(segments, c)
      case None => forall s <- segments :: !HoldsCell(s, c)
      case Some(k) => k < |segments| && HoldsCell(segments[k], c) && forall j | 0 <= j < k :: !HoldsCell(segments[j], c)
  {
    if segments != [] {
      OwnerIsFirst(segments[1..], c);
      assert segments == [segments[0]] + segments[1..];
      match Owner(segments[1..], c) {
        case None =>
        case Some(k) =>
          forall j | 0 <= j < k + 1 ensures HoldsCell(segments[0], c) || !HoldsCell(segments[j], c) {
            if j > 0 { assert segments[j] == segments[1..][j - 1]; }
          }
      }
    }
  }

  /** Byte `i` of a 64-bit word in memory. */
  function ByteOf(value: nat, i: nat): bv8
    requires i < 8
  {
    Le(value, 8)[i]
  }

  /** The byte `limit` offsets into the scan at offset `i` of segment `k`. */
  function PatchedByte(file: Bytes, segments: seq<LoadedSegment>, answers: Answers, limit: nat, k: nat, i: nat): bv8
    requires k < |segments| && segments[k].fileOffset + segments[k].fileSize <= |file|
  {
    var s := segments[k];
    var j := s.fileOffset + i;
    var c := j - j % 8;
    match PatchOf(file, c, answers)
    case Some(p) =>
      if i < s.fileSize && p.0 < limit && Owner(segments, c) == Some(k) then ByteOf(p.1, j - c) else Content(file, s, i)
    case None => Content(file, s, i)
  }

  predicate InFile(file: Bytes, segments: seq<LoadedSegment>) {
    forall s <- segments :: s.fileOffset % 8 == 0 && s.fileOffset + s.fileSize <= |file| && s.fileSize <= Extent(s)
  }

  /** Memory holds every segment with the patches of the first `limit` offsets. */
  ghost predicate PatchedTo(bytes: map<nat, bv8>, file: Bytes, segments: seq<LoadedSegment>, answers: Answers, limit: nat)
    requires InFile(file, segments)
  {
    forall k: nat, a: nat | k < |segments| && Owns(segments[k], a) ::
      a in bytes && bytes[a] == PatchedByte(file, segments, answers, limit, k, a - segments[k].physicalAddress)
  }

  function WordBytes(value: nat): Bytes { seq(8, i requires 0 <= i < 8 => ByteOf(value, i)) }

  /** The scan only stops on offsets that are multiples of eight. */
  lemma PatchOfAligned(file: Bytes, c: nat, answers: Answers)
    requires c % 8 == 0 && PatchOf(file, c, answers).Some?
    ensures PatchOf(file, c, answers).value.0 % 8 == 0
  {
    hide PairAt, Answer, IsRequest, IsBaseTag;
  }

  /** The scan at `o` passes over a cell it does not write. */
  lemma StepAside(file: Bytes, segments: seq<LoadedSegment>, answers: Answers, o: nat, k: nat, i: nat)
    requires k < |segments| && segments[k].fileOffset + segments[k].fileSize <= |file| && segments[k].fileOffset % 8 == 0
    requires o % 8 == 0 && o + 24 < |file|
    requires var j := segments[k].fileOffset + i;
      PatchAt(file, o, answers).None? || PatchAt(file, o, answers).value.cell != j - j % 8 ||
      Owner(segments, j - j % 8) != Some(k)
    ensures PatchedByte(file, segments, answers, o + 8, k, i) == PatchedByte(file, segments, answers, o, k, i)
  {
    hide PatchAt, PatchOf, Owner, ByteOf, Content;
    var j := segments[k].fileOffset + i;
    var c := j - j % 8;
    if PatchOf(file, c, answers).Some? {
      PatchOfIsPatchAt(file, c, answers);
      PatchOfAligned(file, c, answers);
    }
  }

  /** The scan at `o` decides the bytes of its own cell. */
  lemma StepOn(file: Bytes, segments: seq<LoadedSegment>, answers: Answers, o: nat, k: nat, i: nat)
    requires k < |segments| && segments[k].fileOffset + segments[k].fileSize <= |file| && segments[k].fileOffset % 8 == 0
    requires o % 8 == 0 && o + 24 < |file| && PatchAt(file, o, answers).Some?
    requires var p := PatchAt(file, o, answers).value; var j := segments[k].fileOffset + i;
      p.cell == j - j % 8 && Owner(segments, p.cell) == Some(k)
    ensures var p := PatchAt(file, o, answers).value;
      PatchedByte(file, segments, answers, o + 8, k, i) == ByteOf(p.value, segments[k].fileOffset + i - p.cell)
  {
    hide PatchAt, PatchOf, Owner, ByteOf, Content;
    CellsNeverCoincide(file, o, answers);
    OwnerIsFirst(segments, PatchAt(file, o, answers).value.cell);
  }

  lemma PatchCellAligned(file: Bytes, o: nat, answers: Answers)
    requires o % 8 == 0 && o + 24 < |file| && PatchAt(file, o, answers).Some?
    ensures PatchAt(file, o, answers).value.cell % 8 == 0
  {
    hide PairAt, Answer, IsRequest, IsBaseTag;
  }

  /** One step of the scan, seen as a change of memory. */
  function Written(bytes: map<nat, bv8>, segments: seq<LoadedSegment>, p: Patch): map<nat, bv8>
    requires Owner(segments, p.cell).Some? && Owner(segments, p.cell).value < |segments|
    requires HoldsCell(segments[Owner(segments, p.cell).value], p.cell)
  {
    var s := segments[Owner(segments, p.cell).value];
    Filled(bytes, s.physicalAddress + (p.cell - s.fileOffset), WordBytes(p.value))
  }

  lemma WriteStep(bytes: map<nat, bv8>, file: Bytes, segments: seq<LoadedSegment>, answers: Answers, o: nat, a: nat, k: nat)
    requires InFile(file, segments) && AllApart(segments) && o % 8 == 0 && o + 24 < |file|
    requires PatchAt(file, o, answers).Some? && Owner(segments, PatchAt(file, o, answers).value.cell).Some?
    requires PatchedTo(bytes, file, segments, answers, o) && k < |segments| && Owns(segments[k], a)
    requires var m := Owner(segments, PatchAt(file, o, answers).value.cell).value;
      m < |segments| && HoldsCell(segments[m], PatchAt(file, o, answers).value.cell)
    ensures var after := Written(bytes, segments, PatchAt(file, o, answers).value);
      a in after &&
      after[a] == PatchedByte(file, segments, answers, o + 8, k, a - segments[k].physicalAddress)
  {
    hide PatchAt, PatchOf, Owner, ByteOf, Content, Filled, PatchedByte, RangePages;
    var p := PatchAt(file, o, answers).value;
    var m := Owner(segments, p.cell).value;
    var t := segments[m];
    var target := t.physicalAddress + (p.cell - t.fileOffset);
    var i := a - segments[k].physicalAddress;
    PatchCellAligned(file, o, answers);
    assert k < m ==> Apart(segments[k], segments[m]);
    assert m < k ==> Apart(segments[m], segments[k]);
    FilledAt(bytes, target, WordBytes(p.value), a);
    if target <= a < target + 8 {
      assert t in segments;
      assert Owns(t, a);
      assert k == m;
      var j := t.fileOffset + i;
      assert p.cell == j - j % 8 by { CellOfByte(p.cell, j); }
      StepOn(file, segments, answers, o, k, i);
    } else {
      var j := segments[k].fileOffset + i;
      assert segments[k] in segments;
      CellReaches(p.cell, j);
      StepAside(file, segments, answers, o, k, i);
    }
  }

  lemma CellOfByte(c: nat, j: nat)
    requires c % 8 == 0 && c <= j < c + 8
    ensures c == j - j % 8
  {}

  lemma CellReaches(c: nat, j: nat)
    ensures c == j - j % 8 ==> c <= j < c + 8
  {}

  /** Everything outside the segments' own pages. */
  ghost predicate Untouched(before: map<nat, bv8>, after: map<nat, bv8>, segments: seq<LoadedSegment>) {
    before.Keys == after.Keys &&
    forall a <- before :: (forall s <- segments :: !Owns(s, a)) ==> after[a] == before[a]
  }

  lemma WriteKeepsRest(before: map<nat, bv8>, bytes: map<nat, bv8>, file: Bytes, segments: seq<LoadedSegment>, p: Patch)
    requires InFile(file, segments) && Untouched(before, bytes, segments)
    requires forall s <- segments, a: nat | Owns(s, a) :: a in bytes
    requires Owner(segments, p.cell).Some? && Owner(segments, p.cell).value < |segments|
    requires HoldsCell(segments[Owner(segments, p.cell).value], p.cell)
    ensures Untouched(before, Written(bytes, segments, p), segments)
  {
    hide Filled, Owner, ByteOf, RangePages;
    var t := segments[Owner(segments, p.cell).value];
    assert t in segments;
    var target := t.physicalAddress + (p.cell - t.fileOffset);
    var after := Written(bytes, segments, p);
    forall a: nat ensures a in after <==> a in bytes {
      FilledAt(bytes, target, WordBytes(p.value), a);
      if target <= a < target + 8 { assert Owns(t, a); }
    }
    forall a <- before | forall s <- segments :: !Owns(s, a) ensures after[a] == before[a] {
      FilledAt(bytes, target, WordBytes(p.value), a);
      assert !Owns(t, a);
    }
  }

  /** `write_at_offset`: the store goes to the first segment with the cell. */
  method WriteAtOffset(fw: Machine, segments: seq<LoadedSegment>, p: Patch) returns (r: Result<()>)
    requires fw.Valid()
    requires forall s <- segments, a: nat | Owns(s, a) :: a in fw.bytes
    requires forall s <- segments :: s.fileSize <= Extent(s)
    modifies fw`bytes
    ensures fw.Valid()
    ensures r.Ok? <==> Owner(segments, p.cell).Some?
    ensures r.Err? ==> fw.bytes == old(fw.bytes)
    ensures r.Ok? ==> Owner(segments, p.cell).value < |segments| && HoldsCell(segments[Owner(segments, p.cell).value], p.cell)
    ensures r.Ok? ==> fw.bytes == Written(old(fw.bytes), segments, p)
  {
    hide Filled, Owner, ByteOf, RangePages;
    OwnerIsFirst(segments, p.cell);
    var k := 0;
    while k < |segments| && !HoldsCell(segments[k], p.cell)
      invariant k <= |segments| && forall j | 0 <= j < k :: !HoldsCell(segments[j], p.cell)
    {
      k := k + 1;
    }
    if k == |segments| { return Err("Limine request is not in a loadable segment"); }
    var s := segments[k];
    var target := s.physicalAddress + (p.cell - s.fileOffset);
    forall a: nat ensures a in Filled(fw.bytes, target, WordBytes(p.value)) <==> a in fw.bytes {
      FilledAt(fw.bytes, target, WordBytes(p.value), a);
      if target <= a < target + 8 { assert Owns(s, a); }
    }
    fw.bytes := Filled(fw.bytes, target, WordBytes(p.value));
    r := Ok(());
  }

  lemma NothingWritten(bytes: map<nat, bv8>, file: Bytes, segments: seq<LoadedSegment>, answers: Answers)
    requires InFile(file, segments) && forall s <- segments :: Holds(bytes, file, s)
    ensures PatchedTo(bytes, file, segments, answers, 0)
  {
    hide PatchOf, Owner, Content, RangePages;
    forall k: nat, a: nat | k < |segments| && Owns(segments[k], a)
      ensures a in bytes && bytes[a] == PatchedByte(file, segments, answers, 0, k, a - segments[k].physicalAddress)
    {
      assert Holds(bytes, file, segments[k]);
    }
  }

  /** Past the last place a match can start, the scan is over. */
  lemma ScanOver(bytes: map<nat, bv8>, file: Bytes, segments: seq<LoadedSegment>, answers: Answers, o: nat)
    requires InFile(file, segments) && PatchedTo(bytes, file, segments, answers, o)
    requires |file| <= o + 24 && o <= |file|
    ensures PatchedTo(bytes, file, segments, answers, |file|)
  {
    hide PatchedByte, RangePages;
    forall k: nat, a: nat | k < |segments| && Owns(segments[k], a)
      ensures a in bytes && bytes[a] == PatchedByte(file, segments, answers, |file|, k, a - segments[k].physicalAddress)
    {
      assert segments[k] in segments;
      SameByte(file, segments, answers, o, k, a - segments[k].physicalAddress);
    }
  }

  lemma SameByte(file: Bytes, segments: seq<LoadedSegment>, answers: Answers, o: nat, k: nat, i: nat)
    requires k < |segments| && segments[k].fileOffset + segments[k].fileSize <= |file|
    requires |file| <= o + 24 && o <= |file|
    ensures PatchedByte(file, segments, answers, o, k, i) == PatchedByte(file, segments, answers, |file|, k, i)
  {
    hide Owner, Content, ByteOf, PatchOf, PatchAt;
    var j := segments[k].fileOffset + i;
    if PatchOf(file, j - j % 8, answers).Some? { PatchOfIsPatchAt(file, j - j % 8, answers); }
  }

  /** Every match the scan can meet before `limit` has its cell in a segment. */
  ghost predicate Answerable(file: Bytes, segments: seq<LoadedSegment>, answers: Answers, limit: nat) {
    forall o: nat | o % 8 == 0 && o < limit && o + 24 < |file| ::
      PatchAt(file, o, answers).Some? ==> Owner(segments, PatchAt(file, o, answers).value.cell).Some?
  }

  /** `write_responses`. It succeeds exactly when every match can be answered;
      on success memory is the loaded image with exactly the matched cells
      replaced, on failure with those of the matches before `done`, which is the
      first match no segment holds. */
  method WriteResponses(fw: Machine, file: Bytes, segments: seq<LoadedSegment>, answers: Answers)
      returns (r: Result<()>, ghost done: nat)
    requires fw.Valid() && segments != [] && InFile(file, segments) && AllApart(segments)
    requires forall s <- segments :: Holds(fw.bytes, file, s)
    modifies fw`bytes
    ensures fw.Valid() && Untouched(old(fw.bytes), fw.bytes, segments)
    ensures PatchedTo(fw.bytes, file, segments, answers, done)
    ensures r.Ok? ==> done == |file|
    ensures r.Err? && (forall s <- segments :: s.physicalAddress < 0x1_0000_0000) ==>
      && done % 8 == 0 && done + 24 < |file| && Answerable(file, segments, answers, done)
      && PatchAt(file, done, answers).Some? && Owner(segments, PatchAt(file, done, answers).value.cell).None?
    ensures r.Ok? <==> (forall s <- segments :: s.physicalAddress < 0x1_0000_0000) && Answerable(file, segments, answers, |file|)
  {
    hide PatchAt, PatchOf, Owner, ByteOf, Content, RangePages, Filled, PatchedTo, Holds;
    done := 0;
    NothingWritten(fw.bytes, file, segments, answers);
    if exists s <- segments :: s.physicalAddress >= 0x1_0000_0000 {
      return Err("this basic backend currently requires kernel allocations below 4 GiB"), done;
    }
    ghost var before := fw.bytes;
    var o := 0;
    while o + 24 < |file|
      invariant fw.Valid() && o % 8 == 0 && done == o && (o == 0 || o < |file|)
      invariant Untouched(before, fw.bytes, segments) && PatchedTo(fw.bytes, file, segments, answers, o)
      invariant Answerable(file, segments, answers, o)
      decreases |file| - o
    {
      ghost var bytes := fw.bytes;
      var patch := PatchAt(file, o, answers);
      if patch.Some? {
        OwnedPresent(bytes, file, segments, answers, o);
        var written := WriteAtOffset(fw, segments, patch.value);
        if written.Err? { return written, done; }
        WriteKeepsRest(before, bytes, file, segments, patch.value);
        AfterWrite(bytes, file, segments, answers, o);
      } else {
        AfterNothing(bytes, file, segments, answers, o);
      }
      o := o + 8;
      done := o;
    }
    ScanOver(fw.bytes, file, segments, answers, o);
    done := |file|;
    r := Ok(());
  }

  lemma OwnedPresent(bytes: map<nat, bv8>, file: Bytes, segments: seq<LoadedSegment>, answers: Answers, o: nat)
    requires InFile(file, segments) && PatchedTo(bytes, file, segments, answers, o)
    ensures forall s <- segments, a: nat | Owns(s, a) :: a in bytes
  {
    hide PatchedByte, RangePages;
    forall s <- segments, a: nat | Owns(s, a) ensures a in bytes {
      var k: nat :| k < |segments| && segments[k] == s;
    }
  }

  lemma AfterWrite(bytes: map<nat, bv8>, file: Bytes, segments: seq<LoadedSegment>, answers: Answers, o: nat)
    requires InFile(file, segments) && AllApart(segments) && o % 8 == 0 && o + 24 < |file|
    requires PatchAt(file, o, answers).Some? && Owner(segments, PatchAt(file, o, answers).value.cell).Some?
    requires PatchedTo(bytes, file, segments, answers, o)
    requires var m := Owner(segments, PatchAt(file, o, answers).value.cell).value;
      m < |segments| && HoldsCell(segments[m], PatchAt(file, o, answers).value.cell)
    ensures PatchedTo(Written(bytes, segments, PatchAt(file, o, answers).value), file, segments, answers, o + 8)
  {
    hide PatchAt, PatchOf, Owner, PatchedByte, Written, RangePages;
    var after := Written(bytes, segments, PatchAt(file, o, answers).value);
    forall k: nat, a: nat | k < |segments| && Owns(segments[k], a)
      ensures a in after && after[a] == PatchedByte(file, segments, answers, o + 8, k, a - segments[k].physicalAddress)
    {
      WriteStep(bytes, file, segments, answers, o, a, k);
    }
  }

  lemma AfterNothing(bytes: map<nat, bv8>, file: Bytes, segments: seq<LoadedSegment>, answers: Answers, o: nat)
    requires InFile(file, segments) && o % 8 == 0 && o + 24 < |file| && PatchAt(file, o, answers).None?
    requires PatchedTo(bytes, file, segments, answers, o)
    ensures PatchedTo(bytes, file, segments, answers, o + 8)
  {
    hide PatchAt, PatchOf, Owner, PatchedByte, RangePages;
    forall k: nat, a: nat | k < |segments| && Owns(segments[k], a)
      ensures a in bytes && bytes[a] == PatchedByte(file, segments, answers, o + 8, k, a - segments[k].physicalAddress)
    {
      assert segments[k] in segments;
      StepAside(file, segments, answers, o, k, a - segments[k].physicalAddress);
    }
  }

  // ----- what the kernel reads

  ghost predicate CellPresent(bytes: map<nat, bv8>, a: nat) {
    forall b: nat | a <= b < a + 8 :: b in bytes
  }

  /** A 64-bit load. */
  ghost function WordAt(bytes: map<nat, bv8>, a: nat): nat
    requires CellPresent(bytes, a)
  {
    LittleEndian(seq(8, i requires 0 <= i < 8 => bytes[a + i]))
  }

  /** Where the kernel finds file offset `c` of segment `s`. */
  function CellAddress(s: LoadedSegment, c: nat): nat
    requires s.fileOffset <= c
  {
    s.physicalAddress + (c - s.fileOffset)
  }

  /** Loading the cell of an answered request gives the address of its
      response, and the cell of a base tag gives zero. */
  lemma AnswerReadsBack(bytes: map<nat, bv8>, file: Bytes, segments: seq<LoadedSegment>, answers: Answers, o: nat, k: nat)
    requires InFile(file, segments) && PatchedTo(bytes, file, segments, answers, |file|)
    requires o % 8 == 0 && o + 24 < |file| && PatchAt(file, o, answers).Some?
    requires PatchAt(file, o, answers).value.value < ADDRESS_LIMIT
    requires Owner(segments, PatchAt(file, o, answers).value.cell) == Some(k)
    ensures var p := PatchAt(file, o, answers).value;
      && k < |segments| && segments[k].fileOffset <= p.cell && CellPresent(bytes, CellAddress(segments[k], p.cell))
      && WordAt(bytes, CellAddress(segments[k], p.cell)) == p.value
  {
    hide PatchAt, PatchOf, Owner, LittleEndian, Le, ByteOf, PatchedTo, PatchedByte, WordBytes;
    var p := PatchAt(file, o, answers).value;
    OwnerIsFirst(segments, p.cell);
    var a := CellAddress(segments[k], p.cell);
    forall b: nat | a <= b < a + 8 ensures b in bytes && bytes[b] == ByteOf(p.value, b - a) {
      AnswerByte(bytes, file, segments, answers, o, k, b - a);
    }
    WordIs(bytes, a, p.value);
  }

  /** The 64-bit word of the file at `o`, and of memory where the file offset
      `o` of segment `k` was loaded. */
  ghost predicate Reads(bytes: map<nat, bv8>, segments: seq<LoadedSegment>, k: nat, o: nat, value: nat) {
    && k < |segments| && segments[k].fileOffset <= o && CellPresent(bytes, CellAddress(segments[k], o))
    && WordAt(bytes, CellAddress(segments[k], o)) == value
  }

  /** What the kernel finds in a request, by the numbers of the protocol: the
      request it made decides which response it reads. */
  lemma ResponsesByNumber(bytes: map<nat, bv8>, file: Bytes, segments: seq<LoadedSegment>, answers: Answers, o: nat, k: nat)
    requires InFile(file, segments) && PatchedTo(bytes, file, segments, answers, |file|)
    requires o % 8 == 0 && o + 48 <= |file| && Owner(segments, o + 40) == Some(k)
    requires U64At(file, o) == 0xc7b1_dd30_df4c_8b88 && U64At(file, o + 8) == 0x0a82_e883_a194_f07b
    requires answers.boxed(o) < ADDRESS_LIMIT && answers.modules < ADDRESS_LIMIT
    requires answers.memoryMap < ADDRESS_LIMIT && answers.framebuffer < ADDRESS_LIMIT
    ensures var a, b := U64At(file, o + 16), U64At(file, o + 24);
      && (a == 0x67cf_3d9d_378a_806f && b == 0xe304_acdf_c50c_3c62 ==> Reads(bytes, segments, k, o + 40, answers.memoryMap))
      && (a == 0x9d58_27dc_d881_dd75 && b == 0xa314_8604_f6fa_b11b ==> Reads(bytes, segments, k, o + 40, answers.framebuffer))
      && (a == 0x3e7e_2797_02be_32af && b == 0xca1c_4f3b_d128_0cee ==> Reads(bytes, segments, k, o + 40, answers.modules))
      && (a == 0xf550_38d8_e2a1_202f && b == 0x2794_26fc_f5f5_9740 ==> Reads(bytes, segments, k, o + 40, answers.boxed(o)))
      && (a == 0x8c2f_75d9_0bef_28a8 && b == 0x7045_a468_8eac_00c3 ==> Reads(bytes, segments, k, o + 40, answers.boxed(o)))
      && (a == 0x48dc_f1cb_8ad2_b852 && b == 0x6398_4e95_9a98_244b ==> Reads(bytes, segments, k, o + 40, answers.boxed(o)))
      && (a == 0x71ba_7686_3cc5_5f63 && b == 0xb264_4a48_c516_a487 ==> Reads(bytes, segments, k, o + 40, answers.boxed(o)))
  {
    hide U64At, PatchedTo, WordAt, CellPresent, Owner, InFile;
    if PatchAt(file, o, answers).Some? { AnswerReadsBack(bytes, file, segments, answers, o, k); }
  }

  /** A base-revision tag reads zero, by its numbers. */
  lemma BaseTagByNumber(bytes: map<nat, bv8>, file: Bytes, segments: seq<LoadedSegment>, answers: Answers, o: nat, k: nat)
    requires InFile(file, segments) && PatchedTo(bytes, file, segments, answers, |file|)
    requires o % 8 == 0 && o + 24 < |file| && Owner(segments, o + 16) == Some(k)
    requires U64At(file, o) == 0xf956_2b2d_5c95_a6c8 && U64At(file, o + 8) == 0x6a7b_3849_4453_6bdc
    ensures Reads(bytes, segments, k, o + 16, 0)
  {
    hide U64At, PatchedTo, WordAt, CellPresent, Owner, InFile;
    AnswerReadsBack(bytes, file, segments, answers, o, k);
  }

  /** Every other word of the image is the file's own: one that is neither at
      offset 40 of a request with a known id nor at offset 16 of a tag. */
  lemma OtherWordsAreTheFiles(bytes: map<nat, bv8>, file: Bytes, segments: seq<LoadedSegment>, answers: Answers, c: nat, k: nat)
    requires InFile(file, segments) && PatchedTo(bytes, file, segments, answers, |file|)
    requires c % 8 == 0 && k < |segments| && HoldsCell(segments[k], c) && c + 8 <= |file|
    requires !(16 <= c && c + 8 < |file| && U64At(file, c - 16) == 0xf956_2b2d_5c95_a6c8 && U64At(file, c - 8) == 0x6a7b_3849_4453_6bdc)
    requires !(40 <= c && U64At(file, c - 40) == 0xc7b1_dd30_df4c_8b88 && U64At(file, c - 32) == 0x0a82_e883_a194_f07b &&
               KnownId(U64At(file, c - 24), U64At(file, c - 16)))
    ensures Reads(bytes, segments, k, c, U64At(file, c))
  {
    hide U64At, InFile, Owner, RangePages, LittleEndian, ByteOf, WordBytes, PatchAt;
    assert PatchOf(file, c, answers).None?;
    hide PatchOf, PatchedByte;
    var s := segments[k];
    var a := CellAddress(s, c);
    forall b: nat | a <= b < a + 8 ensures b in bytes && bytes[b] == file[c + (b - a)] {
      UnpatchedByte(bytes, file, segments, answers, c, k, b - a);
    }
    FileWord(bytes, file, a, c);
  }

  predicate KnownId(a: nat, b: nat) {
    || (a == 0x67cf_3d9d_378a_806f && b == 0xe304_acdf_c50c_3c62)
    || (a == 0x9d58_27dc_d881_dd75 && b == 0xa314_8604_f6fa_b11b)
    || (a == 0x3e7e_2797_02be_32af && b == 0xca1c_4f3b_d128_0cee)
    || (a == 0xf550_38d8_e2a1_202f && b == 0x2794_26fc_f5f5_9740)
    || (a == 0x8c2f_75d9_0bef_28a8 && b == 0x7045_a468_8eac_00c3)
    || (a == 0x48dc_f1cb_8ad2_b852 && b == 0x6398_4e95_9a98_244b)
    || (a == 0x71ba_7686_3cc5_5f63 && b == 0xb264_4a48_c516_a487)
  }

  lemma UnpatchedByte(bytes: map<nat, bv8>, file: Bytes, segments: seq<LoadedSegment>, answers: Answers, c: nat, k: nat, i: nat)
    requires InFile(file, segments) && PatchedTo(bytes, file, segments, answers, |file|)
    requires c % 8 == 0 && k < |segments| && HoldsCell(segments[k], c) && i < 8 && PatchOf(file, c, answers).None?
    ensures segments[k] in segments && c + 8 <= |file|
    ensures var b := CellAddress(segments[k], c) + i; b in bytes && bytes[b] == file[c + i]
  {
    hide PatchOf, Owner, RangePages, ByteOf;
    AlignedByte(c, i);
    var s := segments[k];
    assert s in segments;
    assert Owns(s, CellAddress(s, c) + i);
  }

  lemma FileWord(bytes: map<nat, bv8>, file: Bytes, a: nat, c: nat)
    requires c + 8 <= |file| && forall b: nat | a <= b < a + 8 :: b in bytes && bytes[b] == file[c + (b - a)]
    ensures CellPresent(bytes, a) && WordAt(bytes, a) == U64At(file, c)
  {
    hide LittleEndian;
    assert seq(8, i requires 0 <= i < 8 => bytes[a + i]) == file[c..c + 8];
  }

  lemma AnswerByte(bytes: map<nat, bv8>, file: Bytes, segments: seq<LoadedSegment>, answers: Answers, o: nat, k: nat, i: nat)
    requires InFile(file, segments) && PatchedTo(bytes, file, segments, answers, |file|)
    requires o % 8 == 0 && o + 24 < |file| && PatchAt(file, o, answers).Some? && i < 8
    requires k < |segments| && Owner(segments, PatchAt(file, o, answers).value.cell) == Some(k)
    requires HoldsCell(segments[k], PatchAt(file, o, answers).value.cell)
    ensures var p := PatchAt(file, o, answers).value; var b := CellAddress(segments[k], p.cell) + i;
      b in bytes && bytes[b] == ByteOf(p.value, i)
  {
    hide PatchAt, PatchOf, Owner, Content, RangePages, ByteOf;
    var p := PatchAt(file, o, answers).value;
    CellsNeverCoincide(file, o, answers);
    PatchCellAligned(file, o, answers);
    AlignedByte(p.cell, i);
    var s := segments[k];
    assert s in segments;
    assert Owns(s, CellAddress(s, p.cell) + i);
  }

  lemma WordIs(bytes: map<nat, bv8>, a: nat, value: nat)
    requires value < ADDRESS_LIMIT
    requires forall b: nat | a <= b < a + 8 :: b in bytes && bytes[b] == ByteOf(value, b - a)
    ensures CellPresent(bytes, a) && WordAt(bytes, a) == value
  {
    hide LittleEndian, Le;
    assert seq(8, i requires 0 <= i < 8 => bytes[a + i]) == Le(value, 8);
    EightBytes(value);
  }

  lemma AlignedByte(c: nat, i: nat)
    requires c % 8 == 0 && i < 8
    ensures c + i - (c + i) % 8 == c
  {}

  lemma EightBytes(value: nat)
    requires value < ADDRESS_LIMIT
    ensures LittleEndian(Le(value, 8)) == value
  {
    assert Power256(4) == 0x1_0000_0000;
    assert Power256(8) == 0x1_0000_0000 * Power256(4);
    LeReads(value, 8);
  }
}
