/** The ELF64 structures as the ELF specification lays them out, written by a
    linker and read back by crates/r-boot/src/elf.rs. */
module ElfLayout {
  import opened Wrappers
  import opened LongMode
  import opened Elf

  lemma Doubled(x: bv8)
    requires x as int < 128
    ensures (x << 1) as int == 2 * (x as int)
  {
    assert x < 128;
  }

  lemma Increased(x: bv8)
    requires x as int < 255
    ensures (x + 1) as int == x as int + 1
  {
    assert x < 255;
  }

  /** The byte of value `n`, bit by bit. */
  function ByteOfValue(n: nat): (b: bv8)
    requires n < 256
    ensures b as int == n
  {
    if n == 0 then 0 else
    var half := ByteOfValue(n / 2);
    Doubled(half);
    if n % 2 == 0 then half << 1 else
    Increased(half << 1);
    (half << 1) + 1
  }

  lemma SameByte(a: bv8, b: bv8)
    requires a as int == b as int
    ensures a == b
  {}

  /** `value` in little-endian order, `size` bytes of it. */
  function Le(value: nat, size: nat): (b: Bytes)
    ensures |b| == size
  {
    if size == 0 then [] else [ByteOfValue(value % 256)] + Le(value / 256, size - 1)
  }

  lemma {:induction false} LeReads(value: nat, size: nat)
    requires value < Power256(size)
    ensures LittleEndian(Le(value, size)) == value
  {
    if size != 0 {
      assert value / 256 < Power256(size - 1);
      LeReads(value / 256, size - 1);
      assert Le(value, size)[1..] == Le(value / 256, size - 1);
    }
  }

  type U8 = n: nat | n < 0x100
  type U16 = n: nat | n < 0x1_0000
  type U32 = n: nat | n < 0x1_0000_0000
  type U64 = n: nat | n < ADDRESS_LIMIT

  predicate Fits(value: nat, size: nat) { value < Power256(size) }

  lemma Widths()
    ensures forall n: U8 :: Fits(n, 1)
    ensures forall n: U16 :: Fits(n, 2)
    ensures forall n: U32 :: Fits(n, 4)
    ensures forall n: U64 :: Fits(n, 8)
  {
    assert Power256(1) == 0x100;
    assert Power256(2) == 0x1_0000;
    assert Power256(4) == 0x1_0000_0000;
    assert Power256(8) == 0x1_0000_0000 * Power256(4);
  }

  predicate AllFit(fields: Fields) { forall f <- fields :: Fits(f.0, f.1) }

  /** Field values in file order, each with its width. */
  type Fields = seq<(nat, nat)>

  function Encode(fields: Fields): Bytes {
    if fields == [] then [] else Le(fields[0].0, fields[0].1) + Encode(fields[1..])
  }

  function OffsetOf(fields: Fields, k: nat): nat
    requires k <= |fields|
  {
    if k == 0 then 0 else fields[0].1 + OffsetOf(fields[1..], k - 1)
  }

  lemma TailSlice(head: Bytes, tail: Bytes, at: nat, size: nat)
    requires at + size <= |tail|
    ensures (head + tail)[|head| + at..|head| + at + size] == tail[at..at + size]
  {}

  lemma Unfolded(fields: Fields, k: nat)
    requires k < |fields|
    ensures Encode(fields) == Le(fields[0].0, fields[0].1) + Encode(fields[1..])
    ensures OffsetOf(fields, k) == if k == 0 then 0 else fields[0].1 + OffsetOf(fields[1..], k - 1)
  {}

  lemma {:induction false} EncodedField(fields: Fields, k: nat)
    requires k < |fields|
    ensures var at := OffsetOf(fields, k); var size := fields[k].1;
      at + size <= |Encode(fields)| && Encode(fields)[at..at + size] == Le(fields[k].0, size)
  {
    hide Le, Encode, OffsetOf;
    Unfolded(fields, k);
    var head, tail := Le(fields[0].0, fields[0].1), Encode(fields[1..]);
    if k == 0 {
      assert (head + tail)[0..|head|] == head;
    } else {
      EncodedField(fields[1..], k - 1);
      assert fields[1..][k - 1] == fields[k];
      TailSlice(head, tail, OffsetOf(fields[1..], k - 1), fields[k].1);
    }
  }

  /** `written` stands in the file at `offset`. */
  predicate At(bytes: Bytes, offset: nat, written: Bytes) {
    offset + |written| <= |bytes| && bytes[offset..offset + |written|] == written
  }

  lemma SliceOfSlice(bytes: Bytes, offset: nat, length: nat, at: nat, size: nat)
    requires offset + length <= |bytes| && at + size <= length
    ensures bytes[offset..offset + length][at..at + size] == bytes[offset + at..offset + at + size]
  {
    var a, b := bytes[offset..offset + length][at..at + size], bytes[offset + at..offset + at + size];
    assert |a| == |b| == size;
    assert forall i | 0 <= i < size :: a[i] == bytes[offset + at + i] == b[i];
  }

  lemma FieldReads(bytes: Bytes, offset: nat, fields: Fields, k: nat)
    requires At(bytes, offset, Encode(fields)) && k < |fields| && AllFit(fields)
    ensures ReadLe(bytes, offset + OffsetOf(fields, k), fields[k].1) == Ok(fields[k].0)
  {
    hide Power256, LittleEndian, Encode, OffsetOf;
    assert fields[k] in fields;
    EncodedField(fields, k);
    LeReads(fields[k].0, fields[k].1);
    var at, size := OffsetOf(fields, k), fields[k].1;
    SliceOfSlice(bytes, offset, |Encode(fields)|, at, size);
  }

  // ----- program headers

  datatype ProgramHeader = ProgramHeader(kind: U32, flags: U32, offset: U64, virtualAddress: U64,
                                         physicalAddress: U64, fileSize: U64, memorySize: U64, align: U64)

  /** `Elf64_Phdr`. */
  function PhdrFields(h: ProgramHeader): Fields {
    [(h.kind, 4), (h.flags, 4), (h.offset, 8), (h.virtualAddress, 8), (h.physicalAddress, 8), (h.fileSize, 8),
     (h.memorySize, 8), (h.align, 8)]
  }

  lemma PhdrFits(h: ProgramHeader)
    ensures AllFit(PhdrFields(h))
  {
    hide Fits;
    Widths();
  }

  /** What a linker must have written for the loader to take the segment. */
  predicate Loadable(h: ProgramHeader, fileLength: nat) {
    && h.fileSize <= h.memorySize && 0xffff_8000_0000_0000 <= h.virtualAddress
    && h.virtualAddress % 0x1000 == 0 && h.offset % 0x1000 == 0
    && h.offset + h.fileSize <= fileLength && h.offset + h.fileSize < 0x1_0000_0000_0000_0000
  }

  lemma PhdrOffsets(h: ProgramHeader)
    ensures var f := PhdrFields(h);
      && OffsetOf(f, 0) == 0 && OffsetOf(f, 1) == 4 && OffsetOf(f, 2) == 8 && OffsetOf(f, 3) == 16
      && OffsetOf(f, 5) == 32 && OffsetOf(f, 6) == 40
  {
    OffsetsByPrefix(PhdrFields(h), 0);
    OffsetsByPrefix(PhdrFields(h), 1);
    OffsetsByPrefix(PhdrFields(h), 2);
    OffsetsByPrefix(PhdrFields(h), 3);
    OffsetsByPrefix(PhdrFields(h), 4);
    OffsetsByPrefix(PhdrFields(h), 5);
  }

  lemma {:induction false} OffsetsByPrefix(fields: Fields, k: nat)
    requires k < |fields|
    ensures OffsetOf(fields, 0) == 0 && OffsetOf(fields, k + 1) == OffsetOf(fields, k) + fields[k].1
  {
    if k != 0 {
      OffsetsByPrefix(fields[1..], k - 1);
    }
  }

  /** Every program header a linker can write is read for what it says: other
      kinds are skipped, a loadable segment comes back field by field, and one
      that is not loadable is refused. */
  lemma WrittenHeaderReads(image: Image, index: nat, h: ProgramHeader)
    requires At(image.bytes, image.headersOffset + index * image.headerSize, Encode(PhdrFields(h)))
    ensures ReadHeader(image, index).Skipped? <==> h.kind != 1
    ensures ReadHeader(image, index).Loads? <==> h.kind == 1 && Loadable(h, |image.bytes|)
    ensures ReadHeader(image, index).Loads? ==>
      ReadHeader(image, index).segment == Segment(h.virtualAddress, h.offset, h.fileSize, h.memorySize, h.flags)
  {
    hide Encode, OffsetOf, ReadLe, Power256, At, AllFit;
    var at, f := image.headersOffset + index * image.headerSize, PhdrFields(h);
    PhdrOffsets(h);
    PhdrFits(h);
    FieldReads(image.bytes, at, f, 0);
    FieldReads(image.bytes, at, f, 1);
    FieldReads(image.bytes, at, f, 2);
    FieldReads(image.bytes, at, f, 3);
    FieldReads(image.bytes, at, f, 5);
    FieldReads(image.bytes, at, f, 6);
  }

  // ----- the file header

  datatype FileHeader = FileHeader(class_: U8, data: U8, abi: U64, padding: U16, kind: U16, machine: U16,
                                   version: U32, entry: U64, phoff: U64, shoff: U64, flags: U32, ehsize: U16,
                                   phentsize: U16, phnum: U16, shentsize: U16, shnum: U16, shstrndx: U16)

  /** `Elf64_Ehdr`: the magic is the little-endian number 0x464c457f, and the
      rest of the identification counts as two fields. */
  function EhdrFields(h: FileHeader): Fields {
    [(0x464c457f, 4), (h.class_, 1), (h.data, 1), (h.abi, 8), (h.padding, 2), (h.kind, 2), (h.machine, 2),
     (h.version, 4), (h.entry, 8), (h.phoff, 8), (h.shoff, 8), (h.flags, 4), (h.ehsize, 2), (h.phentsize, 2),
     (h.phnum, 2), (h.shentsize, 2), (h.shnum, 2), (h.shstrndx, 2)]
  }

  lemma EhdrFits(h: FileHeader)
    ensures AllFit(EhdrFields(h))
  {
    hide Fits;
    Widths();
    var magic: U32 := 0x464c457f;
    assert Fits(magic, 4);
  }

  /** A file that starts with this header. */
  function WithHeader(h: FileHeader, rest: Bytes): Bytes { Encode(EhdrFields(h)) + rest }

  /** A little-endian x86-64 static executable whose program headers are inside
      the file. */
  predicate Executable(h: FileHeader, fileLength: nat) {
    && h.class_ == 2 && h.data == 1 && h.kind == 2 && h.machine == 62 && h.phentsize == 56
    && h.phoff + h.phentsize * h.phnum <= fileLength && h.phoff + h.phentsize * h.phnum < 0x1_0000_0000_0000_0000
  }

  lemma EhdrValues(h: FileHeader)
    ensures var f := EhdrFields(h);
      && |f| == 18 && f[0] == (0x464c457f, 4) && f[1] == (h.class_, 1) && f[2] == (h.data, 1) && f[5] == (h.kind, 2)
      && f[6] == (h.machine, 2) && f[8] == (h.entry, 8) && f[9] == (h.phoff, 8) && f[13] == (h.phentsize, 2)
      && f[14] == (h.phnum, 2)
  {}

  lemma EhdrWidths(h: FileHeader)
    ensures var f := EhdrFields(h);
      && |f| == 18 && f[0].1 == 4 && f[1].1 == 1 && f[2].1 == 1 && f[3].1 == 8 && f[4].1 == 2 && f[5].1 == 2 && f[6].1 == 2
      && f[7].1 == 4 && f[8].1 == 8 && f[9].1 == 8 && f[10].1 == 8 && f[11].1 == 4 && f[12].1 == 2 && f[13].1 == 2
      && f[14].1 == 2 && f[15].1 == 2 && f[16].1 == 2 && f[17].1 == 2
  {}

  lemma EhdrOffsets(h: FileHeader)
    ensures var f := EhdrFields(h);
      && |f| == 18 && OffsetOf(f, 0) == 0 && OffsetOf(f, 1) == 4 && OffsetOf(f, 2) == 5 && OffsetOf(f, 5) == 16
      && OffsetOf(f, 6) == 18 && OffsetOf(f, 8) == 24 && OffsetOf(f, 9) == 32 && OffsetOf(f, 13) == 54
      && OffsetOf(f, 14) == 56 && OffsetOf(f, 18) == 64
  {
    hide OffsetOf, EhdrFields;
    EhdrWidths(h);
    OffsetsByPrefix(EhdrFields(h), 0);
    OffsetsByPrefix(EhdrFields(h), 1);
    OffsetsByPrefix(EhdrFields(h), 2);
    OffsetsByPrefix(EhdrFields(h), 3);
    OffsetsByPrefix(EhdrFields(h), 4);
    OffsetsByPrefix(EhdrFields(h), 5);
    OffsetsByPrefix(EhdrFields(h), 6);
    OffsetsByPrefix(EhdrFields(h), 7);
    OffsetsByPrefix(EhdrFields(h), 8);
    OffsetsByPrefix(EhdrFields(h), 9);
    OffsetsByPrefix(EhdrFields(h), 10);
    OffsetsByPrefix(EhdrFields(h), 11);
    OffsetsByPrefix(EhdrFields(h), 12);
    OffsetsByPrefix(EhdrFields(h), 13);
    OffsetsByPrefix(EhdrFields(h), 14);
    OffsetsByPrefix(EhdrFields(h), 15);
    OffsetsByPrefix(EhdrFields(h), 16);
    OffsetsByPrefix(EhdrFields(h), 17);
  }

  lemma {:induction false} EncodedLength(fields: Fields)
    ensures |Encode(fields)| == OffsetOf(fields, |fields|)
  {
    if fields != [] { EncodedLength(fields[1..]); }
  }

  lemma OneByte(b: bv8)
    ensures LittleEndian([b]) == b as nat
  {
    assert [b][1..] == [];
  }

  lemma MagicBytes()
    ensures Le(0x464c457f, 4) == MAGIC
  {
    hide ByteOfValue;
    SameByte(ByteOfValue(0x7f), 0x7f);
    SameByte(ByteOfValue(0x45), 0x45);
    SameByte(ByteOfValue(0x4c), 0x4c);
    SameByte(ByteOfValue(0x46), 0x46);
    assert Le(0x46, 1) == [ByteOfValue(0x46)];
    assert Le(0x464c, 2) == [ByteOfValue(0x4c)] + Le(0x46, 1);
    assert Le(0x464c45, 3) == [ByteOfValue(0x45)] + Le(0x464c, 2);
    assert Le(0x464c457f, 4) == [ByteOfValue(0x7f)] + Le(0x464c45, 3);
  }

  /** The header stands at the start of the file. */
  lemma HeaderAt(h: FileHeader, rest: Bytes)
    ensures At(WithHeader(h, rest), 0, Encode(EhdrFields(h)))
    ensures |WithHeader(h, rest)| == ELF_HEADER_SIZE + |rest|
  {
    hide Encode, OffsetOf, EhdrFields;
    EncodedLength(EhdrFields(h));
    EhdrOffsets(h);
    EhdrValues(h);
  }

  lemma Identification(h: FileHeader, rest: Bytes)
    ensures var bytes := WithHeader(h, rest);
      && |bytes| >= ELF_HEADER_SIZE && bytes[..4] == MAGIC
      && bytes[4] as nat == h.class_ && bytes[5] as nat == h.data
  {
    hide Encode, OffsetOf, Power256, LittleEndian, Le, AllFit, EhdrFields, WithHeader;
    var bytes, f := WithHeader(h, rest), EhdrFields(h);
    HeaderAt(h, rest);
    EhdrOffsets(h);
    EhdrValues(h);
    EhdrFits(h);
    EncodedField(f, 0);
    MagicBytes();
    SliceOfSlice(bytes, 0, |Encode(f)|, 0, 4);
    FieldReads(bytes, 0, f, 1);
    FieldReads(bytes, 0, f, 2);
    assert bytes[4..5] == [bytes[4]] && bytes[5..6] == [bytes[5]];
    OneByte(bytes[4]);
    OneByte(bytes[5]);
  }

  lemma EhdrReads(h: FileHeader, rest: Bytes)
    ensures var bytes := WithHeader(h, rest);
      && ReadU16(bytes, 16) == Ok(h.kind) && ReadU16(bytes, 18) == Ok(h.machine)
      && ReadU64(bytes, 24) == Ok(h.entry) && ReadU64(bytes, 32) == Ok(h.phoff)
      && ReadU16(bytes, 54) == Ok(h.phentsize) && ReadU16(bytes, 56) == Ok(h.phnum)
  {
    hide Encode, OffsetOf, Power256, ReadLe, At, AllFit, EhdrFields, WithHeader;
    var bytes, f := WithHeader(h, rest), EhdrFields(h);
    HeaderAt(h, rest);
    EhdrOffsets(h);
    EhdrValues(h);
    EhdrFits(h);
    FieldReads(bytes, 0, f, 5);
    FieldReads(bytes, 0, f, 6);
    FieldReads(bytes, 0, f, 8);
    FieldReads(bytes, 0, f, 9);
    FieldReads(bytes, 0, f, 13);
    FieldReads(bytes, 0, f, 14);
  }

  /** Every file header is read for what it says: the parse succeeds exactly on
      executables of the right kind, with their entry point and header table. */
  lemma WrittenFileParses(h: FileHeader, rest: Bytes)
    ensures var bytes := WithHeader(h, rest);
      && (Parse(bytes).Ok? <==> Executable(h, |bytes|))
      && (Parse(bytes).Ok? ==> Parse(bytes).value == Image(bytes, h.entry, h.phoff, h.phnum, h.phentsize))
  {
    hide ReadLe, WithHeader;
    Identification(h, rest);
    EhdrReads(h, rest);
  }
}
