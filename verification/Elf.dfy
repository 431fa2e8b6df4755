/** The strict ELF64 reader (crates/r-boot/src/elf.rs). `usize` is 64 bits wide,
    so every `usize::try_from` of a 64-bit field succeeds. */
module Elf {
  import opened Wrappers
  import opened LongMode

  type Bytes = seq<bv8>

  const ELF_HEADER_SIZE: nat := 64
  const PROGRAM_HEADER_SIZE: nat := 56
  const PT_LOAD: nat := 1
  const ET_EXEC: nat := 2
  const EM_X86_64: nat := 62
  const MAGIC: Bytes := [0x7f, 0x45, 0x4c, 0x46]

  datatype Segment = Segment(virtualAddress: nat, fileOffset: nat, fileSize: nat, memorySize: nat, flags: nat)

  datatype LoadedSegment = LoadedSegment(virtualAddress: nat, physicalAddress: nat, length: nat, flags: nat,
                                         fileOffset: nat, fileSize: nat)

  datatype Image = Image(bytes: Bytes, entry: nat, headersOffset: nat, headersCount: nat, headerSize: nat)

  /** Little-endian value of a byte string. */
  function LittleEndian(b: Bytes): nat {
    if b == [] then 0 else b[0] as nat + 256 * LittleEndian(b[1..])
  }

  function ReadLe(bytes: Bytes, offset: nat, size: nat): Result<nat> {
    if offset + size <= |bytes| then Ok(LittleEndian(bytes[offset..offset + size])) else Err("truncated ELF header")
  }

  function ReadU16(bytes: Bytes, offset: nat): Result<nat> { ReadLe(bytes, offset, 2) }
  function ReadU32(bytes: Bytes, offset: nat): Result<nat> { ReadLe(bytes, offset, 4) }
  function ReadU64(bytes: Bytes, offset: nat): Result<nat> { ReadLe(bytes, offset, 8) }

  /** `Image::parse`. */
  function Parse(bytes: Bytes): Result<Image> {
    if |bytes| < ELF_HEADER_SIZE || bytes[..4] != MAGIC then Err("kernel is not an ELF file")
    else if bytes[4] != 2 || bytes[5] != 1 then Err("kernel must be little-endian ELF64")
    else if ReadU16(bytes, 16).value != ET_EXEC || ReadU16(bytes, 18).value != EM_X86_64 then
      Err("kernel must be an x86_64 ET_EXEC ELF")
    else
      var headersOffset := ReadU64(bytes, 32).value;
      var headerSize := ReadU16(bytes, 54).value;
      var headersCount := ReadU16(bytes, 56).value;
      if headerSize != PROGRAM_HEADER_SIZE then Err("unexpected ELF program header size")
      else if headersOffset + headerSize * headersCount >= ADDRESS_LIMIT then Err("ELF table overflow")
      else if headersOffset + headerSize * headersCount > |bytes| then Err("truncated ELF program header table")
      else Ok(Image(bytes, ReadU64(bytes, 24).value, headersOffset, headersCount, headerSize))
  }

  /** What one program header asks for. */
  datatype Header = Skipped | Rejected(message: string) | Loads(segment: Segment)

  function ReadHeader(image: Image, index: nat): Header {
    var offset := image.headersOffset + index * image.headerSize;
    match ReadU32(image.bytes, offset)
    case Err(m) => Rejected(m)
    case Ok(kind) =>
      if kind != PT_LOAD then Skipped else
      match ReadU64(image.bytes, offset + 8)
      case Err(m) => Rejected(m)
      case Ok(fileOffset) =>
        match ReadU64(image.bytes, offset + 16)
        case Err(m) => Rejected(m)
        case Ok(virtualAddress) =>
          match ReadU64(image.bytes, offset + 32)
          case Err(m) => Rejected(m)
          case Ok(fileSize) =>
            match ReadU64(image.bytes, offset + 40)
            case Err(m) => Rejected(m)
            case Ok(memorySize) => CheckHeader(image, offset, virtualAddress, fileOffset, fileSize, memorySize)
  }

  function CheckHeader(image: Image, offset: nat, virtualAddress: nat, fileOffset: nat, fileSize: nat,
                       memorySize: nat): Header {
    if memorySize < fileSize || virtualAddress < HIGHER_HALF then
      Rejected("PT_LOAD segment is not a valid higher-half Limine segment")
    else if virtualAddress % PAGE_SIZE != 0 || fileOffset % PAGE_SIZE != 0 then
      Rejected("PT_LOAD segments must be page aligned")
    else if fileOffset + fileSize >= ADDRESS_LIMIT then Rejected("ELF segment overflow")
    else if fileOffset + fileSize > |image.bytes| then Rejected("truncated ELF segment")
    else match ReadU32(image.bytes, offset + 4)
      case Err(m) => Rejected(m)
      case Ok(flags) => Loads(Segment(virtualAddress, fileOffset, fileSize, memorySize, flags))
  }

  /** The segments of the headers from `index` on. */
  function SegmentsFrom(image: Image, index: nat): Result<seq<Segment>>
    requires index <= image.headersCount
    decreases image.headersCount - index
  {
    if index == image.headersCount then Ok([]) else
    match ReadHeader(image, index)
    case Rejected(m) => Err(m)
    case Skipped => SegmentsFrom(image, index + 1)
    case Loads(s) =>
      match SegmentsFrom(image, index + 1)
      case Err(m) => Err(m)
      case Ok(rest) => Ok([s] + rest)
  }

  function After(done: seq<Segment>, rest: Result<seq<Segment>>): Result<seq<Segment>> {
    match rest case Err(m) => Err(m) case Ok(more) => Ok(done + more)
  }

  lemma AfterSteps(done: seq<Segment>, s: Segment, rest: Result<seq<Segment>>)
    ensures After([], rest) == rest && After(done, Ok([])) == Ok(done)
    ensures rest.Ok? ==> After(done + [s], rest) == After(done, Ok([s] + rest.value))
  {
    if rest.Ok? {
      assert [] + rest.value == rest.value;
      assert done + ([s] + rest.value) == done + [s] + rest.value;
    }
    assert done + [] == done;
  }

  /** `Image::load_segments`. */
  method LoadSegments(image: Image) returns (r: Result<seq<Segment>>)
    ensures r == SegmentsFrom(image, 0)
  {
    hide ReadHeader, After;
    var segments: seq<Segment> := [];
    AfterSteps([], Segment(0, 0, 0, 0, 0), SegmentsFrom(image, 0));
    for index := 0 to image.headersCount
      invariant SegmentsFrom(image, 0) == After(segments, SegmentsFrom(image, index))
    {
      ghost var rest := SegmentsFrom(image, index + 1);
      var header := ReadHeader(image, index);
      match header {
        case Rejected(m) =>
          AfterError(segments, m);
          return Err(m);
        case Skipped =>
        case Loads(s) =>
          if rest.Err? { AfterError(segments, rest.message); AfterError(segments + [s], rest.message); }
          AfterSteps(segments, s, rest);
          segments := segments + [s];
      }
    }
    AfterSteps(segments, Segment(0, 0, 0, 0, 0), Ok([]));
    r := Ok(segments);
  }

  lemma AfterError(done: seq<Segment>, m: string)
    ensures After(done, Err(m)) == Err(m)
  {}

  /** What every accepted segment satisfies. */
  predicate Accepted(image: Image, s: Segment) {
    && HIGHER_HALF <= s.virtualAddress < ADDRESS_LIMIT && s.virtualAddress % PAGE_SIZE == 0
    && s.fileOffset % PAGE_SIZE == 0 && s.fileOffset + s.fileSize <= |image.bytes|
    && s.fileSize <= s.memorySize < ADDRESS_LIMIT
    && s.flags < 0x1_0000_0000
  }

  function Power256(n: nat): (p: nat)
    ensures p > 0
  {
    if n == 0 then 1 else 256 * Power256(n - 1)
  }

  lemma {:induction false} PowerBound(b: Bytes)
    ensures LittleEndian(b) < Power256(|b|)
  {
    if b != [] {
      PowerBound(b[1..]);
    }
  }

  lemma ShortBound(b: Bytes)
    ensures |b| <= 2 ==> LittleEndian(b) < 0x1_0000
    ensures |b| <= 4 ==> LittleEndian(b) < 0x1_0000_0000
    ensures |b| <= 8 ==> LittleEndian(b) < ADDRESS_LIMIT
  {
    PowerBound(b);
    assert Power256(2) == 0x1_0000;
    assert Power256(4) == 0x1_0000_0000;
    assert Power256(8) == 0x1_0000_0000 * Power256(4);
    PowerGrows(|b|, 2);
    PowerGrows(|b|, 4);
    PowerGrows(|b|, 8);
  }

  lemma {:induction false} PowerGrows(m: nat, n: nat)
    ensures m <= n ==> Power256(m) <= Power256(n)
  {
    if m < n {
      PowerGrows(m, n - 1);
    }
  }

  /** The program headers of a parsed file lie inside it. */
  lemma HeaderInside(bytes: Bytes, index: nat)
    requires Parse(bytes).Ok? && index < Parse(bytes).value.headersCount
    ensures var image := Parse(bytes).value;
      image.bytes == bytes && image.headersOffset + index * image.headerSize + PROGRAM_HEADER_SIZE <= |bytes|
  {
    hide LittleEndian, Power256;
  }

  /** A field inside the file can be read, and is as wide as it is. */
  lemma FieldInside(bytes: Bytes, offset: nat)
    ensures offset + 4 <= |bytes| ==> ReadU32(bytes, offset).Ok? && ReadU32(bytes, offset).value < 0x1_0000_0000
    ensures offset + 8 <= |bytes| ==> ReadU64(bytes, offset).Ok? && ReadU64(bytes, offset).value < ADDRESS_LIMIT
  {
    if offset + 4 <= |bytes| { ShortBound(bytes[offset..offset + 4]); }
    if offset + 8 <= |bytes| { ShortBound(bytes[offset..offset + 8]); }
    hide LittleEndian, Power256;
  }

  /** After a successful parse no header read can fail: the loader never sees
      "truncated ELF header", and what it accepts obeys every check. */
  lemma HeadersReadable(bytes: Bytes, index: nat)
    requires Parse(bytes).Ok? && index < Parse(bytes).value.headersCount
    ensures var h := ReadHeader(Parse(bytes).value, index);
      && (h.Rejected? ==> h.message != "truncated ELF header")
      && (h.Loads? ==> Accepted(Parse(bytes).value, h.segment))
  {
    hide Parse, ReadU32, ReadU64;
    var image := Parse(bytes).value;
    var offset := image.headersOffset + index * image.headerSize;
    HeaderInside(bytes, index);
    FieldInside(bytes, offset);
    FieldInside(bytes, offset + 4);
    FieldInside(bytes, offset + 8);
    FieldInside(bytes, offset + 16);
    FieldInside(bytes, offset + 32);
    FieldInside(bytes, offset + 40);
  }

  lemma {:induction false} SegmentsAccepted(bytes: Bytes, index: nat)
    requires Parse(bytes).Ok? && index <= Parse(bytes).value.headersCount
    ensures var r := SegmentsFrom(Parse(bytes).value, index);
      && (r.Err? ==> r.message != "truncated ELF header")
      && (r.Ok? ==> forall s <- r.value :: Accepted(Parse(bytes).value, s))
    decreases Parse(bytes).value.headersCount - index
  {
    if index < Parse(bytes).value.headersCount {
      HeadersReadable(bytes, index);
      SegmentsAccepted(bytes, index + 1);
    }
  }

  /** `pages_for`. */
  function PagesFor(bytes: nat): Result<nat> {
    if bytes + (PAGE_SIZE - 1) >= ADDRESS_LIMIT || (bytes + (PAGE_SIZE - 1)) / PAGE_SIZE == 0
    then Err("invalid empty or oversized ELF segment")
    else Ok((bytes + (PAGE_SIZE - 1)) / PAGE_SIZE)
  }

  /** The page count is the least that holds the bytes, and empty segments are
      refused. */
  lemma PagesForIsLeast(bytes: nat)
    ensures PagesFor(bytes).Ok? <==> 0 < bytes && bytes + (PAGE_SIZE - 1) < ADDRESS_LIMIT
    ensures PagesFor(bytes).Ok? ==>
      var n := PagesFor(bytes).value; (n - 1) * PAGE_SIZE < bytes <= n * PAGE_SIZE
  {}
}
