/**
  The bounds-checked byte view of a PE file and the header fields the probe reads.
  Offsets and constants follow the Microsoft PE/COFF specification, sections
  "MS-DOS Stub", "COFF File Header", "Optional Header" and "Section Table".
 */
module PeImage {
  import opened Wrappers

  newtype byte = b: int | 0 <= b < 0x100
  type word = w: int | 0 <= w < 0x1_0000
  type dword = d: int | 0 <= d < 0x1_0000_0000
  type size_t = n: int | 0 <= n < 0x1_0000_0000_0000_0000

  const DOS_HEADER_SIZE := 64
  const NT_HEADERS_SIZE := 264
  const SECTION_HEADER_SIZE := 40
  const IMPORT_DESCRIPTOR_SIZE := 20
  const DOS_SIGNATURE := 0x5A4D
  const NT_SIGNATURE := 0x4550
  const MACHINE_AMD64 := 0x8664
  const OPTIONAL_MAGIC_64 := 0x20B
  const DIRECTORY_ENTRY_IMPORT := 1

  /** `mapped` is false when the view could not be created; a file size may be known even then. */
  datatype View = View(mapped: bool, bytes: seq<byte>)

  /** File sizes come from a positive signed 64-bit integer. */
  type MappedFile = v: View | |v.bytes| < 0x8000_0000_0000_0000 witness View(false, [])

  /** Whether `size` bytes can be read at `pos`; the subtraction cannot wrap. */
  predicate At(f: MappedFile, pos: size_t, size: size_t) {
    && f.mapped
    && pos <= |f.bytes|
    && (var rest: size_t := |f.bytes| - pos; size <= rest)
  }

  function LittleEndian(bytes: seq<byte>): nat {
    if bytes == [] then 0 else bytes[0] as nat + 0x100 * LittleEndian(bytes[1..])
  }

  lemma {:induction false} LittleEndianBound(bytes: seq<byte>)
    requires |bytes| <= 4
    ensures LittleEndian(bytes) < if |bytes| == 4 then 0x1_0000_0000 else if |bytes| == 3 then 0x100_0000
      else if |bytes| == 2 then 0x1_0000 else if |bytes| == 1 then 0x100 else 1
  {
    if bytes != [] {
      LittleEndianBound(bytes[1..]);
    }
  }

  /** The value is the sum of the bytes, each weighted by its position. */
  lemma LittleEndianValue(b0: byte, b1: byte, b2: byte, b3: byte)
    ensures LittleEndian([b0, b1]) == b0 as nat + 0x100 * b1 as nat
    ensures LittleEndian([b0, b1, b2, b3]) ==
      b0 as nat + 0x100 * b1 as nat + 0x1_0000 * b2 as nat + 0x100_0000 * b3 as nat
  {
    var tail := [b2, b3];
    assert [b3][1..] == [] && tail[1..] == [b3] && [b1] + tail == [b1, b2, b3];
    assert LittleEndian([b3]) == b3 as nat;
    assert LittleEndian(tail) == b2 as nat + 0x100 * b3 as nat;
    assert [b1, b2, b3][1..] == tail && [b0, b1, b2, b3][1..] == [b1, b2, b3];
    assert LittleEndian([b1, b2, b3]) == b1 as nat + 0x100 * LittleEndian(tail);
    assert [b1][1..] == [] && [b0, b1][1..] == [b1];
    assert LittleEndian([b1]) == b1 as nat;
  }

  function U16(f: MappedFile, pos: size_t): word
    requires At(f, pos, 2)
  {
    LittleEndianBound(f.bytes[pos..pos + 2]);
    LittleEndian(f.bytes[pos..pos + 2])
  }

  function U32(f: MappedFile, pos: size_t): dword
    requires At(f, pos, 4)
  {
    LittleEndianBound(f.bytes[pos..pos + 4]);
    LittleEndian(f.bytes[pos..pos + 4])
  }

  /** The fields of IMAGE_NT_HEADERS64 that are used, with the offset of the section table. */
  datatype Header = Header(
    machine: word,
    magic: word,
    sectionCount: word,
    sectionTable: size_t,
    sizeOfImage: dword,
    sizeOfHeaders: dword,
    directoryCount: dword,
    importRva: dword,
    importSize: dword)
  {
    predicate Amd64() {
      machine == MACHINE_AMD64 && magic == OPTIONAL_MAGIC_64
    }

    /** Both import walks stop before the first descriptor unless this holds. */
    predicate HasImports() {
      directoryCount > DIRECTORY_ENTRY_IMPORT && importRva != 0 && importSize != 0
    }
  }

  datatype HeaderError = BadDos | BadNt

  /** The DOS header's e_lfanew, a signed 32-bit field that must not be negative. */
  function NtOffset(f: MappedFile): Option<size_t> {
    if !At(f, 0, DOS_HEADER_SIZE) || U16(f, 0) != DOS_SIGNATURE || U32(f, 60) >= 0x8000_0000
    then None
    else Some(U32(f, 60))
  }

  function ReadHeader(f: MappedFile, nt: dword): Header
    requires nt < 0x8000_0000 && At(f, nt, NT_HEADERS_SIZE)
  {
    Header(
      machine := U16(f, nt + 4),
      magic := U16(f, nt + 24),
      sectionCount := U16(f, nt + 6),
      sectionTable := nt + 4 + 20 + U16(f, nt + 20),
      sizeOfImage := U32(f, nt + 80),
      sizeOfHeaders := U32(f, nt + 84),
      directoryCount := U32(f, nt + 132),
      importRva := U32(f, nt + 144),
      importSize := U32(f, nt + 148))
  }

  /** The checks common to every reader: DOS header, then NT signature. */
  function OpenImage(f: MappedFile): (r: Result<Header, HeaderError>)
    ensures r.Ok? ==> f.mapped && r.value.sectionTable < 0x8001_0017
  {
    match NtOffset(f)
    case None => Err(BadDos)
    case Some(nt) =>
      if !At(f, nt, NT_HEADERS_SIZE) || U32(f, nt) != NT_SIGNATURE
      then Err(BadNt)
      else Ok(ReadHeader(f, nt))
  }

  /** A section table entry. */
  datatype Section = Section(virtualSize: dword, virtualAddress: dword, rawSize: dword, rawPointer: dword) {
    /** The virtual addresses that have bytes in the file. */
    ghost predicate BacksAddress(a: int) {
      virtualAddress <= a < virtualAddress + rawSize
    }

    ghost predicate BacksOffset(p: int) {
      rawPointer <= p < rawPointer + rawSize
    }
  }

  /** Headers produced by OpenImage keep every section header position inside 64 bits. */
  type Layout = h: Header | h.sectionTable < 0x8001_0017
    witness Header(0, 0, 0, 0, 0, 0, 0, 0, 0)

  /** Section header `i`, or None when it does not lie inside the file. */
  function SectionAt(f: MappedFile, h: Layout, i: nat): Option<Section>
    requires i < 0x1_0000
  {
    var pos: size_t := h.sectionTable + i * SECTION_HEADER_SIZE;
    if At(f, pos, SECTION_HEADER_SIZE)
    then Some(Section(U32(f, pos + 8), U32(f, pos + 12), U32(f, pos + 16), U32(f, pos + 20)))
    else None
  }
}
