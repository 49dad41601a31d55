/**
  Headers written field by field, as the Microsoft PE/COFF specification lists the fields in the
  sections "COFF File Header", "Optional Header", "Section Table" and "Import Directory Table",
  and read back.
 */
module PeEncoding {
  import opened Wrappers
  import opened PeImage
  import opened ImportWalk

  function Word(n: word): (bytes: seq<byte>)
    ensures |bytes| == 2
  {
    [(n % 0x100) as byte, (n / 0x100) as byte]
  }

  function Dword(n: dword): (bytes: seq<byte>)
    ensures |bytes| == 4
  {
    [(n % 0x100) as byte, (n / 0x100 % 0x100) as byte, (n / 0x1_0000 % 0x100) as byte, (n / 0x100_0000) as byte]
  }

  lemma WordReads(f: MappedFile, pos: size_t, n: word)
    requires At(f, pos, 2) && f.bytes[pos..pos + 2] == Word(n)
    ensures U16(f, pos) == n
  {
    var w := Word(n);
    LittleEndianValue(w[0], w[1], 0, 0);
    assert w == [w[0], w[1]];
  }

  lemma DwordReads(f: MappedFile, pos: size_t, n: dword)
    requires At(f, pos, 4) && f.bytes[pos..pos + 4] == Dword(n)
    ensures U32(f, pos) == n
  {
    var d := Dword(n);
    DwordSum(n);
    LittleEndianValue(d[0], d[1], d[2], d[3]);
    assert d == [d[0], d[1], d[2], d[3]];
  }

  lemma DwordSum(n: dword)
    ensures n == n % 0x100 + 0x100 * (n / 0x100 % 0x100) + 0x1_0000 * (n / 0x1_0000 % 0x100) + 0x100_0000 * (n / 0x100_0000)
  {
    assert n / 0x1_0000 == n / 0x100 / 0x100 && n / 0x100_0000 == n / 0x1_0000 / 0x100;
  }

  /** What was written behind `front` is read there, whatever follows. */
  lemma DwordBehind(f: MappedFile, pos: size_t, len: nat, front: seq<byte>, n: dword)
    requires f.mapped && pos + len <= |f.bytes| && front + Dword(n) <= f.bytes[pos..pos + len]
    ensures |front| + 4 <= len && U32(f, pos + |front|) == n
  {
    hide Dword, U32;
    var at, b := pos + |front|, f.bytes[pos..pos + len];
    assert |front + Dword(n)| <= |b|;
    assert f.bytes[at..at + 4] == b[|front|..|front| + 4] == (front + Dword(n))[|front|..] == Dword(n);
    DwordReads(f, at, n);
  }

  lemma WordBehind(f: MappedFile, pos: size_t, len: nat, front: seq<byte>, n: word)
    requires f.mapped && pos + len <= |f.bytes| && front + Word(n) <= f.bytes[pos..pos + len]
    ensures |front| + 2 <= len && U16(f, pos + |front|) == n
  {
    hide Word, U16;
    var at, b := pos + |front|, f.bytes[pos..pos + len];
    assert |front + Word(n)| <= |b|;
    assert f.bytes[at..at + 2] == b[|front|..|front| + 2] == (front + Word(n))[|front|..] == Word(n);
    WordReads(f, at, n);
  }

  lemma Front(front: seq<byte>, part: seq<byte>, whole: seq<byte>)
    requires front + part <= whole
    ensures front <= whole
  {
  }

  // ----- the NT headers -----

  /** The fields that are not read, in the blocks in which they stand between those that are. */
  datatype Unread = Unread(
    stamp: seq<byte>,
    characteristics: seq<byte>,
    linkerToVersion: seq<byte>,
    checkSumToFlags: seq<byte>,
    exports: seq<byte>,
    directories: seq<byte>)
  {
    ghost predicate Valid() {
      // TimeDateStamp, PointerToSymbolTable, NumberOfSymbols
      && |stamp| == 4 + 4 + 4
      && |characteristics| == 2
      // two linker versions; three sizes, entry point, base of code; image base; two alignments;
      // six version numbers; Win32VersionValue
      && |linkerToVersion| == 2 * 1 + 5 * 4 + 8 + 2 * 4 + 6 * 2 + 4
      // CheckSum; Subsystem, DllCharacteristics; stack and heap sizes; LoaderFlags
      && |checkSumToFlags| == 4 + 2 * 2 + 4 * 8 + 4
      // one directory before the import directory and fourteen behind it
      && |exports| == 8
      && |directories| == 14 * 8
    }
  }

  datatype Image = Image(
    machine: word,
    sectionCount: word,
    optionalSize: word,
    magic: word,
    sizeOfImage: dword,
    sizeOfHeaders: dword,
    directoryCount: dword,
    importRva: dword,
    importSize: dword)

  function FileHeader(x: Image, u: Unread): seq<byte> {
    Dword(0x4550) + Word(x.machine) + Word(x.sectionCount) + u.stamp + Word(x.optionalSize) + u.characteristics
  }

  function OptionalHeader(x: Image, u: Unread): seq<byte> {
    Word(x.magic) + u.linkerToVersion + Dword(x.sizeOfImage) + Dword(x.sizeOfHeaders) + u.checkSumToFlags
    + Dword(x.directoryCount) + u.exports + Dword(x.importRva) + Dword(x.importSize) + u.directories
  }

  lemma FileHeaderReads(f: MappedFile, nt: dword, x: Image, u: Unread)
    requires u.Valid() && nt < 0x8000_0000 && At(f, nt, 24) && f.bytes[nt..nt + 24] == FileHeader(x, u)
    ensures U32(f, nt) == 0x4550 && U16(f, nt + 4) == x.machine && U16(f, nt + 6) == x.sectionCount
    ensures U16(f, nt + 20) == x.optionalSize
  {
    hide Word, Dword, U16, U32;
    var b := f.bytes[nt..nt + 24];
    var signature := Dword(0x4550);
    var machine := signature + Word(x.machine);
    var count := machine + Word(x.sectionCount);
    var stamp := count + u.stamp;
    var size := stamp + Word(x.optionalSize);
    assert b == size + u.characteristics;
    hide FileHeader;
    Front(size, u.characteristics, b);
    WordBehind(f, nt, 24, stamp, x.optionalSize);
    Front(stamp, Word(x.optionalSize), b);
    Front(count, u.stamp, b);
    WordBehind(f, nt, 24, machine, x.sectionCount);
    Front(machine, Word(x.sectionCount), b);
    WordBehind(f, nt, 24, signature, x.machine);
    Front(signature, Word(x.machine), b);
    assert [] + signature == signature;
    DwordBehind(f, nt, 24, [], 0x4550);
  }

  lemma OptionalHeaderReads(f: MappedFile, start: dword, x: Image, u: Unread)
    requires u.Valid() && start < 0x8000_0018 && At(f, start, 240) && f.bytes[start..start + 240] == OptionalHeader(x, u)
    ensures U16(f, start) == x.magic
    ensures U32(f, start + 56) == x.sizeOfImage && U32(f, start + 60) == x.sizeOfHeaders
    ensures U32(f, start + 108) == x.directoryCount
    ensures U32(f, start + 120) == x.importRva && U32(f, start + 124) == x.importSize
  {
    hide Word, Dword, U16, U32;
    var b := f.bytes[start..start + 240];
    var magic := Word(x.magic);
    var linker := magic + u.linkerToVersion;
    var image := linker + Dword(x.sizeOfImage);
    var headers := image + Dword(x.sizeOfHeaders);
    var flags := headers + u.checkSumToFlags;
    var count := flags + Dword(x.directoryCount);
    var exports := count + u.exports;
    var rva := exports + Dword(x.importRva);
    var size := rva + Dword(x.importSize);
    assert b == size + u.directories;
    hide OptionalHeader;
    Front(size, u.directories, b);
    DwordBehind(f, start, 240, rva, x.importSize);
    Front(rva, Dword(x.importSize), b);
    DwordBehind(f, start, 240, exports, x.importRva);
    Front(exports, Dword(x.importRva), b);
    Front(count, u.exports, b);
    DwordBehind(f, start, 240, flags, x.directoryCount);
    Front(flags, Dword(x.directoryCount), b);
    Front(headers, u.checkSumToFlags, b);
    DwordBehind(f, start, 240, image, x.sizeOfHeaders);
    Front(image, Dword(x.sizeOfHeaders), b);
    DwordBehind(f, start, 240, linker, x.sizeOfImage);
    Front(linker, Dword(x.sizeOfImage), b);
    Front(magic, u.linkerToVersion, b);
    assert [] + magic == magic;
    WordBehind(f, start, 240, [], x.magic);
  }

  /** An image: the DOS header with the offset of the NT headers, a stub, the NT headers and the rest. */
  function Encode(dos: seq<byte>, stub: seq<byte>, x: Image, u: Unread, rest: seq<byte>): seq<byte>
    requires |dos| == 58 && |stub| < 0x7FFF_FFC0
  {
    Word(0x5A4D) + dos + Dword(64 + |stub|) + stub + FileHeader(x, u) + OptionalHeader(x, u) + rest
  }

  lemma EncodedParts(f: MappedFile, dos: seq<byte>, stub: seq<byte>, x: Image, u: Unread, rest: seq<byte>)
    requires |dos| == 58 && |stub| < 0x7FFF_FFC0 && u.Valid()
    requires f.mapped && f.bytes == Encode(dos, stub, x, u, rest)
    ensures var nt := 64 + |stub|;
      && |f.bytes| >= nt + 264
      && U16(f, 0) == 0x5A4D && U32(f, 60) == nt
      && f.bytes[nt..nt + 24] == FileHeader(x, u)
      && f.bytes[nt + 24..nt + 264] == OptionalHeader(x, u)
  {
    assert |FileHeader(x, u)| == 24 && |OptionalHeader(x, u)| == 240;
    hide Word, Dword, FileHeader, OptionalHeader, U16, U32;
    var b := f.bytes[0..|f.bytes|];
    var magic := Word(0x5A4D);
    var head := magic + dos;
    var offset := head + Dword(64 + |stub|);
    var before := offset + stub;
    var file := before + FileHeader(x, u);
    var optional := file + OptionalHeader(x, u);
    assert b == f.bytes == optional + rest;
    hide Encode;
    Front(optional, rest, b);
    Behind(file, OptionalHeader(x, u), b);
    Front(file, OptionalHeader(x, u), b);
    Behind(before, FileHeader(x, u), b);
    Front(before, FileHeader(x, u), b);
    Front(offset, stub, b);
    DwordBehind(f, 0, |f.bytes|, head, 64 + |stub|);
    Front(head, Dword(64 + |stub|), b);
    Front(magic, dos, b);
    assert [] + magic == magic;
    WordBehind(f, 0, |f.bytes|, [], 0x5A4D);
  }

  lemma Behind(front: seq<byte>, part: seq<byte>, whole: seq<byte>)
    requires front + part <= whole
    ensures |front| + |part| <= |whole| && whole[|front|..|front| + |part|] == part
  {
    assert |front + part| <= |whole|;
  }

  lemma NtIsFound(f: MappedFile, nt: dword)
    requires At(f, 0, 64) && U16(f, 0) == 0x5A4D && U32(f, 60) == nt && nt < 0x8000_0000
    ensures NtOffset(f) == Some(nt)
  {
    hide U16, U32;
  }

  lemma HeaderReads(f: MappedFile, nt: dword, x: Image, u: Unread)
    requires u.Valid() && nt < 0x8000_0000 && At(f, nt, 264)
    requires f.bytes[nt..nt + 24] == FileHeader(x, u) && f.bytes[nt + 24..nt + 264] == OptionalHeader(x, u)
    ensures U32(f, nt) == 0x4550
    ensures ReadHeader(f, nt) == Header(
      x.machine, x.magic, x.sectionCount, nt + 24 + x.optionalSize,
      x.sizeOfImage, x.sizeOfHeaders, x.directoryCount, x.importRva, x.importSize)
  {
    hide U16, U32, FileHeader, OptionalHeader;
    FileHeaderReads(f, nt, x, u);
    OptionalHeaderReads(f, nt + 24, x, u);
  }

  lemma OpensAt(f: MappedFile, nt: dword)
    requires NtOffset(f) == Some(nt) && nt < 0x8000_0000 && At(f, nt, 264) && U32(f, nt) == 0x4550
    ensures OpenImage(f) == Ok(ReadHeader(f, nt))
  {
    hide U16, U32, NtOffset, ReadHeader;
  }

  /** Opening an image gives back the fields that were written, wherever the NT headers stand. */
  lemma OpensAsWritten(f: MappedFile, dos: seq<byte>, stub: seq<byte>, x: Image, u: Unread, rest: seq<byte>)
    requires |dos| == 58 && |stub| < 0x7FFF_FFC0 && u.Valid()
    requires f.mapped && f.bytes == Encode(dos, stub, x, u, rest)
    ensures OpenImage(f) == Ok(Header(
      x.machine, x.magic, x.sectionCount, 64 + |stub| + 24 + x.optionalSize,
      x.sizeOfImage, x.sizeOfHeaders, x.directoryCount, x.importRva, x.importSize))
  {
    EncodedParts(f, dos, stub, x, u, rest);
    hide U16, U32, FileHeader, OptionalHeader, Encode, OpenImage, NtOffset, ReadHeader;
    var nt := 64 + |stub|;
    NtIsFound(f, nt);
    HeaderReads(f, nt, x, u);
    OpensAt(f, nt);
  }

  // ----- section headers and import descriptors -----

  /** Name, the four fields that are read, and the relocation and line number fields. */
  function EncodeSection(name: seq<byte>, s: Section, rest: seq<byte>): seq<byte> {
    name + Dword(s.virtualSize) + Dword(s.virtualAddress) + Dword(s.rawSize) + Dword(s.rawPointer) + rest
  }

  /** A section header is read as it was written. */
  lemma SectionReadsAsWritten(f: MappedFile, h: Layout, i: nat, name: seq<byte>, s: Section, rest: seq<byte>)
    requires i < h.sectionCount && |name| == 8 && |rest| == 4 + 4 + 2 + 2 + 4
    requires f.mapped && h.sectionTable + 40 * i + 40 <= |f.bytes|
    requires f.bytes[h.sectionTable + 40 * i..h.sectionTable + 40 * i + 40] == EncodeSection(name, s, rest)
    ensures SectionAt(f, h, i) == Some(s)
  {
    var pos: size_t := h.sectionTable + 40 * i;
    hide Dword, U32;
    var b := f.bytes[pos..pos + 40];
    var size := name + Dword(s.virtualSize);
    var address := size + Dword(s.virtualAddress);
    var rawSize := address + Dword(s.rawSize);
    var rawPointer := rawSize + Dword(s.rawPointer);
    assert b == rawPointer + rest;
    hide EncodeSection;
    Front(rawPointer, rest, b);
    DwordBehind(f, pos, 40, rawSize, s.rawPointer);
    Front(rawSize, Dword(s.rawPointer), b);
    DwordBehind(f, pos, 40, address, s.rawSize);
    Front(address, Dword(s.rawSize), b);
    DwordBehind(f, pos, 40, size, s.virtualAddress);
    Front(size, Dword(s.virtualAddress), b);
    DwordBehind(f, pos, 40, name, s.virtualSize);
  }

  /** Import lookup table, time stamp, forwarder chain, name, import address table. */
  function EncodeDescriptor(lookup: dword, stamp: dword, chain: dword, name: dword, addresses: dword): seq<byte> {
    Dword(lookup) + Dword(stamp) + Dword(chain) + Dword(name) + Dword(addresses)
  }

  /** The Name field of a descriptor is read as it was written. */
  lemma DescriptorReadsAsWritten(
      f: MappedFile, pos: size_t, lookup: dword, stamp: dword, chain: dword, name: dword, addresses: dword)
    requires f.mapped && pos + 20 <= |f.bytes|
    requires f.bytes[pos..pos + 20] == EncodeDescriptor(lookup, stamp, chain, name, addresses)
    ensures DescriptorName(f, pos) == Some(name)
  {
    hide Dword, U32;
    DwordBehind(f, pos, 20, Dword(lookup) + Dword(stamp) + Dword(chain), name);
  }
}
