/**
  The three searches that turn a relative virtual address into a file offset.
  The probe writes each of them out separately; here each is modelled as written
  and they are then proved to be one address map.
 */
module SectionLookup {
  import opened Wrappers
  import opened PeImage

  /** The section's raw data covers `need` bytes from `address`, and the file holds them. */
  predicate Backs(s: Section, address: dword, need: size_t, length: nat) {
    && address >= s.virtualAddress
    && (var displacement: size_t := address - s.virtualAddress;
        && displacement <= s.rawSize
        && need <= s.rawSize - displacement
        && (var offset: size_t := s.rawPointer + displacement;
            offset <= length && need <= length - offset))
  }

  /** `rva` from section `i` on: the search ends at the first header outside the file. */
  function RvaFrom(f: MappedFile, h: Layout, address: dword, need: size_t, i: nat): size_t
    requires i <= h.sectionCount
    decreases h.sectionCount - i
  {
    if i == h.sectionCount then |f.bytes|
    else match SectionAt(f, h, i)
      case None => |f.bytes|
      case Some(s) =>
        if Backs(s, address, need, |f.bytes|) then s.rawPointer + (address - s.virtualAddress)
        else RvaFrom(f, h, address, need, i + 1)
  }

  /** `rawOffset` from section `i` on: a header outside the file is skipped. */
  function RawOffsetFrom(f: MappedFile, h: Layout, address: dword, need: size_t, i: nat): size_t
    requires i <= h.sectionCount
    decreases h.sectionCount - i
  {
    if i == h.sectionCount then |f.bytes|
    else
      var s := SectionAt(f, h, i);
      if s.Some? && Backs(s.value, address, need, |f.bytes|)
      then s.value.rawPointer + (address - s.value.virtualAddress)
      else RawOffsetFrom(f, h, address, need, i + 1)
  }

  /** The section loop of `ToOffset` from section `u` on, with its tests one after the other. */
  function ToOffsetFrom(f: MappedFile, h: Layout, address: dword, need: size_t, u: nat): size_t
    requires u <= h.sectionCount
    decreases h.sectionCount - u
  {
    if u == h.sectionCount then |f.bytes|
    else
      var section := SectionAt(f, h, u);
      if section.None? || address < section.value.virtualAddress then ToOffsetFrom(f, h, address, need, u + 1)
      else
        var delta: size_t := address - section.value.virtualAddress;
        if delta > section.value.rawSize || need > section.value.rawSize - delta
        then ToOffsetFrom(f, h, address, need, u + 1)
        else
          var offset: size_t := section.value.rawPointer + delta;
          if offset <= |f.bytes| && need <= |f.bytes| - offset then offset
          else ToOffsetFrom(f, h, address, need, u + 1)
  }

  function Rva(f: MappedFile, h: Layout, address: dword, need: size_t): size_t {
    RvaFrom(f, h, address, need, 0)
  }

  function RawOffset(f: MappedFile, h: Layout, address: dword, need: size_t): size_t {
    RawOffsetFrom(f, h, address, need, 0)
  }

  /** The header is mapped at its own file offset. */
  predicate InHeaders(f: MappedFile, h: Layout, address: dword, need: size_t) {
    address < h.sizeOfHeaders && address <= |f.bytes| && need <= |f.bytes| - address
  }

  function ToOffset(f: MappedFile, h: Layout, address: dword, need: size_t): size_t {
    if InHeaders(f, h, address, need) then address else ToOffsetFrom(f, h, address, need, 0)
  }

  method ComputeRva(f: MappedFile, h: Layout, address: dword, need: size_t) returns (r: size_t)
    ensures r == Rva(f, h, address, need)
  {
    var i := 0;
    while i < h.sectionCount
      invariant i <= h.sectionCount
      invariant Rva(f, h, address, need) == RvaFrom(f, h, address, need, i)
    {
      var section := SectionAt(f, h, i);
      if section.None? {
        break;
      }
      if Backs(section.value, address, need, |f.bytes|) {
        return section.value.rawPointer + (address - section.value.virtualAddress);
      }
      i := i + 1;
    }
    return |f.bytes|;
  }

  method ComputeRawOffset(f: MappedFile, h: Layout, address: dword, need: size_t) returns (r: size_t)
    ensures r == RawOffset(f, h, address, need)
  {
    for i := 0 to h.sectionCount
      invariant RawOffset(f, h, address, need) == RawOffsetFrom(f, h, address, need, i)
    {
      var section := SectionAt(f, h, i);
      if section.None? || !Backs(section.value, address, need, |f.bytes|) {
        continue;
      }
      return section.value.rawPointer + (address - section.value.virtualAddress);
    }
    return |f.bytes|;
  }

  method ComputeToOffset(f: MappedFile, h: Layout, address: dword, need: size_t) returns (r: size_t)
    ensures r == ToOffset(f, h, address, need)
  {
    if InHeaders(f, h, address, need) {
      return address;
    }
    for u := 0 to h.sectionCount
      invariant ToOffset(f, h, address, need) == ToOffsetFrom(f, h, address, need, u)
    {
      var section := SectionAt(f, h, u);
      if section.None? || address < section.value.virtualAddress {
        continue;
      }
      var delta: size_t := address - section.value.virtualAddress;
      if delta > section.value.rawSize || need > section.value.rawSize - delta {
        continue;
      }
      var offset: size_t := section.value.rawPointer + delta;
      if offset <= |f.bytes| && need <= |f.bytes| - offset {
        return offset;
      }
    }
    return |f.bytes|;
  }

  /** The section headers that lie inside the file. */
  function ReadableFrom(f: MappedFile, h: Layout, i: nat): seq<Section>
    requires i <= h.sectionCount
    decreases h.sectionCount - i
  {
    if i == h.sectionCount then []
    else match SectionAt(f, h, i)
      case None => []
      case Some(s) => [s] + ReadableFrom(f, h, i + 1)
  }

  function Readable(f: MappedFile, h: Layout): seq<Section> {
    ReadableFrom(f, h, 0)
  }

  lemma {:induction false} ReadableElements(f: MappedFile, h: Layout, i: nat)
    requires i <= h.sectionCount
    ensures |ReadableFrom(f, h, i)| <= h.sectionCount - i
    ensures forall k :: 0 <= k < |ReadableFrom(f, h, i)| ==> SectionAt(f, h, i + k) == Some(ReadableFrom(f, h, i)[k])
    ensures forall k :: i + |ReadableFrom(f, h, i)| <= k < h.sectionCount ==> SectionAt(f, h, k) == None
    decreases h.sectionCount - i
  {
    hide U16, U32;
    if i < h.sectionCount && SectionAt(f, h, i).Some? {
      ReadableElements(f, h, i + 1);
      var rest := ReadableFrom(f, h, i + 1);
      forall k | 0 <= k < |[SectionAt(f, h, i).value] + rest|
        ensures SectionAt(f, h, i + k) == Some(ReadableFrom(f, h, i)[k])
      {
        if k > 0 {
          assert SectionAt(f, h, (i + 1) + (k - 1)) == Some(rest[k - 1]);
        }
      }
    }
  }

  lemma ReadablePrefix(f: MappedFile, h: Layout)
    ensures |Readable(f, h)| <= h.sectionCount
    ensures forall k :: 0 <= k < |Readable(f, h)| ==> SectionAt(f, h, k) == Some(Readable(f, h)[k])
    ensures forall k :: |Readable(f, h)| <= k < h.sectionCount ==> SectionAt(f, h, k) == None
  {
    ReadableElements(f, h, 0);
    forall k | 0 <= k < |Readable(f, h)| ensures SectionAt(f, h, k) == Some(Readable(f, h)[k]) {
      assert SectionAt(f, h, 0 + k) == Some(ReadableFrom(f, h, 0)[k]);
    }
  }

  /** What `rva` means: some readable section backs the span. */
  ghost predicate Maps(f: MappedFile, h: Layout, s: Section, address: dword, need: size_t, p: int) {
    s in Readable(f, h) && Backs(s, address, need, |f.bytes|) && p == s.rawPointer + (address - s.virtualAddress)
  }

  lemma {:induction false} RvaFromHit(f: MappedFile, h: Layout, address: dword, need: size_t, i: nat)
    requires i <= h.sectionCount
    ensures var sections, r := ReadableFrom(f, h, i), RvaFrom(f, h, address, need, i);
      if exists s :: s in sections && Backs(s, address, need, |f.bytes|)
      then (exists s :: s in sections && Backs(s, address, need, |f.bytes|) &&
                   r == s.rawPointer + (address - s.virtualAddress))
      else r == |f.bytes|
    decreases h.sectionCount - i
  {
    if i < h.sectionCount {
      match SectionAt(f, h, i)
      case None =>
      case Some(s) =>
        RvaFromHit(f, h, address, need, i + 1);
        assert ReadableFrom(f, h, i) == [s] + ReadableFrom(f, h, i + 1);
        assert s in ReadableFrom(f, h, i);
        assert forall t :: t in ReadableFrom(f, h, i) <==> t == s || t in ReadableFrom(f, h, i + 1);
    }
  }

  /** For a non-empty span the file length is returned exactly when no readable section backs it. */
  lemma RvaCharacterization(f: MappedFile, h: Layout, address: dword, need: size_t)
    requires need >= 1
    ensures Rva(f, h, address, need) <= |f.bytes|
    ensures Rva(f, h, address, need) < |f.bytes| <==>
      exists s :: Maps(f, h, s, address, need, Rva(f, h, address, need))
    ensures Rva(f, h, address, need) == |f.bytes| <==>
      !exists s :: s in Readable(f, h) && Backs(s, address, need, |f.bytes|)
  {
    RvaFromHit(f, h, address, need, 0);
    if s :| s in Readable(f, h) && Backs(s, address, need, |f.bytes|) {
      var t :| t in Readable(f, h) && Backs(t, address, need, |f.bytes|)
        && Rva(f, h, address, need) == t.rawPointer + (address - t.virtualAddress);
      assert Maps(f, h, t, address, need, Rva(f, h, address, need));
    }
  }

  /** The section's raw data holds the whole span, and so does the file. */
  ghost predicate Covers(s: Section, address: int, need: int, length: int) {
    && s.virtualAddress <= address
    && address + need <= s.virtualAddress + s.rawSize
    && s.rawPointer + (address - s.virtualAddress) + need <= length
  }

  ghost predicate CoversAt(f: MappedFile, h: Layout, i: nat, address: int, need: int)
    requires i < h.sectionCount
  {
    SectionAt(f, h, i).Some? && Covers(SectionAt(f, h, i).value, address, need, |f.bytes|)
  }

  /** The answer at section `i` of a search that no section from `start` to `i` stops. */
  ghost predicate FirstCovering(f: MappedFile, h: Layout, address: dword, need: size_t, start: nat, i: nat, p: int) {
    && start <= i < h.sectionCount
    && CoversAt(f, h, i, address, need)
    && (forall k :: start <= k < i ==> !CoversAt(f, h, k, address, need))
    && p == SectionAt(f, h, i).value.rawPointer + (address - SectionAt(f, h, i).value.virtualAddress)
  }

  lemma {:induction false} RawOffsetFromIsFirst(f: MappedFile, h: Layout, address: dword, need: size_t, start: nat)
    requires start <= h.sectionCount
    ensures var r := RawOffsetFrom(f, h, address, need, start);
      || (exists i: nat :: FirstCovering(f, h, address, need, start, i, r))
      || (r == |f.bytes| && forall k :: start <= k < h.sectionCount ==> !CoversAt(f, h, k, address, need))
    decreases h.sectionCount - start
  {
    hide U16, U32, SectionAt;
    if start < h.sectionCount {
      var r := RawOffsetFrom(f, h, address, need, start);
      if CoversAt(f, h, start, address, need) {
        assert FirstCovering(f, h, address, need, start, start, r);
      } else {
        var next := start + 1;
        RawOffsetFromIsFirst(f, h, address, need, next);
        if i: nat :| FirstCovering(f, h, address, need, next, i, r) {
          assert FirstCovering(f, h, address, need, start, i, r);
        }
      }
    }
  }

  /** `rva` answers with the first section of the table that covers the span, and with the file length
      if none does. */
  lemma RvaIsFirstCovering(f: MappedFile, h: Layout, address: dword, need: size_t)
    ensures var r := Rva(f, h, address, need);
      || (exists i: nat :: FirstCovering(f, h, address, need, 0, i, r))
      || (r == |f.bytes| && forall k :: 0 <= k < h.sectionCount ==> !CoversAt(f, h, k, address, need))
  {
    hide FirstCovering, CoversAt;
    RvaIsRawOffset(f, h, address, need);
    RawOffsetFromIsFirst(f, h, address, need, 0);
  }

  /** `ToOffset` answers inside the headers with the address itself and elsewhere as `rva` does. */
  lemma ToOffsetIsHeaderOrRva(f: MappedFile, h: Layout, address: dword, need: size_t)
    ensures ToOffset(f, h, address, need) ==
      if address < h.sizeOfHeaders && address + need <= |f.bytes| then address else Rva(f, h, address, need)
  {
    ToOffsetSearchesAlike(f, h, address, need, 0);
  }

  lemma {:induction false} SameSearchFrom(f: MappedFile, h: Layout, address: dword, need: size_t, i: nat)
    requires i <= h.sectionCount
    ensures RvaFrom(f, h, address, need, i) == RawOffsetFrom(f, h, address, need, i)
    ensures i < h.sectionCount && SectionAt(f, h, i).None? ==>
      RawOffsetFrom(f, h, address, need, i) == |f.bytes|
    decreases h.sectionCount - i
  {
    if i < h.sectionCount {
      SameSearchFrom(f, h, address, need, i + 1);
    }
  }

  /** Leaving the loop at an unreadable header and skipping it find the same offset, on every input. */
  lemma RvaIsRawOffset(f: MappedFile, h: Layout, address: dword, need: size_t)
    ensures Rva(f, h, address, need) == RawOffset(f, h, address, need)
  {
    SameSearchFrom(f, h, address, need, 0);
  }

  /** The third loop finds what the other two find. */
  lemma {:induction false} ToOffsetSearchesAlike(f: MappedFile, h: Layout, address: dword, need: size_t, u: nat)
    requires u <= h.sectionCount
    ensures ToOffsetFrom(f, h, address, need, u) == RawOffsetFrom(f, h, address, need, u)
    ensures ToOffsetFrom(f, h, address, need, u) == RvaFrom(f, h, address, need, u)
    decreases h.sectionCount - u
  {
    hide U16, U32;
    SameSearchFrom(f, h, address, need, u);
    if u < h.sectionCount {
      ToOffsetSearchesAlike(f, h, address, need, u + 1);
    }
  }

  /** Every readable section is mapped at or above the headers. */
  ghost predicate SectionsAboveHeaders(f: MappedFile, h: Layout) {
    forall s :: s in Readable(f, h) ==> s.virtualAddress >= h.sizeOfHeaders
  }

  /** `ToOffset` extends `rva`: they differ only where the header branch fires, and not even there
      on an address `rva` resolves, when all sections start at or above SizeOfHeaders. */
  lemma ToOffsetExtendsRva(f: MappedFile, h: Layout, address: dword, need: size_t)
    requires need >= 1
    ensures !InHeaders(f, h, address, need) ==> ToOffset(f, h, address, need) == Rva(f, h, address, need)
    ensures SectionsAboveHeaders(f, h) && Rva(f, h, address, need) < |f.bytes| ==>
      ToOffset(f, h, address, need) == Rva(f, h, address, need)
    ensures ToOffset(f, h, address, need) == |f.bytes| <==>
      !InHeaders(f, h, address, need) && Rva(f, h, address, need) == |f.bytes|
  {
    ToOffsetSearchesAlike(f, h, address, need, 0);
    RvaCharacterization(f, h, address, need);
  }

  /** No virtual address is backed by two table entries. */
  ghost predicate DisjointAddresses(sections: seq<Section>) {
    forall i, j, a: int :: 0 <= i < j < |sections| ==> !(sections[i].BacksAddress(a) && sections[j].BacksAddress(a))
  }

  /** No file offset belongs to two table entries. */
  ghost predicate DisjointOffsets(sections: seq<Section>) {
    forall i, j, p: int :: 0 <= i < j < |sections| ==> !(sections[i].BacksOffset(p) && sections[j].BacksOffset(p))
  }

  lemma BackingSectionIsUnique(sections: seq<Section>, s: Section, t: Section, a: int)
    requires DisjointAddresses(sections)
    requires s in sections && t in sections && s.BacksAddress(a) && t.BacksAddress(a)
    ensures s == t
  {
    var i :| 0 <= i < |sections| && sections[i] == s;
    var j :| 0 <= j < |sections| && sections[j] == t;
    assert i == j;
  }

  lemma OwningSectionIsUnique(sections: seq<Section>, s: Section, t: Section, p: int)
    requires DisjointOffsets(sections)
    requires s in sections && t in sections && s.BacksOffset(p) && t.BacksOffset(p)
    ensures s == t
  {
    var i :| 0 <= i < |sections| && sections[i] == s;
    var j :| 0 <= j < |sections| && sections[j] == t;
    assert i == j;
  }

  /** With disjoint address ranges the answer is that of the one backing section. */
  lemma RvaAtBackingSection(f: MappedFile, h: Layout, s: Section, address: dword, need: size_t)
    requires need >= 1
    requires DisjointAddresses(Readable(f, h))
    requires s in Readable(f, h) && Backs(s, address, need, |f.bytes|)
    ensures Rva(f, h, address, need) == s.rawPointer + (address - s.virtualAddress)
  {
    RvaCharacterization(f, h, address, need);
    var t :| Maps(f, h, t, address, need, Rva(f, h, address, need));
    BackingSectionIsUnique(Readable(f, h), s, t, address);
  }

  /** Two files of the same length whose tables list the same sections in different orders
      give every non-empty span the same offset. */
  lemma TableOrderIsIrrelevant(f: MappedFile, h: Layout, f': MappedFile, h': Layout, address: dword, need: size_t)
    requires need >= 1
    requires |f.bytes| == |f'.bytes|
    requires multiset(Readable(f, h)) == multiset(Readable(f', h'))
    requires DisjointAddresses(Readable(f, h))
    ensures Rva(f, h, address, need) == Rva(f', h', address, need)
  {
    assert forall s :: s in Readable(f, h) <==> s in multiset(Readable(f, h));
    assert forall s :: s in Readable(f', h') <==> s in multiset(Readable(f', h'));
    RvaCharacterization(f', h', address, need);
    if s :| s in Readable(f', h') && Backs(s, address, need, |f'.bytes|) {
      var t :| Maps(f', h', t, address, need, Rva(f', h', address, need));
      RvaAtBackingSection(f, h, t, address, need);
    } else {
      RvaCharacterization(f, h, address, need);
    }
  }

  /** A span that maps, maps byte by byte to consecutive offsets. */
  lemma SpanIsContiguous(f: MappedFile, h: Layout, address: dword, need: size_t, k: nat)
    requires DisjointAddresses(Readable(f, h))
    requires k < need && address + k < 0x1_0000_0000
    requires Rva(f, h, address, need) < |f.bytes|
    ensures Rva(f, h, address + k, 1) == Rva(f, h, address, need) + k
  {
    RvaCharacterization(f, h, address, need);
    var s :| Maps(f, h, s, address, need, Rva(f, h, address, need));
    RvaAtBackingSection(f, h, s, address + k, 1);
  }

  /** With raw data disjoint too, distinct addresses have distinct bytes in the file. */
  lemma RvaIsInjective(f: MappedFile, h: Layout, a: dword, b: dword)
    requires DisjointOffsets(Readable(f, h))
    requires a != b
    requires Rva(f, h, a, 1) < |f.bytes| && Rva(f, h, b, 1) < |f.bytes|
    ensures Rva(f, h, a, 1) != Rva(f, h, b, 1)
  {
    RvaCharacterization(f, h, a, 1);
    RvaCharacterization(f, h, b, 1);
    var sections := Readable(f, h);
    var p := Rva(f, h, a, 1);
    var s :| Maps(f, h, s, a, 1, p);
    var t :| Maps(f, h, t, b, 1, Rva(f, h, b, 1));
    if p == Rva(f, h, b, 1) {
      OwningSectionIsUnique(sections, s, t, p);
    }
  }

  /** The raw and virtual range tests of the image diagnosis. */
  predicate Suspicious(s: Section, length: nat, sizeOfImage: dword) {
    || !(s.rawSize == 0 || (s.rawPointer <= length && s.rawSize <= length - s.rawPointer))
    || !(s.virtualAddress <= sizeOfImage && s.virtualSize <= sizeOfImage - s.virtualAddress)
  }

  /** The tests, which subtract so as not to wrap, mean the plain sums. */
  lemma SuspiciousMeans(s: Section, length: nat, sizeOfImage: dword)
    ensures Suspicious(s, length, sizeOfImage) <==>
      || (s.rawSize > 0 && s.rawPointer + s.rawSize > length)
      || s.virtualAddress + s.virtualSize > sizeOfImage
  {
  }

  ghost function SuspiciousIndices(f: MappedFile, h: Layout): set<nat> {
    set i: nat | i < |Readable(f, h)| && Suspicious(Readable(f, h)[i], |f.bytes|, h.sizeOfImage)
  }

  ghost function SuspiciousCount(f: MappedFile, h: Layout): nat {
    |SuspiciousIndices(f, h)| + if |Readable(f, h)| < h.sectionCount then 1 else 0
  }

  /** The count is zero exactly when every header is in the file, every section lies inside the image
      and its raw data inside the file. */
  lemma CleanMeans(f: MappedFile, h: Layout)
    ensures SuspiciousCount(f, h) == 0 <==>
      forall i :: 0 <= i < h.sectionCount ==>
        && SectionAt(f, h, i).Some?
        && (var s := SectionAt(f, h, i).value;
            && s.virtualAddress + s.virtualSize <= h.sizeOfImage
            && (s.rawSize > 0 ==> s.rawPointer + s.rawSize <= |f.bytes|))
  {
    hide SectionAt;
    ReadablePrefix(f, h);
    var bad := SuspiciousIndices(f, h);
    forall i | 0 <= i < |Readable(f, h)|
      ensures i in bad <==> Suspicious(SectionAt(f, h, i).value, |f.bytes|, h.sizeOfImage)
    {
      assert SectionAt(f, h, i) == Some(Readable(f, h)[i]);
    }
    if |Readable(f, h)| < h.sectionCount {
      assert SectionAt(f, h, |Readable(f, h)|).None?;
    } else if i :| i in bad {
      assert SectionAt(f, h, i).Some?;
    } else {
      assert bad == {};
    }
  }

  method CountSuspicious(f: MappedFile, h: Layout) returns (invalidSections: nat)
    ensures invalidSections == SuspiciousCount(f, h)
  {
    hide U16, U32;
    invalidSections := 0;
    ghost var found: set<nat> := {};
    ReadablePrefix(f, h);
    var i := 0;
    while i < h.sectionCount
      invariant i <= |Readable(f, h)|
      invariant found == set k: nat | k < i && Suspicious(Readable(f, h)[k], |f.bytes|, h.sizeOfImage)
      invariant invalidSections == |found|
    {
      var section := SectionAt(f, h, i);
      if section.None? {
        assert i == |Readable(f, h)|;
        invalidSections := invalidSections + 1;
        break;
      }
      assert section.value == Readable(f, h)[i];
      if Suspicious(section.value, |f.bytes|, h.sizeOfImage) {
        invalidSections := invalidSections + 1;
        found := found + {i};
      }
      i := i + 1;
    }
    assert found == SuspiciousIndices(f, h);
  }

  /** A count of zero is meaningful: every header is readable, every section lies inside the image and
      its raw data inside the file, and every non-empty span inside any section's raw data has an
      offset at which the file holds it. */
  lemma CleanDiagnosis(f: MappedFile, h: Layout, i: nat, address: dword, need: size_t)
    requires SuspiciousCount(f, h) == 0
    requires i < h.sectionCount && need >= 1
    ensures SectionAt(f, h, i).Some?
    ensures var s := SectionAt(f, h, i).value;
      s.virtualAddress + s.virtualSize <= h.sizeOfImage && (s.rawSize > 0 ==> s.rawPointer + s.rawSize <= |f.bytes|)
    ensures var s := SectionAt(f, h, i).value;
      s.virtualAddress <= address && address + need <= s.virtualAddress + s.rawSize ==>
        RawOffset(f, h, address, need) + need <= |f.bytes|
  {
    ReadablePrefix(f, h);
    assert i !in SuspiciousIndices(f, h);
    var s := Readable(f, h)[i];
    RvaIsRawOffset(f, h, address, need);
    RvaCharacterization(f, h, address, need);
    if s.virtualAddress <= address && address + need <= s.virtualAddress + s.rawSize {
      assert s in Readable(f, h) && Backs(s, address, need, |f.bytes|);
    }
  }
}
