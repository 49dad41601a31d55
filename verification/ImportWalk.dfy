/**
  The two walks over the import directory table (Microsoft PE/COFF specification,
  section "Import Directory Table"): the flat report and the one of the tree traversal.
  They differ in loop bound, address arithmetic and offset search.
 */
module ImportWalk {
  import opened Wrappers
  import opened PeImage
  import opened SectionLookup
  import opened Sequences

  const DESCRIPTOR_LIMIT := 1024

  type ImportName = seq<byte>

  /** The first zero byte at or after `pos`. */
  function FindNul(bytes: seq<byte>, pos: nat): (r: Option<nat>)
    requires pos <= |bytes|
    ensures r.Some? ==> pos <= r.value < |bytes|
    decreases |bytes| - pos
  {
    if pos == |bytes| then None
    else if bytes[pos] == 0 then Some(pos)
    else FindNul(bytes, pos + 1)
  }

  lemma {:induction false} FindNulIsFirst(bytes: seq<byte>, pos: nat)
    requires pos <= |bytes|
    ensures match FindNul(bytes, pos)
      case Some(end) => bytes[end] == 0 && forall k :: pos <= k < end ==> bytes[k] != 0
      case None => forall k :: pos <= k < |bytes| ==> bytes[k] != 0
    decreases |bytes| - pos
  {
    if pos < |bytes| && bytes[pos] != 0 {
      FindNulIsFirst(bytes, pos + 1);
    }
  }

  /** The Name field of the descriptor at `offset`, or None when the descriptor is outside the file. */
  function DescriptorName(f: MappedFile, offset: size_t): Option<dword> {
    if At(f, offset, IMPORT_DESCRIPTOR_SIZE) then Some(U32(f, offset + 12)) else None
  }

  /** The name is stored in the file, ends at a zero byte inside it and contains none. */
  ghost predicate StoredAt(f: MappedFile, name: ImportName, pos: nat) {
    && pos + |name| < |f.bytes|
    && f.bytes[pos..pos + |name|] == name
    && f.bytes[pos + |name|] == 0
    && 0 !in name
  }

  /** The zero-terminated name at `pos`, or None when there is none inside the file. */
  function ReadName(f: MappedFile, pos: size_t): Option<ImportName> {
    if pos >= |f.bytes| then None
    else match FindNul(f.bytes, pos)
      case None => None
      case Some(end) => Some(f.bytes[pos..end])
  }

  lemma ReadNameIsStored(f: MappedFile, pos: size_t)
    ensures ReadName(f, pos).Some? ==> StoredAt(f, ReadName(f, pos).value, pos)
    ensures ReadName(f, pos).None? ==> forall name :: !StoredAt(f, name, pos)
  {
    if pos < |f.bytes| {
      FindNulIsFirst(f.bytes, pos);
    }
  }

  /** What one descriptor yields: the table ends there as broken, its name cannot be read, or a name. */
  datatype Entry = BrokenTable | BadName | Name(name: ImportName)

  function NameEntry(f: MappedFile, pos: size_t): Entry {
    var name := ReadName(f, pos);
    if name.Some? then Name(name.value) else BadName
  }

  // ----- the flat report -----

  /** Descriptors the directory size announces, cut at the limit. */
  function DescriptorCount(h: Layout): nat {
    if h.importSize / IMPORT_DESCRIPTOR_SIZE < DESCRIPTOR_LIMIT
    then h.importSize / IMPORT_DESCRIPTOR_SIZE
    else DESCRIPTOR_LIMIT
  }

  /** The descriptor's address is a 32-bit sum and may wrap. */
  function ReportDescriptorRva(h: Layout, i: nat): dword {
    (h.importRva + i * IMPORT_DESCRIPTOR_SIZE) % 0x1_0000_0000
  }

  /** What the report makes of descriptor `i`, or None when it stops there. */
  function ReportStep(f: MappedFile, h: Layout, i: nat): Option<Entry> {
    var nameRva := DescriptorName(f, Rva(f, h, ReportDescriptorRva(h, i), IMPORT_DESCRIPTOR_SIZE));
    if nameRva.None? || nameRva.value == 0 then None
    else Some(NameEntry(f, Rva(f, h, nameRva.value, 1)))
  }

  /** The names printed from descriptor `i` on. */
  function PrintedFrom(f: MappedFile, h: Layout, i: nat): seq<ImportName>
    decreases DESCRIPTOR_LIMIT - i
  {
    if i >= DescriptorCount(h) then []
    else match ReportStep(f, h, i)
      case None => []
      case Some(Name(name)) => [name] + PrintedFrom(f, h, i + 1)
      case Some(_) => PrintedFrom(f, h, i + 1)
  }

  /** The names the report prints for a file. */
  function Printed(f: MappedFile): seq<ImportName> {
    match OpenImage(f)
    case Err(_) => []
    case Ok(h) => if h.Amd64() && h.HasImports() then PrintedFrom(f, h, 0) else []
  }

  method ReportImports(f: MappedFile) returns (printed: seq<ImportName>)
    ensures printed == Printed(f)
  {
    hide U16, U32, RvaFrom;
    printed := [];
    var image := OpenImage(f);
    if image.Err? {
      return;
    }
    var h: Layout := image.value;
    if !h.Amd64() || !h.HasImports() {
      return;
    }
    var count := DescriptorCount(h);
    for i := 0 to count
      invariant PrintedFrom(f, h, 0) == printed + PrintedFrom(f, h, i)
    {
      var offset := ComputeRva(f, h, ReportDescriptorRva(h, i), IMPORT_DESCRIPTOR_SIZE);
      var nameRva := DescriptorName(f, offset);
      if nameRva.None? || nameRva.value == 0 {
        break;
      }
      var namePos := ComputeRva(f, h, nameRva.value, 1);
      var entry := NameEntry(f, namePos);
      if entry.BadName? {
        continue;
      }
      assert ReportStep(f, h, i) == Some(entry);
      printed := printed + [entry.name];
    }
  }

  // ----- the walk of the tree traversal -----

  /** What the traversal makes of descriptor `u`, or None when it stops there. The directory size
      is not consulted, and the address is a 64-bit sum that ends the walk when it leaves 32 bits. */
  function TreeStep(f: MappedFile, h: Layout, u: nat): Option<Entry> {
    var address := h.importRva + u * IMPORT_DESCRIPTOR_SIZE;
    if address > 0xFFFF_FFFF then None
    else
      var nameRva := DescriptorName(f, ToOffset(f, h, address, IMPORT_DESCRIPTOR_SIZE));
      if nameRva.None? then Some(BrokenTable)
      else if nameRva.value == 0 then None
      else Some(NameEntry(f, ToOffset(f, h, nameRva.value, 1)))
  }

  /** The entries from descriptor `u` on. */
  function EntriesFrom(f: MappedFile, h: Layout, u: nat): seq<Entry>
    decreases DESCRIPTOR_LIMIT - u
  {
    if u >= DESCRIPTOR_LIMIT then []
    else match TreeStep(f, h, u)
      case None => []
      case Some(BrokenTable) => [BrokenTable]
      case Some(entry) => [entry] + EntriesFrom(f, h, u + 1)
  }

  /** The entries of a file, or None when its headers are refused. */
  function Entries(f: MappedFile): Option<seq<Entry>> {
    match OpenImage(f)
    case Err(_) => None
    case Ok(h) =>
      if !h.Amd64() then None
      else if h.HasImports() then Some(EntriesFrom(f, h, 0))
      else Some([])
  }

  function NamesOf(entries: seq<Entry>): seq<ImportName> {
    if entries == [] then []
    else if entries[0].Name? then [entries[0].name] + NamesOf(entries[1..])
    else NamesOf(entries[1..])
  }

  // ----- properties -----

  lemma NamesOfCons(e: Entry, rest: seq<Entry>)
    ensures NamesOf([e] + rest) == if e.Name? then [e.name] + NamesOf(rest) else NamesOf(rest)
  {
    assert ([e] + rest)[1..] == rest;
  }

  lemma {:induction false} EntriesAreBounded(f: MappedFile, h: Layout, u: nat)
    ensures |EntriesFrom(f, h, u)| <= if u < 1024 then 1024 - u else 0
    decreases DESCRIPTOR_LIMIT - u
  {
    hide TreeStep;
    if u < DESCRIPTOR_LIMIT {
      EntriesAreBounded(f, h, u + 1);
    }
  }

  ghost predicate Stored(f: MappedFile, name: ImportName) {
    exists pos :: StoredAt(f, name, pos)
  }

  lemma {:induction false} EntryNamesAreStored(f: MappedFile, h: Layout, u: nat)
    ensures forall name :: name in NamesOf(EntriesFrom(f, h, u)) ==> Stored(f, name)
    decreases DESCRIPTOR_LIMIT - u
  {
    hide TreeStep;
    if u < DESCRIPTOR_LIMIT {
      EntryNamesAreStored(f, h, u + 1);
      var entry := TreeStep(f, h, u);
      if entry.Some? && entry.value.Name? {
        NamesOfCons(entry.value, EntriesFrom(f, h, u + 1));
        StepNamesAreStored(f, h, u);
      } else if entry == Some(BadName) {
        NamesOfCons(entry.value, EntriesFrom(f, h, u + 1));
      }
    }
  }

  lemma StepNamesAreStored(f: MappedFile, h: Layout, i: nat)
    ensures var step := ReportStep(f, h, i); step.Some? && step.value.Name? ==> Stored(f, step.value.name)
    ensures var step := TreeStep(f, h, i); step.Some? && step.value.Name? ==> Stored(f, step.value.name)
  {
    forall pos: size_t ensures NameEntry(f, pos).Name? ==> Stored(f, NameEntry(f, pos).name) {
      ReadNameIsStored(f, pos);
    }
  }

  lemma {:induction false} PrintedNamesAreStored(f: MappedFile, h: Layout, i: nat)
    ensures forall name :: name in PrintedFrom(f, h, i) ==> Stored(f, name)
    decreases DESCRIPTOR_LIMIT - i
  {
    hide ReportStep;
    if i < DescriptorCount(h) {
      PrintedNamesAreStored(f, h, i + 1);
      StepNamesAreStored(f, h, i);
    }
  }

  /** Both walks only ever extract zero-terminated names that lie inside the file. */
  lemma ExtractedNamesAreStored(f: MappedFile, name: ImportName)
    requires name in Printed(f) || (Entries(f).Some? && name in NamesOf(Entries(f).value))
    ensures Stored(f, name)
  {
    var h: Layout := OpenImage(f).value;
    PrintedNamesAreStored(f, h, 0);
    EntryNamesAreStored(f, h, 0);
  }

  /** The announced part of the table stays inside 32 bits. */
  ghost predicate TableDoesNotWrap(h: Layout) {
    DescriptorCount(h) > 0 ==>
      h.importRva + (DescriptorCount(h) - 1) * IMPORT_DESCRIPTOR_SIZE <= 0xFFFF_FFFF
  }

  /** Where the report goes on, the traversal goes on too and reads the same name. */
  lemma StepsAgree(f: MappedFile, h: Layout, i: nat)
    requires SectionsAboveHeaders(f, h) && TableDoesNotWrap(h)
    requires i < DescriptorCount(h) && ReportStep(f, h, i).Some?
    ensures TreeStep(f, h, i).Some? && TreeStep(f, h, i).value != BrokenTable
    ensures ReportStep(f, h, i).value.Name? ==> TreeStep(f, h, i) == ReportStep(f, h, i)
  {
    var address := h.importRva + i * IMPORT_DESCRIPTOR_SIZE;
    assert ReportDescriptorRva(h, i) == address;
    ToOffsetExtendsRva(f, h, address, IMPORT_DESCRIPTOR_SIZE);
    var nameRva := DescriptorName(f, Rva(f, h, address, IMPORT_DESCRIPTOR_SIZE));
    ToOffsetExtendsRva(f, h, nameRva.value, 1);
  }

  lemma {:induction false} WalksAgreeFrom(f: MappedFile, h: Layout, i: nat)
    requires SectionsAboveHeaders(f, h) && TableDoesNotWrap(h)
    ensures Subsequence(PrintedFrom(f, h, i), NamesOf(EntriesFrom(f, h, i)))
    decreases DESCRIPTOR_LIMIT - i
  {
    hide ReportStep, TreeStep;
    if i < DescriptorCount(h) && ReportStep(f, h, i).Some? {
      StepsAgree(f, h, i);
      WalksAgreeFrom(f, h, i + 1);
      var entry, rest := TreeStep(f, h, i).value, EntriesFrom(f, h, i + 1);
      assert EntriesFrom(f, h, i) == [entry] + rest;
      NamesOfCons(entry, rest);
      var printed, names := PrintedFrom(f, h, i + 1), NamesOf(rest);
      if entry.Name? {
        SubsequenceCons(entry.name, printed, names);
      }
    }
  }

  /** The report prints a subsequence of the names the traversal extracts, although the walks
      have different loop bounds and searches. */
  lemma WalksAgree(f: MappedFile)
    requires OpenImage(f).Ok? ==>
      SectionsAboveHeaders(f, OpenImage(f).value) && TableDoesNotWrap(OpenImage(f).value)
    ensures Printed(f) != [] ==> Entries(f).Some?
    ensures Entries(f).Some? ==> Subsequence(Printed(f), NamesOf(Entries(f).value))
  {
    if OpenImage(f).Ok? {
      WalksAgreeFrom(f, OpenImage(f).value, 0);
    }
  }

  // ----- both walks, descriptor by descriptor -----

  ghost function DwordAt(bytes: seq<byte>, pos: nat): dword
    requires pos + 4 <= |bytes|
  {
    bytes[pos] as nat + 0x100 * bytes[pos + 1] as nat
    + 0x1_0000 * bytes[pos + 2] as nat + 0x100_0000 * bytes[pos + 3] as nat
  }

  lemma U32IsDword(f: MappedFile, pos: size_t)
    requires At(f, pos, 4)
    ensures U32(f, pos) == DwordAt(f.bytes, pos)
  {
    var s := f.bytes[pos..pos + 4];
    assert s == [s[0], s[1], s[2], s[3]];
    LittleEndianValue(s[0], s[1], s[2], s[3]);
  }

  /** All 20 bytes of the descriptor at `pos` are in the file. */
  ghost predicate InFile(f: MappedFile, pos: nat) {
    f.mapped && pos + 20 <= |f.bytes|
  }

  /** A readable descriptor that does not end the table: its Name field is not zero. */
  ghost predicate GoesOn(f: MappedFile, pos: nat) {
    InFile(f, pos) && DwordAt(f.bytes, pos + 12) != 0
  }

  /** The entry is the name stored at `pos`, or a bad name if none is stored there. */
  ghost predicate EntryIs(f: MappedFile, pos: nat, e: Entry) {
    if e.Name? then StoredAt(f, e.name, pos) else e == BadName && forall name :: !StoredAt(f, name, pos)
  }

  lemma NameEntryIs(f: MappedFile, pos: size_t)
    ensures EntryIs(f, pos, NameEntry(f, pos))
  {
    ReadNameIsStored(f, pos);
  }

  lemma DescriptorNameIs(f: MappedFile, pos: size_t)
    ensures DescriptorName(f, pos).Some? <==> InFile(f, pos)
    ensures InFile(f, pos) ==> DescriptorName(f, pos) == Some(DwordAt(f.bytes, pos + 12))
  {
    if At(f, pos, IMPORT_DESCRIPTOR_SIZE) {
      U32IsDword(f, pos + 12);
    }
  }

  /** Where the report looks for descriptor `i`. */
  ghost function ReportOffset(f: MappedFile, h: Layout, i: nat): size_t {
    Rva(f, h, (h.importRva + 20 * i) % 0x1_0000_0000, 20)
  }

  /** Where the report looks for the name of descriptor `i`. */
  ghost function ReportNameOffset(f: MappedFile, h: Layout, i: nat): size_t
    requires GoesOn(f, ReportOffset(f, h, i))
  {
    Rva(f, h, DwordAt(f.bytes, ReportOffset(f, h, i) + 12), 1)
  }

  ghost predicate HasReportName(f: MappedFile, h: Layout, i: nat, name: ImportName) {
    GoesOn(f, ReportOffset(f, h, i)) && StoredAt(f, name, ReportNameOffset(f, h, i))
  }

  /** Some name is stored where the report looks for that of descriptor `i`. */
  ghost predicate IsNamed(f: MappedFile, h: Layout, i: nat) {
    exists name :: HasReportName(f, h, i, name)
  }

  lemma ReportStepReads(f: MappedFile, h: Layout, i: nat)
    ensures var step := ReportStep(f, h, i);
      && (step.Some? <==> GoesOn(f, ReportOffset(f, h, i)))
      && (step.Some? ==> EntryIs(f, ReportNameOffset(f, h, i), step.value))
  {
    hide RvaFrom, DescriptorName, NameEntry;
    DescriptorNameIs(f, ReportOffset(f, h, i));
    if GoesOn(f, ReportOffset(f, h, i)) {
      NameEntryIs(f, ReportNameOffset(f, h, i));
    }
  }

  /** The indices rise from `start` and stay below `n`. */
  ghost predicate Rising(indices: seq<nat>, start: nat, n: nat) {
    && (forall k :: 0 <= k < |indices| ==> start <= indices[k] < n)
    && (forall k, l :: 0 <= k < l < |indices| ==> indices[k] < indices[l])
  }

  /** The names are stored for the descriptors with these indices. */
  ghost predicate NamesAt(f: MappedFile, h: Layout, names: seq<ImportName>, indices: seq<nat>) {
    |indices| == |names| && forall k :: 0 <= k < |names| ==> HasReportName(f, h, indices[k], names[k])
  }

  /** The report goes on past all descriptors from `start` to `n`, and those with a name are listed. */
  ghost predicate NoneLeftOut(f: MappedFile, h: Layout, indices: seq<nat>, start: nat, n: nat) {
    forall i :: start <= i < n ==> GoesOn(f, ReportOffset(f, h, i)) && (IsNamed(f, h, i) ==> i in indices)
  }

  /** `names` are the names of the descriptors with the given indices, in table order, and no other
      descriptor from `start` to `n` has one. */
  ghost predicate ListsNames(
      f: MappedFile, h: Layout, names: seq<ImportName>, indices: seq<nat>, start: nat, n: nat) {
    NamesAt(f, h, names, indices) && Rising(indices, start, n) && NoneLeftOut(f, h, indices, start, n)
  }

  /** The report ends before descriptor `n`: announced size, limit, or a descriptor that ends the table. */
  ghost predicate ReportEnds(f: MappedFile, h: Layout, n: nat) {
    n == 1024 || 20 * (n + 1) > h.importSize || !GoesOn(f, ReportOffset(f, h, n))
  }

  lemma RisingFrom(indices: seq<nat>, start: nat, next: nat, n: nat)
    requires Rising(indices, next, n) && start < next && start < n
    ensures Rising(indices, start, n) && Rising([start] + indices, start, n)
    ensures start in [start] + indices && forall i :: i in indices ==> i in [start] + indices
  {
    assert ([start] + indices)[0] == start;
    forall i | i in indices ensures i in [start] + indices {
      var k :| 0 <= k < |indices| && indices[k] == i;
      assert ([start] + indices)[k + 1] == i;
    }
  }

  lemma NamesAtFront(
      f: MappedFile, h: Layout, name: ImportName, i: nat, names: seq<ImportName>, indices: seq<nat>)
    requires NamesAt(f, h, names, indices) && HasReportName(f, h, i, name)
    ensures NamesAt(f, h, [name] + names, [i] + indices)
  {
    hide HasReportName;
  }

  lemma NoneLeftOutFrom(
      f: MappedFile, h: Layout, indices: seq<nat>, more: seq<nat>, start: nat, next: nat, n: nat)
    requires NoneLeftOut(f, h, indices, next, n) && next == start + 1
    requires GoesOn(f, ReportOffset(f, h, start)) && (IsNamed(f, h, start) ==> start in more)
    requires forall i :: i in indices ==> i in more
    ensures NoneLeftOut(f, h, more, start, n)
  {
    hide GoesOn, ReportOffset, IsNamed;
  }

  /** A descriptor with a name comes before those behind it. */
  lemma ListsNamed(
      f: MappedFile, h: Layout, name: ImportName, names: seq<ImportName>, indices: seq<nat>,
      start: nat, next: nat, n: nat)
    requires ListsNames(f, h, names, indices, next, n) && next == start + 1 && start < n
    requires HasReportName(f, h, start, name)
    ensures ListsNames(f, h, [name] + names, [start] + indices, start, n)
  {
    assert GoesOn(f, ReportOffset(f, h, start));
    hide GoesOn, HasReportName, ReportOffset, IsNamed, Rising, NamesAt, NoneLeftOut;
    RisingFrom(indices, start, next, n);
    NamesAtFront(f, h, name, start, names, indices);
    NoneLeftOutFrom(f, h, indices, [start] + indices, start, next, n);
  }

  lemma ListsUnnamed(
      f: MappedFile, h: Layout, names: seq<ImportName>, indices: seq<nat>, start: nat, next: nat, n: nat)
    requires ListsNames(f, h, names, indices, next, n) && next == start + 1 && start < n
    requires GoesOn(f, ReportOffset(f, h, start)) && !IsNamed(f, h, start)
    ensures ListsNames(f, h, names, indices, start, n)
  {
    hide GoesOn, HasReportName, ReportOffset, IsNamed, Rising, NamesAt, NoneLeftOut;
    RisingFrom(indices, start, next, n);
    NoneLeftOutFrom(f, h, indices, indices, start, next, n);
  }

  lemma NameOrNone(f: MappedFile, h: Layout, i: nat, e: Entry)
    requires GoesOn(f, ReportOffset(f, h, i)) && EntryIs(f, ReportNameOffset(f, h, i), e)
    ensures if e.Name? then HasReportName(f, h, i, e.name) else !IsNamed(f, h, i)
  {
    hide GoesOn, StoredAt, ReportOffset, ReportNameOffset;
  }

  lemma EndsAt(f: MappedFile, h: Layout, i: nat)
    requires i <= 1024
    ensures i < DescriptorCount(h) ==> i < 1024 && 20 * (i + 1) <= h.importSize
    ensures i >= DescriptorCount(h) || !GoesOn(f, ReportOffset(f, h, i)) ==> ReportEnds(f, h, i)
    ensures ListsNames(f, h, [], [], i, i)
  {
    hide GoesOn, ReportOffset;
  }

  /** The report ends at descriptor `i` or reads it and goes on behind it. */
  lemma PrintedFromStep(f: MappedFile, h: Layout, i: nat)
    ensures if i < DescriptorCount(h) && GoesOn(f, ReportOffset(f, h, i))
      then
        && ReportStep(f, h, i).Some?
        && (var e, rest := ReportStep(f, h, i).value, PrintedFrom(f, h, i + 1);
            if e.Name? then HasReportName(f, h, i, e.name) && PrintedFrom(f, h, i) == [e.name] + rest
            else !IsNamed(f, h, i) && PrintedFrom(f, h, i) == rest)
      else PrintedFrom(f, h, i) == []
  {
    ReportStepReads(f, h, i);
    hide ReportStep, GoesOn, ReportOffset, ReportNameOffset, EntryIs, HasReportName, IsNamed, DescriptorCount;
    if i < DescriptorCount(h) && GoesOn(f, ReportOffset(f, h, i)) {
      var e := ReportStep(f, h, i).value;
      EntryIsNoBrokenTable(f, h, i, e);
      NameOrNone(f, h, i, e);
    }
  }

  lemma {:induction false} PrintedFromLists(f: MappedFile, h: Layout, i: nat) returns (n: nat, indices: seq<nat>)
    requires i <= 1024 && 20 * i <= h.importSize
    ensures i <= n <= 1024 && 20 * n <= h.importSize && ReportEnds(f, h, n)
    ensures ListsNames(f, h, PrintedFrom(f, h, i), indices, i, n)
    decreases 1024 - i
  {
    hide ReportStep, GoesOn, ReportOffset, HasReportName, IsNamed, ListsNames, ReportEnds, DescriptorCount, PrintedFrom;
    EndsAt(f, h, i);
    PrintedFromStep(f, h, i);
    if i < DescriptorCount(h) && GoesOn(f, ReportOffset(f, h, i)) {
      n, indices := PrintedFromLists(f, h, i + 1);
      var e, rest := ReportStep(f, h, i).value, PrintedFrom(f, h, i + 1);
      if e.Name? {
        ListsNamed(f, h, e.name, rest, indices, i, i + 1, n);
        indices := [i] + indices;
      } else {
        ListsUnnamed(f, h, rest, indices, i, i + 1, n);
      }
    } else {
      n, indices := i, [];
    }
  }

  lemma EntryIsNoBrokenTable(f: MappedFile, h: Layout, i: nat, e: Entry)
    requires GoesOn(f, ReportOffset(f, h, i)) && EntryIs(f, ReportNameOffset(f, h, i), e)
    ensures e != BrokenTable
  {
  }

  /** The report is complete: of an AMD64 image with an import directory it prints, in the order of the
      table, exactly the names of all descriptors before the first one that is beyond the announced
      size or the limit, unreadable or zero; of any other file it prints nothing. */
  lemma PrintedIsComplete(f: MappedFile)
    ensures (OpenImage(f).Ok? && ListsImports(OpenImage(f).value)) ==>
      var h := OpenImage(f).value;
      exists n: nat, indices ::
        n <= 1024 && 20 * n <= h.importSize && ReportEnds(f, h, n) && ListsNames(f, h, Printed(f), indices, 0, n)
    ensures !(OpenImage(f).Ok? && ListsImports(OpenImage(f).value)) ==> Printed(f) == []
  {
    hide OpenImage, PrintedFrom, ListsNames, ReportEnds;
    if OpenImage(f).Ok? && ListsImports(OpenImage(f).value) {
      var h := OpenImage(f).value;
      var n, indices := PrintedFromLists(f, h, 0);
      assert Printed(f) == PrintedFrom(f, h, 0);
    }
  }

  /** PE32+ for AMD64 with a non-empty import directory among its directories. */
  ghost predicate ListsImports(h: Header) {
    h.machine == 0x8664 && h.magic == 0x20B && h.directoryCount >= 2 && h.importRva != 0 && h.importSize != 0
  }

  // ----- the table of the traversal -----

  /** Where the traversal looks for descriptor `i`. */
  ghost function TreeOffset(f: MappedFile, h: Layout, i: nat): size_t
    requires h.importRva + 20 * i < 0x1_0000_0000
  {
    ToOffset(f, h, h.importRva + 20 * i, 20)
  }

  /** Descriptor `i` has an address, is readable and does not end the table. */
  ghost predicate TreeGoesOn(f: MappedFile, h: Layout, i: nat) {
    h.importRva + 20 * i < 0x1_0000_0000 && GoesOn(f, TreeOffset(f, h, i))
  }

  /** Where the traversal looks for the name of descriptor `i`. */
  ghost function TreeNameOffset(f: MappedFile, h: Layout, i: nat): size_t
    requires TreeGoesOn(f, h, i)
  {
    ToOffset(f, h, DwordAt(f.bytes, TreeOffset(f, h, i) + 12), 1)
  }

  ghost predicate IsTreeEntry(f: MappedFile, h: Layout, i: nat, e: Entry) {
    TreeGoesOn(f, h, i) && EntryIs(f, TreeNameOffset(f, h, i), e)
  }

  /** The descriptor has an address but is not in the file. */
  ghost predicate TreeBreaks(f: MappedFile, h: Layout, i: nat) {
    h.importRva + 20 * i < 0x1_0000_0000 && !InFile(f, TreeOffset(f, h, i))
  }

  /** One entry for each descriptor from `start` to the first one that ends the table, which has none
      unless it is unreadable. */
  ghost predicate IsTable(f: MappedFile, h: Layout, entries: seq<Entry>, start: nat, n: nat) {
    && start <= n <= 1024
    && n - start <= |entries|
    && (forall k :: 0 <= k < n - start ==> IsTreeEntry(f, h, start + k, entries[k]))
    && (n == 1024 || !TreeGoesOn(f, h, n))
    && entries[n - start..] == if n < 1024 && TreeBreaks(f, h, n) then [BrokenTable] else []
  }

  lemma TreeStepReads(f: MappedFile, h: Layout, i: nat)
    ensures var step := TreeStep(f, h, i);
      && (step == Some(BrokenTable) <==> TreeBreaks(f, h, i))
      && (step.Some? && step.value != BrokenTable <==> TreeGoesOn(f, h, i))
      && (TreeGoesOn(f, h, i) ==> IsTreeEntry(f, h, i, step.value))
  {
    hide ToOffset, DescriptorName, StoredAt;
    if h.importRva + 20 * i < 0x1_0000_0000 {
      DescriptorNameIs(f, TreeOffset(f, h, i));
      if TreeGoesOn(f, h, i) {
        NameEntryIs(f, TreeNameOffset(f, h, i));
      }
    }
  }

  lemma {:induction false} EntriesFromTable(f: MappedFile, h: Layout, u: nat) returns (n: nat)
    requires u <= 1024
    ensures IsTable(f, h, EntriesFrom(f, h, u), u, n)
    decreases 1024 - u
  {
    hide TreeStep, TreeGoesOn, TreeBreaks, IsTreeEntry;
    n := u;
    if u < 1024 {
      TreeStepReads(f, h, u);
      var step := TreeStep(f, h, u);
      if step.Some? && step.value != BrokenTable {
        n := EntriesFromTable(f, h, u + 1);
        var rest := EntriesFrom(f, h, u + 1);
        assert EntriesFrom(f, h, u) == [step.value] + rest;
        assert ([step.value] + rest)[n - u..] == rest[n - u - 1..];
        forall k | 0 <= k < n - u ensures IsTreeEntry(f, h, u + k, ([step.value] + rest)[k]) {
          if k > 0 {
            assert IsTreeEntry(f, h, u + 1 + (k - 1), rest[k - 1]);
          }
        }
      }
    }
  }

  /** The traversal's table is complete: one entry for every descriptor before the first that ends it. */
  lemma EntriesAreComplete(f: MappedFile)
    ensures Entries(f).Some? <==> OpenImage(f).Ok? && OpenImage(f).value.machine == 0x8664 && OpenImage(f).value.magic == 0x20B
    ensures Entries(f).Some? ==>
      var h := OpenImage(f).value;
      if ListsImports(h) then exists n :: IsTable(f, h, Entries(f).value, 0, n) else Entries(f).value == []
  {
    hide OpenImage, EntriesFrom, IsTable;
    if Entries(f).Some? && ListsImports(OpenImage(f).value) {
      var n := EntriesFromTable(f, OpenImage(f).value, 0);
    }
  }
}
