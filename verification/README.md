# Verified models of the BuildEngine administration programs

BuildEngine administers native builds of third-party libraries with the BCC64X compiler. Three of its
programs hold real algorithms, and this project models them in Dafny and proves what they promise:

- the **runtime loader probe** reads PE images through a bounds-checked byte view, maps relative
  virtual addresses to file offsets in three separately written searches, walks import directories in
  two separately written loops, diagnoses the section table, and traverses the import tree depth first
  under a depth limit and a node limit; it also parses the ordered DLL list;
- the **GN argument adapter** translates compiler arguments one by one and linker response files by a
  chain of whole-text substitutions;
- the **source patchers** rewrite pinned Meson and Mesa sources and may be run again on any earlier
  result; the **site customization** rebuilds the import path in place.

## How the project is laid out

| file | subject |
|---|---|
| `PeImage.dfy`, `SectionLookup.dfy`, `ImportWalk.dfy`, `PeEncoding.dfy` | the byte view, the three searches with the section diagnosis, the two import walks, headers written and read back |
| `ImportGraph.dfy`, `Reachability.dfy`, `TraversalReport.dfy` | the traversal as a function on an arbitrary graph, what it visits, what it reports |
| `DependencyTree.dfy` | the stateful traversal of image files, proved against that function |
| `DllList.dfy` | the DLL list |
| `LinkResponse.dfy`, `LinkTokens.dfy`, `LinkRefinement.dfy`, `LinkLaws.dfy`, `LinkForwarding.dfy`, `LinkQuoted.dfy`, `LinkSpelling.dfy` | the linker response translation, its laws, and what it does character by character |
| `ArgumentAdapter.dfy`, `ArgumentLaws.dfy`, `ArgumentTables.dfy` | the argument loop, its laws, and what becomes of each switch |
| `Text.dfy`, `PatchTexts.dfy`, `Patchers.dfy`, `PatchLaws.dfy` | searching text, the exact texts, the patchers and their laws |
| `SitePath.dfy` | the import path |
| `Sequences.dfy`, `Wrappers.dfy` | shared definitions |

`dafny verify dfyconfig.toml` checks the whole project.

Code that works by changing things is modelled as methods and classes, each proved against a
specification function; the laws are lemmas about those functions. Integer widths are explicit: file
positions are 64-bit and section fields 32-bit subset types, so the absence of wrap is proved at every
sum and difference, and the one 32-bit sum that may wrap is written with its remainder.

## What the proofs found

- **Cut-offs.** The traversal is exact if and only if every path a limit refused is visited by another
  way. That is certain, before any run, if at most 512 modules are reachable and no path of imports
  runs through more than 33 different ones, so up to 33 modules always. A chain of 34 modules and a
  module with 512 imports are traversed inexactly. LIMIT lines may appear before that: up to 32
  modules there is none, and a ring of 33 prints one although it is traversed exactly.
- **Argument loop.** `-mllvm` takes whatever comes next as its value, so two lists compose exactly
  unless the first ends in a pending `-mllvm` and the second is anything but an even number of
  `-mllvm` (`ArgumentLaws.LoopIsCompositional`).
- **Allow-undefined patcher.** Re-running it converges only if the text held the earlier attempt at
  most once: each run takes back one occurrence (`PatchLaws.UndefinedIsIdempotent`,
  `PatchLaws.TwoAttemptsNeedTwoRuns`).
- **Quoted library paths.** White space inside quotes still separates tokens for the other passes, so
  quoted paths such as `-l"D:\a /b"` and `"-lD:\a --color-diagnostics b"` are not kept as the comment
  says; `LinkQuoted.QuotedPathIsKept` gives the exact condition for both forms, wherever they stand.
- **Running the link translation twice** is harmless exactly when no library name ends in a doubled
  `.lib`.
- **Documentation.** `admin/server-docs/translation-rules.md:44` maps `/MT` and `/MTd` to `-tR`; the
  code refuses both (`admin/programs/bcc64x/gn_argument_adapter.py:82-87`), and the model follows the
  code.

## Model

| member | source | states |
|---|---|---|
| SectionLookup.ComputeRva | admin/programs/bcc64x/RuntimeLoaderProbe.cpp:90-103 | The search loop of `rva`, left at the first header outside the file, computes `Rva` |
| SectionLookup.ComputeRawOffset | admin/programs/bcc64x/RuntimeLoaderProbe.cpp:221-233 | The search loop of `rawOffset`, which skips such headers, computes `RawOffset` |
| SectionLookup.ComputeToOffset | admin/programs/bcc64x/RuntimeLoaderProbe.cpp:369-385 | The header shortcut followed by the third section loop, with its own tests one after the other, computes `ToOffset` |
| SectionLookup.RvaIsRawOffset | admin/programs/bcc64x/RuntimeLoaderProbe.cpp:221-233 | Leaving at an unreadable header and skipping it give the same offset on every file, header, address and span |
| SectionLookup.ToOffsetSearchesAlike | admin/programs/bcc64x/RuntimeLoaderProbe.cpp:373-384 | From every section on, the third loop finds what the other two find |
| SectionLookup.ToOffsetExtendsRva | admin/programs/bcc64x/RuntimeLoaderProbe.cpp:369-385 | `ToOffset` equals `rva` wherever the header shortcut does not fire, and wherever `rva` succeeds if all readable sections start at or above SizeOfHeaders; it fails exactly when both fail |
| SectionLookup.RvaCharacterization | admin/programs/bcc64x/RuntimeLoaderProbe.cpp:90-103 | For a non-empty span the result is below the file length exactly when some readable section backs the span, and then it is that section's offset; the length itself is never a real answer |
| SectionLookup.RvaIsFirstCovering | admin/programs/bcc64x/RuntimeLoaderProbe.cpp:90-103 | The answer is that of the first header in table order whose raw data, by plain sums without wrap, holds the whole span inside the file; if there is none it is the file length |
| SectionLookup.ToOffsetIsHeaderOrRva | admin/programs/bcc64x/RuntimeLoaderProbe.cpp:369-385 | An address below SizeOfHeaders whose span is inside the file is its own offset; every other is answered as `rva` does |
| SectionLookup.TableOrderIsIrrelevant | admin/programs/bcc64x/RuntimeLoaderProbe.cpp:90-103 | Files of equal length whose tables are permutations of each other, with disjoint raw-backed address ranges, map every non-empty span alike |
| SectionLookup.SpanIsContiguous | admin/programs/bcc64x/RuntimeLoaderProbe.cpp:90-103 | With disjoint raw-backed address ranges, a span that maps, maps byte by byte to consecutive file offsets, as long as the addresses stay inside 32 bits |
| SectionLookup.RvaIsInjective | admin/programs/bcc64x/RuntimeLoaderProbe.cpp:90-103 | With disjoint raw data, different addresses have different file offsets |
| SectionLookup.CountSuspicious | admin/programs/bcc64x/RuntimeLoaderProbe.cpp:185-213 | The diagnosis counts exactly the headers that fail the raw or the virtual range test, plus one if the table is cut short by the end of the file |
| SectionLookup.SuspiciousMeans | admin/programs/bcc64x/RuntimeLoaderProbe.cpp:201-205 | The two range tests mean plain sums: raw data beyond the file, or a virtual range beyond SizeOfImage |
| SectionLookup.CleanMeans | admin/programs/bcc64x/RuntimeLoaderProbe.cpp:185-213 | The count is zero exactly when every header is in the file, every section inside the image and its raw data inside the file |
| SectionLookup.CleanDiagnosis | admin/programs/bcc64x/RuntimeLoaderProbe.cpp:185-233 | If the count is zero, every non-empty span inside any section's raw data has an offset at which the file holds all of it |
| PeImage.LittleEndianValue | admin/programs/bcc64x/RuntimeLoaderProbe.cpp:61-65 | The fields read through the byte view are little-endian numbers |
| PeEncoding.OpensAsWritten | admin/programs/bcc64x/RuntimeLoaderProbe.cpp:68-89 | An image written field by field is opened with exactly the written fields, wherever its NT headers stand |
| PeEncoding.SectionReadsAsWritten | admin/programs/bcc64x/RuntimeLoaderProbe.cpp:91-93 | A section header written field by field is read with the written fields |
| PeEncoding.DescriptorReadsAsWritten | admin/programs/bcc64x/RuntimeLoaderProbe.cpp:114-118 | The Name field of a descriptor written field by field is read as written |
| ImportWalk.ReportImports | admin/programs/bcc64x/RuntimeLoaderProbe.cpp:68-127 | The loop over the import directory prints `Printed`: descriptors within the announced size and 1024, 32-bit address sums, stopping at a zero or unreadable descriptor, skipping unreadable names |
| ImportWalk.PrintedIsComplete | admin/programs/bcc64x/RuntimeLoaderProbe.cpp:104-126 | For an AMD64 image with an import directory the printed names are, by a rising map of indices, exactly the names of all descriptors before the first that is beyond the announced size or 1024, unreadable or zero; for any other file nothing is printed |
| ImportWalk.FindNulIsFirst | admin/programs/bcc64x/RuntimeLoaderProbe.cpp:122-124 | The terminator found is the first zero byte at or after the name, and none is found only if there is none |
| ImportWalk.ExtractedNamesAreStored | admin/programs/bcc64x/RuntimeLoaderProbe.cpp:389-407 | Every name either walk extracts lies in the file, ends at a zero byte inside the file and contains none |
| ImportWalk.EntriesAreBounded | admin/programs/bcc64x/RuntimeLoaderProbe.cpp:389-449 | The traversal takes at most 1024 entries from a table |
| ImportWalk.EntriesAreComplete | admin/programs/bcc64x/RuntimeLoaderProbe.cpp:386-408 | The table of the traversal has one entry for every descriptor before the first that ends it, a name or an unreadable one as the bytes say, and one more only if that first one is unreadable |
| ImportWalk.StepsAgree | admin/programs/bcc64x/RuntimeLoaderProbe.cpp:111-126 | Where the report goes on past a descriptor the traversal goes on too and reads the same name, although their searches differ |
| ImportWalk.WalksAgree | admin/programs/bcc64x/RuntimeLoaderProbe.cpp:111-126 | The names the report prints are, in order, a subsequence of the names the traversal extracts before its file-name filter, if readable sections start at or above SizeOfHeaders and the announced table does not wrap 32 bits |
| DependencyTree.Traversal.Visit | admin/programs/bcc64x/RuntimeLoaderProbe.cpp:337-450 | The recursive method that updates the visited set, the counters and the printed lines ends in the state `ImportGraph.Visit` gives, for every path, depth and starting state |
| DependencyTree.Traversal.WalkImports | admin/programs/bcc64x/RuntimeLoaderProbe.cpp:389-449 | The import loop with its breaks, continues and recursive visits ends in the state the walk over the parsed entries gives |
| DependencyTree.ReportDependencyTree | admin/programs/bcc64x/RuntimeLoaderProbe.cpp:333-455 | The summary counters and the visited set are those of `ImportGraph.Run` on the graph of the image files |
| DependencyTree.ReportIsTrue | admin/programs/bcc64x/RuntimeLoaderProbe.cpp:389-448 | In every run, every line that is no entry line tells of an entry in the table of a reported module: an UNRESOLVED line spells the bytes of a plain name that is neither beside the application nor loaded nor in the system directory, an EDGE line those of one with the first of these places that has it, and the others stand for unreadable tables and names |
| DependencyTree.ReportIsComplete | admin/programs/bcc64x/RuntimeLoaderProbe.cpp:389-448 | In every run, behind the NODE line of a module stands, in table order, one such line for each entry of its import table |
| DependencyTree.WideKeepsSeparators | admin/programs/bcc64x/RuntimeLoaderProbe.cpp:407-412 | After widening signed bytes the file-name filter refuses exactly the empty names and those with a backslash, slash or colon byte |
| DependencyTree.WideSpells | admin/programs/bcc64x/RuntimeLoaderProbe.cpp:407-408 | The widened name has, in order, each byte read as a signed number and extended to 16 bits, and no other text does |
| ImportGraph.SameModule | admin/programs/bcc64x/RuntimeLoaderProbe.cpp:341-342 | Two paths name the same module exactly when their characters are equal up to case, one by one |
| DependencyTree.TreeWorkBound | admin/programs/bcc64x/RuntimeLoaderProbe.cpp:337-449 | On every set of image files, cyclic or not, at most 512 modules are expanded and the traversal is entered at most 1 + 512 * 1024 times |
| DependencyTree.TreeIsExact | admin/programs/bcc64x/RuntimeLoaderProbe.cpp:333-455 | On file systems that ignore case, the visited set is exactly the reachable set if and only if every path a limit refused was visited by another way |
| DependencyTree.ShallowTreeIsExact | admin/programs/bcc64x/RuntimeLoaderProbe.cpp:337-348 | On file systems that ignore case: with at most 512 reachable modules and no import path through more than 33 different ones, the visited set is exactly the reachable set |
| DependencyTree.SmallTreeIsExact | admin/programs/bcc64x/RuntimeLoaderProbe.cpp:337-348 | On file systems that ignore case: with at most 33 reachable modules the visited set is exactly the reachable set |
| Reachability.ExactClosure | admin/programs/bcc64x/RuntimeLoaderProbe.cpp:333-455 | For every import graph in which paths of equal case-folded name have equal content: visited equals reachable if and only if the cut-off paths were all visited |
| Reachability.ExactWithoutLimit | admin/programs/bcc64x/RuntimeLoaderProbe.cpp:337-348 | For every such graph: without a LIMIT line the visited set is exactly the reachable set |
| Reachability.ExactWithinLimits | admin/programs/bcc64x/RuntimeLoaderProbe.cpp:337-348 | For every such graph: with at most 512 reachable modules and no import path through more than 33 different ones the traversal is exact, whatever LIMIT lines it prints |
| Reachability.DepthLimitMisses | admin/programs/bcc64x/RuntimeLoaderProbe.cpp:337-340 | In a chain of 34 modules the last one is reachable and never visited |
| Reachability.NodeLimitMisses | admin/programs/bcc64x/RuntimeLoaderProbe.cpp:337-340 | Of a module with 512 imports the last one is reachable and never visited |
| Reachability.VisitedIsReachable | admin/programs/bcc64x/RuntimeLoaderProbe.cpp:337-348 | With or without limits every visited module is reachable along at most 32 imports |
| Reachability.NoFalseCutOff | admin/programs/bcc64x/RuntimeLoaderProbe.cpp:337-348 | With at most 32 reachable modules no LIMIT line is ever printed |
| Reachability.BoundIsTight | admin/programs/bcc64x/RuntimeLoaderProbe.cpp:337-340 | A ring of 33 modules makes the depth limit fire, so 32 is the best bound for that, although the ring is traversed exactly |
| Reachability.VisitCloses | admin/programs/bcc64x/RuntimeLoaderProbe.cpp:341-449 | Where paths of equal case-folded name have equal content: whatever is added to the visited set during one visit has all its imports visited or cut off when the visit returns |
| TraversalReport.ReportConservation | admin/programs/bcc64x/RuntimeLoaderProbe.cpp:338-454 | In every run: EDGE lines + 1 = NODE + REVISIT + LIMIT + header-INVALID lines; the summary's nodes, unresolved and invalid are the lines and silent refusals that stand for them |
| TraversalReport.WorkBound | admin/programs/bcc64x/RuntimeLoaderProbe.cpp:337-449 | Bounded import tables bound nodes and visits on every graph |
| TraversalReport.EachPathExpandedOnce | admin/programs/bcc64x/RuntimeLoaderProbe.cpp:342-348 | Each case-folded path is expanded exactly once if it is visited and never otherwise |
| TraversalReport.EdgesAreAnswered | admin/programs/bcc64x/RuntimeLoaderProbe.cpp:446-448 | Each EDGE line is followed at once by the NODE, REVISIT, LIMIT or header-INVALID line of the same path and depth, and such lines stand nowhere else but at the start |
| TraversalReport.LinesAreImports | admin/programs/bcc64x/RuntimeLoaderProbe.cpp:389-448 | In every run, the steps of the import table behind a NODE line have their lines behind it, one each and in table order, and every line that is no entry stands for such a step |
| TraversalReport.EntriesAreTrue | admin/programs/bcc64x/RuntimeLoaderProbe.cpp:338-369 | In every run, a LIMIT line stands exactly for a visit below depth 32 or after 512 modules and shows their number, a REVISIT line for a module opened before, and a NODE or header-INVALID line for one that was not, as its headers call for |
| DllList.ParseList | admin/programs/bcc64x/RuntimeLoaderProbe.cpp:588-604 | The splitting loop accepts exactly the lists of at most 64 pieces none of which is blank, and returns the trimmed pieces in order |
| DllList.ParseMeans | admin/programs/bcc64x/RuntimeLoaderProbe.cpp:591-604 | Exactly the lists of at most 64 pieces with a character that is no blank in each are accepted, and each name is its piece without the blanks at its ends |
| DllList.SettingMeans | admin/programs/bcc64x/RuntimeLoaderProbe.cpp:564-575 | The value is that of the list variable, or of the older one if that is missing or empty, and has 1 to 4095 characters |
| DllList.RoundTrip | admin/programs/bcc64x/RuntimeLoaderProbe.cpp:564-604 | Listing 1 to 64 plain names with any blank padding, within the buffer, and reading the setting back gives the same names in order |
| DllList.SplitJoin | admin/programs/bcc64x/RuntimeLoaderProbe.cpp:591-604 | Splitting undoes joining for pieces without the separator |
| DllList.JoinSplit | admin/programs/bcc64x/RuntimeLoaderProbe.cpp:591-604 | Joining undoes splitting for every text |
| LinkRefinement.TokenRefinement | admin/programs/bcc64x/gn_argument_adapter.py:112-156 | On every text: after the color pass, the quoted check and the quoted-path passes, the remaining whole-text substitutions equal one function on each token with all white space kept; the result is an error exactly in the two named cases |
| LinkLaws.QuoteFreeRefinement | admin/programs/bcc64x/gn_argument_adapter.py:112-156 | On every text without quotes the whole chain is one function on each token, and it raises exactly when some token begins `-l<letter>:` without a slash and at least one more character |
| LinkSpelling.SolidTranslation | admin/programs/bcc64x/gn_argument_adapter.py:112-156 | A token without quotes is refused exactly if it is spelled `-l<letter>:` without a slash and more, and otherwise becomes what the token function gives |
| LinkSpelling.SystemLibraryName | admin/programs/bcc64x/gn_argument_adapter.py:147-154 | `-l` or `-L`, a name and `.lib` in any case become `-l` and the name exactly if all its characters are letters, digits, `_`, `+`, `.`, `-` or one of the four that ignoring case adds; any other name stays as it is |
| LinkSpelling.DrivePath | admin/programs/bcc64x/gn_argument_adapter.py:143-145 | `-l<letter>:`, a slash of either kind and more become the path with forward slashes |
| LinkSpelling.DriveWithoutPath | admin/programs/bcc64x/gn_argument_adapter.py:146-147 | `-l<letter>:` without a slash and more is refused |
| LinkSpelling.SlashesMean | admin/programs/bcc64x/gn_argument_adapter.py:134-135 | Every backslash becomes a slash and every other character stays |
| LinkSpelling.Switch | admin/programs/bcc64x/gn_argument_adapter.py:155-156 | A token of a slash and a letter is forwarded whole; any other character behind the slash leaves it as it is |
| LinkSpelling.ColorOption | admin/programs/bcc64x/gn_argument_adapter.py:122-126 | The color option gets its Clang spelling |
| LinkSpelling.OtherToken | admin/programs/bcc64x/gn_argument_adapter.py:112-156 | Every token without quotes that has none of these forms stays as it is |
| LinkSpelling.Separator | admin/programs/bcc64x/gn_argument_adapter.py:155-156 | Exactly the white space characters make what follows them the start of a token |
| LinkSpelling.TextsAreIndependent | admin/programs/bcc64x/gn_argument_adapter.py:112-156 | Quote-free texts on both sides of white space are translated each by itself, with the white space kept, and fail together if one fails |
| LinkSpelling.QuotedSwitchIsRefused | admin/programs/bcc64x/gn_argument_adapter.py:127-128 | Any text is refused for a quoted switch exactly if at the start of a token it has a quote, a slash and a letter, and a second quote further on |
| LinkLaws.Idempotence | admin/programs/bcc64x/gn_argument_adapter.py:112-156 | A second translation of a quote-free result changes nothing if and only if no library name in the text ends in a doubled `.lib` |
| LinkForwarding.PostCheckNeverFires | admin/programs/bcc64x/gn_argument_adapter.py:166-170 | The check for raw switches after the translation can never raise, on any text, quoted or not |
| LinkForwarding.ForwardingIsReversible | admin/programs/bcc64x/gn_argument_adapter.py:155-156 | Putting the slashes back into the last pass's output gives its input exactly, if and only if the input did not already hold the inserted text |
| LinkForwarding.UnforwardSub | admin/programs/bcc64x/gn_argument_adapter.py:155-156 | For every text, undoing the last pass gives what undoing gives on the text before it |
| LinkTokens.SubIsTokenwise | admin/programs/bcc64x/gn_argument_adapter.py:125-156 | Each pass that needs no quote acts on every token by itself |
| LinkTokens.SystemMatchIsPattern | admin/programs/bcc64x/gn_argument_adapter.py:152-154 | The scanner for `-lNAME.lib` matches exactly where the regular expression has a match, and that match is unique |
| LinkTokens.QuotedMatchIsPattern | admin/programs/bcc64x/gn_argument_adapter.py:137-142 | The scanner for quoted drive paths matches exactly up to the closing quote the regular expression ends at |
| LinkQuoted.QuotedRefinement | admin/programs/bcc64x/gn_argument_adapter.py:129-142 | For every response of quote-free text and any number of quoted drive paths of either form, the whole translation is one function on each token of the text in which these paths have lost their switch and have forward slashes, and it raises exactly when a token of that text is refused |
| LinkQuoted.QuotedPathIsKept | admin/programs/bcc64x/gn_argument_adapter.py:129-142 | Between any quote-free texts, a quoted drive path of either form is kept, with forward slashes and its quotes, if and only if no token around it is refused and no piece of it between white space is one the translation refuses or changes, the color option included |
| LinkQuoted.BlankThenSlashIsNotKept | admin/programs/bcc64x/gn_argument_adapter.py:129-142 | A concrete path that is not kept in either form: the piece after a blank is forwarded as a linker switch |
| LinkQuoted.ColorInQuotesIsNotKept | admin/programs/bcc64x/gn_argument_adapter.py:124-142 | Another one: the color option inside the quotes is rewritten |
| ArgumentAdapter.CollectArguments | admin/programs/bcc64x/gn_argument_adapter.py:186-207 | The loop over the iterator, with the two-token unit, collects the emitted arguments in order and each error once |
| ArgumentAdapter.Run | admin/programs/bcc64x/gn_argument_adapter.py:180-227 | The program behaves as `Behaviour` says: link mode, usage, the reported errors, or the compiler call with the completed arguments |
| ArgumentTables.CompiledExactly | admin/programs/bcc64x/gn_argument_adapter.py:186-227 | The compiler is called exactly when no argument outside a backend pair is refused and no backend switch lacks its value, with what was emitted and the completing flags |
| ArgumentTables.RefusedIsReported | admin/programs/bcc64x/gn_argument_adapter.py:203-226 | Wherever a refused argument stands outside a backend pair, the program rejects the call and reports its message |
| ArgumentTables.MissingValueIsReported | admin/programs/bcc64x/gn_argument_adapter.py:193-197 | A backend switch at the end without its value is rejected and reported |
| ArgumentTables.RefusedExactly | admin/programs/bcc64x/gn_argument_adapter.py:26-108 | An argument is refused if and only if it is `/wdNNNN` with a number outside the four known ones, or starts with one slash and is neither a listed switch nor one with a `/D`, `/std:` or `/clang:` payload; with the message of each kind |
| ArgumentTables.ListedSwitches | admin/programs/bcc64x/gn_argument_adapter.py:38-99 | What each listed switch becomes, one by one |
| ArgumentTables.KnownWarnings | admin/programs/bcc64x/gn_argument_adapter.py:15-35 | What the four known warning switches become, whatever the case of their letters |
| ArgumentTables.TranslationBetween | admin/programs/bcc64x/gn_argument_adapter.py:191-207 | Wherever an accepted argument stands, its translation stands in its place and nothing else changes |
| ArgumentLaws.LoopIsCompositional | admin/programs/bcc64x/gn_argument_adapter.py:191-207 | What `xs + ys` emits is what `xs` emits followed by what `ys` emits if and only if `xs` does not end inside a backend pair or `ys` consists of an even number of `-mllvm`, and then its errors are those of `xs` with the new ones of `ys` |
| ArgumentLaws.UnitsCompose | admin/programs/bcc64x/gn_argument_adapter.py:191-207 | The units of `xs + ys` are those of `xs` and then those of `ys` if and only if no pair reaches across the border |
| ArgumentLaws.CompositionWithoutUnits | admin/programs/bcc64x/gn_argument_adapter.py:191-207 | For `-mllvm` before `-mllvm -mllvm` the loop composes although the units do not |
| ArgumentLaws.UnitsMerge | admin/programs/bcc64x/gn_argument_adapter.py:192-202 | If `xs` ends inside a pair, the first argument of `ys` becomes the missing value |
| ArgumentLaws.ErrorsOnceInOrder | admin/programs/bcc64x/gn_argument_adapter.py:203-207 | The reported errors are all that arose, each once, in the order of first occurrence |
| ArgumentLaws.OnlyListedAreDropped | admin/programs/bcc64x/gn_argument_adapter.py:22-108 | An argument vanishes without output or error if and only if it is one of the listed ones |
| ArgumentLaws.OnlyOnePairIsDropped | admin/programs/bcc64x/gn_argument_adapter.py:193-202 | Wherever a backend pair stands, only the one exact pair vanishes and every other is forwarded as it is, without an error and without an effect on what stands around it |
| ArgumentLaws.SlashComesFrom | admin/programs/bcc64x/gn_argument_adapter.py:22-108 | A collected argument with a leading slash is a double-slash input, a `/clang:` payload or a backend value |
| ArgumentLaws.PayloadsAreKept | admin/programs/bcc64x/gn_argument_adapter.py:100-108 | Payloads of `/D`, `/std:` and `/clang:` and all arguments that are no switches are carried over unchanged |
| ArgumentLaws.CompletionAppends | admin/programs/bcc64x/gn_argument_adapter.py:208-221 | What is appended after the loop depends on the collected arguments alone: no added flag triggers or prevents another, and `-mfma` is never repeated |
| ArgumentLaws.AddedFlags | admin/programs/bcc64x/gn_argument_adapter.py:208-221 | Behind the collected arguments stand exactly the flags whose triggers are among them, each once, `-mfma` only if it is missing, and none starts with a slash |
| Patchers.PatchLldDetection | admin/programs/opengl/meson_bootstrap.py:69-111 | The two-context patcher writes `LldPatched` of the file, writes nothing if both parts are patched, and leaves the file untouched on a mismatch of either context |
| Patchers.PatchAllowUndefined | admin/programs/opengl/meson_bootstrap.py:114-161 | The patcher with migration writes `UndefinedPatched` of the file and leaves it untouched on a mismatch |
| Patchers.PatchSingle | admin/programs/opengl/meson_bootstrap.py:182-191 | A single-context patcher tests for the patched text, counts the context and replaces it once |
| Patchers.PatchVsenvDetection | admin/programs/opengl/meson_bootstrap.py:164-191 | The Visual Studio patcher writes the patched text once, writes nothing if it is there already, and leaves the file untouched on a mismatch |
| Patchers.PatchGlcppNewlines | admin/programs/opengl/meson_bootstrap.py:231-240 | The GLCPP patcher does the same with its texts |
| PatchLaws.LldConverges | admin/programs/opengl/meson_bootstrap.py:90-111 | The pristine text, both half-patched texts and the patched text all end as the same text |
| PatchLaws.LldIsIdempotent | admin/programs/opengl/meson_bootstrap.py:90-111 | For every accepted text a second run changes nothing |
| PatchLaws.UndefinedConverges | admin/programs/opengl/meson_bootstrap.py:144-161 | The pristine text, the first attempt, the patched text and the patched text on top of the first attempt all end as the same text |
| PatchLaws.UndefinedIsIdempotent | admin/programs/opengl/meson_bootstrap.py:146-161 | A second run changes nothing if and only if the text first given held the earlier attempt at most once |
| PatchLaws.TwoAttemptsNeedTwoRuns | admin/programs/opengl/meson_bootstrap.py:146-153 | A text with the earlier attempt twice is accepted and changed again by the second run |
| PatchLaws.PatchOnceIsIdempotent | admin/programs/opengl/meson_bootstrap.py:182-191 | For every text, context and patched text a second run of a single-context patcher changes nothing |
| PatchLaws.StepMeans | admin/programs/opengl/meson_bootstrap.py:96-111 | A context that cannot overlap itself is replaced exactly if it stands at one place only, and then there and nowhere else |
| PatchLaws.MismatchMeans | admin/programs/opengl/meson_bootstrap.py:153-191 | The allow-undefined, Visual Studio and GLCPP patchers fail exactly if the patched text is missing and the context stands at no place or at several |
| PatchLaws.LldMismatchMeans | admin/programs/opengl/meson_bootstrap.py:90-111 | The two-context patcher succeeds exactly if each context not yet patched stands at one place in the text as read |
| PatchLaws.VsenvKeepsItsContext | admin/programs/opengl/meson_bootstrap.py:173-191 | The second run of the Visual Studio patcher is harmless although the patched text still contains the context |
| PatchTexts.PreviousMethodApartOriginalMethod | admin/programs/opengl/meson_bootstrap.py:131-142 | The first attempt's method and the upstream method cannot overlap in any text |
| Text.CountIsUnique | admin/programs/opengl/meson_bootstrap.py:97-103 | Counting one occurrence means there is exactly one, for contexts that cannot overlap themselves |
| SitePath.SearchPath.Prepend | admin/programs/python/sitecustomize.py:10-12 | An entry is put in front unless it is empty or already on the path |
| SitePath.SearchPath.ApplyPythonPath | admin/programs/python/sitecustomize.py:15-22 | The reversed loop of in-place insertions leaves the old path at the end and puts the missing non-empty entries of the given list in front, each once, in the order of their last occurrences in that list |
| SitePath.PathIsBuiltFromValue | admin/programs/python/sitecustomize.py:15-22 | The closed form has these properties for every list and every old path |
| SitePath.RebuiltPath | admin/programs/python/sitecustomize.py:15-22 | The old path stays unchanged at the end, the new path holds exactly the old and the non-empty new entries, and no duplicate is added |
| SitePath.FreshOrder | admin/programs/python/sitecustomize.py:20-22 | The entries put in front keep the order of their last occurrences |
| SitePath.RebuildIsIdempotent | admin/programs/python/sitecustomize.py:10-22 | A second run changes nothing |

`admin/programs/meson/bcc64x_bootstrap.py` holds the first three patchers again, unchanged; they are
modelled once.

## Left out

- Win32 calls: opening and mapping files, module handles, attributes and loading are the functions of `DependencyTree.World`, fixed during one traversal and otherwise arbitrary; a resolved path depends on the spelling of the import, and case only matters through `World.lower`.
- Console output: each line kind is an event of a trace, with the fields the proofs speak about; entries the program only counts have an event of their own, and a LIMIT event also names the path it refuses.
- Load-configuration, TLS, relocation and exception directory printing, and the loading of a DLL itself: foreign calls or single branches behind the modelled searches.
- PE header layout beyond the fields the modelled code reads.
- Names with unpaired UTF-16 surrogates: paths and names are sequences of Unicode characters.
- Regular expressions in general: each pattern of the adapter is modelled by its own scanner, and the two with real backtracking are proved to be the patterns; letters are matched as the patterns' ASCII classes, with the four extra letters that ignoring case adds.
- Reading and writing files: texts are as Python reads them, with line ends already normalized, and encoding errors are not part of the model.
- `is_bcc64x`, the existence checks of files and the command-line shape of the GLCPP patcher: one flag stands for them.
- The splitting of `PYTHONPATH` at the path separator and the script directory entry: the rebuild starts from the list of entries.
- Launching processes, environment and PATH setup, the tool registry and `runpy`: no algorithm of their own.
- The library state machine, the scheduler and the publishing rules: described in Markdown only, their implementation is not part of this repository.
- Smoke programs, schemas, CMake and SQL contracts: fixed inputs or declarative data.
