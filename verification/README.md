# Verified models of the Breakpad parts

The repository vendors Google Breakpad: the code that dumps symbols, reads them back and walks stacks. This
project models the parts of it whose correctness rests on more than one function, and proves what they are for.
Each part is a group of modules; state that the code updates in place is a class here, and each loop of the code
is a loop with invariants, proved against a definition that does not mention the loop.

- **Hierarchical ranges** (`RangeForest`, `RangeHistory`, `ContainedRangeMap`). The mutable tree is a class whose
  abstract value is a forest. Over whole runs of calls: what is accepted, what every retrieval answers (the accepted
  ranges that contain the address, innermost first, equal ones latest first), and that the order of insertion does
  not matter.
- **Inline calls** (`InlineNesting`, `InlineFrames`). Records in depth-first preorder of any well-nested tree are all
  accepted, and the answer at an address is the chain of calls that cover it, even where a call and its parent have
  equal ranges; the frames built from the chain carry the right call sites, from the records to the frames.
- **Lines to functions** (`LineCoverage`, `LineReports`, `LineSweep`, `AssignLines`, `DwarfLines`). The two-iterator
  sweep over wrapping 64-bit addresses: the asserts hold, each round makes progress, the number of rounds is bounded,
  overlapping input or not; and for input without overlaps every byte is given to exactly the functions it should be,
  with exactly the warnings due.
- **UTF-8, UTF-16 and UTF-32** (`Utf`, `ConversionRuns`, `ConvertUtf`, `UtfRoundTrip`, `UtfInterrupted`,
  `UtfPieces`, `UtfTables`). Six converters from any source cursor into any part of a target buffer, against the
  Unicode Standard, section 3.9 (Tables 3-5 to 3-7): which value each sequence of units stands for, round trips and
  exactly what is accepted. Calling one of the four from UTF-8 and UTF-16 again with another buffer, until the source
  is dealt with, comes to the same as one call; from UTF-32 output and consumption are the same, and exactly when the
  answer is not.
- **STABS** (`ByteCursors`, `StabsEntries`, `StabsTrace`, `StabsReader`, `StabsMeaning`, `StabsToModule`,
  `StabsSizes`, `LoadStabs`). The reader's nested loops make exactly the calls of a machine that looks at one entry at a
  time; these are the calls that can be read off the entries by looking back from each, addresses, names and files
  included; they keep the protocol the consumer asserts, whatever the bytes; and the finishing pass gives functions
  sizes that do not overlap.
- **Dictionaries** (`NonAllocatingMap`, `LongStrings`, `LongStringDictionary`). Sixty-four slots as a map, and long
  values in segments on top of it as a map of their own, with an exact account of slots.
- **STACK CFI rules** (`CfiText`, `CfiRules`, `CfiMeaning`, `CfiRoundTrip`, `CfiRecords`). The parser against a
  grammar and against conditions on characters and tokens, printing and parsing as inverses, and which rule is in force
  at an address.
- **MD5 buffering** (`Md5`) and **page allocation** (`PageAllocator`). The streaming update as a fold over bytes; the
  bump allocator's blocks over any run.

`Addresses`, `Wrappers` and `Sorting` are shared. Where the code does not do what its documentation or the standard
says, the model follows the code:

- `isLegalUTF8` puts no lower bound on the second byte after ED and F4, so it accepts more than Table 3-7
  (`Utf.LegalNotInTable`); such input decodes but does not encode back (`Utf.ReencodesIffInTable`).
- convert_UTF.h says that on sourceIllegal the source pointer is left at the illegal value. From UTF-32 that is so
  exactly when the first illegal value is not above 0x10FFFF (`UtfRoundTrip.CursorAtIllegal16`,
  `UtfRoundTrip.CursorAtIllegal8`, and for calls with any room `UtfRoundTrip.CursorOfCall16`,
  `UtfRoundTrip.CursorOfCall8`); from [0x110000] the pointer is left behind it
  (`UtfRoundTrip.CursorBehindIllegal`). The four other converters do stop in front of what they refuse
  (`ConversionRuns.RunStopsAtCharacter`).
- convert_UTF.h says that only the first problem met is indicated. From UTF-32, targetExhausted takes the place of
  sourceIllegal exactly when an illegal value has been passed by before a unit finds no room
  (`UtfInterrupted.FirstProblem16`, `UtfInterrupted.FirstProblem8`). A caller that goes on with another buffer then
  gets the output of one call, but its answer exactly if that is not conversionOK or no illegal value comes before
  the last call (`UtfInterrupted.RefillForgets`, `UtfPieces.Pieces32to16`, `UtfPieces.Pieces32to8`); with
  [0x110000, 0x41, 0x42] and buffers of one unit the value is never reported (`UtfInterrupted.IllegalForgotten`).
- convert_UTF.h says both that values above 0x10FFFF make any call fail and that lenient ones replace them. To UTF-16
  a lenient call replaces them and answers conversionOK (`UtfRoundTrip.LenientReplaces16`); to UTF-8, with
  either flag and given room, they are replaced and the answer is sourceIllegal (`UtfRoundTrip.GoesOn8`).
- stabs_to_module.cc says that the fallback size is given at most once a module. That is so exactly if no two functions
  are at the same address with no boundary above (`StabsSizes.FallsBackOnce`, `StabsSizes.FallsBackTwice`). A
  function with that size, if values have 8 bytes, may pass the end of the address space and come round to another
  (`StabsSizes.SharedIffWrapped`, `StabsSizes.ComesRound`).
- `StabsToModule::Finalize` hands functions to `Module::AddFunction`, which asserts that they have names. They all do
  exactly if the section starts no function without one at or above its unit's base (`LoadStabs.Load`,
  `StabsSizes.NamelessEntry`, `StabsSizes.NamelessCollected`).
- dwarf_cu_to_module.cc means to warn about a function once. For input without overlaps a function is reported again
  exactly if an uncovered byte of another one comes between two of its own
  (`AssignLines.DwarfCUToModule.AssignLinesToFunctions`, `AssignLines.TwoPartsInterrupted`).
- `PageAllocator::Alloc` does not check that rounding up wraps. A request of at most 2^64-16 bytes that
  wraps asks for no pages, which the kernel refuses, and gets NULL; one of the last fifteen, if pages are granted,
  gets a block that leaves its run (`PageAllocator.PageAllocator.Alloc`, `PageAllocator.WrappedPages`, and with numbers
  `PageAllocator.WrappedAt4096`).
- `ConstructInlineFrames` means to take the start of the inlined range that covers the address, but its comparison
  wraps for a range that ends at 2^64, and the start is lost. It is the start of a covering range exactly if one of
  those ends below 2^64 (`InlineFrames.StartCovers`, `InlineFrames.StartLostAtEnd`).

To verify everything: `dafny verify dfyconfig.toml`.

## Model

| member | source | states |
|---|---|---|
| `RangeHistory.ByAddresses` | app/src/main/cpp/breakpad/src/processor/contained_range_map-inl.h:74-117 | Containing, crossing and equal ranges in terms of the addresses they have |
| `RangeHistory.StoreDecides` | app/src/main/cpp/breakpad/src/processor/contained_range_map-inl.h:56-150 | After any run, a store succeeds iff the size is positive, the end does not wrap, the range crosses no accepted range and, unless equal ranges are allowed, none has its geometry; then exactly it is added, and otherwise nothing changes |
| `RangeHistory.RunConsistent` | app/src/main/cpp/breakpad/src/processor/contained_range_map-inl.h:56-150 | Over every run the tree keeps disjoint children in address order inside their parents, holds exactly the accepted ranges, and these never cross |
| `RangeHistory.RunAnswers` | app/src/main/cpp/breakpad/src/processor/contained_range_map-inl.h:154-196 | After every run a retrieval answers the containment chain of the accepted ranges at the address |
| `RangeHistory.RunRetrieves` | app/src/main/cpp/breakpad/src/processor/contained_range_map-inl.h:184-196 | Retrieval is the listing of all accepted ranges that contain the address, innermost first and, among equal ones, latest stored first |
| `RangeHistory.RanksUnique` | app/src/main/cpp/breakpad/src/processor/contained_range_map-inl.h:184-196 | There is only one such listing, so the answer is determined |
| `RangeHistory.LaminarAccepted` | app/src/main/cpp/breakpad/src/processor/contained_range_map-inl.h:56-150 | Ranges that do not cross (and do not repeat, unless that is allowed) are all accepted |
| `RangeHistory.OrderIndependent` | app/src/main/cpp/breakpad/src/processor/contained_range_map.h:31-47 | Any two insertion orders of the same non-crossing, distinct ranges succeed throughout and give maps that answer every retrieval alike |
| `RangeForest.StoreAccepts` | app/src/main/cpp/breakpad/src/processor/contained_range_map-inl.h:74-117 | The tests on the two lower bounds, level by level, refuse exactly the ranges that cross a stored one or repeat its geometry |
| `RangeForest.StoreWellFormed` | app/src/main/cpp/breakpad/src/processor/contained_range_map-inl.h:74-149 | Storing keeps siblings disjoint, in order and inside their parent, at every level |
| `RangeForest.StoreHolds` | app/src/main/cpp/breakpad/src/processor/contained_range_map-inl.h:126-149 | Storing, with whole runs of children moved under the new range, keeps all that was held and adds the new range |
| `RangeForest.StoreRetrieve` | app/src/main/cpp/breakpad/src/processor/contained_range_map-inl.h:154-196 | After a store the answer at an address is the old one with the new range put in where containment says, and unchanged outside it |
| `RangeForest.RetrieveInside` | app/src/main/cpp/breakpad/src/processor/contained_range_map-inl.h:170-180 | Everything a retrieval answers contains the address, each inside the next |
| `ContainedRangeMap.ContainedRangeMap.StoreRange` | app/src/main/cpp/breakpad/src/processor/contained_range_map-inl.h:56-150 | The in-place tree with its child maps and moved pointers does what the forest function does, accepting and refusing alike |
| `ContainedRangeMap.ContainedRangeMap.StoreProper` | app/src/main/cpp/breakpad/src/processor/contained_range_map-inl.h:74-149 | The decision between refusing, passing down and placing here, on the node |
| `ContainedRangeMap.ContainedRangeMap.StoreHere` | app/src/main/cpp/breakpad/src/processor/contained_range_map-inl.h:99-149 | Placing the range among this node's children, taking over those inside it |
| `ContainedRangeMap.ContainedRangeMap.StoreBelow` | app/src/main/cpp/breakpad/src/processor/contained_range_map-inl.h:78-97 | Passing the range to the child that contains it changes that child's subtree only |
| `ContainedRangeMap.ContainedRangeMap.Reparent` | app/src/main/cpp/breakpad/src/processor/contained_range_map-inl.h:126-149 | The contained run of children becomes the new node's, no node shared or lost |
| `ContainedRangeMap.ContainedRangeMap.LowerBound` | app/src/main/cpp/breakpad/src/processor/contained_range_map-inl.h:74-75 | The first child whose high address is at or above the address |
| `ContainedRangeMap.ContainedRangeMap.RetrieveRange` | app/src/main/cpp/breakpad/src/processor/contained_range_map-inl.h:154-181 | The first of what RetrieveRanges answers, or nothing |
| `ContainedRangeMap.ContainedRangeMap.RetrieveRanges` | app/src/main/cpp/breakpad/src/processor/contained_range_map-inl.h:184-196 | The forest's answer, appended innermost first to what the caller had |
| `ContainedRangeMap.ContainedRangeMap.Clear` | app/src/main/cpp/breakpad/src/processor/contained_range_map-inl.h:199-209 | Nothing is stored afterwards |
| `ContainedRangeMap.Replay` | app/src/main/cpp/breakpad/src/processor/contained_range_map-inl.h:56-209 | Any run of calls on a new map leaves it with the forest of the run |
| `InlineNesting.NestedInlinesAnswer` | app/src/main/cpp/breakpad/src/processor/basic_source_line_resolver.cc:625-636 | Any well-nested inline tree read in preorder is accepted whole, all its ranges are stored, and the answer at an address is the chain of calls covering it, deepest first, equal parent and child ranges included |
| `InlineNesting.NestedRecordsAccepted` | app/src/main/cpp/breakpad/src/processor/basic_source_line_resolver.cc:625-636 | Every record of a well-nested tree in preorder passes the nest level test |
| `InlineNesting.LevelsAccepted` | app/src/main/cpp/breakpad/src/common/module.h:189-196 | Preorder never deepens by more than one level at a step, from any level it may start at |
| `InlineNesting.CallSpansLaminar` | app/src/main/cpp/breakpad/src/common/module.h:189-196 | The ranges of a well-nested tree do not cross |
| `InlineNesting.CallsCovering` | app/src/main/cpp/breakpad/src/common/module.h:189-196 | The calls that cover an address are one path down the tree, each range inside the one before |
| `InlineNesting.NarrowingChain` | app/src/main/cpp/breakpad/src/processor/basic_source_line_resolver.cc:252-254 | Ranges stored outermost first that narrow towards an address are answered in reverse |
| `InlineNesting.Function.AppendInline` | app/src/main/cpp/breakpad/src/processor/basic_source_line_resolver.cc:625-636 | A record more than one level deeper than the last is refused and nothing changes; any other is accepted, all its ranges are stored and its level is the last |
| `InlineNesting.Function.AppendTrees` | app/src/main/cpp/breakpad/src/processor/basic_source_line_resolver.cc:625-636 | Appending the preorder of any trees, one record at a time, comes to the specified state |
| `InlineNesting.AcceptedIff` | app/src/main/cpp/breakpad/src/processor/basic_source_line_resolver.cc:625-630 | Records are all accepted iff none is more than one level deeper than the one before it, from any level |
| `InlineNesting.RangesByAddresses` | app/src/main/cpp/breakpad/src/common/module.h:189-196 | Disjoint and nested ranges in terms of the addresses they have |
| `InlineNesting.EqualRangesAnswer` | app/src/main/cpp/breakpad/src/processor/basic_source_line_resolver.cc:252-254 | Two calls of equal range, one in the other: the inner one comes first, and neither behind the end |
| `InlineFrames.ConstructInlineFrames` | app/src/main/cpp/breakpad/src/processor/basic_source_line_resolver.cc:246-302 | One frame per call in the chain, named after it; frame k+1 has the line of call k and, if that names a known file, the file, otherwise the physical frame's; the first frame of all has the physical frame's old position, and the physical frame that of the last call |
| `InlineFrames.MakeFrame` | app/src/main/cpp/breakpad/src/processor/basic_source_line_resolver.cc:256-289 | The frame has the name of the origin or <name omitted>, the call site's line, its file if it has one that is known and the physical frame's otherwise, and the loaded start of a range that covers the address if one of those ends below 2^64 |
| `InlineFrames.FunctionBase` | app/src/main/cpp/breakpad/src/processor/basic_source_line_resolver.cc:276-283 | The search loop comes to the start of the first range that passes the wrapping comparison, or to none |
| `InlineFrames.StartCovers` | app/src/main/cpp/breakpad/src/processor/basic_source_line_resolver.cc:276-283 | That is the start of a range covering the address iff some range that covers it ends below 2^64 |
| `InlineFrames.StartLostAtEnd` | app/src/main/cpp/breakpad/src/processor/basic_source_line_resolver.cc:276-283 | The last sixteen bytes of the address space: covered, but the start is lost |
| `InlineFrames.FramesOfNest` | app/src/main/cpp/breakpad/src/processor/basic_source_line_resolver.cc:246-302 | From the INLINE records of any well-nested tree: one frame for each call on the path to the address, deepest first, frame k+1 at the file and line of call k, the physical frame at those of the last, and none if no call covers it |
| `InlineFrames.ShiftPositions` | app/src/main/cpp/breakpad/src/processor/basic_source_line_resolver.cc:297-300 | The swapping loop gives each frame the position of the one before it in the list, and the first the one passed in |
| `InlineFrames.RotatePositions` | app/src/main/cpp/breakpad/src/processor/basic_source_line_resolver.cc:292-301 | The caller takes the last position and the first frame takes the caller's |
| `InlineFrames.AppendFrames` | app/src/main/cpp/breakpad/src/processor/basic_source_line_resolver.cc:256-301 | All frames already in the list take part in the rotation, and keep what else they say |
| `AssignLines.ApartByBytes` | app/src/main/cpp/breakpad/src/common/dwarf_cu_to_module.cc:1365-1372 | Extents apart have no byte in common, and no others are |
| `AssignLines.DwarfCUToModule.AssignLinesToFunctions` | app/src/main/cpp/breakpad/src/common/dwarf_cu_to_module.cc:1375-1575 | For lines and ranges that do not wrap, overlapping or not: at most 2*(lines+ranges) rounds, ascending disjoint pieces of real lines inside the function that gains them, no line reported more often than it occurs and no function twice running; without overlaps exactly the bytes covered by both below the last address, warnings for exactly the functions with an uncovered byte and the lines with a stray one, and a function reported again exactly if another one's uncovered byte comes between two of its own |
| `AssignLines.SweepUnit` | app/src/main/cpp/breakpad/src/common/dwarf_cu_to_module.cc:1411-1574 | The pass over sorted ranges and lines achieves this for the unsorted ones |
| `AssignLines.FillSortedFunctionRanges` | app/src/main/cpp/breakpad/src/common/dwarf_cu_to_module.cc:1340-1363 | All non-empty ranges with their functions, by address |
| `AssignLines.PiecesExact` | app/src/main/cpp/breakpad/src/common/dwarf_cu_to_module.cc:1483-1493 | Without overlaps a byte is in a function's piece of a line iff it is in the line and in a range of the function |
| `AssignLines.ReportsExact` | app/src/main/cpp/breakpad/src/common/dwarf_cu_to_module.cc:1494-1499 | A function is reported iff one of its bytes is in no line |
| `AssignLines.LineReportsExact` | app/src/main/cpp/breakpad/src/common/dwarf_cu_to_module.cc:1506-1525 | A line is reported iff one of its bytes is in no function and is not the padding after a function |
| `AssignLines.PiecesAscend` | app/src/main/cpp/breakpad/src/common/dwarf_cu_to_module.cc:1488-1492 | Each function's pieces ascend without overlap |
| `AssignLines.PiecesTruthful` | app/src/main/cpp/breakpad/src/common/dwarf_cu_to_module.cc:1488-1492 | Each piece lies in the line it names and in a range of the function |
| `LineSweep.NextTransition` | app/src/main/cpp/breakpad/src/common/dwarf_cu_to_module.cc:1477-1544 | The next address, modulo 2^64, where the state of bytes changes: an edge of the current range or line, with no other edge of theirs before it |
| `LineSweep.SkipRanges` | app/src/main/cpp/breakpad/src/common/dwarf_cu_to_module.cc:1560-1564 | The iterator comes to the earliest range that contains the address or starts after it: those skipped have all ended, also when ranges overlap |
| `LineSweep.SkipLines` | app/src/main/cpp/breakpad/src/common/dwarf_cu_to_module.cc:1565-1569 | The same for lines |
| `LineSweep.Give` | app/src/main/cpp/breakpad/src/common/dwarf_cu_to_module.cc:1483-1493 | A byte range covered by both becomes a piece of the line in the function, and only then |
| `LineSweep.WarnFunction` | app/src/main/cpp/breakpad/src/common/dwarf_cu_to_module.cc:1494-1499 | At a stretch with a range and no line, and nowhere else, the function is reported iff it is not the one reported last |
| `LineSweep.WarnLine` | app/src/main/cpp/breakpad/src/common/dwarf_cu_to_module.cc:1507-1525 | At a stretch with a line and no range that is not padding, and nowhere else, the line is reported iff it is not the one reported last |
| `LineSweep.InFirstOrAfter` | app/src/main/cpp/breakpad/src/common/dwarf_cu_to_module.cc:1445-1475 | At the top of every round each iterator is at the earliest range or line that contains the address or starts after it, overlapping input included |
| `LineSweep.NextNoRepeats` | app/src/main/cpp/breakpad/src/common/dwarf_cu_to_module.cc:1399-1402 | A round reports no function twice running and no line twice |
| `AssignLines.AgainIffInterrupted` | app/src/main/cpp/breakpad/src/common/dwarf_cu_to_module.cc:1399-1402 | A function is reported more than once iff an uncovered byte of another function comes between two of its own |
| `AssignLines.TwoPartsInterrupted` | app/src/main/cpp/breakpad/src/common/dwarf_cu_to_module.cc:1399-1402 | A function in two parts with another in between, no lines: the first is reported again |
| `LineReports.InTurnStep` | app/src/main/cpp/breakpad/src/common/dwarf_cu_to_module.cc:1494-1499 | Over every transition, each uncovered byte is one of the function reported last at or before it, and every report is made at an uncovered byte of its function |
| `LineReports.AgainAlternates` | app/src/main/cpp/breakpad/src/common/dwarf_cu_to_module.cc:1494-1499 | If a function is reported twice, an uncovered byte of another one comes between two of its own |
| `LineReports.AlternatesAgain` | app/src/main/cpp/breakpad/src/common/dwarf_cu_to_module.cc:1494-1499 | And the other way round |
| `AssignLines.CitedOnce` | app/src/main/cpp/breakpad/src/common/dwarf_cu_to_module.cc:1399-1402 | Each line is reported at most as often as it occurs |
| `LineSweep.Round` | app/src/main/cpp/breakpad/src/common/dwarf_cu_to_module.cc:1444-1574 | One round keeps the invariants and moves strictly forward, or ends the pass with all below the last address done |
| `LineSweep.Sweep` | app/src/main/cpp/breakpad/src/common/dwarf_cu_to_module.cc:1421-1574 | The whole pass, from the earlier of the first range and the first line, within the bound on rounds |
| `LineCoverage.SoundStep` | app/src/main/cpp/breakpad/src/common/dwarf_cu_to_module.cc:1483-1493 | One more piece keeps all pieces true and in order |
| `LineCoverage.CompleteStep` | app/src/main/cpp/breakpad/src/common/dwarf_cu_to_module.cc:1477-1544 | For ordered input, one more transition leaves no doubly covered byte behind |
| `LineCoverage.WithinCovers` | app/src/main/cpp/breakpad/src/common/dwarf_cu_to_module.cc:1365-1372 | The wrapping subtraction test is membership for extents that do not wrap |
| `DwarfLines.DwarfLineToModule.AddLine` | app/src/main/cpp/breakpad/src/common/dwarf_line_to_module.cc:109-144 | A record adds nothing iff it is empty, names no known file, or comes at the end of a chain in which the first starts at address zero and each other at the sum of the address and length before it; otherwise it adds its line, cut at 2^64 |
| `DwarfLines.DroppedIffChained` | app/src/main/cpp/breakpad/src/common/dwarf_line_to_module.cc:117-125 | The record is dropped iff it ends such a chain; a chain cannot go on past 2^64 |
| `DwarfLines.Clip` | app/src/main/cpp/breakpad/src/common/dwarf_line_to_module.cc:115-117 | The length is cut at the end of the address space |
| `DwarfLines.CollectedProper` | app/src/main/cpp/breakpad/src/common/dwarf_line_to_module.cc:109-144 | Every collected line is non-empty and does not wrap, as the assignment pass requires |
| `UtfRoundTrip.ConvertsText` | app/src/main/cpp/breakpad/src/common/convert_UTF.cc:87-574 | Each of the six converters, strict or lenient, takes its form of any sequence of scalar values to the other form of the same sequence, all consumed; the forms are those of Tables 3-5 and 3-6 (UtfTables.WrittenAsPair, UtfTables.WrittenAsRow) |
| `UtfRoundTrip.RoundTrip16` | app/src/main/cpp/breakpad/src/common/convert_UTF.cc:242-317 | Strict UTF-16 to UTF-8 succeeds, given room, on exactly the well-formed inputs, and UTF-8 to UTF-16 gives them back |
| `UtfRoundTrip.RoundTrip32` | app/src/main/cpp/breakpad/src/common/convert_UTF.cc:455-574 | Strict UTF-32 to UTF-8 and back is the identity on every sequence of scalar values |
| `UtfRoundTrip.RoundTrip8` | app/src/main/cpp/breakpad/src/common/convert_UTF.cc:455-574 | Bytes accepted on the way to UTF-32 are accepted on the way back, and come back as they were iff they were in Table 3-7 |
| `UtfRoundTrip.StrictAccepts16` | app/src/main/cpp/breakpad/src/common/convert_UTF.cc:253-281 | Strict, UTF-16 is accepted iff it is the form of some sequence of scalar values |
| `UtfRoundTrip.StrictAccepts32` | app/src/main/cpp/breakpad/src/common/convert_UTF.cc:465-474 | Strict, UTF-32 is accepted iff every unit is a scalar value |
| `UtfRoundTrip.LenientAccepts16` | app/src/main/cpp/breakpad/src/common/convert_UTF.cc:145-176 | Lenient, UTF-16 is accepted iff it does not end with the first half of a pair |
| `UtfRoundTrip.Accepts8` | app/src/main/cpp/breakpad/src/common/convert_UTF.cc:388-410 | With either flag and to either form, UTF-8 is accepted iff it divides into sequences that pass the legality test |
| `UtfRoundTrip.WellFormedUnlessOverlooked` | app/src/main/cpp/breakpad/src/common/convert_UTF.cc:333-361 | What is accepted is well formed iff none of these has a second byte below 80 after ED or F4 |
| `UtfRoundTrip.WellFormed8IsText` | app/src/main/cpp/breakpad/src/common/convert_UTF.cc:333-361 | Sequences of Table 3-7 are the forms of sequences of scalar values, and nothing else is |
| `UtfInterrupted.RunOutcome` | app/src/main/cpp/breakpad/src/common/convert_UTF.cc:87-513 | A call from UTF-32 stops at the first unit that finds no room, with all before it written, or is as good as one without a limit |
| `UtfInterrupted.FirstProblem16` | app/src/main/cpp/breakpad/src/common/convert_UTF.h:58-60 | To UTF-16: the problem indicated is the first one met iff no illegal unit has been passed by when the room runs out |
| `UtfInterrupted.FirstProblem8` | app/src/main/cpp/breakpad/src/common/convert_UTF.h:58-60 | The same to UTF-8 |
| `UtfInterrupted.Exhausted16` | app/src/main/cpp/breakpad/src/common/convert_UTF.cc:93-126 | When the target is exhausted, output and cursor of the rest complete those of one call; its answer is that of one call iff it is not conversionOK or no illegal unit has been passed by |
| `UtfInterrupted.Exhausted8` | app/src/main/cpp/breakpad/src/common/convert_UTF.cc:459-508 | The same to UTF-8 |
| `UtfInterrupted.RefillForgets` | app/src/main/cpp/breakpad/src/common/convert_UTF.cc:87-513 | Over any number of calls: the output and consumption of one, and its answer iff that is not conversionOK or the first illegal unit is not before the last call |
| `UtfInterrupted.RefillEnds` | app/src/main/cpp/breakpad/src/common/convert_UTF.cc:87-513 | One buffer more than there are units, each with room for any of them, will do |
| `UtfInterrupted.IllegalForgotten` | app/src/main/cpp/breakpad/src/common/convert_UTF.cc:111-116 | [0x110000, 0x41, 0x42] through buffers of one unit: targetExhausted, then conversionOK, though one call answers sourceIllegal |
| `UtfPieces.Pieces32to16` | app/src/main/cpp/breakpad/src/common/convert_UTF.cc:87-131 | Calling the converter again and again with another buffer: output and consumption of one call, and exactly when its answer |
| `UtfPieces.Pieces32to8` | app/src/main/cpp/breakpad/src/common/convert_UTF.cc:455-513 | The same to UTF-8 |
| `UtfPieces.Pieces16to8` | app/src/main/cpp/breakpad/src/common/convert_UTF.cc:242-317 | Calling the converter again and again from where it left the source, each time with another buffer: once the answer is not targetExhausted, and always with enough buffers of four bytes, output, consumption and answer are those of one call with room |
| `UtfPieces.Pieces16to32` | app/src/main/cpp/breakpad/src/common/convert_UTF.cc:135-187 | The same, with buffers of one unit |
| `UtfPieces.Pieces8to16` | app/src/main/cpp/breakpad/src/common/convert_UTF.cc:381-451 | The same, with buffers of two units |
| `UtfPieces.Pieces8to32` | app/src/main/cpp/breakpad/src/common/convert_UTF.cc:517-574 | The same, with buffers of one unit |
| `UtfRoundTrip.AnyBuffers16` | app/src/main/cpp/breakpad/src/common/convert_UTF.cc:135-317 | Writing UTF-16 on through fresh buffers of any sizes comes to the same output, consumption and status as one call with room; buffers of four units always finish |
| `UtfRoundTrip.AnyBuffers8` | app/src/main/cpp/breakpad/src/common/convert_UTF.cc:381-574 | The same for the two converters that read UTF-8 |
| `UtfRoundTrip.CursorAtIllegal16` | app/src/main/cpp/breakpad/src/common/convert_UTF.h:89-93 | Strict, from UTF-32 to UTF-16: the cursor is left at the first illegal unit iff that one is not above 0x10FFFF, or there is none |
| `UtfRoundTrip.CursorAtIllegal8` | app/src/main/cpp/breakpad/src/common/convert_UTF.h:89-93 | The same to UTF-8, with either flag |
| `UtfRoundTrip.CursorOfCall16` | app/src/main/cpp/breakpad/src/common/convert_UTF.h:89-93 | The same of every call that answers sourceIllegal, whatever its room |
| `UtfRoundTrip.CursorOfCall8` | app/src/main/cpp/breakpad/src/common/convert_UTF.h:89-93 | The same to UTF-8 |
| `UtfRoundTrip.CursorBehindIllegal` | app/src/main/cpp/breakpad/src/common/convert_UTF.cc:111-116 | From [0x110000] the answer is sourceIllegal with the cursor at 1 |
| `UtfRoundTrip.StrictGoesOn16` | app/src/main/cpp/breakpad/src/common/convert_UTF.cc:93-126 | For any source a strict run to UTF-16 goes on to the first surrogate, drops the values above 0x10FFFF and answers sourceIllegal iff some unit is no scalar value |
| `UtfRoundTrip.GoesOn8` | app/src/main/cpp/breakpad/src/common/convert_UTF.cc:459-508 | To UTF-8, with either flag, it replaces them instead |
| `UtfRoundTrip.LenientReplaces16` | app/src/main/cpp/breakpad/src/common/convert_UTF.h:84-86 | Lenient, to UTF-16, whatever is no scalar value becomes the replacement character and the answer is conversionOK |
| `ConversionRuns.RunStopsAtCharacter` | app/src/main/cpp/breakpad/src/common/convert_UTF.cc:135-187 | A run of any size leaves both cursors at the same character boundary, in front of the character that stopped it, with what is left to do from there |
| `ConversionRuns.RunFits` | app/src/main/cpp/breakpad/src/common/convert_UTF.cc:87-574 | With room for all of it, the limit on the target makes no difference |
| `ConversionRuns.RefillIsFull` | app/src/main/cpp/breakpad/src/common/convert_UTF.cc:135-187 | Going on from the cursor with each fresh buffer loses and repeats nothing |
| `ConversionRuns.RefillFinishes` | app/src/main/cpp/breakpad/src/common/convert_UTF.cc:135-187 | Buffers that hold one character finish within one call per source unit |
| `ConvertUtf.ConvertUTF32toUTF16` | app/src/main/cpp/breakpad/src/common/convert_UTF.cc:87-131 | From any source cursor, the loop is the specified run from there, and writes between the start and the final target pointer only |
| `ConvertUtf.ConvertUTF16toUTF32` | app/src/main/cpp/breakpad/src/common/convert_UTF.cc:135-187 | The same, backing up in front of unpaired surrogates and full targets |
| `ConvertUtf.ConvertUTF16toUTF8` | app/src/main/cpp/breakpad/src/common/convert_UTF.cc:242-317 | The same; the replacement branch is never taken |
| `ConvertUtf.ConvertUTF8toUTF16` | app/src/main/cpp/breakpad/src/common/convert_UTF.cc:381-451 | The same, whatever the flag: the surrogate and out-of-range branches are never taken |
| `ConvertUtf.ConvertUTF32toUTF8` | app/src/main/cpp/breakpad/src/common/convert_UTF.cc:455-513 | The same, replacing values above 0x10FFFF and remembering that it did |
| `ConvertUtf.ConvertUTF8toUTF32` | app/src/main/cpp/breakpad/src/common/convert_UTF.cc:517-574 | The same, whatever the flag |
| `ConvertUtf.WriteUTF16` | app/src/main/cpp/breakpad/src/common/convert_UTF.cc:99-126 | One UTF-32 unit: stopped, replaced, skipped, or written as one unit or a pair |
| `ConvertUtf.ReadUTF16` | app/src/main/cpp/breakpad/src/common/convert_UTF.cc:253-281 | The next character, a pair as the value that stands for it, or why there is none |
| `ConvertUtf.ReadUTF8` | app/src/main/cpp/breakpad/src/common/convert_UTF.cc:388-410 | The next character's value after the length and legality tests, never a surrogate and never above 0x10FFFF |
| `ConvertUtf.StoreBytes` | app/src/main/cpp/breakpad/src/common/convert_UTF.cc:296-311 | Bytes stored from the last to the first make up the character's form |
| `ConvertUtf.Next8IsScalar` | app/src/main/cpp/breakpad/src/common/convert_UTF.cc:388-437 | Whatever passes the legality test decodes to a scalar value |
| `ConvertUtf.Next16InRange` | app/src/main/cpp/breakpad/src/common/convert_UTF.cc:143-176 | UTF-16 gives no value above 0x10FFFF |
| `ConvertUtf.Advances16to8` | app/src/main/cpp/breakpad/src/common/convert_UTF.cc:242-317 | Each character takes some of the source and at most four bytes, and none is held against the run |
| `Utf.IsLegalUTF8` | app/src/main/cpp/breakpad/src/common/convert_UTF.cc:333-361 | The test stepping back through the bytes accepts exactly Table 3-7 and the sequences with a second byte below 80 after ED or F4 |
| `Utf.LegalNotInTable` | app/src/main/cpp/breakpad/src/common/convert_UTF.cc:351 | ED 20 80 is accepted and not well formed; its value is written as EB A0 80 |
| `Utf.LegalDecodes` | app/src/main/cpp/breakpad/src/common/convert_UTF.cc:388-410 | Every accepted sequence decodes to a scalar value of the same length |
| `Utf.EncodeDecodes` | app/src/main/cpp/breakpad/src/common/convert_UTF.cc:282-312 | Every scalar value's bytes are in Table 3-7 and decode to it |
| `Utf.TableEncodes` | app/src/main/cpp/breakpad/src/common/convert_UTF.cc:296-311 | Every sequence of Table 3-7 is the form of the value it decodes to |
| `Utf.ReencodesIffInTable` | app/src/main/cpp/breakpad/src/common/convert_UTF.cc:333-361 | An accepted sequence is the form of its value iff it is in Table 3-7 |
| `Utf.CombineSplits` | app/src/main/cpp/breakpad/src/common/convert_UTF.cc:145-152 | Any surrogate pair combines to a value that splits into the pair |
| `Utf.HalvesCombine` | app/src/main/cpp/breakpad/src/common/convert_UTF.cc:118-126 | Any value above 0xFFFF splits into halves that combine to it |
| `Utf.LegalAfterEDAndF4` | app/src/main/cpp/breakpad/src/common/convert_UTF.cc:344-357 | After ED and F4 the test bounds the second byte above only; after E0 and F0 as the table does |
| `UtfTables.CombineIsPairValue` | app/src/main/cpp/breakpad/src/common/convert_UTF.cc:143-152 | A pair is read as 0x10000 + (high - 0xD800) * 0x400 + (low - 0xDC00) |
| `UtfTables.WrittenAsPair` | app/src/main/cpp/breakpad/src/common/convert_UTF.cc:118-126 | Any value from 0x10000 to 0x10FFFF is written as the pair of which it is that sum |
| `UtfTables.WrittenAsRow` | app/src/main/cpp/breakpad/src/common/convert_UTF.cc:282-312 | Any value up to 0x10FFFF is written in as many bytes as Table 3-6 has for it, each in its range, the bits weighted by place summing up to it |
| `UtfTables.Decode8IsSum` | app/src/main/cpp/breakpad/src/common/convert_UTF.cc:411-437 | One to four bytes are read as that sum |
| `UtfTables.Reads16` | app/src/main/cpp/breakpad/src/common/convert_UTF.cc:135-187 | Lenient UTF-16 that is accepted comes out as the values of its pairs and of its other units, in order |
| `UtfTables.Reads8` | app/src/main/cpp/breakpad/src/common/convert_UTF.cc:517-574 | UTF-8 that is accepted comes out as the sums of its sequences, in order |
| `UtfTables.WritesWhatItReads` | app/src/main/cpp/breakpad/src/common/convert_UTF.cc:242-451 | To the other of UTF-8 and UTF-16 each of these values is written in its form there |
| `UtfTables.PairRead` | app/src/main/cpp/breakpad/src/common/convert_UTF.cc:143-152 | A pair alone, with either flag: to UTF-32 its sum, to UTF-8 the bytes of that sum |
| `UtfTables.ByTheNumbers` | app/src/main/cpp/breakpad/src/common/convert_UTF.cc:118-126 | U+1F600 is D83D DE00 and F0 9F 98 80, both ways; 20AC, E9 and 41 in bytes |
| `UtfTables.ReplacedByTheNumbers` | app/src/main/cpp/breakpad/src/common/convert_UTF.cc:96-117 | Lenient, [D800, 110000, 41] becomes FFFD FFFD 41 |
| `ByteCursors.ByteCursor.Read` | app/src/main/cpp/breakpad/src/common/byte_cursor.h:119-141 | A number of the given width in the cursor's byte order, or the dummy value and a cursor at the end that is incomplete for good |
| `ByteCursors.NumberFits` | app/src/main/cpp/breakpad/src/common/byte_cursor.h:119-141 | A number of n bytes is below 256^n |
| `StabsEntries.EntryCount` | app/src/main/cpp/breakpad/src/common/stabs_reader.cc:62-70 | There are as many entries as complete ones fit in the section |
| `StabsEntries.EntryPlaces` | app/src/main/cpp/breakpad/src/common/stabs_reader.cc:62-70 | Each stands at its multiple of the entry size |
| `StabsEntries.EntryIterator.Fetch` | app/src/main/cpp/breakpad/src/common/stabs_reader.cc:62-70 | The next entry field by field, or the end if the section stops within it |
| `StabsEntries.FieldsOfEntry` | app/src/main/cpp/breakpad/src/common/stabs_reader.cc:62-70 | Twelve bytes, big-endian: name from the first four, type and other from the next two, descriptor from two, value from four |
| `StabsEntries.FieldsOfWideEntry` | app/src/main/cpp/breakpad/src/common/stabs_reader.cc:62-70 | Sixteen bytes, little-endian, with a value of eight |
| `StabsMeaning.StepMeans` | app/src/main/cpp/breakpad/src/common/stabs_reader.cc:97-302 | At each entry the machine makes the calls read off the entries: the function, unit, file, string base and waiting lines found by looking back |
| `StabsMeaning.TraceMeans` | app/src/main/cpp/breakpad/src/common/stabs_reader.cc:97-302 | So it does for the whole section |
| `StabsMeaning.FunctionReads` | app/src/main/cpp/breakpad/src/common/stabs_reader.cc:225-302 | A function begun by an entry of value v starts at v under its name up to the colon; its lines are at (v + value) mod 2^64 with the descriptor mod 2^16; it ends at (v + n) mod 2^64 if the next N_FUN or N_SO is a nameless N_FUN of value n, at that entry's value otherwise, and at 0 at the end of the section |
| `StabsMeaning.FunctionCalled` | app/src/main/cpp/breakpad/src/common/stabs_reader.cc:225-302 | Its start and this end are among the calls |
| `StabsEntries.EntryIterator.Advance` | app/src/main/cpp/breakpad/src/common/stabs_reader.h:152 | Each step consumes one entry and stands at the next, or at the end |
| `StabsTrace.RestNested` | app/src/main/cpp/breakpad/src/common/stabs_reader.cc:97-302 | For any entries, units and functions nest, lines come inside functions only, and all that is opened is closed |
| `StabsTrace.StepNested` | app/src/main/cpp/breakpad/src/common/stabs_reader.cc:97-302 | One entry keeps the protocol |
| `StabsTrace.NestedPrefix` | app/src/main/cpp/breakpad/src/common/stabs_to_module.cc:73-138 | Up to any refusal the calls keep the protocol too |
| `StabsReader.StabsReader.Process` | app/src/main/cpp/breakpad/src/common/stabs_reader.cc:97-133 | The reader ends at the end of the section having made exactly the calls of the one-entry machine, which are those read off the entries (StabsMeaning.TraceMeans), or at the first refusal having made the calls up to it |
| `StabsReader.StabsReader.ProcessCompilationUnit` | app/src/main/cpp/breakpad/src/common/stabs_reader.cc:135-223 | A unit with an optional directory, a stray end marker or nothing: on course, and further on than before |
| `StabsReader.StabsReader.ProcessFunction` | app/src/main/cpp/breakpad/src/common/stabs_reader.cc:225-302 | A function with the lines that waited for it and its own: on course, and further on |
| `StabsReader.StabsReader.ProcessFunctionEnd` | app/src/main/cpp/breakpad/src/common/stabs_reader.cc:271-302 | A function ends at its size, at the next function, at the next file, or at zero |
| `StabsReader.StabsReader.ProcessUnitEnd` | app/src/main/cpp/breakpad/src/common/stabs_reader.cc:205-220 | A unit ends at its end marker or at the next file, and lines without a function are dropped |
| `StabsReader.StabsReader.ReportQueued` | app/src/main/cpp/breakpad/src/common/stabs_reader.cc:241-247 | Lines ahead of a function are reported in order after it starts |
| `StabsReader.StabsReader.SymbolString` | app/src/main/cpp/breakpad/src/common/stabs_reader.cc:85-95 | The name's offset, modulo 2^64, or the null string's when that is outside the section |
| `StabsReader.FunctionGivesWay` | app/src/main/cpp/breakpad/src/common/stabs_reader.cc:283-295 | Ending a function at an entry and then looking at the entry again is one step of the machine |
| `StabsReader.UnitGivesWay` | app/src/main/cpp/breakpad/src/common/stabs_reader.cc:205-218 | The same for a unit at the next file |
| `StabsToModule.StabsToModule.ReceiveAll` | app/src/main/cpp/breakpad/src/common/stabs_to_module.cc:73-138 | For every trace that keeps the protocol no callback's assertion fails, and what is collected is every function with its lines, but for those below their unit's base, and all boundaries |
| `StabsToModule.StabsToModule.Receive` | app/src/main/cpp/breakpad/src/common/stabs_to_module.cc:73-138 | One call's part in that |
| `StabsToModule.StabsToModule.StartCompilationUnit` | app/src/main/cpp/breakpad/src/common/stabs_to_module.cc:73-82 | The whole new state of the consumer |
| `StabsToModule.StabsToModule.EndCompilationUnit` | app/src/main/cpp/breakpad/src/common/stabs_to_module.cc:84-93 | The same; a zero address is no boundary |
| `StabsToModule.StabsToModule.StartFunction` | app/src/main/cpp/breakpad/src/common/stabs_to_module.cc:95-106 | The same; the address becomes a boundary |
| `StabsToModule.StabsToModule.EndFunction` | app/src/main/cpp/breakpad/src/common/stabs_to_module.cc:108-122 | The same; the function is kept iff it is not below its unit's base |
| `StabsToModule.StabsToModule.Line` | app/src/main/cpp/breakpad/src/common/stabs_to_module.cc:124-138 | The line's file is the one its name stands for, looked up again or not |
| `StabsToModule.StabsToModule.Finalize` | app/src/main/cpp/breakpad/src/common/stabs_to_module.cc:162-206 | All functions, by address, each with its size and its lines in stable order of address reaching to the next one's, are handed over |
| `StabsToModule.MeasureLines` | app/src/main/cpp/breakpad/src/common/stabs_to_module.cc:186-197 | Lines in stable order, each as long as to the next, the last to the function's end modulo 2^64 |
| `StabsToModule.UpperBound` | app/src/main/cpp/breakpad/src/common/stabs_to_module.cc:174-175 | The first boundary above the address |
| `StabsToModule.SizesDisjoint` | app/src/main/cpp/breakpad/src/common/stabs_to_module.cc:173-183 | Functions at different addresses get non-empty sizes that do not overlap, with ends counted past 2^64 |
| `StabsSizes.EndInSpace` | app/src/main/cpp/breakpad/src/common/stabs_to_module.cc:173-183 | A function ends inside the address space iff a boundary ends it or it starts the fallback size below the end |
| `StabsSizes.SharedIffWrapped` | app/src/main/cpp/breakpad/src/common/stabs_to_module.cc:173-183 | In 64 bits two functions at different addresses share an address iff the higher one wraps past the lower one's start |
| `StabsSizes.ComesRound` | app/src/main/cpp/breakpad/src/common/stabs_to_module.cc:173-183 | With boundaries 0x1000 and 0xFFFFFFFFF8000000 the second function comes round over the first |
| `StabsSizes.RestFits` | app/src/main/cpp/breakpad/src/common/stabs_reader.cc:97-302 | All boundaries are below 2^64, and below 2^33 if values have 4 bytes |
| `StabsSizes.FallsBackOnce` | app/src/main/cpp/breakpad/src/common/stabs_to_module.cc:178-183 | At most one function gets the fallback size iff no two are at the same address with no boundary above |
| `StabsSizes.FallsBackTwice` | app/src/main/cpp/breakpad/src/common/stabs_to_module.cc:178-183 | A function recorded twice with nothing behind it: both get it |
| `StabsSizes.NamelessKept` | app/src/main/cpp/breakpad/src/common/module.cc:140-143 | A function without a name is collected iff the calls start one at or above its unit's base |
| `StabsSizes.NamelessEntry` | app/src/main/cpp/breakpad/src/common/stabs_reader.cc:225-238 | The entries that start one: in a unit, with nothing ahead of a colon; in a function, with a colon in front |
| `StabsSizes.NamelessCollected` | app/src/main/cpp/breakpad/src/common/module.cc:140-143 | A file's entry and a nameless function's: the function is collected |
| `StabsSizes.FunctionCollected` | app/src/main/cpp/breakpad/src/common/stabs_to_module.cc:95-138 | A function with its lines is collected iff it is not below its unit's base, with an entry for each line in order |
| `StabsSizes.UnitCollected` | app/src/main/cpp/breakpad/src/common/stabs_to_module.cc:73-93 | A unit's start is the base of its functions; behind its end there is none |
| `StabsSizes.BoundariesAre` | app/src/main/cpp/breakpad/src/common/stabs_to_module.cc:73-122 | Boundaries are exactly the starts of units and functions and their ends other than zero |
| `StabsSizes.SizesByTheNumbers` | app/src/main/cpp/breakpad/src/common/stabs_to_module.cc:173-183 | With boundaries 0x1000, 0x1020 and 0x2000: size 0x20 at the first, 0x10000000 at the last |
| `StabsToModule.FallbackAtGreatest` | app/src/main/cpp/breakpad/src/common/stabs_to_module.cc:173-183 | Only functions at the greatest boundary get the fallback size; all others end at a boundary |
| `StabsToModule.LinesTile` | app/src/main/cpp/breakpad/src/common/stabs_to_module.cc:186-197 | If the last line starts inside the function, its lines are one after the other from the first line's address to the function's end |
| `StabsToModule.TileCovers` | app/src/main/cpp/breakpad/src/common/stabs_to_module.cc:186-197 | Such lines cover each address between exactly once and no other |
| `LoadStabs.Load` | app/src/main/cpp/breakpad/src/common/linux/dump_symbols.cc:220-237 | From any bytes: every function's start and its end, if not zero, are boundaries; the functions handed over are, one for one, those of the calls read off the entries, equal ones as often as they occur, in order, measured, non-empty and apart; each ends inside the address space iff a boundary ends it or there is room for the fallback size, and all do with 4-byte values; and all have names iff the calls start none without one |
| `LoadStabs.ReadAll` | app/src/main/cpp/breakpad/src/common/stabs_reader.cc:97-133 | A consumer that refuses nothing is told the calls read off the entries, and no others |
| `LoadStabs.SizedApart` | app/src/main/cpp/breakpad/src/common/stabs_to_module.cc:173-183 | Measured functions whose addresses are boundaries do not overlap, with ends counted past 2^64 |
| `NonAllocatingMap.NonAllocatingMap.SetKeyValue` | app/src/main/cpp/breakpad/src/common/simple_string_dictionary.h:160-210 | As a map: the value, cut to 255 characters, replaces or adds the key's; without a free slot nothing changes; no value removes |
| `NonAllocatingMap.NonAllocatingMap.RemoveKey` | app/src/main/cpp/breakpad/src/common/simple_string_dictionary.h:229-235 | As a map: the key is removed, and the answer is whether it was there |
| `NonAllocatingMap.NonAllocatingMap.RemoveAtIndex` | app/src/main/cpp/breakpad/src/common/simple_string_dictionary.h:239-246 | As a map: the slot's key is removed |
| `NonAllocatingMap.NonAllocatingMap.SetValueAtIndex` | app/src/main/cpp/breakpad/src/common/simple_string_dictionary.h:214-224 | As a map: the slot's key gets the value, cut |
| `NonAllocatingMap.NonAllocatingMap.GetEntryIndexForKey` | app/src/main/cpp/breakpad/src/common/simple_string_dictionary.h:258-265 | A slot with the key, or none has it |
| `NonAllocatingMap.NonAllocatingMap.GetValueForKey` | app/src/main/cpp/breakpad/src/common/simple_string_dictionary.h:142-152 | The map's value |
| `NonAllocatingMap.NonAllocatingMap.GetCount` | app/src/main/cpp/breakpad/src/common/simple_string_dictionary.h:130-138 | The size of the map, at most the number of slots |
| `NonAllocatingMap.Overwrite` | app/src/main/cpp/breakpad/src/common/simple_string_dictionary.h:175-208 | Overwriting a slot takes out its old key and puts in the new one, and no key is ever in two slots |
| `NonAllocatingMap.CountKeys` | app/src/main/cpp/breakpad/src/common/simple_string_dictionary.h:130-138 | As many keys as active slots |
| `LongStringDictionary.LongStringDictionary.SetKeyValue` | app/src/main/cpp/breakpad/src/common/long_string_dictionary.cc:59-112 | What clients see changes in this key only: a short value whole if a slot is free, a long one cut to 255 times the free slots, ten at most; none without a slot |
| `LongStringDictionary.LongStringDictionary.RemoveKey` | app/src/main/cpp/breakpad/src/common/long_string_dictionary.cc:114-137 | What clients see loses this key only, and all its slots are free again |
| `LongStringDictionary.LongStringDictionary.GetValueForKey` | app/src/main/cpp/breakpad/src/common/long_string_dictionary.cc:139-179 | The value clients see, put together from segments, or the empty string |
| `LongStringDictionary.LongStringDictionary.SetSegments` | app/src/main/cpp/breakpad/src/common/long_string_dictionary.cc:83-111 | Segment after segment while the value, the suffixes and the slots last |
| `LongStringDictionary.LongStringDictionary.RemoveSegments` | app/src/main/cpp/breakpad/src/common/long_string_dictionary.cc:123-136 | Segments are removed up to the first that is missing |
| `LongStringDictionary.LongStringDictionary.JoinSegments` | app/src/main/cpp/breakpad/src/common/long_string_dictionary.cc:153-178 | Segments are joined up to the first that is missing |
| `LongStringDictionary.PutLong` | app/src/main/cpp/breakpad/src/common/long_string_dictionary.cc:83-112 | Storing as many segments as fit is the specified update of what clients see |
| `LongStringDictionary.PutShort` | app/src/main/cpp/breakpad/src/common/long_string_dictionary.cc:75-81 | The same for a short value |
| `LongStrings.KeptByTheNumbers` | app/src/main/cpp/breakpad/src/common/long_string_dictionary.cc:59-112 | With f free slots: nothing for none; up to 255 characters whole; up to 2550 whole if f is ten or more, and cut there; cut at 255 f otherwise; other keys unchanged |
| `LongStrings.SlotsByTheNumbers` | app/src/main/cpp/breakpad/src/common/long_string_dictionary.cc:83-112 | One slot for up to 255 characters, n for more than 255 (n - 1) and at most 255 n |
| `LongStrings.Accounted` | app/src/main/cpp/breakpad/src/common/long_string_dictionary.h:47-68 | The values clients see take exactly the slots that are taken |
| `LongStrings.SegmentKeysApart` | app/src/main/cpp/breakpad/src/common/long_string_dictionary.h:47-51 | Segment keys differ in key or number |
| `LongStrings.OthersKept` | app/src/main/cpp/breakpad/src/common/long_string_dictionary.cc:59-137 | Changing one client's names leaves every other client's value as it was |
| `LongStrings.JoinedPieces` | app/src/main/cpp/breakpad/src/common/long_string_dictionary.cc:83-178 | The segments of a value joined again are the value, as far as it was stored |
| `LongStrings.LookupSlots` | app/src/main/cpp/breakpad/src/common/long_string_dictionary.cc:83-112 | A value takes as many slots as its key has entries |
| `LongStringDictionary.AllSegments` | app/src/main/cpp/breakpad/src/common/long_string_dictionary.cc:123-136 | The segments up to the first that is missing are all the segments |
| `CfiRules.CFIRuleParser.Parse` | app/src/main/cpp/breakpad/src/processor/cfi_frame_info.cc:129-166 | Success is the grammar's, which is a condition on tokens (CfiMeaning.ReadsRules); the rules reported are, in order, all those ahead of the first fault |
| `CfiRules.CFIRuleParser.Take` | app/src/main/cpp/breakpad/src/processor/cfi_frame_info.cc:142-165 | One token: what remains to be reported is what the grammar says of the rest |
| `CfiRules.CFIRuleParser.Report` | app/src/main/cpp/breakpad/src/processor/cfi_frame_info.cc:168-174 | The accumulated rule goes to .cfa, .ra or the register, unless it lacks a name or an expression |
| `CfiRules.CFIRuleParser.NextToken` | app/src/main/cpp/breakpad/src/processor/cfi_frame_info.cc:138-140 | The words of the text, one after the other |
| `CfiRules.CFIFrameInfo.Serialize` | app/src/main/cpp/breakpad/src/processor/cfi_frame_info.cc:107-127 | The rules that are there, separated by spaces, every register once, in ascending order of name |
| `CfiRules.LessIff` | app/src/main/cpp/breakpad/src/processor/cfi_frame_info.cc:118-124 | The order of names: at the first place where they differ the one that ends there or has the smaller character is the smaller |
| `CfiRules.OneOrder` | app/src/main/cpp/breakpad/src/processor/cfi_frame_info.cc:118-124 | There is only one ascending order of the registers, so the rules determine the text |
| `CfiRules.CFIFrameInfoParseHandler.RegisterRule` | app/src/main/cpp/breakpad/src/processor/cfi_frame_info.cc:184-187 | The rule replaces the register's and no other |
| `CfiRules.CFIFrameInfoParseHandler.CFARule` | app/src/main/cpp/breakpad/src/processor/cfi_frame_info.cc:176-178 | The rule replaces the one for .cfa |
| `CfiRules.CFIFrameInfoParseHandler.RARule` | app/src/main/cpp/breakpad/src/processor/cfi_frame_info.cc:180-182 | The rule replaces the one for .ra |
| `CfiMeaning.WordsAreStretches` | app/src/main/cpp/breakpad/src/processor/cfi_frame_info.cc:138-140 | The words of a text are its maximal stretches without space, tab, carriage return and line feed, in order, each once |
| `CfiMeaning.ReadsRules` | app/src/main/cpp/breakpad/src/processor/cfi_frame_info.cc:142-166 | The tokens are accepted iff the first ends in a colon and each that does has two characters or more and is followed by one that does not; then each is reported with what follows it up to the next, single-spaced |
| `CfiMeaning.ParsesRules` | app/src/main/cpp/breakpad/src/processor/cfi_frame_info.cc:129-166 | The same of a whole text |
| `CfiMeaning.OneRule` | app/src/main/cpp/breakpad/src/processor/cfi_frame_info.cc:142-166 | A name with a colon and three operands: the one rule of that name |
| `CfiMeaning.CfaRead` | app/src/main/cpp/breakpad/src/processor/cfi_frame_info.cc:142-174 | ".cfa: $esp 4 +" is accepted and gives the .cfa rule "$esp 4 +" |
| `CfiMeaning.Printed` | app/src/main/cpp/breakpad/src/processor/cfi_frame_info.cc:107-127 | The .cfa rule, the .ra rule and a register's, by the letter |
| `CfiRoundTrip.RoundTrip` | app/src/main/cpp/breakpad/src/processor/cfi_frame_info.cc:107-187 | Parsing what is printed for any non-empty set of rules, registers in any order, into no rules gives the rules back; expressions are single-spaced operands without blanks, none ending in a colon, and names are without blanks and neither .cfa nor .ra |
| `CfiRoundTrip.NothingToParse` | app/src/main/cpp/breakpad/src/processor/cfi_frame_info.cc:142-169 | No rules print as a text that does not parse |
| `CfiRoundTrip.RenderedTokens` | app/src/main/cpp/breakpad/src/processor/cfi_frame_info.cc:107-127 | The printed text is its rules' tokens with single spaces between |
| `CfiRoundTrip.ReadTokens` | app/src/main/cpp/breakpad/src/processor/cfi_frame_info.cc:142-165 | Reading the tokens of rules gives the rules |
| `CfiText.SplitJoin` | app/src/main/cpp/breakpad/src/processor/cfi_frame_info.cc:138-140 | Splitting joined words gives the words |
| `CfiRecords.Module.FindCFIFrameInfo` | app/src/main/cpp/breakpad/src/processor/basic_source_line_resolver.cc:401-433 | Each name has the rule of the highest-addressed record that mentions it, among the INIT record that covers the address and the deltas from its start up to the address; nothing iff no INIT record covers it and parses |
| `CfiRecords.FoldedInForce` | app/src/main/cpp/breakpad/src/common/module.h:266-278 | Applying the records in order comes to the rules in force as defined |
| `CfiRecords.ApartByAddresses` | app/src/main/cpp/breakpad/src/processor/basic_source_line_resolver.cc:599-612 | INIT records apart cover no address both |
| `CfiRecords.LookupAfter` | app/src/main/cpp/breakpad/src/processor/cfi_frame_info.cc:168-187 | After a list of rules a name has the last one that mentions it |
| `CfiRecords.Module.ApplyDeltas` | app/src/main/cpp/breakpad/src/processor/basic_source_line_resolver.cc:422-430 | The loop from the lower bound applies exactly the deltas between the INIT record's start and the address |
| `CfiRecords.Module.StoreInit` | app/src/main/cpp/breakpad/src/processor/basic_source_line_resolver.cc:599-612 | An INIT record is kept iff it is not empty, does not wrap and overlaps none |
| `CfiRecords.Module.StoreDelta` | app/src/main/cpp/breakpad/src/processor/basic_source_line_resolver.cc:615-622 | The last delta at an address counts |
| `CfiRecords.ParseCFIRuleSet` | app/src/main/cpp/breakpad/src/processor/source_line_resolver_base.cc:343-348 | A rule set applied to rules in force |
| `Md5.MD5Context.MD5Update` | app/src/main/cpp/breakpad/src/common/md5.cc:65-107 | For any context, data and block function, the whole context afterwards is that of feeding the bytes one at a time |
| `Md5.StreamFed` | app/src/main/cpp/breakpad/src/common/md5.cc:65-107 | From an empty block: the whole 64-byte blocks of the stream are transformed in order, the rest is at the start of the block, and the count grows by eight a byte modulo 2^64 |
| `Md5.StartBytes` | app/src/main/cpp/breakpad/src/common/md5.cc:50-59 | The initial words, byte by byte |
| `Md5.FeedConcat` | app/src/main/cpp/breakpad/src/common/md5.cc:65-107 | Feeding one piece and then another is feeding their concatenation, so only the stream counts |
| `Md5.MD5Context.UpdateBitcount` | app/src/main/cpp/breakpad/src/common/md5.cc:71-76 | The two words with their carry count eight a byte modulo 2^64, for any length |
| `Md5.TwoHalves` | app/src/main/cpp/breakpad/src/common/md5.cc:71-74 | Two 32-bit halves with a carry add modulo 2^64 |
| `Md5.FeedBlock` | app/src/main/cpp/breakpad/src/common/md5.cc:80-92 | Bytes that fill the block transform it once and leave it empty |
| `Md5.FeedWithin` | app/src/main/cpp/breakpad/src/common/md5.cc:104-106 | Bytes that do not fill the block are only buffered |
| `Md5.MD5Context.constructor` | app/src/main/cpp/breakpad/src/common/md5.cc:50-59 | The initial words and a zero count; the block is left as it was |
| `PageAllocator.PageAllocator.Alloc` | app/src/main/cpp/breakpad/src/common/memory_allocator.h:73-100 | For every request, whatever the kernel answers, the whole new state; and over any run blocks stay apart, each inside an owned run behind its header, the rest of the current page nobody's, after a call iff it needed no new run, or got none, or asked for at most 2^64-16 bytes; the page count is the sum over the runs in any case |
| `PageAllocator.PageAllocator.GetNPages` | app/src/main/cpp/breakpad/src/common/memory_allocator.h:117-139 | A run more and its pages counted, or nothing changed |
| `PageAllocator.PageAllocator.OwnsPointer` | app/src/main/cpp/breakpad/src/common/memory_allocator.h:104-112 | True iff some run contains the address |
| `PageAllocator.PageAllocator.BlocksOwned` | app/src/main/cpp/breakpad/src/common/memory_allocator.h:104-112 | Every byte of every block is owned |
| `PageAllocator.PageAllocator.HeadersUntouched` | app/src/main/cpp/breakpad/src/common/memory_allocator.h:117-139 | No block touches any run's header |
| `PageAllocator.PageAllocator.FreeAll` | app/src/main/cpp/breakpad/src/common/memory_allocator.h:139-146 | Every run is unmapped once |
| `PageAllocator.RoomIffFits` | app/src/main/cpp/breakpad/src/common/memory_allocator.h:88-89 | For every request, the pages hold the header and the request iff the rounding does not wrap |
| `PageAllocator.WrappedPages` | app/src/main/cpp/breakpad/src/common/memory_allocator.h:88-89 | Requests that wrap ask for no pages if they are of at most 2^64-16 bytes, and only those do |
| `PageAllocator.WrappedAt4096` | app/src/main/cpp/breakpad/src/common/memory_allocator.h:88-99 | With pages of 4096 bytes: none for 2^64-4111 to 2^64-16, and one for 2^64-1, which the block leaves |
| `PageAllocator.NotSoundAfter` | app/src/main/cpp/breakpad/src/common/memory_allocator.h:88-99 | A block that does not fit its new run is in no run |
| `PageAllocator.ApartByBytes` | app/src/main/cpp/breakpad/src/common/memory_allocator.h:73-100 | Blocks apart have no byte in common |
| `PageAllocator.At4096` | app/src/main/cpp/breakpad/src/common/memory_allocator.h:88-99 | With pages of 4096 bytes: the pages, the bytes used of the last and the page left over for 100, 4080 and 4081 bytes |
| `PageAllocator.UsedOfLastPage` | app/src/main/cpp/breakpad/src/common/memory_allocator.h:94-97 | The offset is what the request uses of the last page, zero if all of it |

## Left out

- C++ memory and text handling: pointers into character data are offsets or sequences, a string section is a lookup from offsets to strings, deletes and ownership are not modelled, and a child map that was never allocated reads as an empty one.
- Number fields as text: the fields of STACK CFI and INLINE records arrive as numbers; splitting lines (Tokenize, the strtok_r calls of ParseCFIFrameInfo) and strtoul are not part of this model.
- RangeMap: the INIT records are a sequence searched from the front, with the contract that overlapping records are refused; its map and its truncating merge strategies are not part of this model.
- Sizes of C types: addresses, counts and unsigned long are 64 bits wide; UTF32 is an unsigned long, hence 64 bits too.
- Loops and methods split up: one loop body or one method of the code is often several methods here (a round of the sweep, a STABS unit, one UTF-32 unit, the search for a frame's base); the two UTF-16 and the two UTF-8 readers share the method that reads one character; the byte sums and byte stores of UTF-8 write out each entry point of the fall-through switches.
- Sorting.Sort: the order of elements with equal keys is left open, as std::sort leaves it; Finalize's stable_sort is modelled with its order.
- AssignLines.DwarfCUToModule.AssignLinesToFunctions: with overlapping input it promises sound ascending pieces and termination, not which function gains a shared byte, as the code says too; the byte at the last address is outside the exact statement, because the code ends its pass there.
- NonAllocatingMap.NonAllocatingMap.SetKeyValue: keys are non-empty, as the code asserts, and at most 255 characters long; longer ones are cut when stored and never found again, which is not part of this model.
- LongStringDictionary.LongStringDictionary.SetKeyValue: the class inherits from the slot map in the code and holds one here; keys are those of a given set of client keys, non-empty, at most 251 characters long and none another one with a suffix, as the header asks of clients.
- PageAllocator.PageAllocator.Alloc: what mmap answers is a parameter: pages that overlap no run, at least one, or none.
- StabsReader.StabsReader.Process: the Mach-O branch for exported symbols (ProcessExtern, StabsToModule::Extern) and warnings are not part of this model; the type codes of stab.h, which is not part of the repository, have their usual values.
- StabsToModule.StabsToModule.StartFunction: demangling and the string pool are not modelled, so the name is the one in the section; what Module::AddFunction does with the functions handed over is not either.
- ByteCursors.ByteCursor.Read: signed reads, strings and pointers are not modelled, because the STABS iterator reads unsigned numbers only; the dummy value is not cut to a narrower field, because nothing looks at an incomplete entry.
- Md5.MD5Context.MD5Update: the block function is any function, and bytes are in little-endian order, where byteReverse does nothing. MD5Final is left out: it writes the length at byte offsets 14 and 15 and hashes stale bytes.
- InlineFrames.ConstructInlineFrames: the module, files and origins are lookups; a frame's other fields are copied in the code and not modelled.
- DwarfLines.DwarfLineToModule.AddLine: DefineDir, DefineFile and path joining are not part of this model; a file number is known or not.
- DWARF attribute handling, warning texts, InlineOriginMap, MinidumpFileWriter, PostfixEvaluator, FindCallerRegs, and the application's own JNI code: they would add easy members, platform code or assumptions about the input.
