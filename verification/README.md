# Verified models of the kernel support code

Dafny 4.11 models of the parts of `src/os` that do real work on text, tables, trees, lists and pixels, with
proofs of what that code is for. `dafny verify dfyconfig.toml` checks everything.

**Driver settings** (`src/os/driver_settings.cpp`). `SettingsText` defines the tokens and the parameter tree of a
settings text on values. `SettingsParser` is the parser as it runs: it overwrites the text in an array and leaves
pointers into it, and is proved to leave pointers that read back as the tree of `SettingsText`, with no later word
touching an earlier one. `SettingsPrinter` is the printer with its shrinking buffer. `SettingsRoundTrip` connects
printer and parser, with the characters of texts and trees counted in `SettingsCounts`; `SettingsComments` says when
the parser runs over the end of the text. `SettingsReading` and `SettingsGrammar` are the language itself, word by word
and level by level, against which the tokenizer and the parser on values are proved exact, and `SettingsLayout` is what
printed settings look like. `SettingsHandles` is the reference-counted table of the kernel build, as a state machine
over its calls and as the table itself; `SettingsOrigins` follows each handle back to the text it comes from.

**ELF images** (`src/os/elf.cpp`). `ElfSymbols` has the System V hash table (gABI, chapter 5, "Hash Table"), lookup
with symbol versions and resolution against two images; `ElfNearestSymbol` the search for the symbol nearest to an
address; `ElfMemoryImage` the growing string and symbol tables; `ElfLayout` the page-rounded layout of an add-on, in
64-bit sums that wrap.

**CPUs** (`src/os/cpu.cpp`). `CpuTopology` builds, compacts and renumbers the topology tree; `CpuEnable` is the
protocol that keeps the last CPU enabled although it gives up its lock.

**Tracing allocator** (`src/os/debug.cpp`). `AllocationBooks` in `Allocation.dfy` is the state machine over critical
sections; `Allocation` is the doubly linked list with its counters.

**Smaller parts.** `DirectoryPaths` (canonical paths and their cache, `src/os/fs.cpp`), `FindPaths` (exactly sized,
packed path strings, `src/os/find_paths.cpp`), `DebugMemory` (reads and writes in pieces, `src/os/debug_support.cpp`)
and `BootSplash` (staged blits, `src/os/boot_splash.cpp`).

Methods follow the source statement by statement and are proved against functions on values; the lemmas say what
those functions mean. Where the source looks at the outside world (files, the boot device, the debug nub, the host
file system, a scheduler), the model takes the answer as a parameter and the proofs hold for every answer.

Results that go against what the code or its comments promise are proved as exact conditions:

- `B_OK` from the settings printer does not mean that the whole text was written: it fails for the exact fit, and for
  that alone (`OkWithoutTheWholeText`).
- Printing and parsing returns a tree without empty words exactly if every word stands alone and is in its place, every
  top-level parameter but the last has sub-parameters, and nothing is nested deeper than eight levels (`RoundTrip`).
  A word stands alone if it has no backslash, and is quoted or else starts with neither a closing brace nor a single
  quote and has no equals sign where that is an assignment, which is exactly what one call of the tokenizer reads back
  (`WordReadsBack`). It is out of place with a comment sign in front if it is a name, with a comment sign or an opening
  brace in front if it is a value that is not announced by an assignment behind a name, and with an opening brace in
  front if it is a name behind a parameter without sub-parameters.
- One call of the tokenizer runs over the end of the text exactly if it skips into a comment that no newline ends
  (`GetWordOverruns`); a text that a newline is added to is never left (`NewlineKeepsInside`).
- Loading a driver's settings lists a second handle of the same stored name exactly if it succeeds, the name does not
  fit, and what is stored of it is listed already (`SecondHandleListed`, `LongNameListedTwice`).
- Settings that do not parse are refused by one load and given out by the next (`FailedParseIsGivenOut`). Over every run,
  a handle is given out without its parameters exactly if its text was preloaded, does not parse and has been asked for
  before (`LoadGivesParameters`).
- The check for unused space in an add-on's address range does not refuse a range of 2^63 bytes or more
  (`RefusedExactly`), and the area of a segment is inside the reserved range exactly if the segment does not end, as the
  64-bit sum has it, before it begins (`AreasInsideReservation`, `WrappedSegmentIsOutside`).
- The topology tree has a leaf for every CPU exactly if no two CPUs have the same ids (`LeavesAreTheCpus`).
- A symbol above the looked-up address is ruled out as nearest unless it is almost the whole address space away
  (`AboveIsFarAway`).
- The boot icons are inside the screen exactly if it is at least 136 rows tall, or has none (`StripFits`).

## Model

| member | source | states |
|---|---|---|
| SettingsText.ReadBody | src/os/driver_settings.cpp:193-266 | a word with something behind it consumes text, and more is promised only where text is left |
| SettingsText.ParseValues | src/os/driver_settings.cpp:276-300 | a line keeps its name, adds at least one value and consumes text, or ends where a level ends |
| SettingsText.ParseBlock | src/os/driver_settings.cpp:312-341 | every parameter consumes text, so that recursion and loop of the parser end |
| SettingsReading.LeadMakesNoDifference | src/os/driver_settings.cpp:167-181 | what stands in front of a word is passed over: blanks, equals signs where an assignment may be, and, where new lines may be, all white space, separators and comments with their newlines |
| SettingsReading.TokenIsSpelled | src/os/driver_settings.cpp:183-241 | a word is read from any spelling of it: a backslash in front of any characters, and of those that would end the word, up to its quote or to white space, a separator or an assignment |
| SettingsReading.GetWordReads | src/os/driver_settings.cpp:161-266 | one call yields a result exactly if the text is made up of a lead, a word in quotes or without, and what may follow it, or ends in place of the word: character by character, errors included, with the one separator that may stand in front of a brace |
| SettingsGrammar.ParseLineReads | src/os/driver_settings.cpp:269-300 | a line is read exactly if it is a name on any line, a first value that an equals sign may announce and end, and more values in which it is a character, each announced by the one before; it is dropped if its level ends in place of a value |
| SettingsGrammar.ParseTextReads | src/os/driver_settings.cpp:303-369 | a text is read as a tree exactly if it is made up of the lines of the tree, with braces around the parameters of each, at most eight levels deep; and fails with an error exactly if a line does, a level is too deep or braces do not match |
| SettingsParser.TokenIsUnescapedText | src/os/driver_settings.cpp:200-241 | a token is the raw text up to its end with the escaping backslashes dropped, and no backslash is left dangling |
| SettingsParser.RemoveEscapes | src/os/driver_settings.cpp:229-241 | in place, the word becomes its unescaped self with a NUL behind it and nothing outside of it changes |
| SettingsParser.ScanWord | src/os/driver_settings.cpp:200-213 | the scan stops where the token ends and knows whether any backslash was seen |
| SettingsParser.FindNext | src/os/driver_settings.cpp:248-266 | the position and status behind a word, with the newline rule for an opening brace |
| SettingsParser.TakeWord | src/os/driver_settings.cpp:193-266 | the word is left in the buffer as a C string, the text behind it is untouched, errors change nothing |
| SettingsParser.ReadWord | src/os/driver_settings.cpp:161-266 | `get_word` agrees with the tokenizer on values, writes only between its old and new position, and its word is out of reach of later calls |
| SettingsParser.NodesStay | src/os/driver_settings.cpp:161-354 | whatever a later call writes, all names and values of the parsed parameters still read back |
| SettingsParser.ReadValues | src/os/driver_settings.cpp:277-296 | the pointers collected for a line read back as the values of that line |
| SettingsParser.ReadParameters | src/os/driver_settings.cpp:303-354 | the tree of pointers of a level reads back as the tree of the text, with the same errors |
| SettingsParser.ParseSettings | src/os/driver_settings.cpp:357-369 | parsing in place refines parsing on values: same errors, and in the final buffer every pointer reads back as the tree of the original text |
| SettingsPrinter.PutAllCounts | src/os/driver_settings.cpp:462-594 | the space left accounts for every piece whether it was written or not |
| SettingsPrinter.PutAllKeepsWholePieces | src/os/driver_settings.cpp:462-551 | what is written is the longest run of whole pieces strictly below the space, with a NUL behind it |
| SettingsPrinter.WrittenInFull | src/os/driver_settings.cpp:462-594 | the whole text is written exactly if it is strictly shorter than the buffer |
| SettingsPrinter.PutString | src/os/driver_settings.cpp:462-506 | a word is quoted if it has to be, its quotes are escaped, it is written whole or not at all, and its length is always subtracted |
| SettingsPrinter.PutChars | src/os/driver_settings.cpp:509-531 | a piece is written whole with a NUL or not at all, inside the buffer, and always counted |
| SettingsPrinter.PutParameter | src/os/driver_settings.cpp:560-594 | a parameter with everything nested in it puts its pieces in order, flat or indented |
| SettingsPrinter.GetDriverSettingsString | src/os/driver_settings.cpp:840-857 | the reported size is the length of the full text for any buffer, the buffer holds the pieces that fit and a NUL, and the status compares the two |
| SettingsPrinter.OkWithoutTheWholeText | src/os/driver_settings.cpp:482-485 | success without the whole text happens for the exact fit and for no other size |
| SettingsLayout.PrintWordMeans | src/os/driver_settings.cpp:462-506 | a word is printed as it is, or in quotes if it has a quote, white space or a separator in it |
| SettingsLayout.EscapeMeans | src/os/driver_settings.cpp:490-497 | a backslash is put in front of every quote |
| SettingsLayout.IndentedIsOutline | src/os/driver_settings.cpp:560-594 | indented, a parameter is a line of words, and if it has parameters, theirs in braces one tab further in |
| SettingsLayout.FlatIsInline | src/os/driver_settings.cpp:560-594 | flat, a parameter is one line with an equals sign in front of its values, braces, and semicolons behind those without parameters |
| SettingsLayout.SettingsLookLike | src/os/driver_settings.cpp:850-853 | the printed settings are their parameters in this form, one behind the other |
| SettingsCounts.ParametersCount | src/os/driver_settings.cpp:303-354 | the parser makes no character up: all characters of the parsed settings, and a brace for every block with something in it, are in the text it has used up |
| SettingsCounts.SettingsPrinted | src/os/driver_settings.cpp:560-594 | the printed text has the comment signs of the settings and their opening braces, one more for each block, and no others |
| SettingsRoundTrip.ReadPrinted | src/os/driver_settings.cpp:161-266 | a printed word that stands alone is read back, quoted or not, and reading goes on right behind it |
| SettingsRoundTrip.WordReadsBack | src/os/driver_settings.cpp:462-506 | a printed word is read back by one call exactly if it can stand alone: no backslash, and quoted or with no assignment and no closing brace or single quote in front to be misread |
| SettingsRoundTrip.ParsePrintedValues | src/os/driver_settings.cpp:276-300 | printed values that stand alone in their places are read back as the same values |
| SettingsRoundTrip.ParsePrintedBlock | src/os/driver_settings.cpp:303-354 | a printed readable parameter with all its levels is read back, flat or indented, or fails by the nesting limit |
| SettingsRoundTrip.ReadLineMeans | src/os/driver_settings.cpp:269-300 | a printed line that is read back as itself has all words standing alone in their places, and one with other text right behind it ends only where nothing more can be read |
| SettingsRoundTrip.ChildrenInPlace | src/os/driver_settings.cpp:303-354 | if the parameters between two braces are read back with nothing of the text behind them lost, they are readable and nest at most eight levels |
| SettingsRoundTrip.LeafIsMerged | src/os/driver_settings.cpp:850-853 | a top-level parameter without sub-parameters in front of another one is not read back, whatever the words |
| SettingsRoundTrip.RoundTrip | src/os/driver_settings.cpp:560-594 | for words that are not empty: the printed text parses to the same tree exactly if every word stands alone and in its place, top-level parameters are kept apart, and they nest at most eight levels |
| SettingsRoundTrip.PrintAndParse | src/os/driver_settings.cpp:840-857 | printing into a large enough buffer and parsing that buffer in place gives pointers that read back as the printed tree |
| SettingsComments.GetWordOverruns | src/os/driver_settings.cpp:169-181 | a call leaves the text exactly if what it skips ends in a comment without newline |
| SettingsComments.CommentsEndKeepsInside | src/os/driver_settings.cpp:161-354 | a text in which every comment sign has a newline behind it is never left by the parser |
| SettingsComments.NewlineKeepsInside | src/os/driver_settings.cpp:161-354 | whatever a text says, with a newline added it is never left by the parser |
| SettingsComments.OpenCommentLeavesText | src/os/driver_settings.cpp:176-181 | a two-line text whose comment has no newline makes the parser leave it |
| SettingsHandles.StepBalanced | src/os/driver_settings.cpp:671-796 | every load and unload keeps the books: counts are outstanding loads plus extra references, and handles that are held exist |
| SettingsHandles.EveryRunIsBalanced | src/os/driver_settings.cpp:618-796 | over every run: a listed handle's count is its outstanding loads and extra references, and no handle with an outstanding load is freed |
| SettingsHandles.EveryRunCountsLoads | src/os/driver_settings.cpp:652-656 | if the preloaded settings parse, the only extra reference is the one of the safe mode settings |
| SettingsHandles.EveryRunListsNamesOnce | src/os/driver_settings.cpp:697-796 | over every run with names that fit, at most one handle per name is listed |
| SettingsHandles.FreshKeepsNames | src/os/driver_settings.cpp:757-796 | reading a file for a name keeps names unique exactly if what is stored of the name is not listed yet |
| SettingsHandles.SecondHandleListed | src/os/driver_settings.cpp:697-796 | over every run: a load lists a second handle of a stored name exactly if it succeeds with a name that does not fit and whose stored part is listed already |
| SettingsHandles.LongNameListedTwice | src/os/driver_settings.cpp:404-416 | two loads of a name that does not fit list two handles of the same stored name |
| SettingsHandles.LoadGivesParameters | src/os/driver_settings.cpp:697-796 | after any run a load gives out a handle with what its text says, or without parameters exactly if it finds a preloaded one whose text does not parse and that has been asked for before, which is one that a load has been refused for |
| SettingsHandles.FailedParseIsGivenOut | src/os/driver_settings.cpp:717-730 | listed settings that do not parse are refused by the first load and given out by the second |
| SettingsOrigins.InitMeans | src/os/driver_settings.cpp:618-663 | the preloaded settings are listed in order under their stored names, not parsed, with one reference on the safe mode settings and none on the others |
| SettingsOrigins.FirstIsFound | src/os/driver_settings.cpp:601-615 | what is found for a name is the first listed handle that has it, and nothing if none has |
| SettingsOrigins.RemoveTakesFirst | src/os/driver_settings.cpp:709-712 | taking a handle off the list leaves all others in their order |
| SettingsOrigins.LoadFromFileMeans | src/os/driver_settings.cpp:709-796 | if nothing listed has the name, or the first that has it is unreferenced and the boot device is there, that one is freed, and a file of 1 to 32767 characters that is a settings text is listed last as a new handle with one reference; otherwise nothing is given out |
| SettingsOrigins.LoadListedMeans | src/os/driver_settings.cpp:715-733 | any other load takes a reference to the first handle of the name and gives it out with what its text says, or refuses it if that is no settings text |
| SettingsOrigins.UnloadMeans | src/os/driver_settings.cpp:671-694 | an unload frees a handle that is not counted, takes a reference off any other one, and with the last one unlists and frees it if the boot device is there |
| SettingsOrigins.StepMeans | src/os/driver_settings.cpp:671-796 | a step of a run leaves the table of that call, with one load more outstanding for a handle given out, and one less for a handle unloaded |
| SettingsOrigins.EveryRunKeepsOrigins | src/os/driver_settings.cpp:618-796 | over every run a handle has the name and text it was preloaded with, or those of the load that made it, and the parameters its text says, unless they are lost or still to be parsed |
| SettingsOrigins.LoadGivesSettings | src/os/driver_settings.cpp:697-796 | over every run a load gives out a handle of the name asked for, with the settings of the file if it reads it, and otherwise those of the text the handle was preloaded or made with, unless they are lost |
| SettingsHandles.KernelSettings.constructor | src/os/driver_settings.cpp:618-663 | the table starts with the preloaded settings, not parsed, one reference on the safe mode settings |
| SettingsHandles.KernelSettings.LoadDriverSettings | src/os/driver_settings.cpp:697-796 | a load takes the table to the state and handle of the load step |
| SettingsHandles.KernelSettings.UnloadDriverSettings | src/os/driver_settings.cpp:671-694 | an unload takes the table to the state of the unload step and refuses a handle that is not parsed |
| ElfSymbols.HashFits | src/os/elf.cpp:293-306 | no hash value reaches the upper four bits, so that the shift never loses any |
| ElfSymbols.FoldMeans | src/os/elf.cpp:301-304 | a step takes the upper four bits off and puts them back as bits 4 to 7 |
| ElfSymbols.HashOfLonger | src/os/elf.cpp:293-306 | the hash value of a name with one more character is that of the name, shifted by four bits, plus the character, in 32 bits and folded; that of no name is 0 |
| ElfSymbols.ElfHash | src/os/elf.cpp:293-306 | the loop computes the System V hash of the name |
| ElfSymbols.ChainDistinct | src/os/elf.cpp:600-601 | a chain that ends visits no symbol twice |
| ElfSymbols.WalkMeaning | src/os/elf.cpp:596-694 | the walk returns the first symbol of the chain that may be returned at once, without one the only remembered symbol, and otherwise nothing |
| ElfSymbols.ScanMeans | src/os/elf.cpp:601-691 | which symbols may be returned, at once or if there is no other: by section, binding, name, version index and the bit that hides a version |
| ElfSymbols.LookupAgreesWithScan | src/os/elf.cpp:589-694 | lookup fails exactly if a scan of the whole table finds nothing admissible, and uniqueness on one chain is uniqueness in the table |
| ElfSymbols.ElfFindSymbol | src/os/elf.cpp:589-694 | the loop over chain and versions computes the lookup |
| ElfSymbols.ElfResolveSymbol | src/os/elf.cpp:984-1055 | the method computes the resolution, local and weak references and the type check included |
| ElfSymbols.StrongDefinitionWins | src/os/elf.cpp:1012-1029 | the only definition, or the only one that is not weak, is the one the reference is bound to, whichever image it is in: its value moved by the delta of that image, or a failure if it is of another type |
| ElfSymbols.FlagMattersForTiesAlone | src/os/elf.cpp:993-998 | symbolic linking changes the outcome for ties only |
| ElfSymbols.TiesFollowSearchOrder | src/os/elf.cpp:993-1029 | with two strong or two weak definitions the reference is bound to the one of the image asked first |
| ElfSymbols.ResolvedMeans | src/os/elf.cpp:1031-1055 | a resolved reference is a weak one at 0 with no definition anywhere, or is a definition of its own name and type, at its value moved by the delta of its image in 64 bits |
| ElfSymbols.LocalIsItself | src/os/elf.cpp:988-992 | a local reference is its own symbol moved by the delta of its own image, whatever the other image has |
| ElfSymbols.WantedMeans | src/os/elf.cpp:1002-1009 | a reference asks for the version it was linked with, and for none without versions or below the first real one |
| ElfSymbols.UnresolvedMeansUndefined | src/os/elf.cpp:1031-1041 | a reference has no definition exactly if in each image a scan of the symbol table finds nothing to bind it to, or there is no table; it is then at 0 if it is weak, and fails otherwise |
| ElfNearestSymbol.AboveIsFarAway | src/os/elf.cpp:1643-1655 | the wrapped distance rules out a symbol above the address, unless nearly the whole address space is between them |
| ElfNearestSymbol.FoundIsUnique | src/os/elf.cpp:1631-1657 | at most one symbol and one answer are the first covering symbol or else the first nearest one, so that the searches cannot differ |
| ElfNearestSymbol.DistanceMeans | src/os/elf.cpp:1643-1645 | the distance is how far the address lies behind the moved symbol, modulo 2^64 |
| ElfNearestSymbol.FoundMeans | src/os/elf.cpp:1631-1657 | what is found against any other symbol with an address and a size below the limit: none in front covers the address, and without one that does none is nearer, nor within 2^31 - 1 bytes if nothing is found |
| ElfNearestSymbol.SearchDebugSymbols | src/os/elf.cpp:1631-1657 | the first considered symbol that covers the address, else the first of the nearest ones in front of it |
| ElfNearestSymbol.SearchHashChains | src/os/elf.cpp:1658-1687 | the walk through all chains finds what a search through the symbols in chain order finds |
| ElfNearestSymbol.MayContainMeans | src/os/elf.cpp:180-187 | an image is asked for the addresses from the start of a region to the byte behind it |
| ElfNearestSymbol.FindImageAtAddress | src/os/elf.cpp:170-193 | the first image with a region that contains the address or ends at it, and none exactly if there is no such image |
| ElfNearestSymbol.AnswersMean | src/os/elf.cpp:1602-1727 | an answer has the name of the image and a symbol of it with its moved value as the base, exact if the address is inside, and no other symbol is nearer; without one it has the start of the text |
| ElfNearestSymbol.LookupSymbolAddress | src/os/elf.cpp:1602-1727 | an address in no image has no answer; otherwise the answer names that image, the symbol found and the base address, and an exact match covers the address |
| ElfMemoryImage.NameReadsBack | src/os/elf.cpp:2498-2557 | whatever has been added since, every symbol's name reads back from its offset |
| ElfMemoryImage.OffsetsIncrease | src/os/elf.cpp:2522-2535 | name offsets increase strictly, never overlap and are never 0 |
| ElfMemoryImage.LastNameEnds | src/os/elf.cpp:2509-2520 | the string table ends where the last name ends |
| ElfMemoryImage.MemoryImage.FindStringTableSize | src/os/elf.cpp:2509-2520 | the backward scan gives the size of the string table |
| ElfMemoryImage.MemoryImage.ReadStringTableSize | src/os/elf.cpp:2660-2669 | the scan for the greatest offset gives the same size |
| ElfMemoryImage.MemoryImage.AddSymbol | src/os/elf.cpp:2498-2557 | adding a symbol extends both tables and leaves all that was there |
| ElfMemoryImage.MemoryImage.LookupSymbol | src/os/elf.cpp:1754-1787 | in an image with symbols: the first symbol of that name with an address, and 0 exactly if there is none; without symbols the search is left to the hash table |
| ElfLayout.PagesEnd | src/os/elf.cpp:2198-2202 | in wrapping sums, the page-rounded area of a segment ends at the page-rounded end of the segment or one address space behind it |
| ElfLayout.ReservedCovers | src/os/elf.cpp:2187-2208 | the reserved size is at least the 64-bit end of every loaded segment |
| ElfLayout.ReservedIsAnEnd | src/os/elf.cpp:2201-2204 | no more is reserved: one of the loaded segments ends there |
| ElfLayout.KindsMean | src/os/elf.cpp:2253-2283 | a writable segment is data and one with code is text; one that is both is text if no other has code, and data otherwise |
| ElfLayout.ChosenIsPlaced | src/os/elf.cpp:2227-2301 | the region of a kind is that of its first segment that takes room, or of its last one if none does, placed relative to the reserved base |
| ElfLayout.MeasureSegments | src/os/elf.cpp:2187-2208 | the first pass computes reserved size, summed size and the number of executable segments in 64 bits |
| ElfLayout.LayOut | src/os/elf.cpp:2187-2318 | a range is refused exactly if it is larger, as a signed number, than its segments and 8192 bytes; otherwise both areas and deltas are those of the chosen segments |
| ElfLayout.RefusedExactly | src/os/elf.cpp:2210-2215 | segments of less than 2^63 bytes together are refused exactly if the range exceeds them by more than 8192 bytes and is itself below 2^63 |
| ElfLayout.PlaceSegments | src/os/elf.cpp:2224-2301 | the second pass gives each kind the area of its first segment with any room |
| ElfLayout.AreasInsideReservation | src/os/elf.cpp:2187-2318 | the delta of an area is the reserved base, so that an address maps alike through either region, and the area is inside the reserved range exactly if its segment begins before its 64-bit end |
| ElfLayout.NothingWrapsIsEnough | src/os/elf.cpp:2187-2318 | if no loaded segment ends beyond the address space, both areas are inside the reserved range |
| ElfLayout.WrappedSegmentIsOutside | src/os/elf.cpp:2198-2215 | a data segment that wraps passes the check for unused space, and its area is put in front of the reserved range |
| CpuTopology.SparsePaths | src/os/cpu.cpp:181-206 | ids lead to a node exactly if some CPU has them on that level and above |
| CpuTopology.SparseLeaf | src/os/cpu.cpp:252-274 | a leaf is a CPU that has the ids leading to it |
| CpuTopology.LeavesAreTheCpus | src/os/cpu.cpp:235-276 | the leaves are the CPUs, each once, exactly if no two have the same ids; otherwise one is lost |
| CpuTopology.RebuildMeaning | src/os/cpu.cpp:211-231 | rebuilding leaves no gap, keeps the leaves and their order and numbers the nodes of a level on from its last id |
| CpuTopology.TopologyIsDense | src/os/cpu.cpp:211-282 | the finished tree has no gaps, its leaves are the CPUs, and the nodes of a level are numbered 0, 1, 2 in depth-first order |
| CpuTopology.SharingFollowsIds | src/os/cpu.cpp:181-282 | two CPUs share a node of the finished tree exactly if their ids agree on its level and above |
| CpuTopology.CountPlaces | src/os/cpu.cpp:238-251 | the loops give every level one place more than its greatest id |
| CpuTopology.GreatestIsAnId | src/os/cpu.cpp:241-248 | no CPU has a greater id, and one has that id, so that no place is missing and the last one is taken |
| CpuTopology.BuildTopologyTree | src/os/cpu.cpp:235-282 | the loops over CPUs and levels build the finished tree, with every id inside its level |
| CpuTopology.RebuildTopologyTree | src/os/cpu.cpp:211-231 | the method computes the rebuilt tree and the last ids |
| CpuTopology.MoveChildren | src/os/cpu.cpp:216-230 | the compacting loop moves the children that are there to the front, each numbered and rebuilt |
| CpuEnable.DisableRefused | src/os/cpu.cpp:377-393 | a disable is refused exactly if a single CPU is enabled, and otherwise leaves one enabled |
| CpuEnable.FlagsAfterCall | src/os/cpu.cpp:365-406 | a call changes no other flag; a number that is none and the last enabled CPU are refused and change nothing; otherwise the CPU is enabled or disabled as asked for, and the call waits exactly if it disables a CPU that is busy or its own |
| CpuEnable.DisableIsRecorded | src/os/cpu.cpp:386-406 | a disable that is not refused sets the flag and then waits, or returns with the CPU idle |
| CpuEnable.TurnMeans | src/os/cpu.cpp:399-415 | at its turn a waiting call returns exactly if its CPU is idle or enabled, and otherwise nothing changes |
| CpuEnable.StepSafe | src/os/cpu.cpp:365-418 | every call, continuation and change of what runs keeps a CPU enabled and every wait justified |
| CpuEnable.NeverTheLastCpu | src/os/cpu.cpp:365-418 | over every interleaving a CPU stays enabled, and a disable that returned success found its CPU idle or enabled again by another thread |
| CpuEnable.ReenabledReturns | src/os/cpu.cpp:397-415 | over every interleaving: a waiting disable whose CPU a call enables returns at its next turn, unless that CPU is disabled once more |
| CpuEnable.SetCpuEnabled | src/os/cpu.cpp:365-406 | the first critical section changes the flags and returns, waits or refuses as the step does |
| CpuEnable.AfterYield | src/os/cpu.cpp:397-415 | what follows each time the lock is taken again |
| AllocationBooks.NoDuplicatesMeans | src/os/debug.cpp:273-487 | no block is at two places of the list, of the reallocations under way, or in both |
| AllocationBooks.StepSound | src/os/debug.cpp:273-487 | every critical section, and every move of a block between two of them, keeps the counter equal to the sum of all sizes and the blocks distinct |
| AllocationBooks.EveryInterleavingConserves | src/os/debug.cpp:273-487 | over every interleaving in which no address in use is handed out, the old address of a moved block being free again: the counter is the sum of listed sizes and old sizes inside reallocations, and the peak is its running maximum |
| AllocationBooks.OldAddressIsReused | src/os/debug.cpp:396-428 | while a moved block is not listed yet, another thread can get and list its old address, and both blocks are counted |
| AllocationBooks.MovedBlockReturns | src/os/debug.cpp:396-440 | the moved block is then listed next to the block at its old address, and freeing that one takes off its own size |
| Allocation.Tracer.Link | src/os/debug.cpp:299-301 | a block goes to the front of the doubly linked list with all links right |
| Allocation.Tracer.Search | src/os/debug.cpp:371-382 | the first entry of that address and its place, or none |
| Allocation.Tracer.Unlink | src/os/debug.cpp:374-381 | an entry leaves the list, and the links of all others are right again |
| Allocation.Tracer.Malloc | src/os/debug.cpp:273-312 | a block at any address that is not in use, new or used before, goes on the list, and the books record it |
| Allocation.Tracer.Free | src/os/debug.cpp:444-487 | the list stays well formed and the books release the block, or nothing happens for an address not listed |
| Allocation.Tracer.ReallocDetach | src/os/debug.cpp:365-394 | the first critical section takes the block off the list, clears its links and leaves the counter alone |
| Allocation.Tracer.Reallocate | src/os/debug.cpp:393-419 | `realloc` outside the lock moves the block to the granted address with its header, or fails and leaves it; the books keep its old size |
| Allocation.Tracer.ReallocAttach | src/os/debug.cpp:418-434 | the second critical section lists the block where it is now and exchanges its old size for the new one without going below zero |
| Allocation.Tracer.Perform | src/os/debug.cpp:273-487 | in whatever thread, a critical section or the move of a block takes list, links and counters to the books of that step, and no header of a block that another thread is reallocating changes |
| Allocation.Tracer.PerformAll | src/os/debug.cpp:273-487 | over every interleaving of all threads the list stays well formed and follows the books, and the counter is what the blocks count for |
| Allocation.Tracer.Realloc | src/os/debug.cpp:358-441 | a reallocation takes the steps detach, move and attach, or those of an allocation or a release for a null pointer or a size of zero, and returns the granted address or none |
| DirectoryPaths.FollowSplits | src/os/fs.cpp:409-427 | a path is followed to a slash in it, where there has to be a directory, and on from there |
| DirectoryPaths.ResolveJoined | src/os/fs.cpp:326-328 | resolving a joined path is going down along its names |
| DirectoryPaths.NamesLead | src/os/fs.cpp:283-330 | the canonical path consists of proper names and leads to its directory |
| DirectoryPaths.NamesAreUnique | src/os/fs.cpp:283-330 | no other list of proper names leads there |
| DirectoryPaths.CanonicalPathIsTheOne | src/os/fs.cpp:283-330 | the canonical path is the one absolute path without dots that resolves to the directory |
| DirectoryPaths.FindDirEntry | src/os/fs.cpp:203-235 | whatever order the entries are listed in, the search finds the name under which the parent has the directory |
| DirectoryPaths.NormalizeDirPath | src/os/fs.cpp:283-330 | climbing up ends and gives the canonical path, or fails for what is no directory |
| DirectoryPaths.NormalizePath | src/os/fs.cpp:332-340 | a path that resolves to a directory is normalized to its canonical path, any other fails |
| DirectoryPaths.DirPathMap.GetPath | src/os/fs.cpp:390-436 | a cached path is returned only while it resolves to its directory, and is dropped otherwise |
| DirectoryPaths.DirPathMap.AddDirPath | src/os/fs.cpp:483-489 | the canonical path is cached, and nothing if normalizing fails |
| DirectoryPaths.CachedPathIsCurrent | src/os/fs.cpp:403-427 | over every run of adds, gets and changes of the tree: a path is given from the cache exactly if the cache has the canonical path the directory has now, and it is that path |
| DirectoryPaths.AddedPathIsGiven | src/os/fs.cpp:403-489 | after an add over any run the cache gives the canonical path of the directory the added path leads to; the paths of all others stay, and all do if it leads to none |
| DirectoryPaths.StalePathIsDropped | src/os/fs.cpp:403-427 | a get over any run leaves the path of the directory exactly if it is the current one, and the paths of all others as before |
| FindPaths.ExpandedMeans | src/os/find_paths.cpp:434-445 | the first placeholder gives way to a slash and the architecture, or to nothing |
| FindPaths.PathMeans | src/os/find_paths.cpp:425-453 | a path is the location, the relative path with the architecture in place of its placeholder, and the sub-path behind a slash |
| FindPaths.CreationMeans | src/os/find_paths.cpp:461-473 | the directory that the flags ask for is created: the path, or what stands in front of its last slash, or none |
| FindPaths.SearchMeans | src/os/find_paths.cpp:670-715 | a search reports the paths of the two user locations, unless only those of the system are wanted, and then of the two system ones, unless only those of the user are; a missing relative path, the first directory that cannot be created, and nothing to report are its errors, in this order |
| FindPaths.RelativePathMeans | src/os/find_paths.cpp:170-233 | each base directory has a relative path, but for those of an image and a package; it is the same in all locations but for the settings in the second one, and has a placeholder where the architecture matters |
| FindPaths.QueryMeans | src/os/find_paths.cpp:649-660 | the architecture is the one asked for, or the caller's own, and is left out if it is the primary one |
| FindPaths.PackedReadsBack | src/os/find_paths.cpp:720-723 | each of several packed strings reads back from its start |
| FindPaths.AddSize | src/os/find_paths.cpp:687-691 | the sums with `size_t` wrap-around come out at the exact length of the path, also where one summand is below zero |
| FindPaths.ComputeSize | src/os/find_paths.cpp:674-691 | the total is the exact size of the paths of all considered locations |
| FindPaths.RoomIsLeft | src/os/find_paths.cpp:700-718 | however many paths were skipped, the next one fits, so that no overflow is ever reported |
| FindPaths.PathBuffer.Append | src/os/fs_path_buffer.h:35-45 | as much of the text as fits stands in front of a NUL, all of it is counted, and nothing outside the buffer changes |
| FindPaths.ProcessPath | src/os/find_paths.cpp:425-483 | location, expanded relative path and sub-path are written with a NUL, and nothing outside the given space changes |
| FindPaths.FindPathsEtc | src/os/find_paths.cpp:643-725 | the reported paths are packed into storage of exactly the computed size, with the place of each, or the error is the one due |
| FindPaths.StorageMeans | src/os/find_paths.cpp:643-725 | each reported start reads back as its path, and without the flag for existing entries the paths fill the storage |
| DebugMemory.PiecesDoNotMatter | src/os/debug_support.cpp:140-170 | however the nub cuts it into pieces, a transfer gets as far as the memory is accessible |
| DebugMemory.StringPiecesDoNotMatter | src/os/debug_support.cpp:174-215 | a string ends at its NUL, at the end of the buffer or at the first inaccessible byte, whatever the pieces |
| DebugMemory.PrefixIsAccessible | src/os/debug_support.cpp:140-170 | the length a transfer gets to is where the first inaccessible byte is: all bytes in front of it are accessible |
| DebugMemory.FirstByteDecides | src/os/debug_support.cpp:140-215 | an error is returned exactly if the first byte is not accessible; otherwise the number of bytes transferred, or the length of the string, even if an error ended it |
| DebugMemory.ReadMemory | src/os/debug_support.cpp:140-170 | the loop ends, and the buffer has the remote bytes for the returned length and nothing else changed |
| DebugMemory.ReadString | src/os/debug_support.cpp:174-215 | the buffer always has a NUL and holds the remote string up to its end, the end of the buffer or the failing read |
| DebugMemory.WriteMemory | src/os/debug_support.cpp:251-280 | the returned number of bytes has been written to remote memory and nothing else changed |
| DebugMemory.ReadsBack | src/os/debug_support.cpp:140-280 | a write and a read answered by the same accessibility get equally far and return what was written |
| BootSplash.StagesTile | src/os/boot_splash.cpp:240-241 | every column of the strip belongs to one stage and no other |
| BootSplash.StripFits | src/os/boot_splash.cpp:230-243 | the strip is inside the columns of the screen, and inside its rows exactly from 136 rows on |
| BootSplash.StripIsCentred | src/os/boot_splash.cpp:230-243 | the strip is 308 by 40 pixels or what the screen has of them, in the middle of the columns and of the rows behind the logo, and the stages share it evenly |
| BootSplash.ColoursAreKept | src/os/boot_splash.cpp:39-162 | a converted pixel has the upper bits of the three colours side by side, or all of them |
| BootSplash.OtherDepthsShowNothing | src/os/boot_splash.cpp:158-187 | a depth other than 8, 15, 16, 24 or 32 leaves every byte alone |
| BootSplash.BlitCropped | src/os/boot_splash.cpp:39-195 | exactly the bytes of the cropped pixels change, and become the converted pixels |
| BootSplash.SetStage | src/os/boot_splash.cpp:224-246 | a stage changes its own bytes of the strip and no others, at every depth, wherever the rows of the strip are in memory |
| BootSplash.OrderDoesNotMatter | src/os/boot_splash.cpp:224-246 | after any stages in any order a byte shows the strip exactly if its stage has come |
| BootSplash.AllStagesShowTheStrip | src/os/boot_splash.cpp:224-246 | all stages in any order show the whole strip and nothing else |

## Left out

- Allocation and lock failures, and the counters' 32- and 64-bit limits; memory and counts are unbounded.
- A file with a NUL inside: a text ends at its NUL, and its size is that of the text.
- A text that is left at its end: the model stops with an outcome of its own, as what is read there is not defined.
- `get_driver_parameter`, `get_driver_boolean_parameter`, `delete_driver_settings` and `parse_driver_settings_string`: plain accessors of the parsed tree.
- The boot-mode and user-land builds of the settings; the driver's file is given as its content or as unreadable.
- SettingsHandles.KernelSettings.UnloadDriverSettings: a handle that has been freed is not a legal argument, and the magic number stands for having been parsed.
- SettingsHandles.KernelSettings.LoadDriverSettings: handles are numbers in a map, and the list holds their numbers; what a failed parse leaves in a handle, parameters whose names point into freed text, is marked as such and not described.
- SettingsRoundTrip.RoundTrip: trees with an empty word, other than a name left out in front of an assignment, or with a first value of nothing but equals signs are not covered; no text of their own is printed for such a word, or all of it is skipped.
- ElfSymbols.ElfFindSymbol: the version table is given; how it is read from the image is not modelled.
- ElfMemoryImage.MemoryImage.AddSymbol: areas, their growth and the narrowing of the name offset to 32 bits are left out.
- ElfMemoryImage.MemoryImage.LookupSymbol: an image without symbols has an outcome of its own; the code then follows a hash table that such an image does not have.
- ElfLayout.LayOut: reading, mapping and protecting the areas are left out; the sum `length + 8 * 1024`, which is signed, is taken to wrap.
- ElfLayout.AreasInsideReservation: the reserved range itself does not run over the end of the address space.
- ELF section headers, relocation, user images, debugger commands and symbol lookup in other teams.
- CpuTopology.BuildTopologyTree: nodes and their arrays of children are values that the loops rebuild, not arrays changed in place; only the order of children, not their storage, is captured.
- CpuEnable.SetCpuEnabled: the scheduler call sets the flag and nothing else; yielding ends the critical section and other threads' calls come between.
- Allocation.Tracer.Malloc: `b_calloc` is an allocation of the product of its arguments; the recorded file, line and method are left out.
- Allocation.Tracer.Realloc: it runs with no other thread's section in between; that other sections may come between its steps is `PerformAll`.
- Allocation.Tracer.PerformAll: clearing the links of a detached block, which is done without the lock, is part of the step that detaches it, as no other thread can reach the block.
- DirectoryPaths.NormalizeDirPath: no symbolic links and no mount points, and every directory can be read, so that guessing a path from the working directory is left out.
- DirectoryPaths.DirPathMap.GetPath: node references have no device part.
- FindPaths.ProcessPath: creating directories and looking for entries are answers of the host.
- FindPaths.FindPathsEtc: the array of pointers in front of the strings is a list of offsets, the home directory is given, and all the paths together are shorter than `size_t` can count.
- DebugMemory.ReadMemory: the context is attached, waiting and interrupted messages end in a reply, and the remote memory does not change during a read.
- BootSplash.BlitCropped: the five blits are one method with the pixel sizes and the conversion as parameters; the frame buffer is an array of rows, and fields of a pixel are added, as they do not overlap.
- BootSplash.SetStage: on a screen of 1 to 135 rows the strip needs rows behind the last one of the screen, which are to be in memory; writing where they are not is outside the model, and widths and heights fit into 16 bits.
- `create_directory`, `normalize_longest_existing_path_prefix`, `guess_normalized_dir_path`: they depend on the host file system alone.
- Atomics, byte swaps, error maps, the remaining system call wrappers and everything outside `src/os`.
