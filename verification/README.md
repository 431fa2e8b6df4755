# Verified model of r-boot

r-boot is a UEFI boot loader that hands control to a kernel through raw physical
memory, together with a command line tool and an installer that edit its
configuration. This project models its core in Dafny and proves what the other
side of each hand-over will find: the processor walking the page tables, the
kernel reading its image and its requests, the next boot reading the
configuration, the user looking at the screen, the machine restarted half way
through an installation.

## The parts

**The Limine hand-over.** `LongMode` is the reference: the four-level walk of
AMD64 Architecture Programmer's Manual Volume 2, section 5.3, with bit 7 of a
directory entry as leaf, writable as the conjunction and no-execute as the
disjunction over the levels. `PageWords`, `PageTree`, `Firmware` and `Paging`
are the table builder of `paging.rs` as a class that stores words into pages it
gets from the firmware; `BootMap` relates the finished tables to the address map
the kernel is promised. `Elf`, `ElfLayout` and `Loader` place the image,
`Responses` patches the requests in it, `ExecutableBase` examines the base
addresses it reports, and `Handoff` puts the steps of `boot_limine` together.
`MemoryMap` is the sweep of the firmware's memory map against the special ranges
(UEFI Specification 2.11, section 7.2.3).

The firmware's allocator is a script of answers, read one a call. An answer
that breaks the UEFI contract counts as a failed call, so the theorems quantify
over every behaviour of the real service, failure at any point included.

**The configuration.** `Text` and `ConfigLines` give the text operations and the
classification of a line that all readers share. `BootConfig` is the boot
loader's parser and its early single-key readers, compared in `EarlyReaders`; `FastbootRewrite`, `Settings`,
`SettingsMeaning` and `SettingsRepeat` are the rewriters that keep lines;
`BootTables` says field by field what an entry is in terms of its lines;
`CliConfig`, `CliRoundTrip`, `CliBoot` and `CliPreserves` are the tool, its round
trips, and what its rewriting does to the boot menu; `EarlyWrites` is what both do
to the early readings, and `TableTexts` makes the texts shown as examples.

**Step systems.** `Screen`, `MenuLoop` and `MenuSafety` are the menu as a machine
over keys and ticks with its cursor-addressed updates, and `MenuUi` the loops of
`select` and `edit_config` refining it; `MenuRuns` says what each key does. `InstallText`, `InstallMenu`, `Generations` and
`Installer` are the installer over a disk on which any call may fail, a write
leaving any garbage behind; every state after a call is recorded.
`ConsolePaths`, `Completion` and `ShellWords` are the console's path resolution
and completion and the splitter for GRUB command lines.

## What the code takes for granted

These are preconditions of the theorems, because the code does not check them.

- Page-rounded segments do not wrap (`Handoff.NoWrap`). They may overlap each
  other; the last one mapped is seen.
- `elf.rs:91` admits segments inside the HHDM window, and `child_table`
  (`paging.rs:100-102`) takes the window's leaf for a table, so the entries of
  their pages go astray into the memory the window maps. The theorems describe
  this, but where a whole boot is concerned they assume that none of the pages
  hit is or becomes a page table (`Handoff.SegmentHarmless`). For a single page
  `BootMap.MapSegmentPage` needs no such assumption; the frame asked for is not
  itself a page table, since the firmware gives no page twice.
- The physical end, the greatest end in the firmware's map, is at most 2^47.
- For the capacity bound and the sorted map, the firmware's descriptors are
  disjoint.
- For the installer: names of store files hold no line feed or comment sign and
  do not end in the temporary suffix of the running process, and texts of a
  generation are of one line. That the old configuration boots is not assumed:
  what is promised of it is promised if it does and names no such file.

Nothing is assumed about file ranges of segments: a cell lying in two of them
is stored into the first (`Responses.OwnerIsFirst`).

## Where the code does less than its documentation says

- The README of r-boot documents a Limine entry with a `kernel` key. r-boot-cli
  does not know the key, and rewriting the file loses the entry
  (`CliPreserves.DocumentedLimineEntryIsLost`). Which tables survive is
  `CliPreserves.TableSurvivesIff`.
- The Executable Address response is right exactly when all segments were
  placed at one displacement (`ExecutableBase.BasesDescribeImageIff`); each is
  allocated on its own.
- A save reaches an entry's image only through an id line
  (`SettingsRepeat.SaveReachesIff`); ids made up from the title are not found,
  and an id line that a later one replaced still is (`FormerIdIsReached`).
- Of several fastboot lines the early reader takes the first valid one and the
  tool keeps the last (`EarlyWrites.FastbootSurvivesIff`).
- Saving and disabling fastboot repeat without change exactly when no kept line
  has a second carriage return before its line feed, or one at the end of the
  file (`SettingsRepeat.SaveTwiceIff`, `FastbootRewrite.IdempotentIff`).
- The early readers take the first setting and the parser the last, and the early
  logo reader does not unquote (`EarlyReaders.SpinnerAgreesIff`, `LogoAgreesIff`).
  On files written by a save they agree (`SettingsMeaning.EarlyReadersAgree`).
- A countdown of 10^13 seconds or more is not cleared from the screen by a key
  that leaves the rows in place (`MenuSafety.ScreenFaithfulIff`).
- The installer compares no contents: an old file, or another store file, of the
  same name stands for the one needed (`Installer.InstalledRightIff`,
  `NamesCollide`).
- The command splitter drops empty quoted words (`ShellWords.EmptyWordsAreLost`).

## Model

| member | source | states |
|---|---|---|
| LongMode.SamePathIffSamePage | crates/r-boot/src/paging.rs:134-145 | two addresses have equal pml4, pdpt, pd and pt indices exactly when their low-48-bit page numbers are equal |
| LongMode.CanonicalPathInjective | crates/r-boot/src/paging.rs:134-145 | on canonical addresses the four indices name the page, so distinct pages never share a last-level slot |
| PageWords.TableWordFacts | crates/r-boot/src/paging.rs:104-110 | the word linking a child table is present, writable, not a leaf, executable, and carries the table address for every possible page |
| PageWords.HugeWordFacts | crates/r-boot/src/paging.rs:49-56 | the word of a 2 MiB leaf is read by the processor as a writable, executable leaf of exactly that frame |
| PageWords.LeafWordFacts | crates/r-boot/src/paging.rs:61-92 | the word of a kernel page is writable iff asked, no-execute iff asked, and carries the frame, for every frame below 2^52 |
| PageWords.WordsInNumbers | crates/r-boot/src/paging.rs:78-88 | the three words as numbers: a link is the address plus 3, a 2 MiB leaf the address plus 0x83, a page the address plus 1, plus 2 if writable, plus 2^63 if no-execute |
| PageWords.WindowLeafReadAsTable | crates/r-boot/src/paging.rs:94-103 | why segments must stay off the HHDM window: decoded by `child_table`, a window leaf names the very memory it maps, so entries would be stored there |
| PageTree.WalkIsLookup | crates/r-boot/src/paging.rs:94-112 | on a tree of tables the hardware walk (leaf test, writable AND, no-execute OR) never goes wild and equals the lookup by place, so permissions are never narrowed on the way down |
| PageTree.LinkKeepsTree | crates/r-boot/src/paging.rs:94-112 | linking a fresh zeroed table into an empty slot keeps the tables a tree and changes no translation |
| PageTree.LeafKeepsTree | crates/r-boot/src/paging.rs:61-92 | a last-level store keeps the tree and decides one page and no other |
| PageTree.FillKeepsTree | crates/r-boot/src/paging.rs:49-56 | filling a directory with 2 MiB leaves keeps the tree and decides exactly its gigabyte |
| PageTree.OnePathToEachTable | crates/r-boot/src/paging.rs:39-112 | every table page is reached by exactly one (level, index) path |
| Firmware.Machine.AllocateTable | crates/r-boot/src/paging.rs:127-132 | succeeds exactly when the firmware grants a page: one unused before, zeroed, aligned, non-null and disjoint from every table and data page; a refusal is counted and changes nothing |
| Firmware.Machine.AllocateLow | crates/r-boot/src/main.rs:248-253 | the same for a run of pages below 4 GiB |
| Paging.PageTables.ChildTable | crates/r-boot/src/paging.rs:94-112 | returns the existing child or links a new one: the tree stays valid, no translation changes, and it fails exactly on a refused allocation, so "invalid page table entry" needs a window leaf; of a leaf it returns the page that the leaf maps, or that error, and changes nothing |
| Paging.PageTables.Map2MWindow | crates/r-boot/src/paging.rs:39-59 | fails exactly on a refused allocation; after success or failure exactly the first `done` gigabytes translate to their frames and every other translation is the old one |
| Paging.PageTables.MapIdentityFirst4G | crates/r-boot/src/paging.rs:27-29 | the same for the identity map: all four gigabytes unless an allocation is refused |
| Paging.PageTables.MapHhdmThrough | crates/r-boot/src/paging.rs:31-37 | the window covers max(4, physical end rounded up) whole gigabytes; it fails exactly when the rounding overflows, before any write, or an allocation is refused |
| Paging.PageTables.MapRange | crates/r-boot/src/paging.rs:61-92 | fails exactly when the rounding overflows, an allocation is refused, or a page is under the leaf of the null page; exactly the first `done` pages of the range, those under a window leaf apart, translate to their own frames with the segment permissions, everything else as before, and memory differs by exactly the entries gone astray |
| Paging.PageTables.MapPage | crates/r-boot/src/paging.rs:75-90 | one page at any address: off the windows it is mapped unless an allocation is refused; under a window leaf it is not, the entry goes into the page that leaf maps first, data or table, because the HUGE test is missing; it fails there only if that is the null page |
| Paging.StrayWalk | crates/r-boot/src/paging.rs:100-102 | an entry gone astray into a table changes the walk of its own page iff it lands in a slot of that walk, which then leaves the tables |
| Paging.GigabyteMapped | crates/r-boot/src/paging.rs:41-57 | a linked and filled directory changes precisely the 512 paths of its gigabyte |
| Paging.PageMapped | crates/r-boot/src/paging.rs:80-88 | the stored leaf has the requested frame and permissions and leaves all other pages alone |
| Paging.DistinctDirectories | crates/r-boot/src/paging.rs:39-48 | the directories of one window never coincide, so no directory is linked twice |
| BootMap.SameDirectoryIffSameGigabyte | crates/r-boot/src/paging.rs:134-140 | canonical addresses share a page directory exactly when they are in the same gigabyte |
| BootMap.BootMapIsPromised | crates/r-boot/src/main.rs:213-225 | at every one of the 2^64 addresses the walk equals the promised map: low 4 GiB to itself, HHDM+x to x, pages of segments outside these windows with W and NX from the program header, a fault everywhere else |
| BootMap.WindowsAt | crates/r-boot/src/paging.rs:39-59 | an address is under a 2 MiB leaf iff it is in one of the windows, and the frame of that leaf |
| BootMap.SegmentsKeepWindows | crates/r-boot/src/paging.rs:100-102 | segments neither hide a window nor make one |
| BootMap.MapKernel | crates/r-boot/src/main.rs:215-225 | the mapping steps, in the order of the code, for segments anywhere in the higher half: they fail exactly on a refused allocation or a segment over the null page, and else build a tree whose walk is the promised map, memory differing by exactly the entries gone astray; off the windows an address of a segment is writable iff bit 1 of its flags is set and no-execute iff bit 0 is clear |
| BootMap.FlagsSeen | crates/r-boot/src/paging.rs:78-84 | the same from the walk alone: the segment seen at an address decides, by the digits of its flags |
| BootMap.HhdmIsLeast | crates/r-boot/src/paging.rs:31-37 | the HHDM window reaches the physical end and is the least whole number of gigabytes, at least four, that does |
| BootMap.MemoryIsVisible | crates/r-boot/src/main.rs:213-216 | in numbers: the low 4 GiB stand at their own addresses, and every physical address below the physical end, or below 4 GiB, 0xffff800000000000 higher, writable and executable |
| BootMap.MapSegmentPage | crates/r-boot/src/main.rs:218-225 | the exact condition for a page of a segment at any canonical address, wherever its entry goes: the processor sees what the program header asks iff the page is off the windows, or asks for what the window has there anyway and the entry does not land in a slot of the walk to it |
| BootMap.StraysElsewhere | crates/r-boot/src/paging.rs:75-90 | memory changes at no byte but those under an entry gone astray |
| ElfLayout.WrittenFileParses | crates/r-boot/src/elf.rs:39-75 | for every ELF64 file header in the layout of the ELF specification: parse succeeds iff it is a little-endian x86-64 ET_EXEC with 56-byte program headers inside the file, and returns its entry point and table |
| ElfLayout.WrittenHeaderReads | crates/r-boot/src/elf.rs:77-115 | for every `Elf64_Phdr`: skipped iff not PT_LOAD, accepted iff higher-half, aligned and inside the file, and then field for field the header that was written |
| Elf.LoadSegments | crates/r-boot/src/elf.rs:77-115 | the loop returns all accepted segments in header order, or the error of the first rejected header |
| Elf.HeadersReadable | crates/r-boot/src/elf.rs:67-115 | after a successful parse no header read can run off the file, and accepted segments satisfy every check |
| Elf.SegmentsAccepted | crates/r-boot/src/elf.rs:77-115 | so loading a parsed file never reports a truncated header, and every segment it returns is sound |
| Elf.PagesForIsLeast | crates/r-boot/src/elf.rs:118-124 | the page count is the least that holds the bytes; it fails exactly on empty and on overflowing segments |
| Loader.Place | crates/r-boot/src/main.rs:246-270 | one segment: fails exactly when it is empty or oversized or the pages are refused; else on fresh pages below 4 GiB, file bytes then zeroes to the end of the last page, no other byte of memory changed |
| Loader.LoadImage | crates/r-boot/src/main.rs:239-275 | all segments, in order, each holding its content at the end, pairwise disjoint in memory; it fails exactly when a header is rejected, a segment empty or oversized, there is none, or pages are refused, and never on a header read |
| Loader.LoadStep | crates/r-boot/src/main.rs:246-270 | placing one more segment preserves the content of all earlier ones |
| Loader.DisjointRunsApart | crates/r-boot/src/main.rs:248-253 | disjoint page runs mean no physical byte belongs to two segments |
| Responses.CellsNeverCoincide | crates/r-boot/src/limine.rs:13-22 | for every file and every match of the scan, the cell written (offset+40 or offset+16) determines the match: no two matches write one cell, because of the actual magic constants |
| Responses.PatchOfIsPatchAt | crates/r-boot/src/limine.rs:207-260 | a cell counts as patched only if the scan really finds a match that writes it |
| Responses.OwnerIsFirst | crates/r-boot/src/limine.rs:488-505 | a cell is stored into the first segment whose file bytes contain it whole, and into none if there is no such segment |
| Responses.WriteAtOffset | crates/r-boot/src/limine.rs:488-505 | writes 8 bytes at the owner or fails with memory unchanged |
| Responses.WriteResponses | crates/r-boot/src/limine.rs:180-263 | succeeds iff all segments are below 4 GiB and every match has an owner; memory is then the loaded image with exactly the cells of the matches replaced, all else untouched; else it stops at the first match without an owner, those before it written; which value each id gets is ResponsesByNumber |
| Responses.AnswerReadsBack | crates/r-boot/src/limine.rs:488-515 | the 64-bit load the kernel does at a request gives the answer to that request, and zero at a base-revision tag |
| Responses.ResponsesByNumber | crates/r-boot/src/limine.rs:15-21 | after the patching the 64-bit word the kernel loads at offset 40 of a request is, by the numbers of its id, the memory map, framebuffer or module response or the one boxed for the request |
| Responses.BaseTagByNumber | crates/r-boot/src/limine.rs:210-214 | at the numbers of the base-revision tag the word behind them is zero |
| Responses.OtherWordsAreTheFiles | crates/r-boot/src/limine.rs:207-260 | every other word is the word of the file, so also at offset 40 of a request with any other id |
| ExecutableBase.BasesDescribeImageIff | crates/r-boot/src/limine.rs:196-205 | the reported pair (least physical, least virtual base) describes the image exactly when all segments were placed at one displacement, which separate allocations do not ensure |
| ExecutableBase.BasesAgreeWithWalk | crates/r-boot/src/limine.rs:196-205 | under that condition the physical address the kernel computes is the one the page tables give, at every address of the image outside the windows |
| ExecutableBase.SwappedPlacement | crates/r-boot/src/limine.rs:239-250 | two answers of the firmware with which the loader places two segments so that both computed addresses are wrong |
| Handoff.AcceptedInsideWindow | crates/r-boot/src/elf.rs:91-103 | the reader accepts a segment at the start of the HHDM window, in any file |
| BootMap.SegmentAtGivesAccess | crates/r-boot/src/main.rs:218-225 | with overlapping segments the one mapped last of those covering the address is the one seen |
| Handoff.WrittenPermissions | crates/r-boot/src/paging.rs:78-84 | after a boot, for an address of a segment of the file whose program header was written with flags x + 2w + 4*rest: the page is writable iff w and executable iff x |
| Handoff.BootLimine | crates/r-boot/src/main.rs:208-233 | end to end, segments inside the HHDM window included: it fails exactly when the file does not load, the firmware map is refused, a request lies outside every segment, a segment reaches the leaf of the null page, or an allocation is refused; else all addresses are as promised, each address of the image outside the windows walks to a frame with its segment permissions, the byte there is the patched file byte, or zero past the file size, unless an entry gone astray lies over it, and the memory map is the split of the final firmware map, the HHDM reaching to the end of the reserved one |
| Handoff.ImageNeverUsable | crates/r-boot/src/limine.rs:148-165 | with the ranges of `prepare`, every byte of a loaded segment is reported as kernel memory, or framebuffer where that covers it, whatever the firmware says, and so never as usable |
| Handoff.ModulesNeverUsable | crates/r-boot/src/limine.rs:156-162 | likewise every byte of a loaded module |
| Handoff.FramebufferReported | crates/r-boot/src/limine.rs:163-165 | every byte of the framebuffer that the firmware map holds is reported as framebuffer and as nothing else |
| Handoff.AnswerableIff | crates/r-boot/src/limine.rs:488-505 | whether every request can be answered depends on the file alone |
| Handoff.SeenThroughSegment | crates/r-boot/src/main.rs:208-275 | walking virtual address + i and reading memory gives byte i of the patched segment, off the windows and away from entries gone astray |
| MemoryMap.Storage.constructor | crates/r-boot/src/limine.rs:336-374 | the reserved capacity, and the physical end as the greatest descriptor end, or zero |
| MemoryMap.Storage.Piece | crates/r-boot/src/limine.rs:387-398 | the inner loop returns the next cut and the kind up to it |
| MemoryMap.Storage.Populate | crates/r-boot/src/limine.rs:380-408 | the array receives the full split of the descriptors, or exactly a prefix of it as long as the array; the kinds in it are those of StoredKindsByNumber |
| MemoryMap.ScanIsUniform | crates/r-boot/src/limine.rs:387-398 | all addresses up to the next cut have one kind, though ranges may overlap, be empty or reach the end of the address space |
| MemoryMap.PieceKinds | crates/r-boot/src/limine.rs:384-405 | an address lies in an emitted piece of kind k iff the descriptor holds it and the last special range containing it (else the descriptor type) says k |
| MemoryMap.ReportedKind | crates/r-boot/src/limine.rs:380-420 | the same for the whole map, both directions |
| MemoryMap.KindsByNumber | crates/r-boot/src/limine.rs:411-420 | outside the special ranges, by UEFI type numbers: an address is reported with kind 0 iff a descriptor of type 7 holds it, 2 iff type 9, 3 iff type 10, 4 iff type 8, 5 iff type 3 or 4, and 1 iff a descriptor of any other type does |
| MemoryMap.StoredKindsByNumber | crates/r-boot/src/limine.rs:380-420 | the same of what is stored, as far as the capacity reaches |
| MemoryMap.UsableIffConventionalAndFree | crates/r-boot/src/limine.rs:148-165 | an address is reported usable iff it is CONVENTIONAL in some descriptor and in no special range |
| MemoryMap.OneKind | crates/r-boot/src/limine.rs:380-408 | with disjoint descriptors every address of a descriptor is reported, with one kind only |
| MemoryMap.LoaderDataNeverUsable | crates/r-boot/src/limine.rs:411-420 | with disjoint descriptors loader data, the page tables among it, is never reported usable |
| MemoryMap.PiecesTile | crates/r-boot/src/limine.rs:384-405 | the pieces of a descriptor tile it in order without gap, overlap or empty piece |
| MemoryMap.LengthConserved | crates/r-boot/src/limine.rs:380-408 | total length out equals total length in |
| MemoryMap.MapSorted | crates/r-boot/src/limine.rs:380-408 | sorted disjoint descriptors give a sorted disjoint map, each entry inside one descriptor |
| MemoryMap.PieceCount | crates/r-boot/src/limine.rs:384-405 | a descriptor is cut at most once per range endpoint strictly inside it |
| MemoryMap.CapacitySuffices | crates/r-boot/src/limine.rs:340-347 | with disjoint descriptors, at most 32 more than at reservation, nothing is ever truncated |
| BootConfig.Menu.ParseToml | crates/r-boot/src/menu.rs:445-476 | the line loop, on any state, equals reading the classified lines |
| BootConfig.ReadByTables | crates/r-boot/src/menu.rs:445-476 | settings come from the lines before the first table alone, entries from the tables one by one in order |
| BootTables.EntryOfTable | crates/r-boot/src/menu.rs:582-616 | in terms of the lines of a table: an entry is shown iff a file is named and the last `kind` or `efi` line, if any, says limine, linux or efi; it is an EFI, Limine or Linux entry accordingly, and file, initrds, options, title, id and image are those of its lines |
| BootTables.FastbootWords | crates/r-boot/src/menu.rs:49-58 | which words mean which fastboot mode, the one-shot mode being never taken for the lasting one |
| Text.NumbersRead | crates/r-boot/src/menu.rs:464-464 | which texts are numbers and of what value, digit by digit, sign and limit included |
| BootConfig.ConfiguredSpinnerMode | crates/r-boot/src/menu.rs:661-679 | the early reader gives the first valid spinner line of the header, else the default |
| BootConfig.ConfiguredFastbootMode | crates/r-boot/src/menu.rs:683-701 | likewise for fastboot |
| BootConfig.ConfiguredLogoVisible | crates/r-boot/src/menu.rs:729-745 | likewise for the logo, whose value this reader does not unquote |
| EarlyReaders.SpinnerAgreesIff | crates/r-boot/src/menu.rs:661-679 | for every text: the early spinner reading equals the full parse iff the first and the last valid setting are the same |
| EarlyReaders.LogoAgreesIff | crates/r-boot/src/menu.rs:729-745 | for every text: the logo readings agree iff there is no logo line, or the first line as it stands and the last one that is a truth value once unquoted say the same |
| EarlyReaders.SpinnerTwice | crates/r-boot/src/menu.rs:661-679 | a file of two spinner lines on which the readings differ |
| EarlyReaders.LogoQuoted | crates/r-boot/src/menu.rs:729-745 | a file with one quoted "false" on which they differ |
| EarlyReaders.LogoTwice | crates/r-boot/src/menu.rs:729-745 | a file of two logo lines on which they differ |
| ConfigLines.ReadBack | crates/r-boot/src/menu.rs:445-452 | lines written out and read back keep their meaning |
| ConfigLines.WrittenPair | crates/r-boot/src/menu.rs:777-786 | a written `key = value` line is read as that pair through comment stripping, splitting and trimming |
| ConfigLines.ReadValuesAreClean | crates/r-boot/src/menu.rs:777-786 | no value that is read ever contains a comment sign, a line feed or outer blanks |
| Text.LinesOfUnlines | crates/r-boot/src/menu.rs:835-876 | splitting joined lines gives the lines back, up to one trailing carriage return each |
| FastbootRewrite.DisableNextBootFastboot | crates/r-boot/src/menu.rs:705-726 | the rewrite loop produces the specified text |
| FastbootRewrite.NextBootIsNormal | crates/r-boot/src/menu.rs:705-726 | after the rewrite of any text at all, the early reader returns Off |
| FastbootRewrite.MenuUnchanged | crates/r-boot/src/menu.rs:705-726 | and the full parse is the menu of the old text |
| FastbootRewrite.OtherLinesKept | crates/r-boot/src/menu.rs:705-726 | each line is kept in place except fastboot lines of the header |
| FastbootRewrite.IdempotentIff | crates/r-boot/src/menu.rs:705-726 | rewriting twice is rewriting once iff no line of the text that is kept ends in a stray carriage return |
| FastbootRewrite.StrayCrIsLost | crates/r-boot/src/menu.rs:705-726 | a text, one line ending CR CR LF, on which the second rewrite differs |
| Settings.PersistSettings | crates/r-boot/src/menu.rs:835-876 | the loop with its pending table buffer produces the specified text |
| Settings.AppendEntry | crates/r-boot/src/menu.rs:878-915 | one table: image line replaced, added after the id line, or dropped |
| SettingsMeaning.PersistByTables | crates/r-boot/src/menu.rs:835-876 | the streaming rewrite is the rewrite of header and tables one by one |
| SettingsMeaning.TableMeaning | crates/r-boot/src/menu.rs:878-915 | reading a rewritten table gives the old table with only the image replaced, and only when an id line names the entry |
| SettingsMeaning.SaveMeansWhatItSays | crates/r-boot/src/menu.rs:835-915 | for every text: parsing the saved file gives the three settings as saved, the same default, the same entries in order, images changed exactly on the selected tables |
| SettingsMeaning.EarlyReadersAgree | crates/r-boot/src/menu.rs:835-876 | the early spinner and logo readers give the saved values on the saved file |
| SettingsRepeat.SaveReachesIff | crates/r-boot/src/menu.rs:878-915 | for every table: a save under the id the menu shows reaches its entry iff the table has an id line (or the image was already the same) |
| SettingsRepeat.SaveReachesOtherIff | crates/r-boot/src/menu.rs:878-915 | a save under another id reaches it iff one of its id lines holds that id (or the image was already the same) |
| SettingsRepeat.UnnamedEntryIsMissed | crates/r-boot/src/menu.rs:582-616 | a file whose entry, its id made up from the title, keeps its old image after a save under that id |
| SettingsRepeat.FormerIdIsReached | crates/r-boot/src/menu.rs:878-915 | a file whose entry has two id lines and gets its image from a save under the first, though it is called by the second |
| SettingsRepeat.SaveTwiceIff | crates/r-boot/src/menu.rs:835-876 | repeating a save leaves the text unchanged iff no line of the text that is kept ends in a stray carriage return: header lines but the three settings, table lines but the image lines of saved tables |
| SettingsRepeat.StrayCrIsLost | crates/r-boot/src/menu.rs:835-876 | a text on which the second save differs |
| SettingsRepeat.SaveTwiceWithoutCr | crates/r-boot/src/menu.rs:835-876 | in particular for every text without carriage returns |
| CliConfig.Parse | crates/r-boot-cli/src/config.rs:31-78 | the tool's line loop equals reading the classified lines |
| CliConfig.Render | crates/r-boot-cli/src/config.rs:80-125 | the tool writes exactly the rendered lines |
| CliRoundTrip.RenderedItems | crates/r-boot-cli/src/config.rs:80-125 | what any reader of the format sees in a rendered file: every field once, in order, quotes and equals signs in values intact |
| CliRoundTrip.ParseOfRender | crates/r-boot-cli/src/config.rs:31-125 | parse(render(c)) == c for every configuration whose strings hold neither comment sign nor line feed |
| CliRoundTrip.RewriteIsStable | crates/r-boot-cli/src/config.rs:31-125 | parse(render(parse(s))) == parse(s) for every string s |
| CliRoundTrip.ReadIsClean | crates/r-boot-cli/src/config.rs:31-78 | whatever was parsed can be rendered |
| CliBoot.RenderedMenu | crates/r-boot-cli/src/config.rs:80-125 | the menu the bootloader builds from a file the tool wrote |
| CliPreserves.SettingsSurviveIff | crates/r-boot-cli/src/config.rs:31-125 | for every header: the bootloader settings survive the tool iff the timeout is below 2^32 and the last spinner and logo lines are the ones in force |
| CliPreserves.TableSurvivesIff | crates/r-boot-cli/src/config.rs:31-125 | for every table: the bootloader shows the same entry, or none, after the tool rewrote it iff both readings agree on whether it is shown, and if so on the file, the kind and the name |
| CliPreserves.MenuSurvivesIff | crates/r-boot-cli/src/config.rs:31-125 | for every file in which the tool does not both lose tables and bring up hidden ones: the boot menu is the same after the rewrite iff the settings survive and every table does |
| CliPreserves.MenuSurvives | crates/r-boot-cli/src/config.rs:31-125 | for every file: if the settings and all tables survive, the menu is the same |
| CliPreserves.MenuParts | crates/r-boot-cli/src/config.rs:31-125 | for every file: the menu is the same iff the settings survive and the list of entries shown from the tables as the tool rewrote them is the old list |
| CliPreserves.KernelTableIsLost | crates/r-boot-cli/src/config.rs:48-75 | a table keyed by `kernel` alone is gone after the tool wrote the file, so it survives only if the menu ignored it already |
| CliPreserves.MixedTableChanges | crates/r-boot-cli/src/config.rs:48-75 | a table with `efi` and then another `linux` does not survive: the bootloader starts the second, the tool keeps the first for it |
| CliPreserves.DocumentedLimineEntryIsLost | crates/r-boot-cli/src/config.rs:48-75 | the Limine entry of the project's README, as a file: in the menu before the rewrite, gone after |
| EarlyWrites.SaveKeepsFastboot | crates/r-boot/src/menu.rs:835-876 | for every text: a save leaves the early fastboot reading as it was |
| EarlyWrites.FastbootSurvivesIff | crates/r-boot-cli/src/config.rs:31-125 | for every text: the early fastboot reading survives the tool iff the first valid setting is what the last fastboot line says, off if that is not valid |
| EarlyWrites.FastbootTwice | crates/r-boot-cli/src/config.rs:62-70 | a file of two fastboot lines whose reading the tool changes |
| EarlyWrites.ToolFilesReadAlike | crates/r-boot-cli/src/config.rs:80-125 | on every file the tool writes the early spinner and logo readers agree with the full parse |
| Screen.PageMoveLands | crates/r-boot/src/menu.rs:644-657 | a page move lands on the requested page and keeps the row unless the page is too short for it |
| Screen.DigitsFallByOne | crates/r-boot/src/menu.rs:265-273 | a countdown loses at most one digit a second, which one trailing blank covers |
| MenuLoop.StepSound | crates/r-boot/src/menu.rs:139-241 | every event keeps: selection below the entry count, a countdown of at least one, an option below four |
| MenuSafety.StepFaithfulIff | crates/r-boot/src/menu.rs:246-273 | one event: from a faithful screen the in-place updates lead to what a full redraw would show iff the event is not a key that leaves the rows in place while the countdown is 10^13 or more |
| MenuSafety.ScreenFaithfulIff | crates/r-boot/src/menu.rs:122-241 | over every sequence of keys and ticks of any length, from the start of `select`, configuration page included, for every 64-bit timeout: each visited screen is what a full redraw would show iff no such key meets such a countdown |
| MenuSafety.ShortCountdownsFaithful | crates/r-boot/src/menu.rs:122-241 | in particular whenever the file and the saves set timeouts below 10^13 |
| MenuSafety.EditFaithful | crates/r-boot/src/menu.rs:276-402 | on the configuration page every key keeps the screen what `draw_config` would show |
| MenuSafety.StopFaithfulIff | crates/r-boot/src/menu.rs:265-273 | stopping a countdown of n clears its text iff n is below 10^13, the width of the blank literal |
| MenuSafety.KeyStopsCountdown | crates/r-boot/src/menu.rs:139-160 | any key on the list stops the countdown |
| MenuSafety.CountdownRestarts | crates/r-boot/src/menu.rs:139-241 | a countdown runs after an event only by a tick, or by saving a configuration with a positive timeout, and then from that timeout, or the menu has failed |
| MenuSafety.DefaultBootsOnTime | crates/r-boot/src/menu.rs:122-160 | without keys the default entry boots after exactly `timeout` ticks, not one earlier |
| MenuRuns.EnterBootsMarked | crates/r-boot/src/menu.rs:197-200 | from a faithful screen Enter boots the entry whose row shows ">" and its title, the only marked row of the page |
| MenuRuns.DownThenEnter | crates/r-boot/src/menu.rs:122-200 | from the start, k presses of Down and then Enter boot entry (index + k) mod n, for every k |
| MenuRuns.UpUndoesDown | crates/r-boot/src/menu.rs:176-185 | Up undoes Down and Down undoes Up, around both ends of the list |
| MenuRuns.PageKeysTurn | crates/r-boot/src/menu.rs:186-196 | where Left and Right land, by row and page of ten |
| MenuRuns.LettersReset | crates/r-boot/src/menu.rs:201-212 | r, s and f, in either case, reset by reboot, shutdown and firmware setup |
| MenuRuns.OtherKeysStay | crates/r-boot/src/menu.rs:213-239 | no other key changes selection or settings, and only a failing chain load leaves the menu |
| MenuRuns.ConfigureOpens | crates/r-boot/src/menu.rs:276-287 | the configuration page opens with the settings in force and the image of the selected entry |
| MenuRuns.RightSteps | crates/r-boot/src/menu.rs:316-333 | what Right changes: the chosen option alone, by one step of its cycle |
| MenuRuns.LeftUndoesRightIff | crates/r-boot/src/menu.rs:305-333 | Left restores what Right changed iff the timeout, if chosen, was below its limit and the image, if chosen, not the last |
| MenuRuns.RightUndoesLeftIff | crates/r-boot/src/menu.rs:305-333 | Right restores what Left changed iff the timeout, if chosen, was above zero and there was an image |
| MenuRuns.EnterSavesShown | crates/r-boot/src/menu.rs:334-348 | from a faithful screen Enter on the configuration page saves the values shown there, the image for the selected entry alone, and restarts the countdown from them |
| MenuRuns.EscapeKeeps | crates/r-boot/src/menu.rs:334-349 | Escape and a failed save leave the settings as they were |
| MenuUi.BootMenu.DefaultIndex | crates/r-boot/src/menu.rs:404-416 | the first entry whose id or title is the default, or whose id starts with a default ending in a star; else the first entry |
| MenuUi.NamedByMeaning | crates/r-boot/src/menu.rs:404-416 | a default names an entry iff it is its title or id, or some start of its id with a star behind |
| MenuUi.BootMenu.Select | crates/r-boot/src/menu.rs:122-241 | the event loop, with its cursor-addressed updates, ends in the state the machine reaches on the same events, failures of the keyboard among them; with no entries it fails at once |
| MenuUi.BootMenu.EditConfig | crates/r-boot/src/menu.rs:276-349 | likewise the inner loop, keyboard failures included; the settings in memory change only on a save |
| MenuUi.BootMenu.Draw | crates/r-boot/src/menu.rs:418-443 | a full redraw of the entry list |
| InstallText.TableBoots | crates/r-boot-conf-builder/src/menu.rs:60-65 | the bootloader, reading a generated table, shows a Linux entry and boots the copied kernel and initrd under /boot/nixos/, whatever the label and kernel parameters hold on their line, comment signs and quotes included |
| InstallText.NameOfStoreFile | crates/r-boot-conf-builder/src/menu.rs:32-36 | the installed name of a store file: its path in the store, each slash a dash |
| InstallMenu.GeneratedMenu | crates/r-boot-conf-builder/src/main.rs:36-65 | the menu of the whole generated file: the bootable generations in order, each with id, title, both files, init and parameters and image, the default and the timeout; for texts without a comment sign |
| InstallText.GeneratedReferences | crates/r-boot-conf-builder/src/main.rs:40-65 | the files the bootloader will look for, reading the generated file, are exactly those of the bootable generations |
| Generations.LinkOfGeneration | crates/r-boot-conf-builder/src/main.rs:84-98 | every profile link Nix makes is recognised with its number |
| Generations.OnlyLinksCount | crates/r-boot-conf-builder/src/main.rs:84-98 | a name is taken for a generation iff it is "system-", a number below 2^64 and "-link", and then for that one |
| Generations.ListGenerations | crates/r-boot-conf-builder/src/main.rs:80-103 | newest first, ties in directory order, exactly min(limit, found) of them, the rest of a sorted whole; the first directory error is returned |
| Generations.LeftOutIsOlder | crates/r-boot-conf-builder/src/main.rs:100-102 | nothing left out is newer than anything kept |
| Installer.CopyToKernelsDir | crates/r-boot-conf-builder/src/menu.rs:9-28 | copy to a temporary, then rename: at every step the old configuration still boots and no file under a final name is half written; it succeeds iff no call fails, and then the directory holds one more store file, unless the name was taken |
| Installer.AddEntry | crates/r-boot-conf-builder/src/menu.rs:41-65 | the copied set and the directory grow by exactly the two files the table names, unless a call fails |
| Installer.Switch | crates/r-boot-conf-builder/src/main.rs:67-69 | the configuration is replaced atomically, when all its files are there, unless a call fails; the kernel directory is untouched |
| Installer.Prune | crates/r-boot-conf-builder/src/main.rs:107-123 | removes files one by one, never one the installed configuration names, and changes no other; unless a call fails exactly the copied ones are left |
| Installer.InstallBinary | crates/r-boot-conf-builder/src/main.rs:125-132 | changes no file but the binary, even when the copy is cut short; unless a call fails it is the new one |
| Installer.Run | crates/r-boot-conf-builder/src/main.rs:36-76 | crash consistency: after every single filesystem call, whichever fail, no kernel or initrd is half written, and the installed configuration has all of them if it had at the start; it succeeds iff no call fails and the generations can be listed, and then the new configuration has all of them, and the kernel directory holds exactly the files needed, names already taken left as they were and the others copied |
| Installer.InstalledRightIff | crates/r-boot-conf-builder/src/menu.rs:18-26 | every needed file holds the content of its store file iff no file already there differs and no two needed files of one name differ |
| Installer.NamesCollide | crates/r-boot-conf-builder/src/menu.rs:32-36 | two store paths of one name |
| ConsolePaths.Resolve | crates/r-boot/src/console.rs:356-379 | the component loop computes the resolved path, or none if it is not UCS-2 |
| ConsolePaths.ResolveComposes | crates/r-boot/src/console.rs:356-379 | for non-empty a and relative b, resolving b against the resolution of a is resolving a, a separator and b |
| ConsolePaths.ResultIsNormal | crates/r-boot/src/console.rs:356-379 | from a normal directory, or for an absolute argument, the result is absolute with no empty, "." or ".." component |
| ConsolePaths.AbsoluteIgnoresCwd | crates/r-boot/src/console.rs:356-379 | an absolute argument ignores the current directory |
| ConsolePaths.UpUndoesDown | crates/r-boot/src/console.rs:356-379 | name/.. leads back to where one was |
| ConsolePaths.OneStep | crates/r-boot/src/console.rs:356-379 | as text: a name goes behind the current path after one separator, two dots cut it off again, at the root they change nothing, and neither does a dot or nothing |
| ConsolePaths.TravelIsNormal | crates/r-boot/src/console.rs:333-348 | after any sequence of cd commands from the root the current directory is normal |
| Completion.LongestCommonPrefix | crates/r-boot/src/console.rs:207-222 | a text is a prefix of every name iff it is a prefix of the result |
| Completion.ApplyCompletion | crates/r-boot/src/console.rs:160-198 | no match, one match completed with its trailing character, or the word extended to all that the matches share, in exactly these cases |
| Completion.ExtensionKeepsMatches | crates/r-boot/src/console.rs:160-198 | extending the word neither loses nor gains a match |
| Completion.CompleteTwice | crates/r-boot/src/console.rs:160-198 | so a second press with several matches changes nothing and lists them |
| ShellWords.SplitWords | crates/r-boot/src/menu.rs:805-832 | the character loop computes the words |
| ShellWords.EscapingIsUndoneIff | crates/r-boot/src/menu.rs:805-832 | escaping each character and joining by any whitespace is inverted iff no word is empty |
| ShellWords.QuotingIsUndoneIff | crates/r-boot/src/menu.rs:805-832 | wrapping words in either quote character is inverted iff no word is empty or holds that quote, a backslash, an opening brace or a semicolon |
| ShellWords.BareWordsComeBack | crates/r-boot/src/menu.rs:805-832 | words without quoting, none empty or holding whitespace, quotes, a backslash, an opening brace or a semicolon, are the words of the line they make with blanks between them |
| ShellWords.NoEmptyWords | crates/r-boot/src/menu.rs:805-832 | an empty word is never produced, whatever the line |

## Left out

- `activate`, `exit_boot_services` and the jump to the kernel: processor and firmware effects.
- Contents and addresses of the boxed responses, the framebuffer and module responses: their addresses are a parameter of the patching; only the two base addresses are examined.
- u64 wrap-around of addresses: excluded by the preconditions above, under which no sum leaves 64 bits.
- The Linux hand-over (linux.rs): fixed-offset stores into one structure.
- Secure Boot, signing keys, status and chain loading: firmware variables and cryptography.
- Discovery of systemd-boot and GRUB entries: directory reading around a parser of the same kind as the one modelled.
- Splash, spinner and framebuffer drawing: device access.
- The EFI boot entry made at the end of an installation: an external command that touches no file.
- Existence tests of a generation's kernel and initrd: a generation carries the answer.
- Failure to read or write the configuration file itself: the rewriters are modelled from text read to text written.
- Wrapping of titles wider than the screen: one row an entry.
- Text is a sequence of characters; UTF-8 decoding errors belong to reading the file.
- Printing order of listed completions, and the console's file system commands.
- CliPreserves.MenuSurvivesIff: leaves out files where the tool both loses a table and brings up a hidden one, where equal entries could change places; for those MenuParts compares the lists of entries.
- Paging.PageTables.Map2MWindow: requires that no directory of the window is linked yet, which the two windows of the boot sequence satisfy; a second window over the first would leave its directories unreachable.
- Paging.PageTables.MapIdentityFirst4G: requires the same of the low four gigabytes.
- Paging.PageTables.MapHhdmThrough: requires the same of the HHDM window.
- Paging.PageTables.MapRange: requires that no entry gone astray hits a page that is or may become a table; after such a hit the tables need not be a tree. MapPage says what one such store does.
- BootMap.MapKernel: requires the same.
- MenuUi.BootMenu.Select: leaves out the failures of creating, setting and restarting the timer, which end the menu with an error.
- Handoff.BootLimine: requires that no entry of a page inside the HHDM window hits a page that is or may become a table, as MapRange does. Loading modules and asking the graphics output are taken to have succeeded.
- Installer.Run: requires texts of one line and names without a comment sign or the temporary suffix; takes the listed generations and their files as given; a state in the middle of one filesystem call is covered as a call that fails and leaves its file as it was at that moment.
