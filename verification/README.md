# Vector-06C: a verified model

A Dafny model of the Vector-06C emulator and of the toolchain around it: the 8080 processor with its
memory and interrupt fabric, the raster, the timer, sound and floppy chips, the save states, the static
analyser and ASM exporter of the debugger, the CP/M-style disk image, the BASIC converter, and the PNG
and base64 encoders. `dafny verify dfyconfig.toml` checks everything.

Main results:

- **Export.** For any ROM and any database, assembling the exported listing with a two-pass assembler gives the
  ROM back *if and only if* no two instructions of the window overlap partially, no undocumented NOP (08, 10, ...,
  38) shows, no two labels clash, and no operand is printed with a name that means another address
  (`ExporterClass.AsmExporter.Export`). Each condition fails for a real ROM (`ExportExamples`, `NameExamples`): the
  undocumented NOPs are printed as `nop`, which assembles to 00, and names that differ only in punctuation sanitise
  alike. When no two addresses share a name the last two conditions hold, and every symbol has the address it
  stands for as its value. Names that are mnemonics or registers of the assembler are left aside. Instructions
  nested inside others do no harm. The lines are text: mnemonic and register
  names are spelled from the opcode's fields and read back (`Mnemonics.TextReads`), and numbers are printed and read
  digit by digit.
- **Analysis is sound for the processor**, run by run, up to the first listed conflict
  (`Soundness.AnalysisCoversRun`), and step by step exactly for all opcodes except CB, D9, DD, ED, FD, which
  the processor executes as JMP, RET and CALL and the analyser takes for fillers (`Soundness.FollowedExactly`).
- **BASIC.** `readbas` after `enbas` gives every line back exactly when its text does not start with LIST, or
  a keyword longer than five letters follows LIST (`BasicFile.RoundTrip`); otherwise LIST is read as LLIST.
- **Disk image.** A file saved under a name not in use reads back padded with E5 exactly when
  `(n - 1) mod 16384 < 16256` and the directory has a free entry for each of its extents, and empty otherwise,
  although success is reported; no other file changes (`FsClass.FilesystemImage.SaveFile`,
  `FsExamples.FullDirectory`). The allocator's chain has the requested length exactly when that many clusters are
  free (`FsClass.ChainExact`).
- **Raster.** The three fast fills equal the per-pixel loop, the bit permutation equals plain shifting, and
  each pixel shows the bits the processor wrote (`Screen.PixelColour`).
- **Frame.** Every frame is 59904 clocks, plus 16 exactly when an interrupt was taken before its first
  instruction, and draws exactly one picture (`Frame.Board.ExecuteFrame`).
- **Interrupts**, over all runs of any number of frames: two acceptances are separated by an EI and another
  instruction, EIs in a row hold a request off, and HLT returns behind itself (the `Interrupts` rows).
- **Codecs and chips**: CRC, Adler-32, zlib, PNG and base64 invert; the timer, the AY generators and the
  FD1793 transfers follow closed forms over whole runs; save states and memory diffs invert.
- **Restored machines** take a pending interrupt like the saved ones exactly when both were halted or neither,
  because `last_opcode` is not saved (`SaveContinues.AcceptsAlike`). Given that, and the same raster timing and
  device answers, they agree from then on; the raster, the clock and the chips are not part of a save state.

Where the code and its documentation disagree the model follows the code: the exporter's comments that every
byte is emitted exactly once and that name substitution is safe (partial overlaps, undocumented NOPs, clashing
names), the tokenizer's keyword matching (LIST), the 8253's mode 0 with divisor 0 (never raises its output), the
allocator's free-cluster test (off by the two directory clusters, `FsClass.ShortChainOnEmptyDisk`, and unsigned,
`FsExamples.FullDirectory`), the FD1793's uninitialised LINGER_BEFORE (past LINGER_AFTER a program that polls the
status port alone waits forever, `Fdc.ArmedReaches`), and the dispatcher of the raster, whose fast paths the board never reaches because it passes -1 for "no commit"
(`Frame.BoardAlwaysTakesSlowPath`).

Files: `Words`, `Wrappers`, `Numbers`, `Bits` (machine words, options, quotients, 32-bit registers), `Memory`,
`Alu`, `I8080`, `Processor`, `CpuLaws` (processor: the opcode functions, the in-place core proved against them,
and their laws), `Interrupts`, `Raster`, `Frame`, `Screen` (board and picture), `Sorting`, `Analyzer`,
`Soundness` (analysis), `Mnemonics`, `Literals`, `Asm`, `Layout`, `Ownership`, `Listing`, `Exporter`,
`ExporterClass`, `ExportExamples`, `NameExamples` (export), `Tokens`, `Tokenizer`, `BasicFile` (BASIC), `FsLayout`,
`FsImage`, `FsClass`, `FsExamples` (disk image), `Crc`, `Zlib`, `Png`, `Base64` (encoders), `Timer`, `Ay`, `Fdc`
(chips), `SaveState`, `SaveContinues`, `MemoryDiff`. I/O and the outside world are parameters: what IN returns, what the devices latch,
the database objects, the snapshots.

## Model

| member | source | states |
|---|---|---|
| Memory.ToBankInverse | src/memory.cpp:39-42 | the bank interleave is a bijection of the 320K array, with an explicit inverse on both sides |
| Memory.ReadAfterWrite | src/memory.cpp:44-82 | a read sees exactly the last write to the same physical cell through any paging and request kind, outside the boot overlay |
| Memory.SelectInjective | src/memory.cpp:27-37 | under one paging state two different addresses never share a cell |
| Memory.WordRoundTrip | src/memory.cpp:44-82 | a word written through the stack or data path reads back |
| Memory.PageSwitch | src/memory.cpp:15-82 | a byte written under one RAM-disk control byte is read under another exactly at the same address in the same bank, outside the boot overlay; every other read is as before |
| Memory.MemoryUnit.Load | src/memory.cpp:44-61 | the object reads what the write law is proved about, boot overlay included |
| Memory.MemoryUnit.Select | src/memory.cpp:27-37 | stack requests take the stack page, window requests the map page |
| Memory.MemoryUnit.Store | src/memory.cpp:75-82 | one cell of the array changes in place |
| Alu.HalfCarry | src/i8080.cpp:153-179 | the half-carry table holds the true carry out of the low nibble |
| Alu.HalfBorrow | src/i8080.cpp:181-220 | the subtraction table holds the true borrow of the low nibble |
| Alu.AddMeaning | src/i8080.cpp:153-179 | ADD/ADC: result plus 256 times carry is the sum, and the half carry is the nibble carry |
| Alu.SubMeaning | src/i8080.cpp:181-207 | SUB/SBB: the difference with borrow, and the nibble borrow |
| Alu.AddChainIsAddition | src/i8080.cpp:167-179 | a chain of n ADCs is 8n-bit addition with carry |
| Alu.SubChainIsSubtraction | src/i8080.cpp:195-207 | a chain of n SBBs is 8n-bit subtraction with borrow |
| Alu.AdcDaaMeaning | src/i8080.cpp:567-582 | ADC then DAA on packed BCD is decimal addition of two digit pairs with carry |
| Alu.BcdChainIsDecimalAddition | src/i8080.cpp:567-582 | a chain of n ADC;DAA pairs is decimal addition of 2n digits, and stays packed BCD |
| Alu.LogicMeaning | src/i8080.cpp:222-250 | ANA, XRA, ORA: and plus or is the sum, exclusive or is their difference, carry is cleared, the parity of an exclusive or is the operands' combined parity, XRA A gives zero |
| Processor.Core.DoExecute | src/i8080.cpp:335-2001 | the whole switch, handler by handler and in place, is for all 256 opcodes the execution the analyser, interrupt and frame results are about |
| Processor.Core.Instruction | src/i8080.cpp:2003-2006 | one step: fetch, advance, execute |
| CpuLaws.RegisterCells | src/i8080.cpp:720-1100 | registers are independent cells, and setting one leaves memory, flags, PC and SP alone |
| CpuLaws.MovCopies | src/i8080.cpp:720-1100 | MOV between registers copies its source and changes nothing else, PC and SP included |
| CpuLaws.PushPop | src/i8080.cpp:129-130 | POP undoes PUSH of the same pair, stack pointer included |
| CpuLaws.FlagsRoundTrip | src/i8080.cpp:316-333 | storing and retrieving the flags byte keeps all five flags; the fixed bits are 1, 0, 0 |
| CpuLaws.PswRoundTrip | src/i8080.cpp:1867-1910 | POP PSW after PUSH PSW restores A, all flags and SP |
| CpuLaws.CallReturns | src/i8080.cpp:259-269 | RET after CALL or RST continues behind it with the stack pointer restored |
| CpuLaws.ExchangeTwice | src/i8080.cpp:1824-1833 | XCHG swaps DE and HL and undoes itself |
| CpuLaws.XthlSwaps | src/i8080.cpp:1759-1767 | XTHL swaps HL with the word on top of the stack |
| CpuLaws.RotationsInvert | src/i8080.cpp:390-535 | RRC undoes RLC, RAR undoes RAL through the carry, CMA and CMC undo themselves, STC sets the carry |
| CpuLaws.IncrementDecrement | src/i8080.cpp:135-151 | INR and DCR count modulo 256, keep the carry, set zero exactly on wrap to 0, and undo each other both ways, in registers and in memory |
| CpuLaws.DadAdds | src/i8080.cpp:252-257 | DAD is 16-bit addition with carry out; other flags stay |
| CpuLaws.StoreLoad | src/i8080.cpp:536-700 | SHLD/LHLD and STA/LDA move HL and A to and from the addressed memory |
| Interrupts.ExecuteLines | src/i8080.cpp:1884-1994 | what each of the 256 opcodes does to IFF, the EI delay, INTE and INT |
| Interrupts.IterateLines | src/board.cpp:107-238 | one board iteration, with or without a frame start, keeps "INT implies INTE" and "IFF implies no EI pending", whatever the devices and thresholds do |
| Interrupts.RunOk | src/board.cpp:107-238 | these invariants hold in every state of every run over any number of frames |
| Interrupts.JoinRuns | src/board.cpp:133-162 | runs that meet join into one, so results about runs speak of acceptances in different frames |
| Interrupts.AcceptancesSeparated | src/board.cpp:114-128 | between any two acceptances of a run, in the same frame or not, there is an EI and a completed instruction that is neither EI nor DI |
| Interrupts.EiRunHolds | src/i8080.cpp:1950-1994 | an unbroken run of EIs, across frame starts too, accepts nothing, keeps INTE high and keeps a latched request |
| Interrupts.AcceptPushes | src/board.cpp:114-128 | an acceptance jumps to 38h and pushes the interrupted address, past a HLT |
| Interrupts.HltParks | src/i8080.cpp:1038-1045 | HLT stays on itself |
| Interrupts.HltReturnsPast | src/board.cpp:114-128 | after HLT the pushed return address is the one behind it, also when a frame ends in between |
| Analyzer.Dedup | debugger/agent/code_analyzer.h:135-141 | entry points keep their set and lose duplicates |
| Analyzer.FindConflict | debugger/agent/code_analyzer.h:161-174 | a conflict is reported exactly for addresses inside a decoded instruction |
| Analyzer.PushUnvisited | debugger/agent/code_analyzer.h:216-258 | queued are exactly the unvisited successors, and nothing queued is lost |
| Analyzer.Explore | debugger/agent/code_analyzer.h:147-263 | the worklist terminates; no instruction starts inside one decoded earlier; everything decoded is an entry or reached from something decoded earlier; conflicts are genuine; exactly one reference per transfer; unless truncated, every entry and successor is decoded or a conflict |
| Analyzer.FormRanges | debugger/agent/code_analyzer.h:277-294 | without 16-bit wrap the ranges are ascending, separated and cover exactly the instruction bytes |
| Analyzer.CodeBytes | debugger/agent/code_analyzer.h:272-275 | the total of the instruction sizes, one to three bytes each |
| Analyzer.AnalyzeCodeMulti | debugger/agent/code_analyzer.h:128-297 | all of this for the sorted result, which holds the maximal count when truncated |
| Soundness.StepStaysInFlow | debugger/agent/code_analyzer.h:194-258 | a processor step from an intact decoded instruction, no dynamic exit and no undocumented jump, lands on a queued successor |
| Soundness.AnalysisCoversRun | debugger/agent/code_analyzer.h:87-263 | every PC of a run from an entry point is a decoded instruction start until the first conflict address |
| Soundness.UndocumentedJumpEscapes | src/i8080.cpp:1519-1600 | for CB, D9, DD, ED and FD there is a concrete machine whose step leaves the analysed flow |
| Soundness.FollowedExactly | debugger/agent/code_analyzer.h:87-118 | an opcode is followed on every machine if and only if it is not one of those five |
| Raster.ShiftIndexIsModeless | src/filler.cpp:82-101 | the colour index is the four plane bits in the source's order |
| Raster.StepSwaps | src/filler.cpp:52-58 | one permutation step exchanges exactly the masked bits with those a shift away |
| Raster.GroupedOrder | src/filler.cpp:66-78 | after the four steps nibble x from the top holds bit 7-x of every plane |
| Raster.BuildsAgree | src/filler.cpp:52-101 | both builds emit the same eight colour indices for every fetched word |
| Raster.FillIsFast | src/filler.cpp:148-207 | under the fast guard the per-pixel loop equals the straight-line fill |
| Screen.PixelColour | src/filler.cpp:61-114 | pixel x of the group at (col, row) gets the colour index that bit 7-x of the four plane bytes spells, through fetch, interleave and shifting |
| Screen.PlaneIsRead | src/memory.cpp:44-61 | plane byte k at (col, row) is what the processor reads at 8000h + 2000h*k + 256*col + row, wherever paging and the boot overlay leave that address alone |
| Raster.PixelFiller.GetColorIndex | src/filler.cpp:103-114 | border pixels give the border index and reset the column; others shift out, fetching every 16 pixels |
| Raster.PixelFiller.NextLine | src/filler.cpp:209-226 | line, row, border, visibility and frame end advance together |
| Raster.PixelFiller.Fill1 | src/filler.cpp:148-207 | the loop is the per-pixel reference with commits, scroll load, interrupt time and excess clocks |
| Raster.PixelFiller.Fill2 | src/filler.cpp:229-312 | same bitmap, offset, beam, column and shift register as the reference, 256-pixel mode |
| Raster.PixelFiller.Fill3 | src/filler.cpp:314-403 | same as the reference, 512-pixel mode |
| Raster.PixelFiller.Fill4 | src/filler.cpp:405-428 | same as the reference inside the vertical border |
| Frame.FillPos | src/filler.cpp:148-226 | a fill moves the beam by exactly its clocks, wraps once at 312*768, and reports the excess |
| Frame.FillPic | src/filler.cpp:167-226 | the bitmap offset is a function of the beam; nothing is written outside the picture |
| Frame.BoardAlwaysTakesSlowPath | src/filler.cpp:118-129 | with the board's commit times the dispatcher always takes the per-pixel loop |
| Frame.StepBalances | src/board.cpp:185-252 | each step keeps the balance between clocks, beam and carried time |
| Frame.Board.CheckInterrupt | src/board.cpp:114-128 | accepts exactly when INT and IFF, costs 16 clocks |
| Frame.Board.RunRaster | src/board.cpp:192-200 | the raster advances by the instruction's clocks, commits included |
| Frame.Board.LatchInterrupt | src/board.cpp:219-238 | the video interrupt is latched now, next instruction, or not at all |
| Frame.Board.SingleStep | src/board.cpp:170-253 | the step of the interrupt model, with clock accounting |
| Frame.Board.ExecuteFrame | src/board.cpp:133-162 | terminates; between is 59904, plus 16 exactly when an interrupt was accepted first; carried time is raster_pixel/4; the picture is filled exactly; the states form a run of the interrupt model that starts with the frame start |
| Frame.Board.ExecuteFrames | src/board.cpp:133-162 | any number of frames, each drawn or not, is one run of the interrupt model, with exactly one frame start each |
| Literals.HexReads | debugger/export/asm_exporter.cpp:1066-1067 | printed hexadecimal digits of either case read as the number |
| Literals.HexLiteralReads | debugger/export/asm_exporter.cpp:83-89 | every printed number starts with a digit, ends in h and reads as itself, in either case |
| Mnemonics.LexSpell | debugger/src/disassembler.cpp:42-115 | every mnemonic is read back from its letters |
| Mnemonics.TextReads | debugger/src/disassembler.cpp:42-115 | the printed mnemonic and registers of each opcode that is not a DB read as the opcode itself, or as 00 for the undocumented NOPs, RST by its operand |
| Mnemonics.AliasesExactly | debugger/src/disassembler.cpp:42-115 | an opcode other than RST is read back as another one if and only if it is 08, 10, ..., 38 |
| Layout.SortArranges | debugger/export/asm_exporter.cpp:791-792 | sorting keeps the items apart and the window filled |
| Layout.ExactIff | debugger/export/asm_exporter.cpp:800-826 | the emitter's walk places every item at its own address if and only if no items overlap partially; it never pads and ends at the window's end |
| Layout.Emitted | debugger/export/asm_exporter.cpp:802-803 | an item is left out if and only if it is nested in another |
| Ownership.SanitizeLabel | debugger/export/asm_exporter.cpp:1034-1054 | names become identifiers: letters, digits, underscores, no leading digit |
| Ownership.ClaimsUnique | debugger/export/asm_exporter.cpp:1023-1028 | with usable names a name belongs to one address; generated names never clash |
| Ownership.BuildNameMap | debugger/export/asm_exporter.cpp:313-334 | a database address gets the sanitised name of the last named object there, other reference targets generated names, nothing else a name |
| Ownership.Clip | debugger/export/asm_exporter.cpp:242-258 | kept are exactly the instructions inside the window, in order; the rest are counted |
| Ownership.MarkCode | debugger/export/asm_exporter.cpp:580-590 | instruction bytes are owned by code |
| Ownership.AddUnit | debugger/export/asm_exporter.cpp:637-664 | claiming a free run keeps units disjoint, inside the window, clear of code and rightly named |
| Ownership.ComputeCoverage | debugger/export/asm_exporter.cpp:672-691 | the gaps are the maximal unowned runs in order; code, data and gap bytes add up to the ROM |
| Listing.InstructionBytes | debugger/export/asm_exporter.cpp:905-1020 | the text of a listed instruction is accepted and assembles to the instruction's own bytes if and only if it is no alias of NOP and the name printed for its operand, if any, has the operand's value |
| Listing.RowsAssemble | debugger/export/asm_exporter.cpp:730-747 | defb rows of one to eight printed numbers concatenate to the bytes |
| Listing.EmitByteRows | debugger/export/asm_exporter.cpp:730-747 | the row loop emits the ROM bytes of the interval |
| Listing.ItemMeaning | debugger/export/asm_exporter.cpp:811-824 | an item takes up its own interval, defines the label in front of it at its own address, and gives its own bytes exactly under that condition |
| Exporter.RenderSize | debugger/export/asm_exporter.cpp:800-826 | the listing is as long as the window exactly when the walk is exact, otherwise longer |
| Exporter.RenderBytes | debugger/export/asm_exporter.cpp:800-826 | an exact listing is accepted and assembles to the window's bytes if and only if no alias is emitted and every printed name has its operand's value |
| Exporter.SymbolsRight | debugger/export/asm_exporter.cpp:828-844 | when no two addresses share a name every label and equ is defined once, with the address it stands for |
| Exporter.ListingDefines | debugger/export/asm_exporter.cpp:811-845 | a name of an exact listing is defined as a printed label, or else as the least address that has it |
| Exporter.ListingMeaning | debugger/export/asm_exporter.cpp:757-848 | for any names: both passes succeed and give the ROM if and only if the walk is exact, no alias is emitted, no label is printed twice, and every printed name stands for its operand |
| ExporterClass.ItemsApart | debugger/export/asm_exporter.cpp:771-790 | code, data and gap items start at different addresses and only instructions share bytes |
| ExporterClass.ItemsFill | debugger/export/asm_exporter.cpp:771-790 | together they cover the window and nothing else |
| ExporterClass.ExportMeaning | debugger/export/asm_exporter.cpp:757-848 | the same said of the instructions, units, owners and names that the passes leave, for any database |
| ExporterClass.UsableNames | debugger/export/asm_exporter.cpp:1034-1054 | when no two addresses share a sanitised or generated name, no label clashes and no operand is misnamed |
| ExportExamples.NopRom | debugger/src/disassembler.cpp:42-61 | exporting the one-byte ROM 08 decodes the undocumented NOP and gives a listing that does not assemble to it |
| ExportExamples.OverlapRom | debugger/export/asm_exporter.cpp:104-161 | exporting C3 05 00 00 06 C3 04 00 decodes the instructions at 4 and 5, which overlap partially, and gives a listing that does not assemble to it |
| NameExamples.ClashRom | debugger/export/asm_exporter.cpp:818-822 | two variables named a-b and a_b: nothing overlaps, no alias shows, and the exported listing does not assemble to the ROM, since the label a_b is printed twice |
| NameExamples.WrongRom | debugger/export/asm_exporter.cpp:834-846 | LDA 0200 with a-b at 0100 and a_b at 0200, both outside the window: the exported listing does not assemble to the ROM, since a_b is equated to 0100 |
| ExporterClass.EmitItems | debugger/export/asm_exporter.cpp:800-826 | the loop emits the walk and tracks the defined labels |
| ExporterClass.EmitEqus | debugger/export/asm_exporter.cpp:828-845 | names that no unit carries are released once each, in address order |
| ExporterClass.ObjectEndInside | debugger/export/asm_exporter.cpp:613-619 | the 32-bit end computation stays in the window and is the object's end |
| ExporterClass.AsmExporter.RunAnalysis | debugger/export/asm_exporter.cpp:197-272 | seeds are the reset vector and the code-like objects of the window; the analysis is closed unless truncated at its maximal count; instructions are its part in the window |
| ExporterClass.AsmExporter.PlaceObject | debugger/export/asm_exporter.cpp:606-665 | all bytes of a data object in the window get an owner, nobody loses one, and a collision is recorded exactly when there is one |
| ExporterClass.AsmExporter.BuildLayout | debugger/export/asm_exporter.cpp:576-666 | every byte's owner is code, one data unit, or nobody; every data object is attributed; an object whose first byte nothing else takes has its name there |
| ExporterClass.AsmExporter.EmitLayoutAsm | debugger/export/asm_exporter.cpp:757-848 | no padding; for any names, assembles to the ROM if and only if no partial overlap, no alias shows, no labels clash and no operand is misnamed; with usable names the last two hold, and without partial overlap every symbol is defined once, as the address it stands for |
| ExporterClass.AsmExporter.Export | debugger/export/asm_exporter.cpp:104-161 | the same from the ROM bytes and the database, through all passes |
| Tokens.AlphabetExact | bas2txt/bas2asc.py:72-88 | the alphabet is exactly the set of characters that survive encoding and decoding |
| Tokens.DecodeEncodeChars | bas2txt/bas2asc.py:80-88 | encoding characters loses nothing |
| Tokens.KeywordIndex | bas2txt/bas2asc.py:265-265 | the first index of a keyword |
| Tokenizer.PickKeywords | bas2txt/bas2asc.py:150-168 | exactly the keywords with this initial start being tracked |
| Tokenizer.TrackWords | bas2txt/bas2asc.py:186-199 | matching words grow, completed ones move over, others go |
| Tokenizer.SuppressNonmax | bas2txt/bas2asc.py:203-213 | one longest word per position, in order |
| Tokenizer.SuppressOverlaps | bas2txt/bas2asc.py:219-233 | kept words do not overlap and are in order; no word that starts inside a kept one is longer; every dropped word overlaps one at least as long; the first word stays when none overlapping it is longer and goes when a longer one displaces it |
| Tokenizer.Emit | bas2txt/bas2asc.py:260-273 | a flush moves the start forward, and what is emitted decodes to what was consumed |
| Tokenizer.Tokenize | bas2txt/bas2asc.py:235-279 | terminates although it steps back; tokens decode to the text unless it is misread, and then they never do |
| BasicFile.GetLineNumber | bas2txt/bas2asc.py:171-182 | number and text start of a line |
| BasicFile.Readbas | bas2txt/bas2asc.py:100-140 | the state machine's listing |
| BasicFile.ReadImage | bas2txt/bas2asc.py:100-140 | reading an image of records lists exactly them |
| BasicFile.EmptyProgramGainsLine | bas2txt/bas2asc.py:100-140 | the image of no lines reads back as one line, "0 " |
| BasicFile.Enbas | bas2txt/bas2asc.py:285-300 | the image of the lines' records; fails exactly on a blank line, or when an address leaves the byte range |
| BasicFile.ImageFits | bas2txt/bas2asc.py:280-283 | the image consists of bytes exactly when the program ends below 64K |
| BasicFile.LineRoundTrip | bas2txt/bas2asc.py:235-283 | a line is listed as it was exactly when it is not misread |
| BasicFile.ListExamples | bas2txt/bas2asc.py:235-279 | "10 LIST" is misread and "10 LISTRIGHT$" is not |
| BasicFile.RoundTrip | bas2txt/bas2asc.py:100-300 | readbas after enbas, line by line, if and only if; it succeeds exactly when the records end below 64K, and always when the lines, six bytes added to each, fit |
| BasicFile.ListingLineIsFixed | bas2txt/bas2asc.py:97-98 | a listed line is listed as itself again |
| FsLayout.SectorIsLinear | src/fsimage.cpp:82-93 | half-clusters lie one after another behind the system tracks, through track, head and sector |
| FsLayout.ClusterInside | src/fsimage.cpp:155-162 | every allocatable cluster lies inside the image and both its sectors map |
| FsLayout.EntryInverse | src/fsimage.h:11-21 | directory entries parse back from their 32 bytes |
| FsLayout.PutEntryAt | src/fsimage.cpp:27-30 | overwriting an entry changes that entry only |
| FsLayout.WriteCluster | src/fsimage.cpp:290-305 | writing a cluster leaves the directory and other clusters alone |
| FsImage.RecordsMeaning | src/fsimage.cpp:256-259 | an extent is announced as not full exactly when it is the last and (n-1) mod 16384 is below 16256 |
| FsImage.LoadNew | src/fsimage.cpp:133-153 | with room for all extents, loading the new directory collects the new file's extents in order and its padded size, or 0 when the last extent is full |
| FsImage.LoadShort | src/fsimage.cpp:133-153 | without that room no size is found |
| FsImage.LoadOther | src/fsimage.cpp:133-153 | other names load as before |
| FsImage.SaveIsolates | src/fsimage.cpp:277-312 | every other file's bytes are unchanged |
| FsImage.SaveRoundTrip | src/fsimage.cpp:164-205 | under a name not in use the new file reads back padded with E5 if its last extent is not full and the directory has room for all extents, and empty otherwise |
| FsImage.OldFileStays | src/fsimage.cpp:103-153 | under a name in use whose last extent comes before any free entry the old file reads back as before |
| FsExamples.FullDirectory | src/fsimage.cpp:207-275 | an 820K disk of 128 one-cluster files: saving one byte reports success and reads back empty |
| FsClass.ChainLongEnough | src/fsimage.cpp:207-240 | with the two directory clusters counted in, the chain is as long as asked for |
| FsClass.ChainExact | src/fsimage.cpp:207-240 | for every directory: how long the returned chain is, and that a granted chain has the requested length if and only if that many clusters are free |
| FsClass.FreeCount | src/fsimage.cpp:213-240 | free clusters are exactly those not used by an active entry |
| FsClass.ShortChainOnEmptyDisk | src/fsimage.cpp:225-240 | on an empty directory one or two clusters too many are granted with a chain that is too short |
| FsClass.FilesystemImage.MarkUsed | src/fsimage.cpp:213-223 | marks exactly the clusters of active entries, counts eight per entry |
| FsClass.FilesystemImage.BuildAvailableChain | src/fsimage.cpp:207-240 | the first free clusters in order, or none |
| FsClass.FilesystemImage.AllocateFile | src/fsimage.cpp:242-275 | the first free entries take the extents in order; data clusters are untouched |
| FsClass.FilesystemImage.WriteData | src/fsimage.cpp:287-309 | the chain's clusters hold the content filled with E5; nothing else changes |
| FsClass.FilesystemImage.SaveFile | src/fsimage.cpp:277-312 | when a file is refused, exactly; isolation of all other files; and what reads back under a name not in use, room in the directory or not |
| FsClass.FilesystemImage.LoadDirent | src/fsimage.cpp:133-153 | the extents of a name up to the first that is not full |
| FsClass.FilesystemImage.ReadBytes | src/fsimage.cpp:164-196 | the chain's bytes, cut or zero-filled to the size |
| FsClass.FilesystemImage.ReadFile | src/fsimage.cpp:103-205 | the contents the round trip is about |
| Crc.ByteStep | debugger/agent/png_encoder.cpp:28-29 | one table step is eight shift-register steps |
| Crc.MakeTable | debugger/agent/png_encoder.cpp:18-26 | the table holds every byte's eight steps |
| Crc.Crc32Compute | debugger/agent/png_encoder.cpp:14-31 | the table loop is the bit-serial CRC |
| Crc.CatchesOneByte | debugger/agent/png_encoder.cpp:14-31 | every change of one byte changes the CRC |
| Zlib.BlockFits | debugger/agent/png_encoder.cpp:40-44 | within 5552 bytes the deferred sums stay below 2^32 |
| Zlib.BlockLimit | debugger/agent/png_encoder.cpp:40-40 | at 5553 the largest sum does not |
| Zlib.Adler32Compute | debugger/agent/png_encoder.cpp:33-49 | the deferred loop in 32-bit arithmetic is the per-byte checksum |
| Zlib.StoreBlocks | debugger/agent/png_encoder.cpp:118-132 | the loop emits the stored blocks |
| Zlib.StoredInverse | debugger/agent/png_encoder.cpp:118-132 | inflating the stored blocks gives the bytes back and leaves what follows |
| Zlib.ZlibInverse | debugger/agent/png_encoder.cpp:113-134 | the zlib stream decodes, header check and checksum included |
| Png.AppendChunk | debugger/agent/png_encoder.cpp:60-68 | length, type, data and the CRC of type and data |
| Png.ChunkReads | debugger/agent/png_encoder.cpp:60-68 | a chunk reads back, checksum verified |
| Png.MakeScanlines | debugger/agent/png_encoder.cpp:103-111 | every row behind a filter byte 0 |
| Png.UnfilterInverse | debugger/agent/png_encoder.cpp:103-111 | the scanlines give the image rows back |
| Png.EncodeRGBA | debugger/agent/png_encoder.cpp:76-141 | the file the round trip is about, or nothing for empty dimensions |
| Png.RoundTrip | debugger/agent/png_encoder.cpp:76-141 | decoding the file gives width, height and pixels back, whenever the data fits one chunk |
| Png.StoredSize | debugger/agent/png_encoder.cpp:118-132 | how large that data is |
| Base64.Base64Encode | debugger/agent/png_encoder.cpp:147-172 | the loop with its padded tail |
| Base64.EncodedLength | debugger/agent/png_encoder.cpp:152-152 | four letters per started group of three bytes |
| Base64.RoundTrip | debugger/agent/png_encoder.cpp:147-172 | decoding gives the bytes back |
| Timer.SquareWave | src/8253.h:155-174 | mode 3 with divisor n from 2 on: high for ceil(n/2) counts, low for the rest, forever |
| Timer.Toggles | src/8253.h:155-174 | the output changes exactly at ceil(n/2), n, n + ceil(n/2), 2n, ... |
| Timer.TerminalCount | src/8253.h:102-122 | mode 0: the output rises at the n-th effective count and stays; with n = 0 never |
| Timer.Programmed | src/8253.h:187-244 | control word and both bytes, any counts between: ready with the written divisor after three counts |
| Timer.ProgrammedSquareWave | src/8253.h:43-244 | from any state, the square wave from the fourth count on |
| Timer.ProgrammedTerminalCount | src/8253.h:43-244 | from any state, the rise at the n-th count after the delay, unless n is 0 |
| Timer.LatchedRead | src/8253.h:84-306 | a latched value reads low byte first, however long the counter runs on |
| Timer.BcdRoundTrip | src/8253.h:246-264 | frombcd undoes tobcd below 10000 |
| Timer.ResultIsOutput | src/8253.h:90-185 | what Count returns is the output, unless mode 0 was started with 0 |
| Timer.ToBcd | src/8253.h:246-253 | four decimal digits, one per nibble |
| Timer.FromBcd | src/8253.h:255-264 | digits above nine read as nine |
| Timer.CounterUnit.Count | src/8253.h:90-185 | the step the whole-run lemmas are about |
| Timer.CounterUnit.SetMode | src/8253.h:43-82 | the programming step |
| Timer.CounterUnit.Latch | src/8253.h:84-88 | the latching step |
| Timer.CounterUnit.WriteValue | src/8253.h:187-244 | the divisor write |
| Timer.CounterUnit.ReadValue | src/8253.h:266-306 | the read, byte by byte |
| Ay.EnvelopeShape | src/ay.h:69-78 | for every written shape and every k the k-th value is the data sheet's, within 0..15 |
| Ay.NoiseForward | src/ay.h:87-91 | the noise register stays in 1..2^17-1, moves, and its step can be undone |
| Ay.NoiseBackward | src/ay.h:87-91 | every register value has a predecessor |
| Ay.NoiseReturns | src/ay.h:87-91 | the register comes back to its start, so noise never sticks |
| Ay.DividerRate | src/ay.h:82-88 | n clocks make (c + n) / period steps from any counter value; one past a shortened period counts as about to fire |
| Ay.AY.EStep | src/ay.h:69-78 | the envelope step |
| Ay.AY.Step | src/ay.h:80-91 | envelope and noise advance at their dividers' pace |
| Ay.AY.Write | src/ay.h:129-148 | register writes are masked; register 13 restarts the envelope |
| Fdc.SectorsDisjoint | src/fd1793.h:291-305 | sectors 1 to 5 of different tracks and sides do not overlap |
| Fdc.ReadCommandArms | src/fd1793.h:712-730 | a read command prepares the addressed sector |
| Fdc.ArmedReaches | src/fd1793.h:549-570 | polls start an armed transfer if and only if one is a ready poll, or the linger time is at most LINGER_AFTER and more status polls come than are left of it; otherwise the drive waits on |
| Fdc.EarlyRead | src/fd1793.h:495-503 | reading the data port instead returns the stale data register and starts the transfer |
| Fdc.ReadTransfer | src/fd1793.h:495-618 | however polls and data reads interleave, the data port yields the sector in order and BUSY drops with the last byte |
| Fdc.StaleByteFirst | src/fd1793.h:495-503 | with DRQ left set the first data read returns the stale byte |
| Fdc.WriteTransfer | src/fd1793.h:518-528 | each byte written goes to the next place of the sector |
| Fdc.WriteThenRead | src/fd1793.h:541-836 | write 1024 bytes, reselect the sector, poll by either port until the transfer starts, read: the bytes come back and every byte outside the sector is as before |
| Fdc.OtherSectorKept | src/fd1793.h:350-356 | sectors that do not overlap the written one keep their bytes |
| Fdc.FD1793.Exec | src/fd1793.h:495-534 | the transfer step; other drives are untouched |
| Fdc.FD1793.Read | src/fd1793.h:541-642 | the port reads |
| Fdc.FD1793.Command | src/fd1793.h:644-773 | the sixteen command groups |
| Fdc.FD1793.Write | src/fd1793.h:775-836 | the port writes, drive and side selection included |
| SaveState.ChunksInverse | src/serialize.h:17-40 | parsing any concatenation of framed chunks recovers them |
| SaveState.SaveRestore | src/board.cpp:574-628 | restoring a saved machine into any machine gives the saved memory, ports, processor and board |
| SaveContinues.AcceptsAlike | src/board.cpp:114-128 | the restored board, whose last opcode is not part of the state, takes a pending interrupt like the saved one if and only if none is pending or both or neither were halted |
| SaveContinues.ContinuesForever | src/board.cpp:574-628 | given the same raster timing and device answers, and that condition, the two boards are equal after every further step |
| SaveState.SavedBoard.Save | src/board.cpp:574-589 | the four chunks in order |
| SaveState.SavedBoard.Load | src/board.cpp:598-628 | the chunk loop applies the chunks in order, skips empty ones and stops with failure at an unknown one |
| MemoryDiff.CountsGrow | debugger/agent/agent_api.cpp:1121-1134 | exceeding a limit on the way is exceeding it at the end |
| MemoryDiff.Scan | debugger/agent/agent_api.cpp:1095-1134 | the ranges are maximal, in order, and patch A into B; the limits fail exactly when the totals exceed them |
| MemoryDiff.DiffMemorySnapshots | debugger/agent/agent_api.cpp:1058-1134 | the same with the argument checks, each of the two argument errors exactly in its case |

## Left out

- Processor.Core: memory is a value inside the core's object (the in-place array is `Memory.MemoryUnit`), and the board object steps the processor through `I8080.Step`, which `Processor.Core.Instruction` is proved to compute.
- Opcode timing: both clock tables are modelled and used by the frame and the interrupt latch; only their range is stated.
- Interrupts.IterateLines: the empirical thresholds of src/board.cpp:223-228 are kept as constants, but the results hold whichever way they fall.
- Frame.Board.ExecuteFrame: debugger breakpoints, the frame hook, tape and sound calls are not part of this model.
- Raster: palette entries are opaque 32-bit values; rgb2pixelformat and the display are not part of this model. Keyboard, tape and the second parallel port are inputs. The ARM variants of the fast fills are not part of this model.
- Soundness.AnalysisCoversRun: interrupts, taken returns, PCHL and self-modified analysed code are excluded, as the analyser makes no claim about them.
- FsClass.FilesystemImage.SaveFile: name generation (unique_cpm_filename, upper case, the taken-names set) and mounting a host directory are not modelled; the stored name is a parameter, and what reads back is stated for names not in use (`FsImage.OldFileStays` is a case of one in use; the taken-names set knows only names saved by the same object). Requests for more clusters than are free that the allocator grants all the same, where the source reads past a vector, are excluded (`FsClass.Allocatable`, exact by `FsClass.ChainExact`).
- FsImage.SaveRoundTrip: says nothing of a name already in use.
- Export: cutting an operand string at its comma, trimming and the change of letter case are taken as done: a line holds mnemonic, registers and operand apart. Sanitised names that clash with mnemonics or registers, comments, the code.asm and data.asm views, rebuilt range reports and JSON are not modelled; windows past 64K are excluded.
- Png.RoundTrip: images whose IDAT data reaches 2^32 bytes are excluded, since the length field is cut to 32 bits; the reader knows stored blocks and filter 0 only.
- Fdc: an access outside the image throws in the source and is a no-op here; disk files and directory images behind a drive are not modelled. Read track and write track do nothing, as in the source. A drive is a value inside the controller object, so aliasing between drives is not captured.
- Ay: the three tone channels, the mixer and amplitudes (floating point) are not modelled.
- Timer: modes 1 and 2 are modelled without whole-run laws; modes 4 and 5 do nothing, as in the source.
- SaveState.SaveRestore: the processor structure is its memory image; pending port writes and the debugger's raw palette are not saved by the source. Loading does not tell the raster about the restored port B, so the border colour and the 512-pixel mode stay the running machine's until the next write to it. The raster's beam, the carried instruction time, the timer, sound and floppy chips are not saved either, so `SaveContinues.ContinuesForever` takes the interrupt times and device answers of both boards as equal.
- SaveState.SavedBoard.Load: streams that end inside a chunk, where the source reads past the buffer, are excluded.
- Coverage reports, call graphs, the debugger's other API, its server and user interface, SDL output, sound resampling, scripting and option handling are not modelled.
