# Verification of the 32-bit processor's hard parts

This project models, in Dafny, the parts of the repository whose correctness is
hardest to see by reading: the TLB with exact LRU replacement, the enumeration of the
PCIe tree, the two-pass assembler with the boot routine it injects, the
interrupt-driven drivers and interrupt controller, and the arithmetic routines of the
firmware's library. `dafny verify dfyconfig.toml` checks everything.

Code that updates state in place (the VHDL processes, the C drivers, the passes of the
assembler) appears twice: as a class whose methods have the loops, branches and
assignments of the original, and as a function on values that each method is proved
equal to. The results are lemmas about those functions, for all inputs, all runs or all
interleavings. What is emitted, encoded, queued, accepted or found is described there a
second time, in the terms of the directive or the device, without the functions' own helpers.

| modules | what they hold |
|---|---|
| `Machine` | 32-bit words, powers of two, small facts on sequences and sets |
| `Tlb`, `TlbUnit` | the clocked table, generic in the number of entries and age bits |
| `Ecam`, `EcamLayout`, `EcamComplete`, `EcamDriver` | bus numbering and window allocation against arbitrary hardware, and what it finds on a tree of functions |
| `Isa`, `Layout`, `LayoutFacts`, `Emission`, `Assembler` | encoding, the two passes, what they keep, what each line emits |
| `Boot`, `BootProof` | a machine for the instructions boot code uses, and what a boot leaves in RAM |
| `Nvm`, `NvmDriver`, `Tty`, `Keyboard`, `Lapic` | interrupt protocols as transition systems, and the code that refines them |
| `Strings`, `SoftDiv`, `Format` | word-at-a-time scanning, restoring division, number printing |

## What holds, and where it stops holding

- **TLB.** For any run of resets, writes, hits and idle clocks the ages are a recency
  list and the table refines a list-based LRU cache (`RunRefinesLru`). This needs the age
  registers to be wide enough, and `ExactIffWide` shows that it is needed: ages stay distinct
  in every run if and only if the number of entries is at most two to the number of age
  bits. The generic's default of 64 entries and the 6-bit ages of
  `Docs/MEMORY_SYSTEM.md` do not go with the four age bits of the code; the two
  instances, with 16 and 8 entries, are within the bound.
- **PCIe enumeration.** Configuration space is an arbitrary function of the access
  history, so the results hold for hardware that lies or changes its answers. It
  terminates for all of it. When fewer than 2^30 bytes are handed out, counted without
  wrap-around, grants, windows and bus intervals nest along the bridge tree and the
  registers last written decode to them. From 2^30 on the 32-bit address wraps (`CursorExactIff`,
  `WrappedGrant`). Between 2^29 and 2^30 the layout is still sound but runs into the
  configuration space, which `ConfigurationSpaceIff` states exactly; the code checks neither bound. The code
  returns from the whole bus at the first function with header type 0, and on a bus other than 0 at the first hole in
  device 0; `Found` states this rule, and `RecordedIffFound` that exactly the functions it leads to are recorded.
- **Assembler.** Every line but one kind leaves emitted bytes where they were counted:
  `StepImage` is an if-and-only-if, the exception being a `.comm` in RAM mode that emits
  words while nonzero bytes still wait to be packed (`CommDisplaces` is such a program). `label+k` counts words, not bytes,
  on a ROM label, for either sign of k (`OffsetExact`). A label in front of a `.long` in `.data` names
  its value exactly when no padding is needed (`LabelNamesLongIff`; `LabelNamesPadding` is a program with padding). Where `.text` starts is noted by the first line that puts words into the image there
  (`TextStartIs`); bytes that still wait when another section begins go unnoticed (`TextStartMissed`). The fix-up of `.bss` addresses works exactly below 0xB0000 bytes (`BssFixedIff`; `BssMissed` is a program past it).
- **Boot.** `.start` delivers the data image over every RAM contents exactly when the
  image is at most 32 KB (`DeliveredIffShort`): past that the 16-bit offsets turn negative (`LongProgram` is the shortest such image).
- **LAPIC.** The in-service register is a strictly increasing stack in every run.
  `Docs/LAPIC.md` says a pending bit stays until the end of interrupt; the circuit clears
  it at the acknowledge. `PendingClearedIff` shows when the request is put in service, and that
  it is lost when an end of interrupt shares its clock (`RequestLost` is such a run).
- **Keyboard.** For every arrival timing the line returned is the fold of the accepted
  keys, and it is what the screen shows. While the ring drops nothing those are the keys that
  wait and arrive: the call returns exactly when there is a CR or LF among them, with the line in front of the first. A backspace undoes the key before it exactly when that
  key fitted (`EraseUndoes`).

## Model

| member | source | states |
|---|---|---|
| Tlb.StepRefinesLru | System/Core/MEM.circ:2483-2568 | one rising edge on a table whose ages are a recency list is one step of a list-based LRU cache: reset empties it, a write appends and drops the oldest of a full list, a hit moves its line to the recent end |
| Tlb.RunRefinesLru | System/Core/MEM.circ:2483-2568 | after any run the valid entries, sorted by age, are a content the list-based LRU cache can have after the same run |
| Tlb.OutputsRefineLru | System/Core/MEM.circ:2419-2459 | after any run the look-up hits if and only if it is enabled and the list-based cache holds a matching line, and returns the frame of such a line, or 0 on a miss |
| Tlb.RunKeepsRep | System/Core/MEM.circ:2488-2567 | the recency list of a run and the ages say the same in every reachable state |
| Tlb.AgesExact | System/Core/MEM.circ:2488-2567 | the k valid entries carry the ages n-k to n-1, each exactly once, and invalid entries carry 0 |
| Tlb.FullVictim | System/Core/MEM.circ:2501-2527 | on a full table the minimum search finds the head of the recency list, the one entry of age 0 |
| Tlb.OrderIsByTime | System/Core/MEM.circ:2529-2567 | the recency list is sorted by the clock at which each slot was last written or hit |
| Tlb.VictimUntouchedLongest | System/Core/MEM.circ:2501-2534 | a write into a full table evicts the entry whose last write or hit is strictly earlier than every other's |
| Tlb.NarrowAgesCollide | System/Core/MEM.circ:2380-2381 | with more entries than age values some run gives two valid entries one age |
| Tlb.ExactIffWide | System/Core/MEM.circ:2349-2381 | ages stay distinct in every run if and only if there are at most 2^AGE_BITS entries |
| Tlb.WriteCoherentIff | System/Core/MEM.circ:2529-2534 | writing a page-table entry keeps at most one match per look-up if and only if no entry but the victim matches that page |
| Tlb.RunCoherent | System/Core/MEM.circ:2497-2545 | under the walker's rule every reachable table agrees with the page table and holds no two entries that can match one look-up |
| Tlb.HitsAgreeWithPageTable | System/Core/MEM.circ:2419-2459 | an enabled look-up hits if and only if an entry matches, each hit returns the page-table entry, and only one entry matches, so that the last match wins is immaterial |
| Tlb.WriteThenLookup | System/Core/MEM.circ:2428-2445 | a page that missed hits right after a write exactly from the addresses of its aligned 4 KB and from the contexts with the same low 8 bits, or from all if bit 3 of the frame word is set, with the word written |
| TlbUnit.TlbLru.Lookup | System/Core/MEM.circ:2419-2459 | the loop without exit finds the last match and its frame, or a miss with frame 0 |
| TlbUnit.TlbLru.FindVictim | System/Core/MEM.circ:2501-2527 | one pass finds the first invalid slot, or else the first slot of least age, with its age |
| TlbUnit.TlbLru.Write | System/Core/MEM.circ:2497-2545 | the arrays after a write are the specified table, each age being read before it is overwritten |
| TlbUnit.TlbLru.Promote | System/Core/MEM.circ:2553-2567 | the arrays after a hit are the specified table |
| TlbUnit.TlbLru.Clock | System/Core/MEM.circ:2483-2568 | one rising edge gives the specified next table and the specified outputs for the old one |
| Ecam.Scan | System/Memory/BIOS/hal/ecam.c:19-105 | for any hardware the scan ends, keeps every finished table row, and gives out one bus number for each bridge it finishes |
| EcamLayout.SizeBarExact | System/Memory/BIOS/hal/ecam.c:46-58 | a BAR that answers gets a page-aligned range starting at the cursor, and its address is the last value written, as long as the total stays below the 2^30 at which the address wraps |
| EcamLayout.ProgramBusesExact | System/Memory/BIOS/hal/ecam.c:80-84 | the last bus register written decodes to the secondary number and the last number given out |
| EcamLayout.ProgramWindowExact | System/Memory/BIOS/hal/ecam.c:85-96 | the row of a bridge holds its window, the last base/limit written decodes to it, or is 0 when it is empty, and the command register is written, with 3, only when it is not empty |
| EcamLayout.WindowDecodes | System/Memory/BIOS/hal/ecam.c:88-96 | base and limit fields of a nonempty 64 KB-aligned window decode back to exactly [start, end) |
| EcamLayout.JoinLayouts | System/Memory/BIOS/hal/ecam.c:22-104 | two sound layouts over consecutive functions, buses and bytes make one |
| EcamLayout.WrapLayout | System/Memory/BIOS/hal/ecam.c:64-87 | a sound layout behind a bridge, with the bridge around it, is a sound layout |
| EcamLayout.ScanStretch | System/Memory/BIOS/hal/ecam.c:19-105 | any scan, from any point and for any hardware, grants and programs a sound layout if the total stays below 2^30 |
| EcamLayout.BusNumbersCountBridges | System/Memory/BIOS/hal/ecam.c:67-84 | for any hardware next_bus_number - 1 is the number of bridges, at most 64, so the 8-bit fields lose nothing |
| EcamLayout.GuardNeverFires | System/Memory/BIOS/hal/ecam.c:20-21 | behind any bridge, in any state, the recursive call gets a bus number below 256 and is the unguarded scan |
| EcamLayout.IntervalIsSubtree | System/Memory/BIOS/hal/ecam.c:67-84 | a bus number lies in the interval of a bridge if and only if the bus is behind that bridge in the tree |
| EcamLayout.GrantsAreSound | System/Memory/BIOS/hal/ecam.c:44-63 | granted BARs are 4 KB aligned, pairwise disjoint, programmed, inside the window of every bridge above them and outside every other window |
| EcamLayout.BridgesAreSound | System/Memory/BIOS/hal/ecam.c:64-96 | each bridge's registers hold exactly the buses behind it and exactly its window, a nonempty window is enabled, and its row says the same |
| EcamLayout.BridgesNest | System/Memory/BIOS/hal/ecam.c:64-96 | intervals and windows of two bridges nest together, along the tree, or are both disjoint |
| EcamLayout.EnabledIffNonempty | System/Memory/BIOS/hal/ecam.c:90-94 | after enumeration the command register of a bridge holds 3 if its window is not empty, and was never written if it is |
| EcamLayout.ReachIff | System/Memory/BIOS/hal/ecam.c:49-57 | for any hardware and any 64 KB boundary below 2^30, no grant passes it if and only if the total handed out does not |
| EcamLayout.ConfigurationSpaceIff | System/Memory/BIOS/hal/ecam.c:49-57 | for any hardware every grant ends at or below 0xE0000000 if and only if at most 2^29 bytes were handed out |
| EcamLayout.CursorExactIff | System/Memory/BIOS/hal/ecam.c:51-57 | for any hardware the 32-bit address of the cursor is exact at the end if and only if fewer than 2^30 bytes were handed out |
| EcamLayout.WrappedGrant | System/Memory/BIOS/hal/ecam.c:51-57 | a device with BARs of 2^30 and 4096 bytes gets its second one programmed to address 0 |
| EcamComplete.VisitComplete | System/Memory/BIOS/hal/ecam.c:24-102 | a turn at a function records it, if it is an endpoint or a bridge, with everything behind it, and ends the bus, the device or neither as its kind rules |
| EcamComplete.ScanComplete | System/Memory/BIOS/hal/ecam.c:19-105 | the rest of a bus, from any function the scan comes to, records exactly what the rule leads to there and on the buses given out meanwhile |
| EcamComplete.EnumerationComplete | System/Memory/BIOS/hal/ecam.c:19-112 | on hardware that answers as a tree of functions, with room left in the table, exactly the endpoints and bridges the rule leads to are recorded, each with one row of its class, bridges with their record, and each BAR that answers with the whole pages it asks for |
| EcamComplete.RecordedIffFound | System/Memory/BIOS/hal/ecam.c:19-112 | function by function: a row, a bridge record or a grant of BAR i exists if and only if the rule finds the function, it is a bridge, or it is an endpoint whose BAR i answers; no function has two rows |
| EcamComplete.EndpointRow | System/Memory/BIOS/hal/ecam.c:35-62 | the row of an endpoint holds its place and class and spans from the cursor before its BARs to the cursor behind them |
| EcamComplete.FirstNumbering | System/Memory/BIOS/hal/ecam.c:68-74 | when the scan goes behind a bridge, the bridge has its own bus as primary, the new one as secondary and subordinate, and its top byte as it answered |
| EcamComplete.LastNumbering | System/Memory/BIOS/hal/ecam.c:80-84 | the final numbering keeps the primary and top bytes the bridge answers |
| EcamComplete.WindowBegins | System/Memory/BIOS/hal/ecam.c:65-66 | a window begins on the first 64 KB boundary from the cursor on |
| EcamComplete.WindowEnds | System/Memory/BIOS/hal/ecam.c:77-79 | a window ends on the first 64 KB boundary behind what was handed out, or is empty when nothing was |
| EcamDriver.Enumerator.SizeOneBar | System/Memory/BIOS/hal/ecam.c:47-57 | the writes, the read and the cursor are the specified ones, in order |
| EcamDriver.Enumerator.RecordEndpoint | System/Memory/BIOS/hal/ecam.c:44-63 | the BAR loop and the row of an endpoint are the specified ones |
| EcamDriver.Enumerator.EnterBridge | System/Memory/BIOS/hal/ecam.c:65-96 | opening a bridge, the recursion behind it and finishing it are the specified state, with a longer table at the recursive call |
| EcamDriver.Enumerator.VisitFunction | System/Memory/BIOS/hal/ecam.c:24-102 | one turn of the inner loop ends by return, break or going on as the specified turn does, of which VisitComplete says what that is |
| EcamDriver.Enumerator.BusEnumeration | System/Memory/BIOS/hal/ecam.c:19-105 | the nested loops terminate for any hardware and compute the specified scan |
| EcamDriver.Enumerator.PcieBusEnumeration | System/Memory/BIOS/hal/ecam.c:107-112 | the whole enumeration from its initial cursors is the specified one |
| Isa.PairLoadsAddress | Ensamblador/assembler.py:261-286 | H LDI of the high half and ADI of the low half leave exactly the physical address, for every label value |
| Isa.PhysicalExact | Ensamblador/assembler.py:273-276 | a label value from 0x01000000 on is an address cut to 32 bits; a lower one is the address in the top megabyte congruent to four times it |
| Isa.HalvesOf | Ensamblador/assembler.py:278-286 | the halves are the address rounded at bit 15 and its low 16 bits |
| Isa.RomAddressExact | Ensamblador/assembler.py:261-286 | a ROM word index has the address base + 4 * index if and only if it is below 2^18 |
| Isa.OffsetExact | Ensamblador/assembler.py:626-652 | label+k, k of either sign, is k bytes past the label if and only if the label is in RAM or k is 0 |
| Isa.WordFields | Ensamblador/assembler.py:247-252 | the fields of a built word are read back unchanged |
| Isa.DecodeEncode | Ensamblador/assembler.py:444-622 | a source instruction is encoded if and only if its grammar gives it a meaning, and the word then decodes to that meaning: registers, numbers modulo 2^16, halves of label addresses by %hi, %lo or place, and conditions by name |
| Isa.OperandResolves | Ensamblador/assembler.py:655-720 | an immediate operand is a number in range modulo 2^16, or the half of label plus offset that %hi, %lo or the place of a bare label asks for |
| Isa.CondCodeIs | Ensamblador/assembler.py:122-137 | the code of a condition is the place of its name in the table of conditions |
| Isa.EncodingInjective | Ensamblador/assembler.py:444-622 | two instructions that share a word have the same meaning |
| LayoutFacts.FlushImage | Ensamblador/assembler.py:838-851 | packing waiting bytes leaves every emitted byte in place, behind zero padding |
| LayoutFacts.StepKeeps | Ensamblador/assembler.py:853-1144 | every kind of line keeps rom_address equal to the number of items, ram_data_offset equal to the number of data bytes, relocations on whole zero words, and only adds to items, data and labels |
| LayoutFacts.LinesCounted | Ensamblador/assembler.py:853-1144 | these hold at every line of every program, and every label keeps its address |
| LayoutFacts.CommStays | Ensamblador/assembler.py:874-908 | a .comm leaves emitted bytes in place if and only if it does not emit words in front of waiting nonzero bytes |
| LayoutFacts.CommDisplaces | Ensamblador/assembler.py:894-907 | in RAM mode one .byte and then a .comm of four bytes is a program where the byte moves |
| LayoutFacts.StepImage | Ensamblador/assembler.py:853-1144 | a line leaves every emitted byte in place if and only if it is not such a .comm |
| LayoutFacts.LabelNamesNext | Ensamblador/assembler.py:1087-1107 | a label gets the place of whatever is emitted next, as a word index in ROM and a byte address in RAM |
| LayoutFacts.LabelNamesLongIff | Ensamblador/assembler.py:969-994 | a label in front of a .long in .data names the value if and only if the data before it ends on a word |
| LayoutFacts.LabelNamesPadding | Ensamblador/assembler.py:969-994 | in .data one .byte, a label and a .long is a program where the label ends three bytes in front of the value |
| LayoutFacts.ImageStays | Ensamblador/assembler.py:853-1144 | if no later line is a .comm that displaces waiting bytes, what was emitted before a line is at its place after the last one |
| LayoutFacts.SecondPassPlaces | Ensamblador/assembler.py:1291-1331 | the second pass puts byte k of the image into byte k mod 4 of word k / 4 |
| LayoutFacts.BytesPlaced | Ensamblador/assembler.py:853-1331 | if no later line is a .comm that displaces waiting bytes, every byte emitted before a line, in either mode, is in the final image at the location it was counted at, labels resolved |
| Emission.LineEmits | Ensamblador/assembler.py:853-1142 | every line, wherever a program stands, changes exactly what it says: values as little-endian bytes behind their alignment, texts verbatim, aligned and reserved room, labels at the place of what comes next, instructions in whole words |
| Emission.ProgramEmits | Ensamblador/assembler.py:853-1142 | each line of every program does so to what the lines before it left |
| Emission.DataShorts | Ensamblador/assembler.py:1002-1024 | .short in .data appends, on even offsets, two bytes each whose little-endian value is the operand modulo 2^16 |
| Emission.DataBytes | Ensamblador/assembler.py:1028-1046 | .byte in .data appends the operands modulo 2^8 |
| Emission.DataLongs | Ensamblador/assembler.py:939-994 | .long in .data appends, on word offsets, four bytes each whose little-endian value is the operand modulo 2^32, or 0 for a label |
| Emission.DataLongsRelocated | Ensamblador/assembler.py:971-984 | the values stand side by side, labels under a relocation, and no other relocation changes |
| Emission.LongsEmitted | Ensamblador/assembler.py:961-967 | .long in the image appends one word a value in the next whole words |
| Emission.ImageAligned | Ensamblador/assembler.py:915-926 | .p2align in the image fills up with zeros to the first multiple of 2^n, of 4 at least |
| Emission.CommReserved | Ensamblador/assembler.py:887-907 | .comm gives its symbol the first aligned place and room for its size, in .bss or as zero words |
| Emission.LabelEmitted | Ensamblador/assembler.py:1087-1112 | a label packs what waits and gets the place of what comes next; a bad or repeated name drops its line |
| Emission.TextStartIs | Ensamblador/assembler.py:797-800 | the start of .text is noted by the first line other than a .comm that puts words into the image in .text, as the first word it puts there |
| Emission.TextStartOfProgram | Ensamblador/assembler.py:797-800 | for every program the start of .text is where the first such line begins, and unknown if there is none |
| Emission.TextStartMissed | Ensamblador/assembler.py:838-851 | one .byte in .text, then .data and a label, is a program with a word from .text and no start of .text |
| Emission.ErrorsIff | Ensamblador/assembler.py:878-1141 | the lines of a program are accepted without an error if and only if every value is good and every name is good and defined once |
| Emission.PassAccepted | Ensamblador/assembler.py:768-1269 | the whole pass is accepted if and only if its lines are and a start routine, where there is one, has a main or a start of .text to jump to |
| Emission.FinalAddress | Ensamblador/assembler.py:1146-1151 | a label ends as it was defined, but from the placeholder range behind the data on a word boundary |
| Emission.NothingInjected | Ensamblador/assembler.py:1144-1158 | with nothing to set up in RAM, or in RAM mode, the image is the lines' own words and no symbol is added |
| Emission.AddressWord | Ensamblador/assembler.py:1295-1311 | the word of a label in a .long is its exact 32-bit address plus the offset, and 0 with an error for an unknown label |
| Assembler.FirstPassRun.FlushPendingBytes | Ensamblador/assembler.py:838-851 | the padding loop and the packing loop give the specified items |
| Assembler.FirstPassRun.Common | Ensamblador/assembler.py:874-908 | a .comm in either mode changes the variables as specified |
| Assembler.FirstPassRun.AlignTo | Ensamblador/assembler.py:912-935 | an alignment in any section and mode changes the variables as specified |
| Assembler.FirstPassRun.PutLongs | Ensamblador/assembler.py:939-1000 | the loop over the values of a .long, relocations included, changes the variables as specified |
| Assembler.FirstPassRun.ProcessLine | Ensamblador/assembler.py:853-1142 | one line changes the variables as specified |
| Assembler.FirstPassRun.EmitData | Ensamblador/assembler.py:1167-1181 | the loop over the data words appends a relocation or four packed bytes each |
| Assembler.FirstPassRun.EmitStart | Ensamblador/assembler.py:1195-1267 | the routine is appended word by word, with an error when there is nothing to jump to |
| Assembler.FirstPassRun.Finish | Ensamblador/assembler.py:1144-1267 | flushing, the .bss fix-up and the injected routine give the specified final variables |
| Assembler.FirstPassRun.Run | Ensamblador/assembler.py:768-1268 | the loop over the lines computes the specified first pass |
| Assembler.ResolveItems | Ensamblador/assembler.py:1291-1331 | the loop gives one word an item, 0 for one that fails, and no error if and only if all resolve |
| Boot.FetchRuns | Ensamblador/assembler.py:1195-1267 | straight-line code in ROM runs as written, because none of its stores reaches ROM |
| Boot.CopyLoop | Ensamblador/assembler.py:1214-1227 | after the unrolled copy of at most 8192 words each is in RAM at its offset and nothing else changed; a longer copy changes nothing outside the reach of a 16-bit offset |
| Boot.RunsStart | Ensamblador/assembler.py:1195-1267 | the routine runs to its end, at the physical address of the entry point |
| BootProof.StartCodes | Ensamblador/assembler.py:1195-1267 | the items injected for .start are encoded to words that decode to the routine, %hi and %lo of main included |
| BootProof.CloseLayout | Ensamblador/assembler.py:1144-1267 | the final image is the program, the data, with zeros up to a whole word, then .start, which its label names |
| BootProof.ResetReachesStart | Ensamblador/assembler.py:1476-1507 | the reset vector reaches .start in three instructions with memory unchanged |
| BootProof.BootDelivers | Ensamblador/assembler.py:1158-1267 | from reset every program reaches its entry point with every data word in RAM, relocations resolved and nothing else changed, if the data is at most 32 KB |
| BootProof.LongImageNotDelivered | Ensamblador/assembler.py:1214-1227 | for every longer image there is a RAM contents that the boot fails to replace |
| BootProof.DeliveredIffShort | Ensamblador/assembler.py:1158-1267 | the image is delivered over every RAM contents if and only if it is at most 32 KB |
| BootProof.LongProgram | Ensamblador/assembler.py:1214-1227 | a .zero of 0x8004 bytes in .data is a program with a longer image that fits the ROM |
| BootProof.DataByteDelivered | Ensamblador/assembler.py:939-1079 | byte k of the data image is at RAM base + k after boot, relocated words holding the physical address of their label |
| BootProof.LabelKept | Ensamblador/assembler.py:1094-1107 | a label keeps the address of its definition to the end, .bss labels moved behind the data |
| BootProof.BssFixedIff | Ensamblador/assembler.py:1146-1151 | the fix-up sends a .bss offset behind the data if and only if the offset is below 0xB0000 |
| BootProof.BssMissed | Ensamblador/assembler.py:1146-1151 | two .comm symbols, the first of 0xB0000 bytes, are a program whose second symbol is left outside RAM |
| BootProof.DataLabelAddress | Ensamblador/assembler.py:1099-1107 | a label defined in .data ends as RAM base plus the number of data bytes before it |
| BootProof.DataLabelDelivered | Ensamblador/assembler.py:1087-1107 | after boot the address of a .data label holds the bytes emitted behind its definition, those of a relocated word being the physical address of its label |
| Nvm.FillKeepsOutstanding | System/Memory/BIOS/drivers/nvm/nvm.c:135-148 | writing a slot touches no command whose completion is still to be consumed |
| Nvm.StepKeepsInv | System/Memory/BIOS/drivers/nvm/nvm.c:59-157 | every step of mainline, handler and device keeps the invariant on rings, tokens and order |
| Nvm.RunKeepsInv | System/Memory/BIOS/drivers/nvm/nvm.c:59-157 | the invariant holds over every interleaving, spurious interrupts included |
| Nvm.RingsAreSound | System/Memory/BIOS/drivers/nvm/nvm.c:59-157 | busy if and only if head differs from tail, full if and only if 127 commands are outstanding, one token while busy and on a full ring; the commands executed are those submitted, in order, once each, with their opcode over the slot number and their address, block and count, and they are acknowledged in that order |
| Nvm.CompletionConsumed | System/Memory/BIOS/drivers/nvm/nvm.c:68-77 | an interrupt that finds a completion acknowledges the oldest command and rings the doorbell if and only if another is outstanding |
| Nvm.FullRingDrains | System/Memory/BIOS/drivers/nvm/nvm.c:133-139 | a submitter asleep on a full ring is woken: the device steps due and one interrupt make room |
| Nvm.SpuriousIgnored | System/Memory/BIOS/drivers/nvm/nvm.c:68-77 | an interrupt with no completion at the tail changes nothing |
| NvmDriver.NvmDev.HandleIrq | System/Memory/BIOS/drivers/nvm/nvm.c:65-77 | the handler's updates in place are the specified step |
| NvmDriver.NvmDev.Access | System/Memory/BIOS/drivers/nvm/nvm.c:119-157 | a wrong option or device number is refused; otherwise the call sleeps exactly while the ring is full, through any run of interrupts and device steps, then fills the slot at the head with the option over the slot number and the caller's fields, and counts the command as submitted |
| NvmDriver.CauseRoundTrip | System/Memory/BIOS/drivers/nvm/nvm.c:61-63 | an interrupt cause selects the device it was assigned to, and every other cause is ignored |
| Tty.RequiresIrqMeans | System/Memory/BIOS/drivers/tty/tty.c:84-96 | the branchless test is true exactly of block writes and of anything but a clear longer than one character |
| Tty.SelectMeans | System/Memory/BIOS/drivers/tty/tty.c:173-195 | the branchless choice gives a block for two characters or more, else the character or a backspace, and makes a length of 0 mean 1 |
| Tty.RunKeepsInv | System/Memory/BIOS/drivers/tty/tty.c:71-139 | requests issued, then queued, then waiting are the requests called for, over every interleaving |
| Tty.IssuedInCallOrder | System/Memory/BIOS/drivers/tty/tty.c:71-139 | requests reach the hardware in call order, once each, direct ones included; busy if and only if count > 0; tail = (head + count) mod 4 |
| Tty.QueueDrains | System/Memory/BIOS/drivers/tty/tty.c:71-80 | as many interrupts as requests queued issue them all and free the hardware |
| Tty.WaitsIff | System/Memory/BIOS/drivers/tty/tty.c:109-124 | in every reachable state a request that ends with an interrupt waits if and only if four queued ones are not completed, any other if and only if one is not |
| Tty.Display.HandleIrq | System/Memory/BIOS/drivers/tty/tty.c:71-80 | the handler's updates in place are the specified step |
| Tty.Display.Admit | System/Memory/BIOS/drivers/tty/tty.c:113-139 | the critical section of a direct or queued write is the specified step |
| Tty.Display.Write | System/Memory/BIOS/drivers/tty/tty.c:100-139 | in a panic the request is issued at once; otherwise waiting, interrupts and the critical section are a run of the transition system that keeps its invariant and calls for exactly this request, and the call waits on only while the loop must |
| Keyboard.LineWithoutErase | System/Memory/BIOS/drivers/keyboard/keyboard.c:114-118 | without erase keys the line is the printable keys in order, cut at max_size - 1 |
| Keyboard.EraseUndoes | System/Memory/BIOS/drivers/keyboard/keyboard.c:106-118 | an erase key undoes the printable key before it if and only if that key fitted, or no key ever fits |
| Keyboard.RingFull | System/Memory/BIOS/drivers/keyboard/keyboard.c:35-39 | the ring refuses a key exactly when 63 keys wait, and until then the place it writes is free |
| Keyboard.Driver.KeyIrq | System/Memory/BIOS/drivers/keyboard/keyboard.c:27-41 | a key is accepted behind those waiting if fewer than 63 wait, and dropped otherwise |
| Keyboard.Driver.Poll | System/Memory/BIOS/drivers/keyboard/keyboard.c:92-94 | the keys of a batch arrive in order, each accepted or dropped, and the look at the ring tells whether any key waits |
| Keyboard.Driver.EditKey | System/Memory/BIOS/drivers/keyboard/keyboard.c:106-118 | one key edits the buffer as specified and the screen stays a prefix of it |
| Keyboard.Driver.Drain | System/Memory/BIOS/drivers/keyboard/keyboard.c:94-119 | the inner loop keeps the buffer the fold of the keys taken, for any keys arriving meanwhile, and neither invents nor loses a key of the schedule but those the full ring drops |
| Keyboard.Driver.ReadInput | System/Memory/BIOS/drivers/keyboard/keyboard.c:74-129 | for every arrival timing the line returned is the fold of the accepted keys up to the first CR or LF, the same as on the screen, and the LF of a waiting CR LF goes with it; when no key is dropped these are the keys waiting and arriving, the call returns if and only if there is a CR or LF among them, and the keys behind the line are left for the next call |
| Lapic.ServiceIsStack | System/Core/LAPIC.circ:389-428 | in every run the interrupts in service are the strictly increasing stack of vectors accepted and not ended |
| Lapic.AcceptedAboveAll | System/Core/LAPIC.circ:601-654 | an accepted vector exceeds the threshold and everything in service, and is the highest pending |
| Lapic.AcknowledgedIff | System/Core/LAPIC.circ:601-654 | a vector is acknowledged if and only if it is pending, exceeds the low 7 bits of the threshold and everything in service, and none pending is higher |
| Lapic.PinRisesIff | System/Core/LAPIC.circ:601-654 | the comparator rises if and only if some pending vector exceeds the threshold and everything in service |
| Lapic.NextRegisters | System/Core/LAPIC.circ:389-800 | vector by vector, what arrives or waits stays pending unless it is acknowledged; service loses its highest at an end of interrupt and otherwise gains what is acknowledged |
| Lapic.NestedRun | System/Core/LAPIC.circ:389-428 | vector 5 arriving while vector 3 is taken into service is taken next, and both are in service |
| Lapic.EoiEndsLatest | System/Core/LAPIC.circ:389-416 | an end of interrupt removes the most recently accepted vector and nothing else |
| Lapic.PendingClearedIff | System/Core/LAPIC.circ:773-800 | a pending bit is cleared exactly when its vector is acknowledged, and the vector is then in service if and only if no end of interrupt shares the clock |
| Lapic.RequestLost | System/Core/LAPIC.circ:389-416 | vector 5 arriving in one clock and an end of interrupt in the next leave it neither pending nor in service |
| Lapic.PriEncode | System/Core/hdl_export/Pri_Encoder.vhd:63-80 | the encoder's loop gives the highest set position and whether there is one |
| Lapic.PriDecode | System/Core/hdl_export/Pri_Decoder.vhd:58-68 | the decoder sets the one position given, or none |
| Lapic.GatesOnPositions | System/Core/LAPIC.circ:389-416 | or and exclusive or on two 64-bit halves are union and symmetric difference of positions |
| Lapic.LocalApic.Clock | System/Core/LAPIC.circ:389-428 | one clock of the two register pairs is the specified step, and the interrupt pin rises if and only if a pending vector exceeds the threshold and everything in service |
| Strings.ZeroByteExact | System/Memory/BIOS/lib/string.c:24-25 | the test is nonzero if and only if a byte is zero, borrows included |
| Strings.DifferenceExact | System/Memory/BIOS/lib/string.c:27 | the exclusive or of two words is 0 if and only if all four bytes agree |
| Strings.Strlen | System/Memory/BIOS/lib/string.c:48-79 | for every alignment the result is the number of bytes before the first NUL |
| Strings.Strcmp | System/Memory/BIOS/lib/string.c:4-46 | for every two alignments the result is the unsigned difference of the first two characters that differ, or of the two NULs |
| Strings.SignMeansOrder | System/Memory/BIOS/lib/string.c:4-46 | the result is negative if and only if the first string comes before the second, and positive if and only if it comes after |
| Strings.ZeroMeansEqual | System/Memory/BIOS/lib/string.c:4-46 | the result is 0 if and only if the two strings have one length and the same characters |
| SoftDiv.ShiftFits | System/Memory/BIOS/lib/softdiv.c:5-7 | the shifted remainder never overflows 32 bits, however large the divisor, because it is at most the upper bits of the dividend |
| SoftDiv.StepDivides | System/Memory/BIOS/lib/softdiv.c:7-12 | one turn keeps quotient and remainder of the upper bits, subtracting exactly when the next quotient bit is 1 |
| SoftDiv.SetLowest | System/Memory/BIOS/lib/softdiv.c:11 | or-ing the quotient bit in sets a bit that was clear |
| SoftDiv.Udivsi3 | System/Memory/BIOS/lib/softdiv.c:2-15 | q * d <= n < q * d + d for every n and every d > 0, and 0 for d = 0 |
| SoftDiv.Umodsi3 | System/Memory/BIOS/lib/softdiv.c:18-28 | r < d and n is a multiple of d plus r for every n and every d > 0, and 0 for d = 0 |
| SoftDiv.RoutinesAgree | System/Memory/BIOS/lib/softdiv.c:2-28 | what the two routines return belongs to one division: n = q * d + r |
| Format.NegationExact | System/Memory/BIOS/lib/format.c:42-47 | the branchless negation gives the distance from 0 of every signed number, 2^31 for the most negative |
| Format.ParsePrinted | System/Memory/BIOS/lib/format.c:20-63 | parsing what is printed gives the number back for every word and every format |
| Format.PrintedInjective | System/Memory/BIOS/lib/format.c:20-63 | no two words are printed alike in one format |
| Format.NoLeadingZero | System/Memory/BIOS/lib/format.c:29-39 | only 0 is printed with a leading zero, outside the full hexadecimal format |
| Format.PrintedShape | System/Memory/BIOS/lib/format.c:20-63 | the full hexadecimal format is eight digits; every other has no leading zero but for 0 itself, and a minus sign exactly in front of a negative number in the signed format |
| Format.PrintedFits | System/Memory/BIOS/lib/format.c:16-17 | at most eleven characters are printed, so the slot is never left |
| Format.Formatter.WriteNumber | System/Memory/BIOS/lib/format.c:20-63 | the digits written backwards are the specified text, and no other byte changes |
| Format.Formatter.ToAscii | System/Memory/BIOS/lib/format.c:10-63 | the result stands in the next slot with its NUL, no byte of another slot changes, and the seven results before it still stand |

## Left out

- Pipeline, bypass, fetch queue, page walker and routers: gate-level circuits whose meaning lies in their wiring. `System/Core/MEM_V1.circ` repeats the same TLB text.
- TLB signals before the first reset, and undefined signal values: every run starts with a reset.
- Tlb.HitsAgreeWithPageTable: the rule that a write stores the page-table entry of a page that misses just then is an assumption on the page walker, which is not modelled; so is a page table that does not change between resets.
- Tokenizing, regular expressions, string escapes, quoted label names, listings, file output, the compiler driver and the user interface of the assembler. A program is a list of parsed lines, with a fresh relocation map for each run.
- Layout.Step: an instruction without label operands is encoded by the first pass and here by the second; the word is the same, an error in it is counted in the other pass, and its source line number is not kept.
- Boot.Execute: machine semantics for the instructions boot code uses, `H LDI` among the loads of immediates, without flags; every other instruction stops the model.
- Processors with several cores, the write to the ROM file in byte order, and a reset vector in programs without `.start`.
- EcamLayout.GrantsAreSound: holds while fewer than 2^30 bytes are handed out, the point where the 32-bit address wraps; EcamLayout.WrappedGrant fails it past that. The same holds of EcamLayout.BridgesAreSound, EcamLayout.BridgesNest, EcamLayout.EnabledIffNonempty and EcamLayout.ScanStretch.
- EcamComplete.EnumerationComplete: when the table fills up the scan stops, and completeness is not claimed; identifiers, classes and BAR sizes that change between two reads are covered by the layout results alone.
- Device searches over the finished table, and running the enumeration again without clearing it.
- NvmDriver.NvmDev.Access: one device object, and the message printed with a refusal. What happens during the sleep is a schedule; between the slot and the doorbell the method has no device steps, the transition system has.
- Nvm.Step: the device is an environment that fetches in ring order and completes once for each doorbell; its registers and the data it moves are not modelled.
- Tty.Display.Write: one producer, and a panic is a parameter; what the device registers mean is left out, as is the order of requests once a panic has bypassed the queue.
- Keyboard.Driver.ReadInput: keys arrive when the editor looks at the ring, in batches fixed by a schedule; a null buffer, messages and the final line feed on the screen are left out, and whether the LF of a CR LF pair is taken now or by the next read depends on the schedule, as in the code.
- Lapic.LocalApic.Clock: the timer, the register file behind it and inter-processor messages are one set of arriving requests.
- Strings.Strlen: addresses do not wrap at 2^32, and a word is read as its four bytes at every alignment.
- Format.Formatter.ToAscii: one call at a time; that a call from an interrupt handler takes another slot rests on the critical section around the index, which is not modelled.
- SoftDiv.Udivsi3: shifts and or are halving, doubling and adding on natural numbers; `ShiftIn` cuts to 32 bits as the code does.
