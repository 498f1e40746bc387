# VMRouter and TrackletEngineUnit, modelled in Dafny

This project models two pieces of the CMS tracklet firmware (HLS C++).

**The VMRouter** (`TrackletAlgorithm/VMRouter.h`) runs once per bunch crossing.
- It reads the stubs of up to six input memories in priority order: input 0 first, then input 1, and so on.
- Each stub is written to every AllStub copy, at the stub's processing position.
- Each stub also goes to the virtual-module memories its corrected phi and its r/z position select:
  - the ME memories, at most two adjacent modules, in a bin;
  - the inner pairing (TE-inner) memories, at per-copy address counters, behind a bend cut;
  - the overlap memories, at per-copy address counters, behind a bend cut;
  - the outer pairing (TE-outer) memories, in a bin, behind a bend cut.
- The helpers `iphivmRaw`, `iphivmFineBins`, `iphivmRawPlus`, `iphivmRawMinus`, `getPhiCorr` and `getFirstMemNumber` give the coarse and fine phi bins, the phi correction and the first enabled memory.

**The TrackletEngineUnit** (`TrackletAlgorithm/TrackletEngineUnit.h`) pairs one inner stub with the outer stubs of up to sixteen regions.
- It scans one outer stub per `step`.
- It queues every pair that passes the phi, rz and bend cuts in a sixteen-slot ring buffer with four-bit read and write cursors.

## Layout

| file | module | contents |
|---|---|---|
| `bits.dfy` | `Bits` | Powers of two, bits of naturals, `SetBit`, `And`, lowest set bit, shift and division lemmas. |
| `stubs.dfy` | `Stubs` | The stub records: input stubs and their formats, and the ME, TE-inner and TE-outer records. |
| `vmrouter_functions.dfy` | `VMRouterFunctions` | The six helper functions of VMRouter.h and their properties. `getFirstMemNumber` is both a function and the loop that computes it. |
| `vmrouter_config.dfy` | `RouterConfig` | The constant tables and a router instance: its template parameters, masks and look-up tables, the derived counts, and the conditions an instance meets. |
| `vmrouter_input.dfy` | `InputStream` | The processing order: the enabled inputs one after the other. |
| `vmrouter_read.dfy` | `InputReader` | The loop's reading registers (`n_i0..n_i5`, `n_tot`, `read_addr`) and one read. |
| `vmrouter_route.dfy` | `StubRoute` | What the router computes for one stub, memory family by memory family, and where the stub is written. |
| `vmrouter_spec.dfy` | `RouterSpec` | Whole-call specification: the records each memory copy receives, in processing order. |
| `vmrouter.dfy` | `VMRouterMain` | The `VMRouter` call itself, over arrays: clearing, the main loop and the per-family writes. |
| `tracklet_engine_unit.dfy` | `TrackletEngine` | The `TrackletEngineUnit` class, and the pure description of one scan tick it is proved against. |

Modelling choices:
- **Bit-level values.**
  - An `ap_uint<N>` is a natural below 2^N. Every truncation the code relies on is written out with `%`, for example the seven-bit increment inside `iphivmRawPlus`.
  - A signed z is its two's-complement value; phi, r and bend are the raw unsigned patterns read with `.range()`.
- **Fixed-point factors.** `d_me`, `d_te` and `d2` (`ap_ufixed`) are 1 or 1/2 with the constant tables, so they are integer divisions such as `raw * ntot / 32`.
- **Router memories.**
  - An AllStub, TE-inner or overlap copy is an address-to-record map.
  - An ME or TE-outer copy is the list of (bin, record) entries appended to it.
  - The router's memory arguments are Dafny arrays, updated in place.
- **Engine class.** The class's fields are the source's fields. `stubids_` is an `array` of sixteen slots.
  - Each method states its new registers through two value snapshots: `LoadedRegs` (what `init` loads) and `ScanRegs` (what a tick updates).
  - The pure functions `TickRegion`, `NextScan`, `TickOuter` and `TickSaves` describe one tick.
  - The buffer's meaning is `Contents()`: the entries from the read cursor up to the write cursor, oldest first.
  - Each method's `modifies` clause names only the fields the source assigns (`modifies this`readIndex` for `read`, for example). So "nothing else changes" is part of every method's contract. In particular `Step` cannot change `memmask_` or any other loaded register.

Two behaviours of the code are modelled as written:
- **`full()` and `nearfull()`.**
  - A ring buffer with four-bit cursors is full when write cursor + 1, taken modulo 16, equals the read cursor.
  - The code compares `writeindex_ + 1` with `readindex_` without cutting the sum back to four bits, so it misses the wrapped cases; see "Findings".
- **When the engine turns idle.**
  - A scan that has drained every region could be expected to stop.
  - The code clears bits in `maskmask_` but tests `memmask_ == 0`, and `memmask_` never changes (TrackletEngineUnit.h:162). With every region below 15 finished, the region scanned falls back to 15 whatever the masks say (TrackletEngineUnit.h:122).
  - So under a nonempty memory mask the unit turns idle only when region 15's count is zero; otherwise it rescans region 15. `TrackletEngine.DrainedRescansFifteen` states this.

## Model

| member | source | states |
|---|---|---|
| VMRouterFunctions.IPhiVmRaw | TrackletAlgorithm/VMRouter.h:82-86 | The result is below 32 and is the top five bits of phi: r * 2^(len-5) <= phi < (r+1) * 2^(len-5). |
| VMRouterFunctions.IPhiVmFineBins | TrackletAlgorithm/VMRouter.h:92-101 | The result has finebits bits; the coarse field followed by it makes up the top vmbits + finebits bits of phi. |
| VMRouterFunctions.TopSeven | TrackletAlgorithm/VMRouter.h:112-114 | The seven-bit field's top five bits are the coarse bin. Its low two bits are 3 (resp. 0) exactly when phi lies in the top (resp. bottom) quarter of its coarse bin. |
| VMRouterFunctions.IPhiVmRawPlus | TrackletAlgorithm/VMRouter.h:107-116 | The result is the coarse bin, plus one modulo 32 exactly when phi lies in the top quarter of its bin. |
| VMRouterFunctions.IPhiVmRawMinus | TrackletAlgorithm/VMRouter.h:121-130 | The result is the coarse bin, minus one modulo 32 exactly when phi lies in the bottom quarter of its bin. |
| VMRouterFunctions.PlusMinusExclusive | TrackletAlgorithm/VMRouter.h:107-130 | No phi lies in both the top and the bottom quarter, so the plus or the minus bin equals the coarse bin. |
| VMRouterFunctions.OffsetBin | TrackletAlgorithm/VMRouter.h:145-146 | The k-bit bin of r made unsigned brackets the signed r plus half its range. |
| VMRouterFunctions.OffsetBinShift | TrackletAlgorithm/VMRouter.h:145-146 | Adding half the range to the raw pattern, then truncating to k bits, gives the same bin as adding it to the signed value. |
| VMRouterFunctions.TopOf | TrackletAlgorithm/VMRouter.h:499 | The top k bits of an unsigned pattern are below 2^k and bracket the pattern. |
| VMRouterFunctions.ZBin | TrackletAlgorithm/VMRouter.h:491-492 | The k-bit bin of z made unsigned is below 2^k and brackets z plus half its range. |
| VMRouterFunctions.PhiCorr | TrackletAlgorithm/VMRouter.h:135-159 | A disk stub keeps its phi. A layer stub gets phi minus the table entry at bend * 8 + r bin when that fits phi's width; otherwise it gets the value in range nearest to it. The result always fits the width. |
| VMRouterFunctions.FirstMemNumber | TrackletAlgorithm/VMRouter.h:164-175 | The result is at most 31; below 31 it is a set bit of the mask. |
| VMRouterFunctions.FirstMemNumberLowest | TrackletAlgorithm/VMRouter.h:164-175 | No bit of the mask below the result is set. |
| VMRouterFunctions.GetFirstMemNumber | TrackletAlgorithm/VMRouter.h:164-175 | The while loop returns FirstMemNumber(mask): the lowest set bit among bits 0..30, or 31. |
| RouterConfig.FirstMemories | TrackletAlgorithm/VMRouter.h:228-231 | FirstMe, FirstTe and FirstOl: each is the lowest enabled module of its mask, or 31 when bits 0..30 are clear. FirstTe follows teimask, or teomask when teimask is zero; FirstOl is 0 without overlap memories. |
| RouterConfig.NVmMe | TrackletAlgorithm/VMRouter.h:234 | A region has 4 or 8 ME memories per coarse phi region. |
| RouterConfig.NVmTe | TrackletAlgorithm/VMRouter.h:235 | A region has 4 or 8 TE memories per coarse phi region. |
| RouterConfig.NVmOl | TrackletAlgorithm/VMRouter.h:236 | Layers 1 and 2 have two overlap memories per coarse phi region; every other region has none. |
| RouterConfig.NTotVmMe | TrackletAlgorithm/VMRouter.h:239-243 | A sector holds 16 or 32 ME modules. |
| RouterConfig.NTotVmTe | TrackletAlgorithm/VMRouter.h:245-248 | A sector holds 16 or 32 TE modules. |
| RouterConfig.NTotVmOl | TrackletAlgorithm/VMRouter.h:672-673 | A layer sector holds 8 or 16 overlap modules. |
| RouterConfig.VmBits | TrackletAlgorithm/VMRouter.h:571-572 | TE modules are numbered with 4 or 5 phi bits. |
| RouterConfig.VmBitsOl | TrackletAlgorithm/VMRouter.h:682 | Overlap modules are numbered with 3 or 4 phi bits. |
| InputStream.Stream | TrackletAlgorithm/VMRouter.h:305-316 | The processing order holds n_tot stubs, the sum of the enabled inputs' entry counts. |
| InputStream.StreamAt | TrackletAlgorithm/VMRouter.h:371-407 | The d-th stub processed is entry d - Start(j) of the input j whose block holds d, tagged with j. |
| InputStream.StartMonotone | TrackletAlgorithm/VMRouter.h:371-407 | The blocks of the inputs follow each other in input order. |
| InputStream.Remaining | TrackletAlgorithm/VMRouter.h:371-407 | An input's counter never exceeds its entry count. It is zero exactly when its block is finished or the input is empty or disabled. |
| InputStream.RemainingTotal | TrackletAlgorithm/VMRouter.h:409 | The remaining counts add up to the stubs not yet processed, which is what n_tot holds. |
| InputStream.FirstNonEmpty | TrackletAlgorithm/VMRouter.h:372-407 | The lowest input with entries left is the one whose block holds the next stub. |
| InputStream.RemainingStep | TrackletAlgorithm/VMRouter.h:372-407 | Reading stub d takes one entry off the input whose block holds d and leaves the other counters alone. |
| InputStream.Counts | TrackletAlgorithm/VMRouter.h:305-312 | The six counters after d reads are the remaining counts of the six inputs. |
| InputReader.ReadPriority | TrackletAlgorithm/VMRouter.h:372-407 | Every input before the one read has a zero counter. The input read has entries whenever any input has. |
| InputReader.TotalIsSum | TrackletAlgorithm/VMRouter.h:316 | n_tot is the sum of the six entry counts. |
| InputReader.EntryCount | TrackletAlgorithm/VMRouter.h:307-312 | An input's count is its number of entries, or zero when the input mask disables it. |
| InputReader.StartReading | TrackletAlgorithm/VMRouter.h:305-322 | The registers before the loop are the state after zero reads: n_tot is the total and read_addr is 0. |
| InputReader.ReadFrom | TrackletAlgorithm/VMRouter.h:371-407 | The input with priority is enabled and its block holds d. Its counter runs to the end of the block, read_addr is d's position in the input, and the stub read there is the d-th of the processing order. |
| InputReader.ReadLast | TrackletAlgorithm/VMRouter.h:372-418 | Reading an input's last entry zeroes its counter and resets read_addr to 0, which is the state after d + 1 reads. |
| InputReader.ReadMore | TrackletAlgorithm/VMRouter.h:372-420 | Reading another entry of an input decrements its counter and advances read_addr, which is the state after d + 1 reads. |
| InputReader.ReadNext | TrackletAlgorithm/VMRouter.h:371-420 | One read returns the d-th stub of the processing order and leaves the registers in the state after d + 1 reads. |
| StubRoute.InputKinds | TrackletAlgorithm/VMRouter.h:364-414 | NegDisk and Disk2S: on a disk router the second three inputs carry the negative disk and the first of each three carries 2S stubs; a layer router has neither. |
| StubRoute.VmIndex | TrackletAlgorithm/VMRouter.h:474 | The virtual module of a coarse bin lies below the sector's module count. |
| StubRoute.StubPhi | TrackletAlgorithm/VMRouter.h:446-448 | The corrected phi fits the width of the ordinary inputs. A disk stub keeps its phi. |
| StubRoute.StubRaw | TrackletAlgorithm/VMRouter.h:470 | The coarse bin of the corrected phi is below 32. |
| StubRoute.MEZBin | TrackletAlgorithm/VMRouter.h:491-492 | The z bits of the fine-bin index fit their width. |
| StubRoute.MERBin | TrackletAlgorithm/VMRouter.h:495-503 | The r bits of the fine-bin index fit their width, on a disk and on a layer. |
| StubRoute.MEIndex | TrackletAlgorithm/VMRouter.h:506-507 | The fine-bin index fits nbitsz + nbitsr bits. |
| StubRoute.MEIndexRows | TrackletAlgorithm/VMRouter.h:491-507 | The index is z row then r bin. A negative disk uses the mirrored row 2^nbz - z0, which wraps to 0 when z0 = 0. |
| StubRoute.SpanOf | TrackletAlgorithm/VMRouter.h:474-486 | The minus, own and plus modules are ordered and adjacent, and lie inside the sector. Unless the stub is in both quarters, plus or minus is the stub's own module. |
| StubRoute.MESpan | TrackletAlgorithm/VMRouter.h:470-482 | The modules computed from the plus and minus bins, clamped at the ends, are exactly SpanOf of the stub's quarter. So plus or minus is always its own module. |
| StubRoute.PlusVm | TrackletAlgorithm/VMRouter.h:475-482 | The clamped plus module is the next module when phi is in the top quarter of a bin below 31, and otherwise the stub's own module. |
| StubRoute.MinusVm | TrackletAlgorithm/VMRouter.h:476-480 | The clamped minus module is the previous module when phi is in the bottom quarter of a bin above 0, and otherwise the stub's own module. |
| StubRoute.MEPlace | TrackletAlgorithm/VMRouter.h:470-519 | An ME placement has the stub's module span, a bin in MEBinsBits bits and a three-bit fine z. The low three bits of the bin followed by the fine z give back the six-bit look-up `rzcorr`: the bin is its top three bits (plus 8 on a negative disk, see MEBinHalves) and the fine z its low three. |
| StubRoute.METargets | TrackletAlgorithm/VMRouter.h:543-549 | MEWrites, the ME write test: every ME memory a stub is written to exists in this router and lies in its span; at most two adjacent modules get it. Its own module gets it whenever the mask enables that module. |
| StubRoute.MEBinHalves | TrackletAlgorithm/VMRouter.h:513-515 | With 16 ME bins, bins 8 to 15 hold exactly the negative-disk stubs. |
| StubRoute.TEVm | TrackletAlgorithm/VMRouter.h:558-560 | The TE module lies below the sector's TE module count. |
| StubRoute.DiskZBin | TrackletAlgorithm/VMRouter.h:605-612 | The disk z bin has three bits and is mirrored to 7 - zbin on a negative disk. |
| StubRoute.TEIIndex | TrackletAlgorithm/VMRouter.h:583-614 | The inner rz table index is below 2048. |
| StubRoute.TEIRow | TrackletAlgorithm/VMRouter.h:636-637 | An accepted inner stub's memindex is a row the router holds, and first + memindex is its module. |
| RouterConfig.InnerBendRowIn | TrackletAlgorithm/VMRouter.h:638-646 | InnerBendRow: the row read for copy k of memory m is below nvm * copies and below 64, and is m * copies + k whenever nvm * copies <= 64. |
| RouterConfig.InnerBendRowsCollide | TrackletAlgorithm/VMRouter.h:638-646 | With eight memories of nine copies, copy 1 of memory 7 and copy 0 of memory 0 both read bend row 0. |
| RouterConfig.IntendedBendRowsDistinct | TrackletAlgorithm/VMRouter.h:638-646 | IntendedBendRow: distinct copies (m, k) have distinct rows m * copies + k. |
| StubRoute.TEIBendPassAt | TrackletAlgorithm/VMRouter.h:638-646 | Copy k of row m reads the bend flag at the six-bit row InnerBendRow (m * copies cut to six bits, then stepped k times modulo 64), and the table has that row; while the rows fit in 64 it is row m * copies + k. |
| StubRoute.TEIWriteSound | TrackletAlgorithm/VMRouter.h:636-647 | An inner stub that is written (TEIWrites) passed TEIAccepted: it is not 2S, has rzbits <= 1024 (the table marks a missing entry above that) and its module is enabled in teimask. It lands in its own module's row and in a copy that exists. |
| StubRoute.TEIWritesCell | TrackletAlgorithm/VMRouter.h:636-647 | TEIWrites: an inner stub that passes TEIAccepted goes to copy (m, k) iff m is its row and the bend flag that copy reads, at row InnerBendRow(copies, m, k), is set. |
| StubRoute.TEICells | TrackletAlgorithm/VMRouter.h:636-647 | The same for all copies at once, in terms of the loop's memindex and of the six-bit bendindex stepped k times; while the rows fit in 64, copy k reads row memindex * copies + k. |
| StubRoute.OLVm | TrackletAlgorithm/VMRouter.h:678-680 | The overlap module is the coarse bin halved, times ntotvmol / 16, and is below 16. |
| StubRoute.OLIndex | TrackletAlgorithm/VMRouter.h:659-666 | The overlap rz table index is below 1024. |
| StubRoute.OLRow | TrackletAlgorithm/VMRouter.h:701-702 | An accepted overlap stub lands in a row the router holds. |
| StubRoute.OLCells | TrackletAlgorithm/VMRouter.h:701-711 | An accepted overlap stub goes to copy (m, k) iff m is its row and bend flag [memindex * copies + k][bend] is set. |
| StubRoute.OLWritesCell | TrackletAlgorithm/VMRouter.h:701-711 | OLWrites: an overlap stub that passes OLAccepted goes to copy (m, k) iff first + m is its module and bend flag [m * copies + k][bend] is set. |
| StubRoute.OLWriteSound | TrackletAlgorithm/VMRouter.h:655-711 | An overlap stub that is written (OLWrites) comes from layer 1 or 2 and passed OLAccepted: its look-up is not the 1023 marker and its module is enabled in olmask. It lands in a row and a copy that exist. |
| StubRoute.TEOIndex | TrackletAlgorithm/VMRouter.h:742-780 | The outer rz table index is below 2048 on a layer and below 1024 on a disk. |
| StubRoute.TEOPlace | TrackletAlgorithm/VMRouter.h:736-791 | The outer bin and fine value have three bits each. On a layer the bin followed by the fine value is the six-bit look-up; on a disk the bin's low two bits followed by the fine value are the five-bit look-up, and bins 4 to 7 hold exactly the negative-disk stubs. |
| StubRoute.TEORow | TrackletAlgorithm/VMRouter.h:805-806 | An accepted outer stub lands in a row the router holds. |
| StubRoute.TEOCells | TrackletAlgorithm/VMRouter.h:805-814 | An accepted outer stub goes to copy (m, k) iff m is its row and bend flag [memindex * copies + k][bend] is set. |
| StubRoute.TEOWritesCell | TrackletAlgorithm/VMRouter.h:805-814 | TEOWrites: an outer stub that passes TEOAccepted goes to copy (m, k) iff first + m is its module and bend flag [m * copies + k][bend] is set. |
| StubRoute.TEOWriteSound | TrackletAlgorithm/VMRouter.h:723-815 | An outer stub that is written (TEOWrites) passed TEOAccepted: it is not 2S and its module is enabled in teomask, and it lands in a row and a copy that exist. |
| RouterSpec.Processed | TrackletAlgorithm/VMRouter.h:352-361 | One call processes min(kMaxProc, n_tot) stubs. |
| RouterSpec.StreamOk | TrackletAlgorithm/VMRouter.h:368-458 | Every stub of the processing order fits its input's format, so the per-stub arithmetic is defined for it. |
| RouterSpec.ProcessedPrefix | TrackletAlgorithm/VMRouter.h:352-361 | The stubs read once the loop stops are exactly the processed ones. |
| RouterSpec.AllStubMap | TrackletAlgorithm/VMRouter.h:424-429 | An AllStub copy holds address d exactly for d below the processed count, with the d-th stub processed there. |
| RouterSpec.AllStubStep | TrackletAlgorithm/VMRouter.h:426-428 | One more stub adds it at the next address. |
| RouterSpec.MEListHas | TrackletAlgorithm/VMRouter.h:543-549 | Every stub routed to ME memory n has its record in that memory's list. |
| RouterSpec.MEListFrom | TrackletAlgorithm/VMRouter.h:543-549 | Every record of ME memory n's list is the record of a stub routed there. |
| RouterSpec.MEListStep | TrackletAlgorithm/VMRouter.h:543-549 | One more stub appends its record exactly when it is routed to memory n. |
| RouterSpec.TEIListHas | TrackletAlgorithm/VMRouter.h:636-647 | Every stub routed to inner copy (m, k) has its record in that copy's list. |
| RouterSpec.TEIListFrom | TrackletAlgorithm/VMRouter.h:636-647 | Every record of inner copy (m, k)'s list is the record of a stub routed there. |
| RouterSpec.TEIListStep | TrackletAlgorithm/VMRouter.h:636-647 | One more stub appends its record exactly when it is routed to copy (m, k). |
| RouterSpec.TEIListValid | TrackletAlgorithm/VMRouter.h:633-636 | No inner record carries a look-up above 1024, and only rows and copies the router holds get any. |
| RouterSpec.OLListHas | TrackletAlgorithm/VMRouter.h:701-711 | Every stub routed to overlap copy (m, k) has its record in that copy's list. |
| RouterSpec.OLListFrom | TrackletAlgorithm/VMRouter.h:701-711 | Every record of overlap copy (m, k)'s list is the record of a stub routed there. |
| RouterSpec.OLListStep | TrackletAlgorithm/VMRouter.h:701-711 | One more stub appends its record exactly when it is routed to copy (m, k). |
| RouterSpec.OLListValid | TrackletAlgorithm/VMRouter.h:668-670 | No overlap record carries the 1023 marker, and only rows and copies the router holds get any. |
| RouterSpec.TEOListHas | TrackletAlgorithm/VMRouter.h:805-815 | Every stub routed to outer copy (m, k) has its record in that copy's list. |
| RouterSpec.TEOListFrom | TrackletAlgorithm/VMRouter.h:805-815 | Every record of outer copy (m, k)'s list is the record of a stub routed there. |
| RouterSpec.TEOListStep | TrackletAlgorithm/VMRouter.h:805-815 | One more stub appends its record exactly when it is routed to copy (m, k). |
| RouterSpec.Written | TrackletAlgorithm/VMRouter.h:643-644 | Writing a list at addresses 0, 1, ... puts entry a at address a and keeps every higher address of the base. |
| RouterSpec.WrittenStep | TrackletAlgorithm/VMRouter.h:643-644 | Writing at the counter's address extends the written list by one record. |
| RouterSpec.TEICellStep | TrackletAlgorithm/VMRouter.h:639-647 | An inner copy holding its list with the counter at the list's end still does so after one more stub. |
| RouterSpec.OLCellStep | TrackletAlgorithm/VMRouter.h:704-711 | The same for an overlap copy. |
| RouterSpec.TEOCellStep | TrackletAlgorithm/VMRouter.h:805-815 | An outer copy holding its initial contents followed by its list still does so once one more stub's record, when routed there, is appended. |
| VMRouterMain.ClearAllStub | TrackletAlgorithm/VMRouter.h:256-259 | Every AllStub copy is emptied. |
| VMRouterMain.ClearME | TrackletAlgorithm/VMRouter.h:261-266 | ME memory j is emptied exactly when the mask enables module firstme + j. The others keep their contents. |
| VMRouterMain.ClearRows | TrackletAlgorithm/VMRouter.h:268-300 | Every copy of an inner or overlap row is emptied exactly when the mask enables that row's module. |
| VMRouterMain.ClearBinnedRows | TrackletAlgorithm/VMRouter.h:279-288 | Every copy of an outer row is emptied exactly when the mask enables that row's module. |
| VMRouterMain.WriteAllStub | TrackletAlgorithm/VMRouter.h:424-429 | The stub goes to address i of every AllStub copy. |
| VMRouterMain.AppendToModules | TrackletAlgorithm/VMRouter.h:543-549 | Memory n - first gains the record exactly when module n is enabled and is the minus or plus module. |
| VMRouterMain.WriteCopiesWrapped | TrackletAlgorithm/VMRouter.h:638-647 | Each copy k of the row whose flag at Row6(base, k) is set gets the record at its counter's address, and its counter is incremented; Row6 is the six-bit index stepped k times, wrapping at 64. Nothing else changes. |
| VMRouterMain.WriteCopies | TrackletAlgorithm/VMRouter.h:703-711 | The same with an unwrapped bend index. |
| VMRouterMain.AppendToCopies | TrackletAlgorithm/VMRouter.h:807-814 | Each copy of the row whose bend flag is set gets the record appended. |
| VMRouterMain.WriteME | TrackletAlgorithm/VMRouter.h:464-550 | ME memory j gains the stub's record exactly when the stub is routed to module j + firstme. |
| VMRouterMain.WriteTEInner | TrackletAlgorithm/VMRouter.h:564-648 | Inner copy (m, k) gets the record at its counter's address, and its counter is incremented, exactly when the stub is routed there. |
| VMRouterMain.WriteTEInnerRow | TrackletAlgorithm/VMRouter.h:636-648 | The same for an accepted stub, at row memindex. |
| VMRouterMain.WriteOverlap | TrackletAlgorithm/VMRouter.h:655-718 | Overlap copy (m, k) gets the record at its counter's address, and its counter is incremented, exactly when the stub is routed there. |
| VMRouterMain.WriteTEOuter | TrackletAlgorithm/VMRouter.h:723-816 | Outer copy (m, k) gains the record in its bin exactly when the stub is routed there. |
| VMRouterMain.StepAllStub | TrackletAlgorithm/VMRouter.h:424-429 | After the i-th stub, every AllStub copy holds the first i + 1 stubs at their positions. |
| VMRouterMain.StepME | TrackletAlgorithm/VMRouter.h:464-550 | Every ME memory keeps holding its base followed by the records sent to it, now including the new stub's. |
| VMRouterMain.StepTEInner | TrackletAlgorithm/VMRouter.h:564-649 | Every inner copy keeps holding its list at addresses 0, 1, ... with its counter at the list's end. |
| VMRouterMain.StepOverlap | TrackletAlgorithm/VMRouter.h:655-718 | Every overlap copy keeps holding its list at addresses 0, 1, ... with its counter at the list's end. |
| VMRouterMain.StepTEOuter | TrackletAlgorithm/VMRouter.h:723-816 | Every outer copy keeps holding its base followed by the records sent to it. |
| VMRouterMain.RouteStubFirst | TrackletAlgorithm/VMRouter.h:424-649 | The AllStub, ME and inner memories keep their invariants after one more stub. |
| VMRouterMain.RouteStubSecond | TrackletAlgorithm/VMRouter.h:655-816 | The overlap and outer memories keep their invariants after one more stub. |
| VMRouterMain.RouteStub | TrackletAlgorithm/VMRouter.h:424-816 | Every output memory keeps its invariant after one more stub. |
| VMRouterMain.MECleared | TrackletAlgorithm/VMRouter.h:261-266 | The ME memories after clearing: emptied where the mask enables the module, kept elsewhere. |
| VMRouterMain.RowsCleared | TrackletAlgorithm/VMRouter.h:268-300 | The inner or overlap rows after clearing, row by row and copy by copy. |
| VMRouterMain.BinnedRowsCleared | TrackletAlgorithm/VMRouter.h:279-288 | The outer rows after clearing, row by row and copy by copy. |
| VMRouterMain.TEIStart | TrackletAlgorithm/VMRouter.h:325-333 | With every inner counter at zero, each copy holds the empty list over its cleared contents. |
| VMRouterMain.OLStart | TrackletAlgorithm/VMRouter.h:336-346 | With every overlap counter at zero, each copy holds the empty list over its cleared contents. |
| VMRouterMain.ProcessNext | TrackletAlgorithm/VMRouter.h:363-816 | One iteration reads the next stub of the processing order and routes it. Every memory invariant then holds for one more stub. |
| VMRouterMain.RouteAll | TrackletAlgorithm/VMRouter.h:352-820 | After the main loop every memory holds exactly what the processed stubs, min(kMaxProc, n_tot) of them in priority order, sent to it. |
| VMRouterMain.ClearOutputs | TrackletAlgorithm/VMRouter.h:256-346 | Before the loop: AllStub copies are empty, enabled memories are cleared, and every address counter is zero. |
| VMRouterMain.VMRouter | TrackletAlgorithm/VMRouter.h:185-822 | One call. Each AllStub copy maps address d to the d-th stub processed. Each ME and outer copy holds its old contents (nothing if cleared) followed by the records routed to it, in processing order. Each inner and overlap copy holds its records at addresses 0, 1, ... over its old contents. |
| TrackletEngine.Occupancy | TrackletAlgorithm/TrackletEngineUnit.h:218-219 | The number of entries between the four-bit cursors: read cursor + n = write cursor, modulo 16. |
| TrackletEngine.OccupancyWrite | TrackletAlgorithm/TrackletEngineUnit.h:90-94 | Advancing the write cursor adds one entry, except that a buffer of fifteen then reads as empty. |
| TrackletEngine.OccupancyRead | TrackletAlgorithm/TrackletEngineUnit.h:84-88 | Advancing the read cursor removes one entry, except that an empty buffer then reads as fifteen. |
| TrackletEngine.FullAsWritten | TrackletAlgorithm/TrackletEngineUnit.h:74-77 | The written test holds iff fifteen entries are queued and the write cursor is below the read cursor. |
| TrackletEngine.NearFullAsWritten | TrackletAlgorithm/TrackletEngineUnit.h:79-82 | The written test holds iff at least fourteen entries are queued and the write cursor is below the read cursor. |
| TrackletEngine.FullMissesLastSlot | TrackletAlgorithm/TrackletEngineUnit.h:74-82 | Cursors (15, 0) hold fifteen entries but are not reported full; cursors (14, 0) hold fourteen but are not reported nearly full. |
| TrackletEngine.Full | TrackletAlgorithm/TrackletEngineUnit.h:74-77 | With four-bit arithmetic, full iff fifteen entries are queued. |
| TrackletEngine.NearFull | TrackletAlgorithm/TrackletEngineUnit.h:79-82 | With four-bit arithmetic, nearly full iff at least fourteen entries are queued. |
| TrackletEngine.WindowPush | TrackletAlgorithm/TrackletEngineUnit.h:90-94 | Storing into the slot after the queued entries, with room left, appends to them. |
| TrackletEngine.WindowKeep | TrackletAlgorithm/TrackletEngineUnit.h:192 | Storing into the write slot leaves the queued entries alone. |
| TrackletEngine.WindowPop | TrackletAlgorithm/TrackletEngineUnit.h:84-88 | Advancing the read cursor past a nonempty queue drops its oldest entry. |
| TrackletEngine.RegionIndex | TrackletAlgorithm/TrackletEngineUnit.h:105-122 | Below 15 the result is a set bit of the pending mask with no lower set bit; 15 when bits 0..14 are all clear. |
| TrackletEngine.RegionCountBits | TrackletAlgorithm/TrackletEngineUnit.h:126 | RegionCount: bit j of region m's count is bit 4m + j of memstubs. |
| TrackletEngine.StubAddress | TrackletAlgorithm/TrackletEngineUnit.h:135-136 | The address has twelve bits. |
| TrackletEngine.StubAddressFields | TrackletAlgorithm/TrackletEngineUnit.h:136 | The address reads back as (ireg, ibin, istub). |
| TrackletEngine.NextIStub | TrackletAlgorithm/TrackletEngineUnit.h:150-154 | A counter inside its region stays inside it, and a nonzero new value is the old one plus one: the counter never skips a stub and only ever wraps to zero. |
| TrackletEngine.IStubOrbit | TrackletAlgorithm/TrackletEngineUnit.h:150-155 | On a region of n stubs (sixteen when the four-bit count is 0) the counter reads stubs 0, 1, ..., n - 1 in turn, each once, and is back at 0 on the tick that clears the region's mask bit. |
| TrackletEngine.PhiRow | TrackletAlgorithm/TrackletEngineUnit.h:175-177 | Inside the window the row is idphi modulo 32, below 32. |
| TrackletEngine.PhiDiffFields | TrackletAlgorithm/TrackletEngineUnit.h:132-173 | PhiDiff starts from the eight-bit outer phi, which reads back as the AllStub copy 1 in its top two bits, then ireg, then the outer fine phi. |
| TrackletEngine.RzWindow | TrackletAlgorithm/TrackletEngineUnit.h:167-179 | RzPass: the passing four-bit rz bins form one run, from rzbinfirst to rzbinfirst + rzbindiffmax; the bins just outside fail and every bin between two passing bins passes. |
| TrackletEngine.PairPassesMasked | TrackletAlgorithm/TrackletEngineUnit.h:173-187 | PairPasses: inside the phi window the bend tables are read at the row the masked form (32 + difference) & 31 gives, so the branch adding 32 and the masked alternative agree; the cut ignores the outer stub's index. |
| TrackletEngine.NextRegionLater | TrackletAlgorithm/TrackletEngineUnit.h:151-155 | Clearing a finished region's bit makes the next region scanned a later one. |
| TrackletEngine.StoreWindow | TrackletAlgorithm/TrackletEngineUnit.h:192-193 | The unconditional store never disturbs the queue. A saved pair joins its end when there was room. |
| TrackletEngine.TickRegionLowest | TrackletAlgorithm/TrackletEngineUnit.h:103-122 | TickRegion: the region scanned, below 15, is pending in both masks and no lower region is. |
| TrackletEngine.NextScanMeaning | TrackletAlgorithm/TrackletEngineUnit.h:125-162 | NextScan: a tick loads (next, ireg) and the region's count and moves the counter. The region's mask bit is cleared exactly when the counter wraps; other bits are kept. Idle becomes old idle, or an empty region, or a wrap under an empty memory mask. |
| TrackletEngine.TickOuterAddress | TrackletAlgorithm/TrackletEngineUnit.h:133-164 | TickOuter reads the address whose fields are the scanned region's ireg, bin (slot + next) mod 8, and the stub counter. |
| TrackletEngine.IdleSavesNothing | TrackletAlgorithm/TrackletEngineUnit.h:127-129 | TickSaves: an idle or backpressured tick saves no pair, and an idle unit stays idle. |
| TrackletEngine.DrainedRescansFifteen | TrackletAlgorithm/TrackletEngineUnit.h:105-162 | With regions 0..14 drained, a tick scans region 15. Under a nonempty memory mask the unit turns idle only if region 15's count is zero. |
| TrackletEngine.TrackletEngineUnit.Count | TrackletAlgorithm/TrackletEngineUnit.h:218-219 | The buffer's entry count: read cursor + n = write cursor, modulo 16. |
| TrackletEngine.TrackletEngineUnit.constructor | TrackletAlgorithm/TrackletEngineUnit.h:22-24 | A new unit is idle with istub zero. |
| TrackletEngine.TrackletEngineUnit.Init | TrackletAlgorithm/TrackletEngineUnit.h:27-55 | The loaded registers are the arguments. The unit is not idle, istub is zero and maskmask is 0xFFFF. The other registers, the cursors and the buffer are kept. |
| TrackletEngine.TrackletEngineUnit.Reset | TrackletAlgorithm/TrackletEngineUnit.h:58-62 | Both cursors are zeroed, so the buffer is empty with no contents, and the unit is idle. |
| TrackletEngine.TrackletEngineUnit.Idle | TrackletAlgorithm/TrackletEngineUnit.h:69-72 | Reports the idle register of the scan state, which Step never turns back off. |
| TrackletEngine.TrackletEngineUnit.Empty | TrackletAlgorithm/TrackletEngineUnit.h:64-67 | Empty iff the buffer holds no entry. |
| TrackletEngine.TrackletEngineUnit.FullReported | TrackletAlgorithm/TrackletEngineUnit.h:74-77 | Reported full iff Full holds (fifteen entries) and the write cursor is below the read cursor. |
| TrackletEngine.TrackletEngineUnit.NearFullReported | TrackletAlgorithm/TrackletEngineUnit.h:79-82 | Reported nearly full iff NearFull holds (at least fourteen entries) and the write cursor is below the read cursor; reported full implies reported nearly full. |
| TrackletEngine.TrackletEngineUnit.Read | TrackletAlgorithm/TrackletEngineUnit.h:84-88 | Returns the slot at the read cursor and advances the cursor. A nonempty buffer loses its oldest entry, which is the one returned. An empty one then reads as fifteen entries. |
| TrackletEngine.TrackletEngineUnit.Write | TrackletAlgorithm/TrackletEngineUnit.h:90-94 | Stores at the write cursor and advances it. With room left the entry joins the end of the buffer; a buffer of fifteen then reads as empty. |
| TrackletEngine.TrackletEngineUnit.SelectRegion | TrackletAlgorithm/TrackletEngineUnit.h:103-129 | Picks TickRegion, loads (next, ireg) and the count, turns idle on an empty region, and reports good = not (idle or nearfull). |
| TrackletEngine.TrackletEngineUnit.MoveCounter | TrackletAlgorithm/TrackletEngineUnit.h:150-162 | The counter moves with NextIStub. The region's mask bit is set to "not finished". Idle turns on at a wrap under an empty memory mask. |
| TrackletEngine.TrackletEngineUnit.Store | TrackletAlgorithm/TrackletEngineUnit.h:192-193 | The pair always lands in the write slot, and the cursor advances only when it is saved. The queue is unchanged or gains the pair. |
| TrackletEngine.TrackletEngineUnit.Step | TrackletAlgorithm/TrackletEngineUnit.h:96-198 | The scan registers become NextScan of the old ones. The pair (outer index, inner raw) lands in the write slot, and the cursor advances exactly when TickSaves holds. The queue is then unchanged, or it gains the pair when there was room. An idle unit stays idle and its write cursor stays put. |

Several rows name a lemma about a function that only computes: the lemma states what the function's result means. `TrackletEngine.OccupancyWrite`, `TrackletEngine.OccupancyRead` and `TrackletEngine.FullMissesLastSlot` are facts about concrete four-bit values, and Dafny proves them without further proof steps.

## Left out

- Printing, the `#ifndef __SYNTHESIS__` debug blocks and the debug `assert`s are not modelled: VMRouter.h:485-486, 521, 531-534, and TrackletEngineUnit.h:140-147.
- HLS pragmas (pipelining, unrolling, partitioning) have no meaning for the result and are not modelled.
- The memory classes (`InputStubMemory`, `AllStubMemory`, `VMStubMEMemory`, `VMStubTEOuterMemoryCM` and the others) and Constants.h are not part of this model.
  - Their `clear`, `write_mem` and `read_mem` are modelled as emptying a memory copy, writing at an address, appending to a bin, and reading a page of 4096 records per bunch crossing.
  - Memory depth limits on writes are not modelled.
- The bunch-crossing argument of the router is not modelled: a call works on one crossing's memories.
- The contents of the look-up tables (`.tab` files) and the masks come from the top-level wiring (VMRouterTop_D1.cc). They are parameters of a router instance, with sizes large enough for every index the router computes.
- Input memory depth: each input holds at most 2^memAddrBits entries, so `read_addr` never wraps. This is a precondition of `VMRouterMain.VMRouter`.
- Field widths:
  - `NSTUBS` (`kNBits_MemAddrBinned`) is taken as four bits.
  - The engine's `STUBID` is a record pairing the outer index with the inner stub's raw word.
  - The outer stub's fine phi, fine z and bend are taken as three bits each.
  - The router's TE-outer bin (`ap_uint<TEBinsBits> bin`, VMRouter.h:729) is taken as at least three bits, so `StubRoute.TEOPlace` never cuts the bin down; a narrower `TEBinsBits` would drop the negative-disk offset.
  - The inner stub is its raw word, its fine phi and its three-bit bend.
- The hard-coded AllStub copy number `iAllstub = 1` (TrackletEngineUnit.h:132) is a constant of the model.
- The unused `bx_` register is loaded by `Init` but has no further effect, as in the code.

## Findings

| source | as written | input that shows it | evidently intended | confidence | as-written member | corrected member |
|---|---|---|---|---|---|---|
| TrackletAlgorithm/TrackletEngineUnit.h:74-82 | `full()` tests `writeindex_+1==readindex_` and `nearfull()` also `writeindex_+2==readindex_`, with the sums promoted to `int`, so they are not cut back to four bits | writeindex_ = 15, readindex_ = 0: fifteen entries are queued but `full()` is false; writeindex_ = 14, readindex_ = 0: fourteen are queued but `nearfull()` is false | compare modulo 16, so that full means fifteen entries and nearfull at least fourteen, whatever the cursors' positions | high (ap_uint arithmetic promotes to a wider type); not executed | TrackletEngine.FullMissesLastSlot | TrackletEngine.Full |
| TrackletAlgorithm/VMRouter.h:637-646 | `ap_uint<6> bendindex = memindex*MaxTEICopies` and `bendindex++` keep the inner bend-table row in six bits, so it wraps at 64 | eight TE memories (memindex is three bits) of MaxTEICopies = 9: copy 1 of memory 7 reads row (63 + 1) mod 64 = 0, the row of copy 0 of memory 0 | a bend index wide enough for nvm * MaxTEICopies rows, so that copy k of memory m reads its own row m * MaxTEICopies + k | low (a latent defect, reached only when nvm * MaxTEICopies > 64); not executed | RouterConfig.InnerBendRowsCollide | RouterConfig.IntendedBendRowsDistinct |

`TrackletEngine.FullAsWritten` and `TrackletEngine.NearFullAsWritten` model the code as written.
- They hold exactly when the count is high and the write cursor is below the read cursor, so every wrapped full buffer is missed.
- `TrackletEngine.TrackletEngineUnit.FullReported` and `NearFullReported` are the class's queries. They keep the written behaviour, and their contracts state it against the corrected tests: each holds iff the corrected test holds and the write cursor is below the read cursor.

`TrackletEngine.Full` and `TrackletEngine.NearFull` are the corrected tests: they hold iff the count is 15, or at least 14.

`RouterConfig.InnerBendRow` is the six-bit row as written, and the router's `StubRoute.TEIBendPass` and `VMRouterMain.WriteCopiesWrapped` read it. `RouterConfig.IntendedBendRow` is the row meant, and distinct copies have distinct intended rows. `RouterConfig.InnerBendRowIn` proves the two agree whenever nvm * MaxTEICopies <= 64. The model keeps the written index, so a router with more rows than that reads shared rows as the code does.
