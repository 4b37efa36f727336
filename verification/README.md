# Verified model of the flash programmer's data paths

The programmer writes SPI-NOR flash chips through small USB and serial controllers. This project models the code that
moves the data, and proves what it does for every input, every run and every choice a controller or a slow chip may make.

- **SPI-NOR driver** (`FlashMemory`, `NorChip`, `SpiNor`, `SpiNorRuns`, `SpiNorParts`). The chip is a value with a memory
  array, write latch, busy time, bus mode, address registers and AAI pointer; `NorChip.Receive` says what one bus frame
  does to it and sets a sticky `misused` flag for every frame that finds the chip busy, write-protected, in another bus
  mode, or inside an AAI sequence. The driver is the class `SpiNor.Nor` with the shadow fields of the source. Its
  invariant `Ready` says that the shadows are the chip's own state, the chip is idle and was never misused. Every public
  call keeps it and is proved against a plain array; `SpiNorRuns` lifts that to whole runs and to the end-to-end data
  theorems. A link is reliable, unplugged or flaky; the data theorems are about reliable links, because the code reports
  success after a failed page (`flash/spi-nor/spi-nor.c:2898`) and after a failed status read (`flash/spi-nor/regs.c:252`).
- **Erase planner** (`EraseRegions`, `ErasePlan`). Regions and erase types, the range a request is widened to, the greedy
  choice of blocks, exactness and optimality of the whole loop. Erase types are powers of two wherever the source takes
  them from (`flash/spi-nor/sfdp.c:400-423`, `flash/spi-nor/ext_id.c:1327`); a type cut to its region need not be, and
  such a region is rounded from its own start.
- **Sector map** (`SectorMap`, `SectorMapFormat`). The walk over the Sector Map Parameter Table, and an encoder of the
  layout in section 6.5 of JESD216B against which it is proved.
- **Registers** (`Registers`). Values scattered over several register descriptors and gathered again.
- **Controllers.** FTDI receive FIFO (`FtdiFifo`), FT4222H operation executor (`Ft4222Spi`, `Ft4222MultiIo`), CH341 transfers (`Ch341Spi`),
  MPSSE pins and framing (`MpsseChip`, `MpsseSpi`, `MpsseFraming`), serprog framing (`SerprogSpi`).
- **Common code.** CRC-32 tables (`Crc32`), the packed bitmap (`Bitmap`), the word-wise compare (`BuffDiff`).
- **Shared.** `PowerOfTwo`, `BitString` (machine words as bits), `Memory`, `SpiApi`, `Wrappers`.

Code that changes things step by step is modelled by classes and loops with the source's fields; each method is proved
against a function or a predicate, and the lemmas say what these mean. What the environment decides is a parameter or a
nondeterministic choice: how far a controller shortens an operation, how long a chip stays busy, whether a USB transfer
fails, what a slave answers.

## Where the code falls short of the general claim

Each of these is kept as the code has it, and the exact condition is proved.

- The end of an erase range is rounded down when the smallest erase size is not a power of two (`EraseRangeCovers`), down
  to an empty range (`EraseRangeEmptyIff`): erasing 4 KiB at the start of a 224 KiB region made of one cut sector reports
  success and erases nothing (`ErasesNothing`).
- A region that does not start and end on multiples of its power-of-two smallest erase size has requests that are not
  erased exactly, and only such regions have (`ExactIff`): at the ragged end of a 6 KiB region of 4 KiB sectors the loop
  stops (`ErasesNoFurther`), in front of a misaligned one it steps back (`StepsBack`).
- Some erase request divides by zero exactly if a non-empty region has no usable erase type (`DividesIff`,
  `EncodedDividesIff`), and a sector map with such a region is accepted (`TypelessAccepted`).
- A part whose enable type, but no flag, selects three address bytes gets no high-byte register: `SelectionReachesIff`.
- A switch between bus modes leaves the chip behind when the part lacks the command for it (`SwitchWorksIff`): a part that
  cannot leave four-line mode stays there (`SwitchStays`).
- The sector map parser reads one DWORD behind its table if it issues a command described by the last DWORD, or accepts a
  map that runs past the end, and only then: `OverreadIff`, with both cases in `CommandOverread` and `MapOverread`.
- An impossible detection counts as success, since the error code returned reads as true. That happens exactly if the
  controller refuses the first command not answered (`DetectEndsIff`, `KeepEncodedIff`); the part is then set up with one
  uniform region in place of those of its map (`KeepHappens`, `SetupRegions`).
- A write on an unplugged link fails only if a bus mode switch has a command to send: `SpiNor.Nor.Write`.
- The addressing-mode shadow is the chip's mode only if the setup chooses that mode or the chip starts with three bytes:
  `ModeShadowIff`, and `ModeShadowWrong` for a part on which it is not.
- Big-endian order across register descriptors works only for certain widths (`BigRoundTripIff`), and three-byte registers
  give back only values whose upper bytes are zero (`ThreeBytesIff`, `ThreeBytesDiffer`).
- The FT4222H check gives the intended answer only if the parts in front of the data can be sent as they are, and accepts
  everything else (`CheckRightIff`); the size adjustment does not count header bytes sent on several lines
  (`AdjustedFitsIff`), so that a four-line write of 64 KiB does not fit its command (`QuadWriteTooLong`).
- The CH341 fast path ignores where chip select is to be released: `FastEqualsGeneralIff`.
- MPSSE clock edges are those of the SPI mode only for the four modes, and setting a mode checks nothing: `EdgesRightIff`.
- After a failed transfer of pins, repeating the update sends nothing (`RepeatSendsNothing`); shadow and chip agree again
  only once an update changes the shadow of that half (`MendedIff`).
- The bitmap's size computation may wrap: `RoomIff`. The head compare of `bufdiff` may reach past the buffers
  (`HeadSoundIff`), and the compare by words behind it starts on a word boundary only for buffers aligned to half a word
  (`WordStartAlignedIff`).

## Model

| member | source | states |
|---|---|---|
| FlashMemory.EraseThenProgram | flash/spi-nor/spi-nor.c:3081-3120 | data programmed into an erased range reads back exactly and nothing outside the range changes |
| FlashMemory.ProgramReadsBackIff | flash/spi-nor/spi-nor.c:2870-2899 | programming without an erase reads back if and only if every bit the data needs was still set |
| FlashMemory.ProgrammedAppend | flash/spi-nor/spi-nor.c:2713-2733 | programming in consecutive pieces is programming at once |
| NorChip.NeverMisused | flash/spi-nor/spi-nor.c:2694-2836 | what a chip that was never misused tells about every frame it received: right bus mode, idle, write-enabled and fully addressed for programs and erases, only words, status reads and write disables inside an AAI sequence |
| NorChip.OnlyWritesChangeArray | flash/spi-nor/spi-nor.c:2694-2836 | the array changes only through program, AAI and erase frames to an idle, write-enabled chip |
| NorChip.NoWrapInPage | flash/spi-nor/spi-nor.c:2706-2708 | a program that ends inside its page is a plain program, although the chip would wrap inside the page |
| NorChip.ReadReceived | flash/spi-nor/spi-nor.c:2644-2653 | a read inside one wrap block returns the plain range although the chip's counter wraps |
| NorChip.ThreeBytesReach | flash/spi-nor/spi-nor.c:793-808 | three address bytes alone reach every address if and only if the chip fits them |
| NorChip.HighByteLanding | flash/spi-nor/spi-nor.c:793-808 | register byte and three address bytes make up the full address |
| ErasePlan.StepAdvances | flash/spi-nor/spi-nor.c:3000-3064 | from a grid address there is always a block to erase; it starts at the cursor, stays inside region and request, and leaves the cursor on the grid |
| ErasePlan.StepIsLargest | flash/spi-nor/spi-nor.c:3026-3047 | no erasable block at the cursor inside the request is larger than the one chosen |
| ErasePlan.RunTiles | flash/spi-nor/spi-nor.c:3104-3119 | the loop erases exactly the range: erasable blocks, no gap, no overlap, cursor ending on the end |
| ErasePlan.RunIsOptimal | flash/spi-nor/spi-nor.c:3026-3110 | with power-of-two erase types, cut to their regions or not, no tiling by erasable blocks over any mixture of regions uses fewer commands |
| ErasePlan.BlockInside | flash/spi-nor/spi-nor.c:3034-3043 | a block that starts inside the largest block at an address ends inside it |
| ErasePlan.EraseRangeOnGrid | flash/spi-nor/spi-nor.c:2958-2998 | every request inside the part is widened to an ordered pair of grid addresses |
| ErasePlan.EraseRangeCovers | flash/spi-nor/spi-nor.c:2985-2995 | the range reaches the end of the request if and only if the smallest erase size there is a power of two or divides the part of the region in front of that end |
| ErasePlan.EraseRangeEmptyIff | flash/spi-nor/spi-nor.c:2975-2995 | the range is empty if and only if the smallest erase size is no power of two and the request ends inside the grain it starts in |
| ErasePlan.EraseRangeIsTight | flash/spi-nor/spi-nor.c:2975-2995 | the range lies inside every grid range around the request |
| ErasePlan.DividesIff | flash/spi-nor/spi-nor.c:2919-3119 | some erase request inside the part divides by zero, when its range is computed or on the way through it, if and only if some region of the part that is not empty has no erase type |
| ErasePlan.TypelessDivides | flash/spi-nor/spi-nor.c:2975-2982 | the request for the first byte of such a region divides by zero |
| ErasePlan.RunDividesIff | flash/spi-nor/spi-nor.c:3104-3119 | the loop over a range divides by zero if and only if its blocks lead to an address short of the end whose region has no smallest erase size |
| ErasePlan.StepsBack | flash/spi-nor/spi-nor.c:3011-3021 | a run that comes to a region not starting on a multiple of its power-of-two smallest size does not tile its range |
| ErasePlan.StuckAtRaggedEnd | flash/spi-nor/spi-nor.c:3022-3047 | at the ragged end of a region no erase type fits and the loop stops |
| ErasePlan.ExactIff | flash/spi-nor/spi-nor.c:2958-3119 | with power-of-two erase types and no empty region every request is erased exactly, and none divides by zero, if and only if every region has an erase type and, where its smallest size is a power of two, starts and ends on a multiple of it |
| EraseRegions.GetEraseRegionAt | flash/spi-nor/spi-nor.c:2919-2942 | the region found is the specification's, with the address it starts at |
| EraseRegions.RegionAtExact | flash/spi-nor/spi-nor.c:2919-2942 | every address below the total size lies in exactly one region, the one looked up |
| EraseRegions.FillEraseSizes | flash/spi-nor/spi-nor.c:1353-1375 | the smallest and largest erase size of a mask, each capped by the region |
| EraseRegions.UniformRegions | flash/spi-nor/spi-nor.c:1377-1399 | one region over the whole part with every erase type of non-zero size |
| EraseRegions.RegionValidIff | flash/spi-nor/spi-nor.c:1353-1375 | a region of power-of-two types meets the planner's conditions if and only if a caller finds it non-empty, with a type, and aligned where its smallest size is a power of two |
| SpiNor.SwitchWorksIff | flash/spi-nor/spi-nor.c:2555-2589 | exactly when a bus mode switch takes the chip along |
| SpiNor.SelectionReachesIff | flash/spi-nor/spi-nor.c:1265-1281 | in the branch for three address bytes every address is reached if and only if the part is small or a flag is set |
| SpiNor.SelectedRegister | flash/spi-nor/spi-nor.c:1265-1281 | which flag selects which register for the high address byte |
| SpiNor.ModeShadowIff | flash/spi-nor/spi-nor.c:810-825 | the addressing-mode shadow kept by every run is the chip's mode if and only if the setup chooses it or the chip starts with three bytes |
| SpiNor.Bus.AdjustOpSize | flash/spi-nor/spi-nor.c:2651 | the controller may shorten an operation to any non-zero length, and takes none longer than that |
| SpiNor.Nor.WriteEnable | flash/spi-nor/spi-nor.c:293-315 | leaves the chip idle and write-enabled, its array and modes unchanged; succeeds on an idle chip in any mode if and only if the latch is set |
| SpiNor.Nor.WriteDisable | flash/spi-nor/spi-nor.c:325-347 | clears the latch and ends an AAI sequence; succeeds on an idle chip in any mode if and only if the latch is clear |
| SpiNor.Nor.WaitBusy | flash/spi-nor/spi-nor.c:2602-2624 | ends with the chip idle and otherwise unchanged, the latch cleared if an operation completed; the last look behind the loop is needed |
| SpiNor.Nor.DpiControl | flash/spi-nor/spi-nor.c:827-842 | switches between one and two lines where the part has the command |
| SpiNor.Nor.QpiControl | flash/spi-nor/spi-nor.c:844-859 | switches between one and four lines where the part has the command |
| SpiNor.Nor.SetBusWidth | flash/spi-nor/spi-nor.c:2555-2589 | the tracked mode becomes the requested one, the chip follows as far as it has commands; for modes the part can enter and leave both agree; on an unplugged link it fails if and only if it has a command to send |
| SpiNor.Nor.WriteAddrHighByte | flash/spi-nor/spi-nor.c:682-720 | the chip's register holds the byte, and success means that it does in whatever mode the chip is; the extended-address register is written between write enable and write disable, the latch clear afterwards |
| SpiNor.Nor.SetupAddr | flash/spi-nor/spi-nor.c:793-808 | afterwards every command with the shortened address lands at the caller's address, the cache is the register, and a clear latch is clear again |
| SpiNor.Nor.ProgramChunk | flash/spi-nor/spi-nor.c:2713-2733 | one controller-sized piece programmed in place, the chip idle again |
| SpiNor.Nor.PageProgramWrite | flash/spi-nor/spi-nor.c:2694-2739 | programs up to the end of the page, and no command crosses a page whatever the controller splits |
| SpiNor.Nor.ByteProgram | flash/spi-nor/spi-nor.c:2741-2754 | one byte programmed by a write-enabled chip |
| SpiNor.Nor.WordProgram | flash/spi-nor/spi-nor.c:2756-2788 | one word of an AAI sequence lands at the chip's pointer |
| SpiNor.Nor.AaiWords | flash/spi-nor/spi-nor.c:2804-2820 | the word run between write enable and write disable programs consecutive words |
| SpiNor.Nor.AaiWrite | flash/spi-nor/spi-nor.c:2790-2836 | odd head, words and tail leave the contents the page programmer would leave, for every address and length |
| SpiNor.Nor.ReadNoCheck | flash/spi-nor/spi-nor.c:2626-2667 | any splitting by die boundary and controller returns the plain range |
| SpiNor.Nor.Read | flash/spi-nor/spi-nor.c:2669-2692 | range check, or the array's bytes; the shadow state stays the chip's and a clear latch is clear again |
| SpiNor.Nor.WritePage | flash/spi-nor/spi-nor.c:1879-1884 | either writer programs a non-empty prefix of the data, and no page program wraps |
| SpiNor.Nor.Write | flash/spi-nor/spi-nor.c:2870-2899 | range check, or all the data programmed, no page program wraps and the latch is clear if there was data; on an unplugged link it fails if and only if one of its mode switches has a command to send, and reports success otherwise |
| SpiNor.Nor.EraseOneBlock | flash/spi-nor/spi-nor.c:2901-2917 | an aligned erase type erases exactly its block |
| SpiNor.Nor.PickEraseType | flash/spi-nor/spi-nor.c:3026-3047 | an erase type of the largest size that is aligned and fits |
| SpiNor.Nor.EraseAt | flash/spi-nor/spi-nor.c:3000-3064 | erases the planned block and reports its size |
| SpiNor.Nor.Erase | flash/spi-nor/spi-nor.c:3081-3120 | range check, or exactly the widened range erased by the planned blocks in order, and the latch clear if it is not empty; an unplugged link fails the call if and only if the range is not empty |
| SpiNor.Nor.RecheckWidth | flash/spi-nor/spi-nor.c:722-779 | after a reset the mode found is the chip's |
| SpiNor.Nor.AddressingControl | flash/spi-nor/spi-nor.c:810-825 | chip and shadow enter or leave four-byte addressing together where the part has the command, and both stay otherwise |
| SpiNor.Nor.ChipSetup | flash/spi-nor/spi-nor.c:2036-2053 | establishes the invariant, all shadows included, from the chip's state after a reset |
| SpiNor.Nor.Reset | flash/spi-nor/spi-nor.c:861-878 | keeps the invariant and the array whatever mode the chip comes up in, and clears the latch |
| SpiNorParts.PartSuits | flash/spi-nor/spi-nor.c:1176-1339 | the driver's assumptions can be met for every valid erase layout up to 4 GiB, with and without a four-line mode |
| SpiNorParts.UniformSuits | flash/spi-nor/spi-nor.c:1377-1399 | they are met by every uniform part of 64 KiB blocks up to 4 GiB, whose erase types are powers of two |
| SpiNorParts.ModeShadowWrong | flash/spi-nor/spi-nor.c:810-825 | a part that suits the driver and on which the addressing-mode shadow of every run is not the chip's mode |
| SpiNorParts.SwitchStays | flash/spi-nor/spi-nor.c:2555-2589 | a part that suits the driver and does not come back from four-line mode |
| SpiNorParts.HybridValid | flash/spi-nor/spi-nor.c:2974-2995 | 32 KiB of 4 KiB sectors, 224 KiB of one cut sector and a whole 256 KiB sector are a valid layout of power-of-two types |
| SpiNorParts.ErasesNothing | flash/spi-nor/spi-nor.c:2985-2995 | on that layout erasing the first 4 KiB of the cut sector reports success and changes nothing |
| SpiNorParts.ErasesNoFurther | flash/spi-nor/spi-nor.c:3022-3047 | on a 6 KiB region of 4 KiB sectors a request at its end is widened to a range of which nothing is erased |
| SpiNorRuns.Handle | flash/spi-nor/spi-nor.c:2669-3120 | one request has the effect and the answer of a plain array that erases by the layout |
| SpiNorRuns.HandleAll | flash/spi-nor/spi-nor.c:2669-3120 | every run of reads, writes, erases and resets refines the plain array, keeps shadow state and protocol safety, never lets a page program wrap, and leaves no write-protected chip write-enabled |
| SpiNorRuns.ErasesAllIff | flash/spi-nor/spi-nor.c:2975-2995 | what a caller can check before an erase: whether it clears everything it is asked to |
| SpiNorRuns.EraseWriteRead | flash/spi-nor/spi-nor.c:2669-3120 | erase, write, read returns exactly the data, and no byte outside the erased range changes |
| SpiNorRuns.WriteReadIff | flash/spi-nor/spi-nor.c:2669-2899 | write and read without an erase returns the data if and only if the old contents allow it |
| SpiNorRuns.UntouchedSurvives | flash/spi-nor/spi-nor.c:2669-3120 | a byte no request of a run touches is unchanged |
| SpiNorRuns.TouchedChanges | flash/spi-nor/spi-nor.c:2669-3120 | and every byte a request touches it does change, in some contents, unless ones are programmed |
| SpiNorRuns.DataSurvives | flash/spi-nor/spi-nor.c:2669-3120 | data erased and written is what a later read returns, through any requests elsewhere |
| SpiNorRuns.WritesOnlyClearBits | flash/spi-nor/spi-nor.c:2870-2899 | where no erase reaches, bits only go from one to zero |
| SectorMap.DetectEndsIff | flash/spi-nor/sfdp.c:868-888 | for every table, the parse keeps what was there if and only if the controller refuses the first command not answered, and detection fails if and only if the transfer of that command fails |
| SectorMap.Part.RunDetection | flash/spi-nor/sfdp.c:868-887 | the command loop yields the detected configuration and where the maps start, and reads the descriptors and addresses of the commands issued |
| SectorMap.Part.FindMap | flash/spi-nor/sfdp.c:892-904 | the walk ends, at the first map of the configuration or with none, having read the headers it passed |
| SectorMap.Part.FillRegions | flash/spi-nor/sfdp.c:930-944 | the regions of the entries, their total, the entries read, and the eight-bit counter never wraps |
| SectorMap.Part.ParseSmpt | flash/spi-nor/sfdp.c:848-954 | accepted if and only if the sizes of the map's entries add up to the flash size; regions kept, installed or dropped accordingly; exactly the specified DWORDs are read |
| SectorMap.Part.SetupRegions | flash/spi-nor/spi-nor.c:1886-1890 | a rejected table fails the setup, a map fails it exactly if its entries do not add up, and otherwise its regions are the part's; a kept table or none gives one uniform region; whatever the table, success partitions the part |
| SectorMap.OverreadIff | flash/spi-nor/sfdp.c:868-944 | the parse reads behind its table, and then one DWORD, if and only if it issues a command described by the last DWORD or accepts a map ending one DWORD behind the table |
| SectorMap.MapOverread | flash/spi-nor/sfdp.c:913-931 | a table of one DWORD that is accepted and overread |
| SectorMap.CommandOverread | flash/spi-nor/sfdp.c:868-877 | a table of one DWORD that is overread for a command and then rejected |
| SectorMapFormat.DetectEncoded | flash/spi-nor/sfdp.c:868-887 | the detected configuration is the number the answers spell, in eight bits |
| SectorMapFormat.ParseEncoded | flash/spi-nor/sfdp.c:848-918 | a well-formed table is parsed to the first map with the detected configuration, and rejected without one |
| SectorMapFormat.DecodeEncoded | flash/spi-nor/sfdp.c:930-944 | decoding gives back the regions that were encoded, in order |
| SectorMapFormat.EncodedTotal | flash/spi-nor/sfdp.c:930-946 | for a well-formed table the sizes compared with the flash size are those of the encoded entries |
| SectorMapFormat.HeaderBytes | flash/spi-nor/sfdp.c:892-913 | the fields read from any map header, whatever its reserved bits |
| SectorMapFormat.EveryCommand | flash/spi-nor/sfdp.c:873-877 | every DWORD is read as the command descriptor of some command of the format |
| SectorMapFormat.EveryEntry | flash/spi-nor/sfdp.c:931-935 | every DWORD is read as the region entry of some entry of the format |
| SectorMapFormat.KeepEncodedIff | flash/spi-nor/sfdp.c:868-888 | a well-formed table is kept if and only if the controller refuses the first command that is not answered, and detection fails if and only if that command's transfer fails |
| SectorMapFormat.KeepHappens | flash/spi-nor/sfdp.c:879-882 | a table that is kept when its command cannot be sent, and parsed to a map of two regions when it is answered |
| SectorMapFormat.EncodedDividesIff | flash/spi-nor/spi-nor.c:2919-3119 | with the regions of a map some erase request divides by zero if and only if an entry has no usable erase type |
| SectorMapFormat.TypelessAccepted | flash/spi-nor/sfdp.c:930-953 | a map that is accepted and covers the part, and on which erasing one byte divides by zero |
| SectorMapFormat.MapExactIff | flash/spi-nor/sfdp.c:930-944 | with power-of-two types every request is erased exactly, and none divides by zero, if and only if each entry has a usable type and is aligned where its smallest size is a power of two |
| SectorMapFormat.EncodedExactIff | flash/spi-nor/sfdp.c:848-954 | the same condition decides whether the regions parsed from a well-formed table are a layout the planner can use |
| Registers.AssembleSplit | flash/spi-nor/regs.c:164-227 | one-, two- and four-byte registers give back what was put in, in both byte orders |
| Registers.ThreeBytesIff | flash/spi-nor/regs.c:212-218 | a three-byte register gives back what was put in if and only if the highest byte is zero and, in little-endian order, the middle one too |
| Registers.ThreeBytes | flash/spi-nor/regs.c:212-218 | which byte of the value each of three bytes ends up in |
| Registers.ThreeBytesDiffer | flash/spi-nor/regs.c:212-218 | a value of three bytes that does not come back |
| Registers.ReadAcc | flash/spi-nor/regs.c:229-257 | the read loop gathers the fields in order |
| Registers.WriteAcc | flash/spi-nor/regs.c:375-420 | the write loop scatters the fields, or hands out one write of all bytes |
| Registers.LittleRoundTrip | flash/spi-nor/regs.c:229-420 | little-endian order gives every fitting value back |
| Registers.BigRoundTripIff | flash/spi-nor/regs.c:229-420 | big-endian order gives every fitting value back if and only if the last field is as wide as all before it |
| Registers.OnceIsScatter | flash/spi-nor/regs.c:375-399 | the write-once form leaves the registers as the register-by-register form does |
| Registers.WrittenReadsBack | flash/spi-nor/regs.c:229-420 | what any access of matching byte orders writes reads back |
| Registers.ReadingFits | flash/spi-nor/regs.c:229-257 | in the byte orders that read back what is written, a reading takes no more bits than its registers have |
| Registers.UpdateAcc | flash/spi-nor/regs.c:440-454 | an update changes only the bits to clear or set, and writes only when that changes something |
| FtdiFifo.PayloadFits | controller/ftdi/ftdi-libusb.c:339-344 | the data of one transfer never exceeds the FIFO chosen at setup |
| FtdiFifo.PayloadSplit | controller/ftdi/ftdi-libusb.c:142-163 | stripping status bytes is unaffected by splitting at packet boundaries |
| FtdiFifo.FtHandle.Unpack | controller/ftdi/ftdi-libusb.c:142-163 | the FIFO holds exactly the data of the transfer's packets |
| FtdiFifo.FtHandle.ReadRaw | controller/ftdi/ftdi-libusb.c:123-182 | bytes handed out and bytes still held are the stream, on every outcome |
| FtdiFifo.FtHandle.Read | controller/ftdi/ftdi-libusb.c:184-211 | success if and only if exactly the wanted bytes of the stream; nothing lost or repeated on any outcome |
| FtdiFifo.ReadMany | controller/ftdi/ftdi-libusb.c:184-211 | any sequence of reads hands out the stream in consecutive pieces |
| Ft4222Spi.SingleIoSupportedIff | controller/ftdi/ft4222h-spi.c:615-664 | a single-I/O operation is supported if and only if all it sends fits one transfer |
| Ft4222Spi.NotRefusedIff | controller/ftdi/ft4222h-spi.c:591-622 | the check returns early exactly when command, address and dummy cannot be sent in this order |
| Ft4222Spi.CheckRightIff | controller/ftdi/ft4222h-spi.c:615-664 | the check gives the intended answer, parts sendable in order with few enough bytes on one line, if and only if the parts in front of the data are; otherwise it accepts |
| Ft4222Spi.EightLinesAccepted | controller/ftdi/ft4222h-spi.c:591-613 | an operation accepted by mistake: any command on eight lines |
| Ft4222Spi.AdjustIs | controller/ftdi/ft4222h-spi.c:558-589 | the adjustment changes nothing but operations on several lines with more than 0xffff bytes, and leaves of those that much, the front of what is sent; data is left if and only if there was some |
| Ft4222Spi.FillAddress | controller/ftdi/ft4222h-spi.c:691-701 | the scratch buffer holds the address, highest byte first |
| Ft4222Spi.Ft4222.OneShot | controller/ftdi/ft4222h-spi.c:744-768 | one write; wire and received data are the operation's, nothing is left to read |
| Ft4222Spi.Ft4222.Chunked | controller/ftdi/ft4222h-spi.c:770-824 | the same wire and received data in chunks |
| Ft4222Spi.Ft4222.Exec | controller/ftdi/ft4222h-spi.c:666-824 | every path sends one chip-select frame with the operation's one meaning, returns the slave's answers, and leaves nothing stale |
| Ft4222MultiIo.SupportedIsOrdered | controller/ftdi/ft4222h-spi.c:615-664 | a multi-I/O operation the check means to accept has its one-line parts first and few enough of them |
| Ft4222MultiIo.AdjustedFitsIff | controller/ftdi/ft4222h-spi.c:558-589 | after the size adjustment its lengths fit the command if and only if data to send leaves room for header bytes sent on several lines |
| Ft4222MultiIo.QuadWriteTooLong | controller/ftdi/ft4222h-spi.c:558-589 | an adjusted four-line write that is accepted and does not fit the command |
| Ft4222MultiIo.LanesSplit | controller/ftdi/ft4222h-spi.c:678-736 | cutting the bytes where the counts say puts every part on the lines it asks for |
| Ft4222MultiIo.TakeFrameIff | controller/ftdi/ft4222h-spi.c:830-834 | the chip takes the operation back out of the command if and only if its lengths fit the fields |
| Ft4222MultiIo.PrefixWaits | controller/ftdi/ft4222h-spi.c:848-865 | a command that is not complete makes the chip wait |
| Ft4222MultiIo.MultiIo.WriteBucks | controller/ftdi/ft4222h-spi.c:848-865 | the chip sees one command however it is cut into buckets |
| Ft4222MultiIo.MultiIo.Exec | controller/ftdi/ft4222h-spi.c:827-881 | new and old chips are asked for the operation itself, new ones in one transfer each way, old ones in transfers within their limit; the caller gets what was received, nothing is left over |
| SpiApi.BigEndianValue | controller/serprog/serprog-spi.c:321-326 | the address bytes spell the address, highest first |
| SpiApi.LittleEndianValue | controller/serprog/serprog-spi.c:303-309 | the length bytes spell the length, lowest first |
| Ch341Spi.Ch341.FdxXfer | controller/wch/ch341-spi.c:43-75 | splitting into packets and reversing bits changes neither the bytes sent nor those received, and no more packets are used than needed |
| Ch341Spi.Ch341.General | controller/wch/ch341-spi.c:157-173 | the general loop's chip-select events, bytes and received data |
| Ch341Spi.Ch341.GenericXfer | controller/wch/ch341-spi.c:131-179 | requests released only after the second transfer get the general loop's result on either path |
| Ch341Spi.FastEqualsGeneralIff | controller/wch/ch341-spi.c:142-155 | the fast path equals the general loop if and only if chip select is released after the second transfer and only then |
| Ch341Spi.RevBits | controller/wch/ch341.c:15-55 | bit i of a reversed byte is bit 7 - i |
| Ch341Spi.GeneralFrames | controller/wch/ch341-spi.c:157-173 | the general loop's bytes reach the slave in frames that end exactly at the marked ends, in both polarities |
| Ch341Spi.FramesFromInit | controller/wch/ch341-spi.c:79-90 | from the release at initialisation on, the slave sees exactly the frames of the transfers |
| MpsseChip.ShiftOutAppend | controller/ftdi/mpsse-spi.c:324-342 | shifting out in chunks is shifting out at once |
| MpsseChip.ShiftInStep | controller/ftdi/mpsse-spi.c:304-322 | shifting in in chunks gives the same bytes and the same view of the slave |
| MpsseSpi.Mpsse.ResetPins | controller/ftdi/mpsse.c:353-361 | afterwards the zeroed shadow is what the chip drives |
| MpsseSpi.Mpsse.SetPins | controller/ftdi/mpsse.c:71-115 | packets for changed halves only, and the new shadow even when a transfer fails; success without a packet where the shadow does not change |
| MpsseSpi.Mpsse.SpiRead | controller/ftdi/mpsse-spi.c:268-322 | commands and chunks deliver what the slave answers |
| MpsseSpi.Mpsse.SpiWrite | controller/ftdi/mpsse-spi.c:286-342 | commands and chunks shift out exactly the data |
| MpsseSpi.Mpsse.GenericXfer | controller/ftdi/mpsse-spi.c:344-394 | the loop over the transfers, including the refusal of a transfer and the release after it, and the release after a transfer that fails |
| MpsseSpi.EdgesRightIff | controller/ftdi/mpsse-spi.c:215-292 | the clock levels driven are those of the mode's table, and the edges asked for are if and only if the mode is one of the four |
| MpsseFraming.SetGpioAgrees | controller/ftdi/mpsse.c:71-115 | the shadow keeps agreeing with the chip although unchanged halves are not sent, and exactly the masked pins change |
| MpsseFraming.SequenceAgrees | controller/ftdi/mpsse.c:71-115 | after any sequence of updates shadow and chip agree, and every pin is what the last update naming it made it |
| MpsseFraming.UpdateAll | controller/ftdi/mpsse.c:71-115 | the same for the calls themselves, from the pin reset on, unless a transfer fails |
| MpsseFraming.RepeatSendsNothing | controller/ftdi/mpsse.c:79-109 | whatever state a failed transfer left the chip in, the same update again leaves it there |
| MpsseFraming.MendedIff | controller/ftdi/mpsse.c:79-109 | from any shadow and chip, an update leaves them agreeing on a half of the pins if and only if they agreed or it changes the shadow of that half |
| MpsseFraming.SetGpioIsDrive | controller/ftdi/mpsse.c:83-103 | the two packets of an update act on the slave as one |
| MpsseFraming.StartEffect | controller/ftdi/mpsse-spi.c:215-245 | the slave is released if need be, then selected at idle clock, and the clock made ready |
| MpsseFraming.StopEffect | controller/ftdi/mpsse-spi.c:247-266 | the clock is idle again before the slave is released |
| MpsseFraming.RunIsIdeal | controller/ftdi/mpsse-spi.c:360-394 | a run is that of a perfect SPI master: bytes only inside frames, frames ending at marked ends, in all modes and polarities |
| MpsseFraming.RunInMode | controller/ftdi/mpsse-spi.c:215-292 | mode number by mode number: the clock level at which every frame of a run starts and ends, the level at which every byte starts, and the edges it is sent and sampled on |
| MpsseFraming.Transact | controller/ftdi/mpsse-spi.c:360-394 | the same for the call itself, unless a USB transfer fails |
| SerprogSpi.SupportsIff | controller/serprog/serprog-spi.c:252-287 | an operation is supported if and only if its parts use one line at single rate and, where it sends data, the adjustment leaves some and all that is sent then fits |
| SerprogSpi.AdjustedIs | controller/serprog/serprog-spi.c:234-250 | how much data is left, the wrap of the 64-bit subtraction included |
| SerprogSpi.AdjustedFits | controller/serprog/serprog-spi.c:234-287 | after adjustment lengths fit 24 bits, the data is cut to exactly the room there is and otherwise nothing changes, and data is left if and only if there was data and a buffer |
| SerprogSpi.FrameBytes | controller/serprog/serprog-spi.c:301-332 | what stands where in a request, byte by byte |
| SerprogSpi.TakeFrameIff | controller/serprog/serprog-spi.c:301-328 | a decoder takes the operation back out of the stream if and only if its lengths fit 24 bits |
| SerprogSpi.StreamDecodes | controller/serprog/serprog-spi.c:289-349 | back-to-back requests decode to the original operations with nothing left over |
| SerprogSpi.DecodeAppend | controller/serprog/serprog-spi.c:289-349 | bytes sent later never change requests already complete |
| SerprogSpi.Serprog.SendRequest | controller/serprog/serprog-spi.c:289-335 | the pieces written from the reused buffer are the request's frame |
| SerprogSpi.Serprog.Exec | controller/serprog/serprog-spi.c:289-349 | the programmer performs exactly the operation, the caller gets its bytes or an error, and both stay in step |
| Crc32.ReflectedInit | common/crc32.c:25-37 | every entry is eight steps of the bit-at-a-time register |
| Crc32.NormalInit | common/crc32.c:50-62 | the same for the normal form |
| Crc32.ReflectedCal | common/crc32.c:15-23 | by table is bit at a time, for every polynomial, start value and message |
| Crc32.NormalCal | common/crc32.c:40-48 | the same for the normal form |
| Crc32.ReflectedAppend | common/crc32.c:15-23 | a concatenation is a chain of calls |
| Crc32.NormalAppend | common/crc32.c:40-48 | the same for the normal form |
| Crc32.ComplementedAppend | common/include/ufprog/crc32.h:32-42 | with the register complemented before and after, calls still chain over a concatenation |
| Crc32.ComplementedIsRemainder | common/include/ufprog/crc32.h:32-42 | the complemented checksums are the remainders with every bit negated, from the negated start value |
| Crc32.Tables.Make | common/crc32.c:75-86 | the two static tables belong to the default polynomials |
| Crc32.Tables.Crc | common/include/ufprog/crc32.h:32-36 | the negated, mirrored remainder by x^32 + x^26 + x^23 + x^22 + x^16 + x^12 + x^11 + x^10 + x^8 + x^7 + x^5 + x^4 + x^2 + x + 1 |
| Crc32.Tables.CrcBe | common/include/ufprog/crc32.h:38-42 | the negated remainder by the same polynomial |
| Crc32.Duality | common/crc32.c:15-62 | the two forms are bit-reversal duals |
| Crc32.RemainderExists | common/crc32.c:40-62 | the reference division is right: quotient times divisor plus remainder |
| Crc32.RemainderUnique | common/crc32.c:40-62 | no other remainder is possible |
| Crc32.NormalIsRemainder | common/crc32.c:40-48 | the normal CRC is the remainder of polynomial division |
| Crc32.NormalDivides | common/crc32.c:40-48 | the dividend is a multiple of the polynomial with x^32 plus the normal CRC, and this is the only such sum |
| Crc32.ReflectedIsRemainder | common/crc32.c:15-23 | so is the reflected CRC, mirrored |
| Crc32.DefaultPolynomials | common/include/ufprog/crc32.h:20-21 | the default polynomials of the two forms are mirror images |
| Bitmap.RoomIff | common/bitmap.c:32-39 | every unit has a cell if and only if the 32-bit size computation does not wrap |
| Bitmap.Create | common/bitmap.c:41-80 | rejects exactly the packings it should; all units start at the initial value |
| Bitmap.PackedBitmap.Set | common/bitmap.c:92-142 | exactly one unit changes, or nothing on a bad argument |
| Bitmap.PackedBitmap.Get | common/bitmap.c:144-180 | the unit's value |
| Bitmap.PackedBitmap.Reset | common/bitmap.c:182-236 | all units at the initial value, through the byte fill or the cell fill |
| Bitmap.SetField | common/bitmap.c:92-142 | mask and shift change one field and no other bit |
| Bitmap.HandleAll | common/bitmap.c:92-236 | every run answers as a plain array does, so cell types cannot be told apart |
| BuffDiff.VerdictUnique | common/buffdiff.c:12-96 | there is one verdict and one first difference |
| BuffDiff.ByteDiff | common/buffdiff.c:12-27 | the byte compare finds it |
| BuffDiff.WordDiff | common/buffdiff.c:29-47 | the word compare finds the same |
| BuffDiff.BufDiff | common/buffdiff.c:49-96 | so does the whole compare, for every alignment and length it supports |
| BuffDiff.HeadSoundIff | common/buffdiff.c:60-74 | the head compare is sound for all contents if and only if it does not reach past the buffers |
| BuffDiff.WordStartAlignedIff | common/buffdiff.c:60-78 | behind the head the compare by words starts on a word boundary if and only if the buffers are aligned to half a word |

## Left out

- SpiNor.Nor.Reset: the chip is reset by a single opcode frame; the two-opcode and clocked forms, the delay after the reset, status register clearing, quad enable, dummy-cycle setup and vendor hooks are not modelled.
- SpiNor.Nor.ChipSetup: only bus mode, high byte and addressing mode of the chip setup are modelled, for parts with one die.
- SpiNor.Nor.Write: says nothing about the contents after a transfer fails, because the code then reports success with any prefix written.
- SpiNor.Nor.Read: sums of address and length are unbounded here; the source adds in 64 bits.
- SpiNor.Nor.AaiWrite: needs a controller that can send two bytes in one operation, and a part without a register for the high address byte, because the AAI writer never sets that up.
- SpiNor.Nor.Erase: on layouts with an irregular region nothing is promised for the driver; what the planner does there is stated by `ErasePlan.ExactIff` and `ErasePlan.DividesIff`.
- SpiNorParts.PartSuits: the configurations are written down as examples, not derived by the opcode setup.
- SpiNor.SelectHighByte: only the three-address-byte branch of the opcode setup is modelled.
- EraseRegions.UniformRegions: sorting the erase types by size is not modelled; no claim depends on their order.
- Registers.AssembleSplit: three-byte registers, which the code assembles wrongly, are the subject of `Registers.ThreeBytesIff`.
- FtdiFifo.FtHandle.Read: a device that stays silent ends the call as starved; the source goes on asking.
- Ft4222Spi.Ft4222.Exec: single-I/O operations with a one-byte command and no failing transfer.
- Ft4222MultiIo.MultiIo.Exec: multi-I/O operations with a one-byte command, lengths that fit the command, and no failing transfer.
- Ch341Spi.Ch341.GenericXfer: USB transfers do not fail, and a packet and its answer are one step.
- MpsseSpi.Mpsse.GenericXfer: the host's chip-select pin and polarity are those of the slave, and the clock frequency is not modelled.
- SerprogSpi.Serprog.Exec: the serial line loses nothing, and the programmer answers each request with a rejection byte or an acknowledgement and its data.
- Bitmap.CellBits: pointer cells are taken as 64 bits wide.
- SectorMap.RegionSize: field arithmetic is that of a 64-bit build, where it does not wrap.
- Masks are written as remainders, and machine words as sequences of bits, where that is the same.
- SFDP header and basic table decoding, JEDEC identification, opcode selection, write protection, OTP areas, multi-die parts.
- Vendor tables, JSON configuration, plugin loading, logging, progress reports, locks, bus speed, real time.
- libusb, D2XX, hidapi and serial port calls, beyond the byte streams they carry.
- `mpsse_set_clock`, the finite-width helpers in `common/bitops.c`, path and hexdump helpers: they would add only easy members.
