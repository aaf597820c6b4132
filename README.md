# Universal Hardware Programmer: a Dafny model

The programmer is an Arduino sketch, `src/main.cpp`. It reads, writes, erases and identifies
three kinds of memory chip. Commands arrive over a serial console:

- parallel NAND flash, driven bit by bit through two AVR ports;
- SPI NOR flash;
- I2C EEPROM.

This project models the three protocol sequencers, the status decoders, the hex dump every
read prints, and the session state that routes the console commands to a sequencer.

Hardware becomes a transcript: a `seq<Event>` of what the programmer puts on the wires.

| bus | what one event is |
|---|---|
| NAND | chip select or deselect, a byte under the command, address or data latch, a read-enable pulse, or a wait for ready |
| SPI | one chip-select frame with the bytes shifted out |
| I2C | one transmission with its bytes, or one read request with its length |

What a device answers is passed in as a parameter: status bytes, ID bytes, read data, and
whether an I2C target acknowledges. Each operation is specified by a function that builds its
transcript. Lemmas about those functions state what the sketch promises:

- the right commands, address cycles and data reach each latch, in order;
- writes never cross a page;
- reads request exactly the bytes asked for;
- the listing shows every byte once, under the right label.

Modules:

| file | module | what it models |
|---|---|---|
| `bus_types.dfy` | `BusTypes` | AVR integer widths (`byte`, 16-bit `uint`, 32-bit `ulong`), events, outcomes, per-latch projection of a NAND transcript |
| `status_decoder.dfy` | `StatusDecoder` | NAND and SPI status-register decoding |
| `nand_port.dfy` | `NandPort` | packing of the NAND data bus onto PORTD/PORTB |
| `nand_driver.dfy` | `NandDriver` | nandReadData, nandWriteData, nandErase, nandReadID, nandReset, nandReadStatus |
| `spi_driver.dfy` | `SpiFlashDriver` | spiReadID, identifySPIFlash, spiReadData, spiWriteData, spiWritePage, spiErase, spiReadStatus |
| `i2c_driver.dfy` | `I2cEepromDriver` | i2cWriteData, i2cReadData, i2cErase, i2cDetect, i2cReadStatus |
| `hexdump.dfy` | `HexDump` | hexDump, and the identical inline listing of spiReadData and i2cReadData |
| `session.dfy` | `Session` | the globals `currentMemoryType` and `i2cAddress`, and the console commands that act on them |

Points where the code behaves differently from what its comments and menu suggest:

- spiWritePage reads the status register once, through a single waitForSpiReady call, and
  does not loop. Only spiErase polls until the chip is not busy.
- i2cDetect probes 0x08 up to and including 0x77.
- setMemoryType does not reset the I2C address; it only resets the NAND chip when NAND is chosen.
- setI2CAddress works in every mode, not only in EEPROM mode. It cuts the parsed number to a byte
  before the range check.
- SPI program and erase never look at a failure bit: they always report completion.
- nandErase with the chip option sends the erase command and its confirm with no address cycles.
- NAND's 1000 ms ready timeout only prints a warning. The outcome still follows the status byte,
  so the model has no Timeout outcome.

## Model

| member | source | states |
|---|---|---|
| BusTypes.AddULong | src/main.cpp:772 | `unsigned long` addition: the exact sum below 2^32, the sum less 2^32 when it overflows |
| StatusDecoder.DecodeNandStatus | src/main.cpp:1054-1061 | the decoder reads exactly bits 0 (failed), 6 (ready) and 7 (write protected): re-encoding its result gives the byte with bits 1..5 cleared |
| StatusDecoder.NandStatusRoundTrip | src/main.cpp:1054-1061 | decoding the byte of any NAND status gives that status back |
| StatusDecoder.DecodeSpiStatus | src/main.cpp:1076-1086 | busy is bit 0, write-enable latch bit 1, block protect the 4-bit field at bits 2..5, register protect bit 7; re-encoding gives the byte with bit 6 cleared |
| StatusDecoder.SpiStatusRoundTrip | src/main.cpp:1076-1086 | decoding the byte of any SPI status with a 4-bit protect field gives that status back |
| StatusDecoder.SpiBusy | src/main.cpp:1182-1190 | waitForSpiReady reports busy exactly when bit 0 of the status byte is set |
| StatusDecoder.NandCompletion | src/main.cpp:690-695 | a program or erase is reported successful exactly when status bit 0 is clear, and failed otherwise |
| NandPort.SampleBus | src/main.cpp:1122-1125 | data bits 0..5 come from PIND bits 2..7 and data bits 6..7 from PINB bits 0..1 |
| NandPort.DriveBus | src/main.cpp:1139-1141 | driving a byte puts it on the bus pins so that sampling them gives it back; PORTD bits 0..1 and PORTB bits 2..7 keep their values |
| NandPort.DriveSampled | src/main.cpp:1122-1141 | driving a sampled byte reproduces the eight bus pins it was read from |
| NandDriver.CyclesOf | src/main.cpp:420-426 | five address cycles, least significant first, from which the chip assembles `page * 512 + column` |
| NandDriver.AddressCycles | src/main.cpp:408-426 | with a 32-bit page number, the five cycles give back every 32-bit address, and the column cycles give `address % 512` |
| NandDriver.AsWrittenAddressCycles | src/main.cpp:408-426 | with the sketch's 16-bit `page`, the column cycles give `address % 512`, the two page cycles give `(address / 512) mod 2^16`, and the fifth cycle is always 0: the chip receives the address modulo 32 MiB |
| NandDriver.PageTruncationAliases | src/main.cpp:409-426 | addresses 0 and 0x2000000 produce the same cycles as written, but different cycles with a 32-bit page |
| NandDriver.BlockCycles | src/main.cpp:889-896 | with a 32-bit block number, the three block cycles give back `address / 16384` |
| NandDriver.AsWrittenBlockCycles | src/main.cpp:889-896 | with the sketch's 16-bit `block`, the third cycle is always 0 and the block number is taken modulo 2^16 |
| NandDriver.BlockTruncationAliases | src/main.cpp:890-896 | addresses 0 and 0x40000000 erase the same block as written, but different blocks with a 32-bit block number |
| NandDriver.ReadSequenceLatches | src/main.cpp:413-435 | a read latches the commands 0x00 and 0x30, then its address cycles in order, and no data |
| NandDriver.ReadSequenceShape | src/main.cpp:412-441 | a read is select, READ, the address cycles in order, READ CONFIRM, the wait for ready, one read pulse per byte and deselect, each at its position |
| NandDriver.ReadLatches | src/main.cpp:404-442 | with the 32-bit page number, nandReadData latches READ and READ CONFIRM around five cycles that give back `address`, and latches no data. Event by event: READ at 1, the five cycles in order at 2..6, READ CONFIRM at 7, the wait for ready at 8, then exactly `numBytes` read pulses from 9 on |
| NandDriver.ReadPulses | src/main.cpp:437-441 | a read clocks out exactly `numBytes` bytes, between exactly one chip select (the first event) and one deselect (the last) |
| NandDriver.ReadSequenceSelections | src/main.cpp:405-441 | a read sequence selects the chip once and deselects it once |
| NandDriver.ProgramSequenceCommands | src/main.cpp:653-683 | a program latches exactly the commands PROGRAM, PROGRAM CONFIRM and READ STATUS, in that order |
| NandDriver.ProgramSequenceAddress | src/main.cpp:658-665 | a program latches exactly its address cycles on the address latch |
| NandDriver.ProgramSequenceData | src/main.cpp:667-670 | a program latches exactly `data`, in order, on the data latch |
| NandDriver.ProgramSequenceShape | src/main.cpp:650-683 | with five cycles: select, PROGRAM at 1, the cycles at 2..6, data byte `i` at `7 + i`, PROGRAM CONFIRM right after the last byte, then the wait, READ STATUS, one status pulse and deselect |
| NandDriver.CrossesPageExactly | src/main.cpp:644-648 | below the 16-bit wrap, the boundary test is `address % 512 + n > 512` |
| NandDriver.WriteTranscript | src/main.cpp:638-696 | with the 32-bit page number: a write past the page end is refused with nothing on the bus. Any other write latches the three commands, the cycles of `address` and exactly `data` in order, and succeeds exactly when status bit 0 is clear. Event by event: PROGRAM at 1, the five cycles at 2..6, the data from 7, PROGRAM CONFIRM after it, then the wait, READ STATUS, one status pulse and deselect |
| NandDriver.EraseSequenceLatches | src/main.cpp:878-916 | an erase latches ERASE, ERASE CONFIRM and READ STATUS, its block cycles in order, and no data |
| NandDriver.EraseSequenceShape | src/main.cpp:879-911 | an erase is select, ERASE, the block cycles in order, then ERASE CONFIRM, the wait, READ STATUS, one status pulse and deselect, each at its position |
| NandDriver.EraseTranscript | src/main.cpp:878-924 | with the 32-bit block number: sector and block erases latch the three cycles of block `address / 16384`, in order, between ERASE and ERASE CONFIRM (events 2..4); a chip erase latches no address and sends ERASE CONFIRM right after ERASE; then the wait, READ STATUS, one status pulse and deselect; no data is latched |
| NandDriver.EraseBlockOfAddress20000 | src/main.cpp:889-896 | an erase at address 20000 names block 1 |
| NandDriver.ReadIdLatches | src/main.cpp:248-260 | READ ID latches the single command 0x90 and the single address 0x00, and no data |
| NandDriver.ReadIdTranscript | src/main.cpp:248-280 | READ ID then clocks out exactly five ID bytes |
| NandDriver.ResetTranscript | src/main.cpp:1152-1168 | a reset selects the chip, latches the single command RESET and no address or data, waits once for ready, and deselects |
| NandDriver.StatusTranscript | src/main.cpp:1035-1048 | a status read selects the chip, latches the single command READ STATUS and no address or data, clocks out exactly one byte, and deselects |
| SpiFlashDriver.AddressBytes | src/main.cpp:450-453 | three address bytes, most significant first, which the chip reads back as the low 24 bits of the address |
| SpiFlashDriver.Zeros | src/main.cpp:286-288 | the bytes shifted out while answer bytes are clocked in are `n` zeros |
| SpiFlashDriver.ReadIdFrame | src/main.cpp:282-290 | spiReadID is one chip-select frame of four bytes: READ ID and three zeros that clock in the ID |
| SpiFlashDriver.StatusFrame | src/main.cpp:1064-1070 | a status read is one chip-select frame: READ STATUS, then one zero that clocks in the status |
| SpiFlashDriver.ManufacturerRoundTrip | src/main.cpp:306-334 | the five named manufacturer codes and the five makers correspond one to one; any other code names no maker |
| SpiFlashDriver.Identify | src/main.cpp:303-335 | the maker follows the code. A W25Q part is named exactly for Winbond with type 0x40 and capacity 0x14..0x18, and its size in Mbit agrees with 2^capacity bytes. "Unknown model" is printed exactly for Winbond with a type other than 0x40, and "Unknown W25Q series" exactly for Winbond type 0x40 with a capacity outside 0x14..0x18; no model line exactly for the other makers |
| SpiFlashDriver.ReadFrame | src/main.cpp:444-502 | a read is one frame: FAST READ, the low 24 bits of `address`, then only zeros, one dummy byte and one per byte read |
| SpiFlashDriver.PageProgramShape | src/main.cpp:720-747 | a page program is write enable, then one frame with PAGE PROGRAM, the address and exactly `data`, then one status read |
| SpiFlashDriver.WriteWithinPage | src/main.cpp:698-718 | a write that fits in its 256-byte page is one page program of all the data at `address` |
| SpiFlashDriver.WriteAcrossPage | src/main.cpp:703-713 | a write past its page becomes two page programs. The first fills the rest of the page; the second starts at the next page boundary. The payloads of the two program frames concatenate to `data`, and for at most a page of data the second fits its page |
| SpiFlashDriver.EraseOpcodeRoundTrip | src/main.cpp:935-951 | the three erase opcodes are distinct, name their scope, and differ from the other commands |
| SpiFlashDriver.EraseFrame | src/main.cpp:926-967 | write enable, then the erase opcode with the low 24 address bits for sector and block and no address for chip, then polling until not busy |
| I2cEepromDriver.AddressPhase | src/main.cpp:782-785 | one address byte, or two (high first) when wide; the last is always the low byte of the address |
| I2cEepromDriver.AddressPhaseValue | src/main.cpp:532-536 | the device reads back the address modulo 2^16 from a wide phase and modulo 2^8 from a narrow one |
| I2cEepromDriver.ChunkLength | src/main.cpp:772-776 | a page write carries at least one byte, no more than remain, and stops at the next 8-byte boundary unless the data ends first |
| I2cEepromDriver.WriteData | src/main.cpp:749-802 | the bus traffic is the presence probe, then, only if the device answers, the page writes; the outcome is BusAbsent exactly when it does not answer |
| I2cEepromDriver.PhaseBytes | src/main.cpp:781-785 | the address bytes queued are the address phase |
| I2cEepromDriver.PageBytes | src/main.cpp:778-790 | one transaction carries the address phase followed by the `count` data bytes from offset `written` |
| I2cEepromDriver.WriteStep | src/main.cpp:770-798 | one pass of the write loop emits the chunk at `written` and leaves the transactions of the rest of the data |
| I2cEepromDriver.WritePayloads | src/main.cpp:770-799 | after the address phases, the page writes together carry exactly the data, in order |
| I2cEepromDriver.FirstPageWrite | src/main.cpp:772-790 | the first page write carries one to eight bytes that stay inside the 8-byte page of its address |
| I2cEepromDriver.WritePages | src/main.cpp:770-799 | every page write goes to the target, carries one to eight data bytes, and never crosses an 8-byte page |
| I2cEepromDriver.WriteAddressAt | src/main.cpp:770-799 | page write `k` is addressed at the start address plus the bytes written before it, in `unsigned long`, cut to the phase width |
| I2cEepromDriver.NarrowWriteAcross0x100 | src/main.cpp:762-785 | the width is fixed by the start address: eight bytes from 0xFC go out as two writes with one-byte phases, and the second names 0x00, not 0x100 |
| I2cEepromDriver.ReadData | src/main.cpp:506-540 | the bus traffic is the probe, then, only if the device answers, 16-byte chunks of address write and request; the outcome is BusAbsent exactly when it does not answer |
| I2cEepromDriver.ReadStep | src/main.cpp:525-540 | one pass of the read loop emits one chunk, and the 16-bit offset `i` advances by 16 without wrapping |
| I2cEepromDriver.ReadChunkShape | src/main.cpp:525-540 | chunk `k` lies inside the read; it is an address write naming `address + i + 16k`, then a request to the target for exactly `min(16, numBytes - i - 16k)` bytes |
| I2cEepromDriver.ReadRequested | src/main.cpp:525-540 | the chunks come in write/request pairs, one pair per 16 bytes or part of 16 bytes, and together the requests ask for exactly the bytes from `i` to `numBytes` |
| I2cEepromDriver.EraseStarts | src/main.cpp:969-1004 | a sector erase makes 32 writes, a block erase 512 and a chip erase 4096, covering 256, 4096 and 32768 bytes; fill `k` starts at `8k` for a chip erase and at `(address + 8k) mod 2^32` otherwise |
| I2cEepromDriver.Unanswered | src/main.cpp:751-759 | the fills reported as not responding are starts of the erase, no more of them than fills, and there are none exactly when the device answers every probe |
| I2cEepromDriver.Erase | src/main.cpp:969-1008 | the erase loop emits one i2cWriteData of eight 0xFF bytes per start address, in order, each with its own probe; the fills whose probe goes unanswered are skipped and reported, and the loop goes on |
| I2cEepromDriver.WriteProbes | src/main.cpp:749-799 | i2cWriteData probes the device exactly once; none of its page writes is an empty transmission |
| I2cEepromDriver.WriteDelivers | src/main.cpp:749-799 | after the address phases, i2cWriteData delivers exactly `data` when the device answers and nothing when it does not |
| I2cEepromDriver.FillProbes | src/main.cpp:980-1002 | a run of fills probes the device once per fill |
| I2cEepromDriver.EraseProbes | src/main.cpp:969-1004 | an erase probes the device once per 8-byte fill, answered or not: 32, 512 or 4096 times |
| I2cEepromDriver.AlignedFill | src/main.cpp:749-799 | eight bytes written at an 8-aligned address are one probe and a single page write |
| I2cEepromDriver.ChipEraseFill | src/main.cpp:970-986 | chip-erase fill `k` is a single page write of eight 0xFF at `8k`. It has a one-byte phase for the first 32 fills and a two-byte phase after |
| I2cEepromDriver.ScanComplete | src/main.cpp:341-358 | the scan reports exactly the acknowledging addresses from 0x08 to 0x77 |
| I2cEepromDriver.ScanOrdered | src/main.cpp:341-355 | reported addresses are in range and strictly increasing; a device is flagged likely EEPROM exactly when its address is in 0x50..0x57 |
| I2cEepromDriver.Detect | src/main.cpp:337-363 | the loop probes every address from 0x08 to 0x77 once and reports the acknowledging ones |
| I2cEepromDriver.ScanStep | src/main.cpp:341-357 | one address of the scan is one probe, plus one report when it acknowledges |
| I2cEepromDriver.StatusTranscript | src/main.cpp:1089-1108 | a status check is one probe, then, only when the device answers, a write of the single byte 0 |
| HexDump.Hex | src/main.cpp:1254 | `print(n, HEX)` gives at least one character, all upper-case hex digits |
| HexDump.ParseHexOfHex | src/main.cpp:1254 | the hex digits printed read back as the number |
| HexDump.LabelIsPadded | src/main.cpp:1251-1254 | the label is one zero per failed `< 0x1000`, `< 0x100`, `< 0x10` test, then the hex digits |
| HexDump.LabelParses | src/main.cpp:1251-1254 | a row label is all hex digits and reads back as the offset it labels |
| HexDump.LabelLength | src/main.cpp:1251-1254 | a label has at least four digits, and exactly four below 0x10000 |
| HexDump.CellShape | src/main.cpp:1262-1264 | a byte's cell is two hex digits and a space, and the digits read back as the byte |
| HexDump.AsciiShape | src/main.cpp:1276-1282 | the text column has one printable character per byte; it shows the byte itself exactly when the byte is printable (32..126) |
| HexDump.RowAlignment | src/main.cpp:1250-1283 | a row of 1 to 16 bytes with a label below 0x10000 has its ` | ` separator at column 56, so the text columns of all rows line up |
| HexDump.DumpRowsCover | src/main.cpp:1244-1283 | reading the rows back in order gives exactly the bytes listed |
| HexDump.DumpRowAt | src/main.cpp:1244-1255 | row `k` is labelled with the base plus `16k`; it holds 16 bytes unless it is the last, which holds 1 to 16 |
| HexDump.PadRow | src/main.cpp:1269-1272 | a short row is padded with three blanks per missing byte |
| HexDump.TextColumn | src/main.cpp:1276-1282 | the text column is read back from the buffer: printable bytes as themselves, others as '.' |
| HexDump.CloseLine | src/main.cpp:1266-1283 | closing a line after its last byte completes one more row of the listing |
| HexDump.ReadCell | src/main.cpp:1245-1264 | reading a byte stores it at `i % 16` and prints the row header first when the byte opens a row, then its cell |
| HexDump.ReadByte | src/main.cpp:1244-1283 | one turn of the loop: the buffer holds the row read so far. The row is closed exactly after its sixteenth byte or the last byte, and then every row up to it is printed |
| HexDump.Advance | src/main.cpp:1244-1283 | after one turn, what is printed is every finished row, then the open row's prefix |
| HexDump.Dump | src/main.cpp:1241-1287 | the listing is the rows of 16 bytes, labelled base plus offset, with a line end between rows and one at the end |
| Session.EraseOption | src/main.cpp:821-861 | '1' selects sector, '2' block, '3' chip; any other option is rejected |
| Session.ReadCount | src/main.cpp:379-382 | a read asks for at most 256 bytes: the request itself when smaller, otherwise 256 |
| Session.TargetByte | src/main.cpp:1202 | a parsed number that fits a byte is kept as it is; any other differs from the target byte by a multiple of 256 |
| Session.TargetByteWraps | src/main.cpp:1202 | numbers 256 apart give the same target byte |
| Session.Programmer.constructor | src/main.cpp:63-65 | power-on: no memory type, I2C target 0x50, nothing on the bus |
| Session.Programmer.SetMemoryType | src/main.cpp:201-221 | the type is recorded; choosing NAND resets the chip, and nothing else reaches the bus; the target stays valid |
| Session.Programmer.SetI2cAddress | src/main.cpp:1192-1211 | the target changes exactly when the byte is in 0x08..0x77, and otherwise stays; the target stays valid |
| Session.Programmer.ReadDeviceId | src/main.cpp:225-246 | with no type, nothing reaches the bus. Otherwise NAND reads five ID bytes, SPI reads and identifies the JEDEC ID, and I2C scans the bus; the target stays valid |
| Session.Programmer.ReadData | src/main.cpp:367-401 | with no type, nothing reaches the bus. Otherwise each technology reads at most 256 bytes. NAND labels rows from 0; SPI and I2C label them with the address; the target stays valid |
| Session.Programmer.WriteData | src/main.cpp:587-636 | with no type, nothing reaches the bus; otherwise the write goes to the selected sequencer, and its outcome is that sequencer's; the target stays valid |
| Session.Programmer.EraseMemory | src/main.cpp:806-876 | with no type, an invalid option or an unconfirmed chip erase, nothing reaches the bus; otherwise the erase goes to the selected sequencer, and a chip erase starts at 0. An I2C erase always completes, and lists the fills whose probe went unanswered; the target stays valid |
| Session.Programmer.ReadStatus | src/main.cpp:1012-1109 | NAND and SPI read and decode their status register; I2C reports presence, and readiness only when present; the target stays valid |

## Left out

- The serial front end is left out: printMenu, handleCommand, readHexValue, readDecValue, and the strtok/strtol parsing in writeData. Commands arrive as typed parameters (a `ulong` address, a `uint` count, `seq<byte>` data, a `char` option, a confirmation flag).
- Timing is left out: delays, strobe pulse widths, and the millis timeouts of waitForNandReady and spiErase. Waits are the single events `NandWaitReady` and `SpiWaitWhileBusy`. How many status polls an erase makes, and the progress dots printed while it waits, are not modelled.
- Pin-direction register writes (DDRD, DDRB) and the chip-enable, latch-enable and strobe pins are left out. The strobes are folded into the latch of each `NandByte` event and the select and deselect events.
- Console messages other than the hex listing are left out. Operations return an `Outcome` instead.
- An I2C erase reports `Success` ("Erase complete") even when fills went unanswered, as the sketch does; the unanswered fills are returned as the list of their start addresses, one per "not responding" message.
- Device answers are parameters, not read from the bus.
- The I2C read does not model a device that sends fewer bytes than requested (the `Wire.available()` shortfall, after which stale buffer bytes are printed). The answer is taken as complete.
- The inline listings of spiReadData and i2cReadData are modelled by `HexDump.DumpText` with the read's start address as base. Their row breaks follow `i % 16` exactly as hexDump's do. i2cReadData's 16-byte chunks start at multiples of 16, so its per-chunk buffer coincides with hexDump's row buffer.
- I2cEepromDriver.ReadData: requires at most 0xFFF0 bytes. A longer read would wrap the 16-bit chunk offset and never end; readData already caps reads at 256 bytes.
- NandDriver.WriteTranscript: states its result for lengths up to 0xFE00, where the 16-bit boundary test cannot wrap; writeData passes at most 32 bytes.
- SpiFlashDriver.WriteAcrossPage: states its result below the 16-bit wrap of `offset + numBytes`; writeData passes at most 32 bytes.
- Session.Programmer.WriteData: requires at most 32 bytes, the size of writeData's buffer.
- setup() and loop() are left out (pin setup, baud rate, the main command loop). So are the unused command definitions (WRITE DISABLE, WRITE STATUS, READ DATA 0x03, 32 KiB block erase).
- The model uses the 32-bit page and block numbers (see Findings) for the NAND transcripts the session emits. The sketch's 16-bit computation is kept beside them as `AsWrittenAddressCycles` and `AsWrittenBlockCycles`.

## Findings

| source | as written | input that shows it | evidently intended | confidence | as-written member | corrected member |
|---|---|---|---|---|---|---|
| src/main.cpp:409 | `unsigned int page = address / pageSize;` (nandReadData, and again at src/main.cpp:641 in nandWriteData) keeps the page number in 16 bits on the AVR, so the fifth address cycle `(page >> 16) & 0xFF` is always 0 | address 0x2000000 sends the same five cycles as address 0 | the page number of every 32-bit address reaches the chip | not executed | NandDriver.PageTruncationAliases | NandDriver.AddressCycles |
| src/main.cpp:890 | `unsigned int block = address / blockSize;` keeps the block number in 16 bits, so the third block cycle is always 0 | address 0x40000000 erases the same block as address 0 | the block number of every 32-bit address reaches the chip | not executed | NandDriver.BlockTruncationAliases | NandDriver.BlockCycles |
