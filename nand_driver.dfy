/** The parallel NAND sequencer (nandReadData, nandWriteData, nandErase, nandReadID,
    nandReset, nandReadStatus): what each operation puts on the bus, as a transcript.

    Small-page geometry: 512-byte pages, 16 KiB blocks. A read or program sends five address
    cycles (column low, column high, page low, page middle, page high); an erase sends three
    block cycles, least significant first.
 */
module NandDriver {
  import opened BusTypes
  import opened StatusDecoder

  const CMD_READ_ID: byte := 0x90
  const CMD_READ_STATUS: byte := 0x70
  const CMD_READ: byte := 0x00
  const CMD_READ_CONFIRM: byte := 0x30
  const CMD_PROGRAM: byte := 0x80
  const CMD_PROGRAM_CONFIRM: byte := 0x10
  const CMD_ERASE: byte := 0x60
  const CMD_ERASE_CONFIRM: byte := 0xD0
  const CMD_RESET: byte := 0xFF


  // ----- address cycles -----

  /** How the chip assembles five address cycles: column from the first two, page from the
      last three. */
  function CyclesAddress(cycles: seq<byte>): nat
    requires |cycles| == 5
  {
    var column := cycles[0] as int + 256 * cycles[1] as int;
    var page := cycles[2] as int + 256 * cycles[3] as int + 0x1_0000 * cycles[4] as int;
    page * 512 + column
  }

  /** Five address cycles for a column below 512 and a page that fits in three bytes. */
  function CyclesOf(column: nat, page: nat): (cycles: seq<byte>)
    requires column < 512 && page < 0x100_0000
    ensures |cycles| == 5
    ensures cycles[0] as int + 256 * cycles[1] as int == column
    ensures cycles[2] as int + 256 * cycles[3] as int + 0x1_0000 * cycles[4] as int == page
    ensures CyclesAddress(cycles) == page * 512 + column
  {
    ThreeBytes(page);
    assert column % 256 + 256 * ((column / 256) % 256) == column;
    [Low8(column), Low8(column / 256), Low8(page), Low8(page / 256), Low8(page / 0x1_0000)]
  }

  /** The address cycles of a read or program with the page number held in 32 bits: the chip
      receives column `address % 512` and page `address / 512`, which together give back
      `address` for every 32-bit address. */
  function AddressCycles(address: ulong): (cycles: seq<byte>)
    ensures |cycles| == 5
    ensures cycles[0] as int + 256 * cycles[1] as int == address % 512
    ensures CyclesAddress(cycles) == address
  {
    CyclesOf(address % 512, address / 512)
  }

  lemma PageModulo(address: ulong)
    ensures ((address / 512) % 0x1_0000) * 512 + address % 512 == address % 0x200_0000
  {
    var q := address / 0x200_0000;
    var r := address % 0x200_0000;
    assert address == q * 0x200_0000 + r;
    assert address / 512 == q * 0x1_0000 + r / 512;
    assert address % 512 == r % 512;
  }

  /** The address cycles as nandReadData and nandWriteData compute them: `page` is an AVR
      `unsigned int`, so the page number is cut to 16 bits, the last cycle is always 0 and the
      chip receives the address modulo 32 MiB. */
  function AsWrittenAddressCycles(address: ulong): (cycles: seq<byte>)
    ensures |cycles| == 5
    ensures cycles[0] as int + 256 * cycles[1] as int == address % 512
    ensures cycles[2] as int + 256 * cycles[3] as int == (address / 512) % 0x1_0000
    ensures cycles[4] == 0
    ensures CyclesAddress(cycles) == address % 0x200_0000
  {
    PageModulo(address);
    CyclesOf(address % 512, (address / 512) % 0x1_0000)
  }

  /** Two addresses 32 MiB apart reach the same page with the 16-bit page number, and
      different pages with the 32-bit one. */
  lemma PageTruncationAliases()
    ensures AsWrittenAddressCycles(0x200_0000) == AsWrittenAddressCycles(0)
    ensures AddressCycles(0x200_0000) != AddressCycles(0)
  {
    assert CyclesAddress(AddressCycles(0x200_0000)) != CyclesAddress(AddressCycles(0));
  }

  /** How the chip assembles three block cycles, least significant first. */
  function CyclesBlock(cycles: seq<byte>): nat
    requires |cycles| == 3
  {
    cycles[0] as int + 256 * cycles[1] as int + 0x1_0000 * cycles[2] as int
  }

  /** The block cycles of an erase with the block number held in 32 bits. */
  function BlockCycles(address: ulong): (cycles: seq<byte>)
    ensures |cycles| == 3
    ensures CyclesBlock(cycles) == address / 16384
  {
    var block := address / 16384;
    ThreeBytes(block);
    [Low8(block), Low8(block / 256), Low8(block / 0x1_0000)]
  }

  /** The block cycles as nandErase computes them: `block` is an `unsigned int`, so the last
      cycle is always 0 and addresses 1 GiB apart erase the same block. */
  function AsWrittenBlockCycles(address: ulong): (cycles: seq<byte>)
    ensures |cycles| == 3
    ensures cycles[2] == 0
    ensures CyclesBlock(cycles) == (address / 16384) % 0x1_0000
  {
    var block := (address / 16384) % 0x1_0000;
    ThreeBytes(block);
    [Low8(block), Low8(block / 256), Low8(block / 0x1_0000)]
  }

  lemma BlockTruncationAliases()
    ensures AsWrittenBlockCycles(0x4000_0000) == AsWrittenBlockCycles(0)
    ensures BlockCycles(0x4000_0000) != BlockCycles(0)
  {
    assert CyclesBlock(BlockCycles(0x4000_0000)) != CyclesBlock(BlockCycles(0));
  }

  // ----- transcripts -----

  function AddressEvents(cycles: seq<byte>): seq<Event>
  {
    if cycles == [] then [] else [NandByte(AddressLatch, cycles[0])] + AddressEvents(cycles[1..])
  }

  function DataEvents(data: seq<byte>): seq<Event>
  {
    if data == [] then [] else [NandByte(DataLatch, data[0])] + DataEvents(data[1..])
  }

  /** `n` read-enable pulses. */
  function ReadCycles(n: nat): seq<Event>
  {
    if n == 0 then [] else [NandReadCycle] + ReadCycles(n - 1)
  }

  /** nandReset. */
  function ResetEvents(): seq<Event>
  {
    [NandSelect, NandByte(CommandLatch, CMD_RESET), NandWaitReady, NandDeselect]
  }

  /** nandReadID: command 0x90, one address cycle 0x00, five ID bytes. */
  function ReadIdEvents(): seq<Event>
  {
    [NandSelect, NandByte(CommandLatch, CMD_READ_ID), NandByte(AddressLatch, 0x00)] + ReadCycles(5) + [NandDeselect]
  }

  /** nandReadStatus. */
  function StatusEvents(): seq<Event>
  {
    [NandSelect, NandByte(CommandLatch, CMD_READ_STATUS), NandReadCycle, NandDeselect]
  }

  /** A read with the given address cycles: read command, the cycles, confirm, wait, then one
      read pulse per byte (hexDump calling nandReadByte). */
  function ReadSequence(cycles: seq<byte>, numBytes: uint): seq<Event>
  {
    [NandSelect, NandByte(CommandLatch, CMD_READ)] + AddressEvents(cycles)
    + [NandByte(CommandLatch, CMD_READ_CONFIRM), NandWaitReady] + ReadCycles(numBytes) + [NandDeselect]
  }

  /** nandReadData. */
  function ReadEvents(address: ulong, numBytes: uint): seq<Event>
  {
    ReadSequence(AddressCycles(address), numBytes)
  }

  /** nandWriteData's page-boundary test, `offset + numBytes > pageSize` in `unsigned int`. */
  predicate CrossesPage(address: ulong, numBytes: uint)
  {
    (address % 512 + numBytes) % 0x1_0000 > 512
  }

  /** The tail shared by program and erase: confirm command, wait, then READ STATUS and one
      status byte, and the chip is deselected. */
  function CompletionEvents(confirm: byte): seq<Event>
  {
    [NandByte(CommandLatch, confirm), NandWaitReady] + [NandByte(CommandLatch, CMD_READ_STATUS), NandReadCycle] + [NandDeselect]
  }

  /** A program with the given address cycles. */
  function ProgramSequence(cycles: seq<byte>, data: seq<byte>): seq<Event>
  {
    [NandSelect, NandByte(CommandLatch, CMD_PROGRAM)] + AddressEvents(cycles) + DataEvents(data)
    + CompletionEvents(CMD_PROGRAM_CONFIRM)
  }

  /** nandWriteData: nothing reaches the bus when the write would cross a page. */
  function WriteEvents(address: ulong, data: seq<byte>): seq<Event>
    requires |data| < 0x1_0000
  {
    if CrossesPage(address, |data|) then [] else ProgramSequence(AddressCycles(address), data)
  }

  /** What nandWriteData reports, given the status byte the chip returns after programming. */
  function WriteOutcome(address: ulong, data: seq<byte>, status: reg): Outcome
    requires |data| < 0x1_0000
  {
    if CrossesPage(address, |data|) then BoundaryViolation else NandCompletion(status)
  }

  /** An erase with the given block cycles. */
  function EraseSequence(cycles: seq<byte>): seq<Event>
  {
    [NandSelect, NandByte(CommandLatch, CMD_ERASE)] + AddressEvents(cycles) + CompletionEvents(CMD_ERASE_CONFIRM)
  }

  /** nandErase: sector and block options send the block number, chip sends no address. */
  function EraseEvents(scope: EraseScope, address: ulong): seq<Event>
  {
    EraseSequence(if scope == Chip then [] else BlockCycles(address))
  }

  // ----- properties of the transcripts -----

  lemma {:induction false} AddressEventsLatch(cycles: seq<byte>)
    ensures Latched(AddressEvents(cycles), AddressLatch) == cycles
  {
    if cycles != [] {
      AddressEventsLatch(cycles[1..]);
      LatchedAppend([NandByte(AddressLatch, cycles[0])], AddressEvents(cycles[1..]), AddressLatch);
      LatchedPair(NandByte(AddressLatch, cycles[0]), NandDeselect, AddressLatch);
      assert [cycles[0]] + cycles[1..] == cycles;
    }
  }

  lemma {:induction false} AddressEventsElsewhere(cycles: seq<byte>, l: Latch)
    requires l != AddressLatch
    ensures Latched(AddressEvents(cycles), l) == []
  {
    if cycles != [] {
      AddressEventsElsewhere(cycles[1..], l);
      LatchedAppend([NandByte(AddressLatch, cycles[0])], AddressEvents(cycles[1..]), l);
      LatchedPair(NandByte(AddressLatch, cycles[0]), NandDeselect, l);
    }
  }

  lemma {:induction false} AddressEventsPulses(cycles: seq<byte>)
    ensures |AddressEvents(cycles)| == |cycles|
    ensures multiset(AddressEvents(cycles))[NandReadCycle] == 0
    ensures multiset(AddressEvents(cycles))[NandSelect] == 0 && multiset(AddressEvents(cycles))[NandDeselect] == 0
  {
    if cycles != [] {
      AddressEventsPulses(cycles[1..]);
    }
  }

  lemma {:induction false} DataEventsLatch(data: seq<byte>)
    ensures Latched(DataEvents(data), DataLatch) == data
  {
    if data != [] {
      DataEventsLatch(data[1..]);
      LatchedAppend([NandByte(DataLatch, data[0])], DataEvents(data[1..]), DataLatch);
      LatchedPair(NandByte(DataLatch, data[0]), NandDeselect, DataLatch);
      assert [data[0]] + data[1..] == data;
    }
  }

  lemma {:induction false} DataEventsElsewhere(data: seq<byte>, l: Latch)
    requires l != DataLatch
    ensures Latched(DataEvents(data), l) == []
  {
    if data != [] {
      DataEventsElsewhere(data[1..], l);
      LatchedAppend([NandByte(DataLatch, data[0])], DataEvents(data[1..]), l);
      LatchedPair(NandByte(DataLatch, data[0]), NandDeselect, l);
    }
  }

  lemma {:induction false} DataEventsShape(data: seq<byte>)
    ensures |DataEvents(data)| == |data|
    ensures forall i :: 0 <= i < |data| ==> DataEvents(data)[i] == NandByte(DataLatch, data[i])
  {
    if data != [] {
      DataEventsShape(data[1..]);
    }
  }

  lemma {:induction false} AddressEventsShape(cycles: seq<byte>)
    ensures |AddressEvents(cycles)| == |cycles|
    ensures forall j :: 0 <= j < |cycles| ==> AddressEvents(cycles)[j] == NandByte(AddressLatch, cycles[j])
  {
    if cycles != [] {
      AddressEventsShape(cycles[1..]);
    }
  }

  lemma {:induction false} ReadCyclesShape(n: nat)
    ensures |ReadCycles(n)| == n
    ensures forall i :: 0 <= i < n ==> ReadCycles(n)[i] == NandReadCycle
  {
    if n > 0 {
      ReadCyclesShape(n - 1);
    }
  }

  lemma {:induction false} ReadCyclesLatch(n: nat, l: Latch)
    ensures Latched(ReadCycles(n), l) == []
  {
    if n > 0 {
      ReadCyclesLatch(n - 1, l);
      LatchedAppend([NandReadCycle], ReadCycles(n - 1), l);
      LatchedPair(NandReadCycle, NandReadCycle, l);
    }
  }

  lemma {:induction false} ReadCyclesCount(n: nat)
    ensures |ReadCycles(n)| == n
    ensures multiset(ReadCycles(n))[NandReadCycle] == n
    ensures multiset(ReadCycles(n))[NandSelect] == 0 && multiset(ReadCycles(n))[NandDeselect] == 0
  {
    if n > 0 {
      ReadCyclesCount(n - 1);
    }
  }

  /** A read sequence is its addressing part followed by its data-out part. */
  lemma ReadSequenceSplit(cycles: seq<byte>, numBytes: uint)
    ensures ReadSequence(cycles, numBytes)
         == ([NandSelect, NandByte(CommandLatch, CMD_READ)] + AddressEvents(cycles) + [NandByte(CommandLatch, CMD_READ_CONFIRM), NandWaitReady])
            + (ReadCycles(numBytes) + [NandDeselect])
  {
  }

  /** The data-out part of a read latches nothing. */
  lemma ReadTailLatch(numBytes: uint, l: Latch)
    ensures Latched(ReadCycles(numBytes) + [NandDeselect], l) == []
  {
    LatchedAppend(ReadCycles(numBytes), [NandDeselect], l);
    ReadCyclesLatch(numBytes, l);
    LatchedPair(NandDeselect, NandDeselect, l);
  }

  /** The latched bytes of a read sequence, one latch at a time. */
  lemma ReadSequenceLatch(cycles: seq<byte>, numBytes: uint, l: Latch)
    ensures Latched(ReadSequence(cycles, numBytes), l)
         == LatchOf(NandByte(CommandLatch, CMD_READ), l) + Latched(AddressEvents(cycles), l) + LatchOf(NandByte(CommandLatch, CMD_READ_CONFIRM), l)
  {
    var head: seq<Event> := [NandSelect, NandByte(CommandLatch, CMD_READ)];
    var mid: seq<Event> := [NandByte(CommandLatch, CMD_READ_CONFIRM), NandWaitReady];
    ReadSequenceSplit(cycles, numBytes);
    LatchedAppend(head + AddressEvents(cycles) + mid, ReadCycles(numBytes) + [NandDeselect], l);
    ReadTailLatch(numBytes, l);
    LatchedAppend(head + AddressEvents(cycles), mid, l);
    LatchedAppend(head, AddressEvents(cycles), l);
    LatchedPair(NandSelect, NandByte(CommandLatch, CMD_READ), l);
    LatchedPair(NandByte(CommandLatch, CMD_READ_CONFIRM), NandWaitReady, l);
  }

  /** Where each event of a read sits: select, READ, the address cycles in order, READ
      CONFIRM, the wait for ready, one read pulse per byte, deselect. */
  lemma ReadSequenceShape(cycles: seq<byte>, numBytes: uint)
    ensures var t := ReadSequence(cycles, numBytes);
      var n := |cycles|;
      && |t| == 5 + n + numBytes
      && t[0] == NandSelect && t[1] == NandByte(CommandLatch, CMD_READ)
      && (forall j :: 0 <= j < n ==> t[2 + j] == NandByte(AddressLatch, cycles[j]))
      && t[2 + n] == NandByte(CommandLatch, CMD_READ_CONFIRM) && t[3 + n] == NandWaitReady
      && t[4 + n..4 + n + numBytes] == seq(numBytes, _ => NandReadCycle)
      && t[4 + n + numBytes] == NandDeselect
  {
    AddressEventsShape(cycles);
    ReadCyclesShape(numBytes);
    var n := |cycles|;
    var head: seq<Event> := [NandSelect, NandByte(CommandLatch, CMD_READ)];
    var a := AddressEvents(cycles);
    var mid: seq<Event> := [NandByte(CommandLatch, CMD_READ_CONFIRM), NandWaitReady];
    var r := ReadCycles(numBytes);
    var t := ReadSequence(cycles, numBytes);
    assert t == head + a + mid + r + [NandDeselect];
    forall j | 0 <= j < n
      ensures t[2 + j] == NandByte(AddressLatch, cycles[j])
    {
      assert t[2 + j] == a[j];
    }
    assert t[4 + n..4 + n + numBytes] == r;
    assert r == seq(numBytes, _ => NandReadCycle);
  }

  lemma ReadSequenceLatches(cycles: seq<byte>, numBytes: uint)
    ensures Latched(ReadSequence(cycles, numBytes), CommandLatch) == [CMD_READ, CMD_READ_CONFIRM]
    ensures Latched(ReadSequence(cycles, numBytes), AddressLatch) == cycles
    ensures Latched(ReadSequence(cycles, numBytes), DataLatch) == []
  {
    assert Latched(ReadSequence(cycles, numBytes), CommandLatch) == [CMD_READ, CMD_READ_CONFIRM] by {
      ReadSequenceLatch(cycles, numBytes, CommandLatch);
      AddressEventsElsewhere(cycles, CommandLatch);
    }
    assert Latched(ReadSequence(cycles, numBytes), AddressLatch) == cycles by {
      ReadSequenceLatch(cycles, numBytes, AddressLatch);
      AddressEventsLatch(cycles);
    }
    ReadSequenceLatch(cycles, numBytes, DataLatch);
    AddressEventsElsewhere(cycles, DataLatch);
  }

  /** A read latches the commands 0x00 and 0x30 around exactly the five cycles of `address`
      and latches no data: the chip is addressed at column `address % 512` of page
      `address / 512`. */
  lemma ReadLatches(address: ulong, numBytes: uint)
    ensures Latched(ReadEvents(address, numBytes), CommandLatch) == [CMD_READ, CMD_READ_CONFIRM]
    ensures Latched(ReadEvents(address, numBytes), AddressLatch) == AddressCycles(address)
    ensures CyclesAddress(Latched(ReadEvents(address, numBytes), AddressLatch)) == address
    ensures Latched(ReadEvents(address, numBytes), DataLatch) == []
    ensures var t := ReadEvents(address, numBytes);
      && |t| == 10 + numBytes
      && t[1] == NandByte(CommandLatch, CMD_READ)
      && (forall j :: 0 <= j < 5 ==> t[2 + j] == NandByte(AddressLatch, AddressCycles(address)[j]))
      && t[7] == NandByte(CommandLatch, CMD_READ_CONFIRM) && t[8] == NandWaitReady
      && t[9..9 + numBytes] == seq(numBytes, _ => NandReadCycle)
  {
    ReadSequenceLatches(AddressCycles(address), numBytes);
    ReadSequenceShape(AddressCycles(address), numBytes);
  }

  lemma ReadSequencePulses(cycles: seq<byte>, numBytes: uint)
    ensures multiset(ReadSequence(cycles, numBytes))[NandReadCycle] == numBytes
  {
    AddressEventsPulses(cycles);
    ReadCyclesCount(numBytes);
    var head := [NandSelect, NandByte(CommandLatch, CMD_READ)] + AddressEvents(cycles)
                + [NandByte(CommandLatch, CMD_READ_CONFIRM), NandWaitReady];
    assert ReadSequence(cycles, numBytes) == head + ReadCycles(numBytes) + [NandDeselect];
    assert multiset(head)[NandReadCycle] == 0;
  }

  lemma ReadSequenceSelected(cycles: seq<byte>, numBytes: uint)
    ensures ReadSequence(cycles, numBytes)[0] == NandSelect
    ensures ReadSequence(cycles, numBytes)[|ReadSequence(cycles, numBytes)| - 1] == NandDeselect
  {
    var head := [NandSelect, NandByte(CommandLatch, CMD_READ)];
    var rest := AddressEvents(cycles) + [NandByte(CommandLatch, CMD_READ_CONFIRM), NandWaitReady] + ReadCycles(numBytes);
    assert ReadSequence(cycles, numBytes) == head + rest + [NandDeselect];
  }

  /** A read selects the chip once, deselects it once, and reads nothing outside the
      selection. */
  lemma ReadSequenceSelections(cycles: seq<byte>, numBytes: uint)
    ensures multiset(ReadSequence(cycles, numBytes))[NandSelect] == 1
    ensures multiset(ReadSequence(cycles, numBytes))[NandDeselect] == 1
  {
    AddressEventsPulses(cycles);
    ReadCyclesCount(numBytes);
    var head := [NandSelect, NandByte(CommandLatch, CMD_READ)];
    var confirm := [NandByte(CommandLatch, CMD_READ_CONFIRM), NandWaitReady];
    assert multiset(head)[NandSelect] == 1 && multiset(head)[NandDeselect] == 0;
    assert multiset(confirm)[NandSelect] == 0 && multiset(confirm)[NandDeselect] == 0;
  }

  /** A read clocks out exactly `numBytes` bytes inside one chip selection: the chip is
      selected first, deselected last, and neither happens anywhere else. */
  lemma ReadPulses(address: ulong, numBytes: uint)
    ensures multiset(ReadEvents(address, numBytes))[NandReadCycle] == numBytes
    ensures ReadEvents(address, numBytes)[0] == NandSelect
    ensures ReadEvents(address, numBytes)[|ReadEvents(address, numBytes)| - 1] == NandDeselect
    ensures multiset(ReadEvents(address, numBytes))[NandSelect] == 1
    ensures multiset(ReadEvents(address, numBytes))[NandDeselect] == 1
  {
    ReadSequencePulses(AddressCycles(address), numBytes);
    ReadSequenceSelected(AddressCycles(address), numBytes);
    ReadSequenceSelections(AddressCycles(address), numBytes);
  }

  lemma CompletionLatch(confirm: byte, l: Latch)
    ensures Latched(CompletionEvents(confirm), l)
         == LatchOf(NandByte(CommandLatch, confirm), l) + LatchOf(NandByte(CommandLatch, CMD_READ_STATUS), l)
  {
    var confirmed := [NandByte(CommandLatch, confirm), NandWaitReady];
    var status := [NandByte(CommandLatch, CMD_READ_STATUS), NandReadCycle];
    var tail := [NandDeselect];
    LatchedAppend(confirmed + status, tail, l);
    LatchedAppend(confirmed, status, l);
    LatchedPair(NandByte(CommandLatch, confirm), NandWaitReady, l);
    LatchedPair(NandByte(CommandLatch, CMD_READ_STATUS), NandReadCycle, l);
    LatchedPair(NandDeselect, NandDeselect, l);
  }

  lemma ProgramSequenceLatch(cycles: seq<byte>, data: seq<byte>, l: Latch)
    ensures Latched(ProgramSequence(cycles, data), l)
         == LatchOf(NandByte(CommandLatch, CMD_PROGRAM), l) + Latched(AddressEvents(cycles), l) + Latched(DataEvents(data), l)
            + LatchOf(NandByte(CommandLatch, CMD_PROGRAM_CONFIRM), l) + LatchOf(NandByte(CommandLatch, CMD_READ_STATUS), l)
  {
    var head := [NandSelect, NandByte(CommandLatch, CMD_PROGRAM)];
    LatchedJoin4(head, AddressEvents(cycles), DataEvents(data), CompletionEvents(CMD_PROGRAM_CONFIRM), l);
    assert Latched(head, l) == LatchOf(NandByte(CommandLatch, CMD_PROGRAM), l) by {
      LatchedPair(NandSelect, NandByte(CommandLatch, CMD_PROGRAM), l);
    }
    CompletionLatch(CMD_PROGRAM_CONFIRM, l);
    Associate(LatchOf(NandByte(CommandLatch, CMD_PROGRAM), l) + Latched(AddressEvents(cycles), l) + Latched(DataEvents(data), l),
              LatchOf(NandByte(CommandLatch, CMD_PROGRAM_CONFIRM), l), LatchOf(NandByte(CommandLatch, CMD_READ_STATUS), l));
  }

  lemma ProgramSequenceCommands(cycles: seq<byte>, data: seq<byte>)
    ensures Latched(ProgramSequence(cycles, data), CommandLatch) == [CMD_PROGRAM, CMD_PROGRAM_CONFIRM, CMD_READ_STATUS]
  {
    ProgramSequenceLatch(cycles, data, CommandLatch);
    AddressEventsElsewhere(cycles, CommandLatch);
    DataEventsElsewhere(data, CommandLatch);
  }

  lemma ProgramSequenceAddress(cycles: seq<byte>, data: seq<byte>)
    ensures Latched(ProgramSequence(cycles, data), AddressLatch) == cycles
  {
    ProgramSequenceLatch(cycles, data, AddressLatch);
    AddressEventsLatch(cycles);
    DataEventsElsewhere(data, AddressLatch);
  }

  lemma ProgramSequenceData(cycles: seq<byte>, data: seq<byte>)
    ensures Latched(ProgramSequence(cycles, data), DataLatch) == data
  {
    ProgramSequenceLatch(cycles, data, DataLatch);
    AddressEventsElsewhere(cycles, DataLatch);
    DataEventsLatch(data);
  }

  /** With five address cycles: select, PROGRAM, the cycles at positions 2 .. 6, the data
      at positions 7 .. 7 + |data| - 1, then PROGRAM CONFIRM, the wait for ready, READ
      STATUS, one status pulse and deselect. */
  lemma ProgramSequenceShape(cycles: seq<byte>, data: seq<byte>)
    requires |cycles| == 5
    ensures |ProgramSequence(cycles, data)| == 12 + |data|
    ensures ProgramSequence(cycles, data)[0] == NandSelect
    ensures ProgramSequence(cycles, data)[1] == NandByte(CommandLatch, CMD_PROGRAM)
    ensures forall j :: 0 <= j < 5 ==> ProgramSequence(cycles, data)[2 + j] == NandByte(AddressLatch, cycles[j])
    ensures forall i :: 0 <= i < |data| ==> ProgramSequence(cycles, data)[7 + i] == NandByte(DataLatch, data[i])
    ensures ProgramSequence(cycles, data)[7 + |data|] == NandByte(CommandLatch, CMD_PROGRAM_CONFIRM)
    ensures ProgramSequence(cycles, data)[8 + |data|..] ==
              [NandWaitReady, NandByte(CommandLatch, CMD_READ_STATUS), NandReadCycle, NandDeselect]
  {
    AddressEventsShape(cycles);
    DataEventsShape(data);
    var a := AddressEvents(cycles);
    var head := [NandSelect, NandByte(CommandLatch, CMD_PROGRAM)] + a;
    var tail := CompletionEvents(CMD_PROGRAM_CONFIRM);
    var t := ProgramSequence(cycles, data);
    assert |head| == 7;
    assert t == head + DataEvents(data) + tail;
    forall j | 0 <= j < 5
      ensures t[2 + j] == NandByte(AddressLatch, cycles[j])
    {
      assert t[2 + j] == head[2 + j] == a[j];
    }
    forall i | 0 <= i < |data|
      ensures t[7 + i] == NandByte(DataLatch, data[i])
    {
      assert t[7 + i] == DataEvents(data)[i];
    }
    assert t[7 + |data|..] == tail;
  }

  /** nandWriteData: a write that would run past the end of its 512-byte page is refused
      before the chip is selected, so nothing reaches the bus; any other write programs
      exactly `data`, in order, at column `address % 512` of page `address / 512`, and
      succeeds exactly when status bit 0 is clear. The boundary test is computed in 16 bits,
      so the equivalence needs the length to stay clear of the wrap. */
  lemma WriteTranscript(address: ulong, data: seq<byte>, status: reg)
    requires |data| <= 0x1_0000 - 512
    ensures address % 512 + |data| > 512 ==>
              WriteEvents(address, data) == [] && WriteOutcome(address, data, status) == BoundaryViolation
    ensures address % 512 + |data| <= 512 ==>
              && Latched(WriteEvents(address, data), CommandLatch) == [CMD_PROGRAM, CMD_PROGRAM_CONFIRM, CMD_READ_STATUS]
              && Latched(WriteEvents(address, data), AddressLatch) == AddressCycles(address)
              && Latched(WriteEvents(address, data), DataLatch) == data
              && |WriteEvents(address, data)| == 12 + |data|
              && (forall i :: 0 <= i < |data| ==> WriteEvents(address, data)[7 + i] == NandByte(DataLatch, data[i]))
              && WriteEvents(address, data)[0] == NandSelect
              && WriteEvents(address, data)[1] == NandByte(CommandLatch, CMD_PROGRAM)
              && (forall j :: 0 <= j < 5 ==> WriteEvents(address, data)[2 + j] == NandByte(AddressLatch, AddressCycles(address)[j]))
              && WriteEvents(address, data)[7 + |data|] == NandByte(CommandLatch, CMD_PROGRAM_CONFIRM)
              && WriteEvents(address, data)[8 + |data|..]
                 == [NandWaitReady, NandByte(CommandLatch, CMD_READ_STATUS), NandReadCycle, NandDeselect]
              && (WriteOutcome(address, data, status) == Success <==> status & 0x01 == 0)
  {
    CrossesPageExactly(address, |data|);
    if address % 512 + |data| <= 512 {
      var cycles := AddressCycles(address);
      assert WriteEvents(address, data) == ProgramSequence(cycles, data);
      ProgramSequenceCommands(cycles, data);
      ProgramSequenceAddress(cycles, data);
      ProgramSequenceData(cycles, data);
      ProgramSequenceShape(cycles, data);
    }
  }

  /** Below the 16-bit wrap, nandWriteData's boundary test is the plain comparison. */
  lemma CrossesPageExactly(address: ulong, numBytes: uint)
    requires numBytes <= 0x1_0000 - 512
    ensures CrossesPage(address, numBytes) <==> address % 512 + numBytes > 512
  {
    assert address % 512 + numBytes < 0x1_0000;
  }

  lemma EraseSequenceLatch(cycles: seq<byte>, l: Latch)
    ensures Latched(EraseSequence(cycles), l)
         == LatchOf(NandByte(CommandLatch, CMD_ERASE), l) + Latched(AddressEvents(cycles), l)
            + LatchOf(NandByte(CommandLatch, CMD_ERASE_CONFIRM), l) + LatchOf(NandByte(CommandLatch, CMD_READ_STATUS), l)
  {
    var head := [NandSelect, NandByte(CommandLatch, CMD_ERASE)];
    LatchedAppend(head + AddressEvents(cycles), CompletionEvents(CMD_ERASE_CONFIRM), l);
    LatchedAppend(head, AddressEvents(cycles), l);
    assert Latched(head, l) == LatchOf(NandByte(CommandLatch, CMD_ERASE), l) by {
      LatchedPair(NandSelect, NandByte(CommandLatch, CMD_ERASE), l);
    }
    CompletionLatch(CMD_ERASE_CONFIRM, l);
    Associate(LatchOf(NandByte(CommandLatch, CMD_ERASE), l) + Latched(AddressEvents(cycles), l),
              LatchOf(NandByte(CommandLatch, CMD_ERASE_CONFIRM), l), LatchOf(NandByte(CommandLatch, CMD_READ_STATUS), l));
  }

  lemma EraseSequenceLatches(cycles: seq<byte>)
    ensures Latched(EraseSequence(cycles), CommandLatch) == [CMD_ERASE, CMD_ERASE_CONFIRM, CMD_READ_STATUS]
    ensures Latched(EraseSequence(cycles), AddressLatch) == cycles
    ensures Latched(EraseSequence(cycles), DataLatch) == []
  {
    assert Latched(EraseSequence(cycles), CommandLatch) == [CMD_ERASE, CMD_ERASE_CONFIRM, CMD_READ_STATUS] by {
      EraseSequenceLatch(cycles, CommandLatch);
      AddressEventsElsewhere(cycles, CommandLatch);
    }
    assert Latched(EraseSequence(cycles), AddressLatch) == cycles by {
      EraseSequenceLatch(cycles, AddressLatch);
      AddressEventsLatch(cycles);
    }
    EraseSequenceLatch(cycles, DataLatch);
    AddressEventsElsewhere(cycles, DataLatch);
  }

  /** Where each event of an erase sits: select, ERASE, the block cycles in order, then
      ERASE CONFIRM, the wait for ready, READ STATUS, one status pulse and deselect. */
  lemma EraseSequenceShape(cycles: seq<byte>)
    ensures var t := EraseSequence(cycles);
      var n := |cycles|;
      && |t| == 7 + n
      && t[0] == NandSelect && t[1] == NandByte(CommandLatch, CMD_ERASE)
      && (forall j :: 0 <= j < n ==> t[2 + j] == NandByte(AddressLatch, cycles[j]))
      && t[2 + n..] == [NandByte(CommandLatch, CMD_ERASE_CONFIRM), NandWaitReady,
                        NandByte(CommandLatch, CMD_READ_STATUS), NandReadCycle, NandDeselect]
  {
    AddressEventsShape(cycles);
    var n := |cycles|;
    var head: seq<Event> := [NandSelect, NandByte(CommandLatch, CMD_ERASE)];
    var a := AddressEvents(cycles);
    var tail := CompletionEvents(CMD_ERASE_CONFIRM);
    var t := EraseSequence(cycles);
    assert t == head + a + tail;
    forall j | 0 <= j < n
      ensures t[2 + j] == NandByte(AddressLatch, cycles[j])
    {
      assert t[2 + j] == a[j];
    }
    assert t[2 + n..] == tail;
  }

  /** nandErase: the commands are ERASE, ERASE CONFIRM and READ STATUS; sector and block
      erases latch the three cycles of block `address / 16384` between ERASE and ERASE
      CONFIRM, a chip erase latches none. */
  lemma EraseTranscript(scope: EraseScope, address: ulong)
    ensures Latched(EraseEvents(scope, address), CommandLatch) == [CMD_ERASE, CMD_ERASE_CONFIRM, CMD_READ_STATUS]
    ensures Latched(EraseEvents(scope, address), AddressLatch) == if scope == Chip then [] else BlockCycles(address)
    ensures Latched(EraseEvents(scope, address), DataLatch) == []
    ensures var t := EraseEvents(scope, address);
      var n := if scope == Chip then 0 else 3;
      && |t| == 7 + n
      && t[0] == NandSelect && t[1] == NandByte(CommandLatch, CMD_ERASE)
      && (scope != Chip ==> forall j :: 0 <= j < 3 ==> t[2 + j] == NandByte(AddressLatch, BlockCycles(address)[j]))
      && t[2 + n..] == [NandByte(CommandLatch, CMD_ERASE_CONFIRM), NandWaitReady,
                        NandByte(CommandLatch, CMD_READ_STATUS), NandReadCycle, NandDeselect]
  {
    EraseSequenceLatches(if scope == Chip then [] else BlockCycles(address));
    EraseSequenceShape(if scope == Chip then [] else BlockCycles(address));
  }

  /** The erase of address 20000 names block 1. */
  lemma EraseBlockOfAddress20000()
    ensures Latched(EraseEvents(Block, 20000), AddressLatch) == [1, 0, 0]
  {
    EraseTranscript(Block, 20000);
    assert BlockCycles(20000) == [1, 0, 0];
  }

  lemma ReadIdLatch(l: Latch)
    ensures Latched(ReadIdEvents(), l) == LatchOf(NandByte(CommandLatch, CMD_READ_ID), l) + LatchOf(NandByte(AddressLatch, 0x00), l)
  {
    var head := [NandSelect, NandByte(CommandLatch, CMD_READ_ID)];
    var address := [NandByte(AddressLatch, 0x00)];
    var tail := [NandDeselect];
    assert ReadIdEvents() == head + address + ReadCycles(5) + tail;
    LatchedJoin4(head, address, ReadCycles(5), tail, l);
    LatchedPair(NandSelect, NandByte(CommandLatch, CMD_READ_ID), l);
    LatchedPair(NandByte(AddressLatch, 0x00), NandDeselect, l);
    LatchedPair(NandDeselect, NandDeselect, l);
    ReadCyclesLatch(5, l);
  }

  lemma ReadIdLatches()
    ensures Latched(ReadIdEvents(), CommandLatch) == [CMD_READ_ID]
    ensures Latched(ReadIdEvents(), AddressLatch) == [0x00]
    ensures Latched(ReadIdEvents(), DataLatch) == []
  {
    ReadIdLatch(CommandLatch);
    ReadIdLatch(AddressLatch);
    ReadIdLatch(DataLatch);
  }

  /** nandReadID: one address cycle 0x00 after READ ID, then five ID bytes are clocked out. */
  lemma ReadIdTranscript()
    ensures Latched(ReadIdEvents(), CommandLatch) == [CMD_READ_ID]
    ensures Latched(ReadIdEvents(), AddressLatch) == [0x00]
    ensures Latched(ReadIdEvents(), DataLatch) == []
    ensures multiset(ReadIdEvents())[NandReadCycle] == 5
  {
    ReadIdLatches();
    ReadCyclesCount(5);
    var t := [NandSelect, NandByte(CommandLatch, CMD_READ_ID), NandByte(AddressLatch, 0x00)];
    assert multiset(ReadIdEvents()) == multiset(t) + multiset(ReadCycles(5)) + multiset([NandDeselect]);
  }

  /** nandReset: the single command 0xFF, no address and no data, and one wait for ready,
      all inside one chip selection. */
  lemma ResetTranscript()
    ensures Latched(ResetEvents(), CommandLatch) == [CMD_RESET]
    ensures Latched(ResetEvents(), AddressLatch) == [] && Latched(ResetEvents(), DataLatch) == []
    ensures multiset(ResetEvents())[NandWaitReady] == 1
    ensures ResetEvents()[0] == NandSelect && ResetEvents()[|ResetEvents()| - 1] == NandDeselect
    ensures multiset(ResetEvents())[NandSelect] == 1 && multiset(ResetEvents())[NandDeselect] == 1
  {
    var t := ResetEvents();
    LatchedQuad(t[0], t[1], t[2], t[3], CommandLatch);
    LatchedQuad(t[0], t[1], t[2], t[3], AddressLatch);
    LatchedQuad(t[0], t[1], t[2], t[3], DataLatch);
  }

  /** nandReadStatus: the single command 0x70 and one status byte clocked out, no address
      and no data, inside one chip selection. */
  lemma StatusTranscript()
    ensures Latched(StatusEvents(), CommandLatch) == [CMD_READ_STATUS]
    ensures Latched(StatusEvents(), AddressLatch) == [] && Latched(StatusEvents(), DataLatch) == []
    ensures multiset(StatusEvents())[NandReadCycle] == 1
    ensures StatusEvents()[0] == NandSelect && StatusEvents()[|StatusEvents()| - 1] == NandDeselect
    ensures multiset(StatusEvents())[NandSelect] == 1 && multiset(StatusEvents())[NandDeselect] == 1
  {
    var t := StatusEvents();
    LatchedQuad(t[0], t[1], t[2], t[3], CommandLatch);
    LatchedQuad(t[0], t[1], t[2], t[3], AddressLatch);
    LatchedQuad(t[0], t[1], t[2], t[3], DataLatch);
  }
}
