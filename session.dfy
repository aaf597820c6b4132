/** The sketch's session: the selected memory type, the I2C target address and the bus
    traffic so far, and the console commands that act on them (setMemoryType,
    setI2CAddress, readDeviceID, readData, writeData, eraseMemory, readStatus). What the
    devices answer is passed in; what each command puts on the bus is appended to
    `trace`.
 */
module Session {
  import opened BusTypes
  import StatusDecoder
  import NandDriver
  import SpiFlashDriver
  import I2cEepromDriver
  import HexDump

  /** The largest read readData lets through, and the size of writeData's byte buffer. */
  const READ_LIMIT: nat := 256
  const WRITE_LIMIT: nat := 32

  /** What readDeviceID prints after the bus traffic. */
  datatype IdReport =
    | NoId
    | NandId(bytes: seq<byte>)
    | SpiId(manufacturerId: byte, deviceId1: byte, deviceId2: byte, identity: SpiFlashDriver.Identity)
    | Devices(found: seq<I2cEepromDriver.Found>)

  /** What readStatus prints after the bus traffic. */
  datatype StatusReport =
    | NoStatus
    | NandReport(nand: StatusDecoder.NandStatus)
    | SpiReport(spi: StatusDecoder.SpiStatus)
    | I2cReport(present: bool, ready: bool)

  /** eraseMemory's menu: '1' sector, '2' block, '3' chip, anything else is refused. */
  function EraseOption(option: char): (scope: Option<EraseScope>)
    ensures scope == Some(Sector) <==> option == '1'
    ensures scope == Some(Block) <==> option == '2'
    ensures scope == Some(Chip) <==> option == '3'
    ensures scope == None <==> option !in {'1', '2', '3'}
  {
    if option == '1' then Some(Sector)
    else if option == '2' then Some(Block)
    else if option == '3' then Some(Chip)
    else None
  }

  /** readData's cap: more than 256 bytes is cut to 256. */
  function ReadCount(requested: uint): (n: nat)
    ensures n <= READ_LIMIT && n <= requested
    ensures n == requested || n == READ_LIMIT
  {
    if requested > 256 then 256 else requested
  }

  /** setI2CAddress keeps the low byte of the parsed number (the `long` to `byte` cast): a
      number that already fits a byte is kept as it is, and any other differs from its byte
      by a multiple of 256. */
  function TargetByte(parsed: int): (b: byte)
    ensures 0 <= parsed < 256 ==> b == parsed
    ensures (parsed - b) % 256 == 0
  {
    parsed % 256
  }

  /** Numbers 256 apart give the same target byte, so 0x150 is taken as 0x50. */
  lemma TargetByteWraps(parsed: int, k: int)
    ensures TargetByte(parsed + 256 * k) == TargetByte(parsed)
  {
    var q := parsed / 256;
    var r := parsed % 256;
    assert parsed + 256 * k == 256 * (q + k) + r;
    ModuloOf(parsed + 256 * k, q + k, r);
  }

  lemma ModuloOf(a: int, q: int, r: int)
    requires a == 256 * q + r && 0 <= r < 256
    ensures a % 256 == r
  {
  }

  class Programmer {
    var memoryType: MemoryType
    var i2cAddress: byte
    var trace: seq<Event>

    /** The I2C target address stays a 7-bit address outside the reserved ranges. */
    ghost predicate Valid()
      reads this
    {
      0x08 <= i2cAddress <= 0x77
    }

    /** Power-on: no memory type selected, target 0x50, nothing on the bus yet. */
    constructor ()
      ensures memoryType == Unknown && i2cAddress == 0x50 && trace == []
      ensures Valid()
    {
      memoryType := Unknown;
      i2cAddress := 0x50;
      trace := [];
    }

    /** setMemoryType: records the type; selecting NAND resets the chip. The I2C address
        is kept. */
    method SetMemoryType(kind: MemoryType)
      requires Valid()
      modifies this`memoryType, this`trace
      ensures Valid()
      ensures memoryType == kind
      ensures trace == old(trace) + (if kind == NandFlash then NandDriver.ResetEvents() else [])
    {
      memoryType := kind;
      if kind == NandFlash {
        trace := trace + NandDriver.ResetEvents();
      }
    }

    /** setI2CAddress: the parsed number, cut to a byte, becomes the target only when it
        lies in 0x08..0x77; otherwise the target is unchanged. No bus traffic. */
    method SetI2cAddress(parsed: int) returns (accepted: bool)
      requires Valid()
      modifies this`i2cAddress
      ensures accepted <==> 0x08 <= TargetByte(parsed) <= 0x77
      ensures i2cAddress == if accepted then TargetByte(parsed) else old(i2cAddress)
      ensures Valid()
    {
      var newAddress := TargetByte(parsed);
      accepted := newAddress >= 0x08 && newAddress <= 0x77;
      if accepted {
        i2cAddress := newAddress;
      }
    }

    /** readDeviceID: NAND reads five ID bytes, SPI reads the JEDEC ID and looks it up,
        I2C scans the bus. `nandId`, `spiId` and `acks` are what the devices answer. */
    method ReadDeviceId(nandId: seq<byte>, spiId: seq<byte>, acks: set<byte>) returns (outcome: Outcome, report: IdReport)
      requires |nandId| == 5 && |spiId| == 3
      requires Valid()
      modifies this`trace
      ensures Valid()
      ensures memoryType == Unknown ==> outcome == NoMemorySelected && report == NoId && trace == old(trace)
      ensures memoryType == NandFlash ==>
                outcome == Success && report == NandId(nandId) && trace == old(trace) + NandDriver.ReadIdEvents()
      ensures memoryType == SpiFlash ==>
                && outcome == Success
                && report == SpiId(spiId[0], spiId[1], spiId[2], SpiFlashDriver.Identify(spiId[0], spiId[1], spiId[2]))
                && trace == old(trace) + SpiFlashDriver.ReadIdEvents()
      ensures memoryType == I2cEeprom ==>
                && outcome == Success
                && report == Devices(I2cEepromDriver.ScanResults(acks, I2cEepromDriver.SCAN_FIRST))
                && trace == old(trace) + I2cEepromDriver.ScanEvents(I2cEepromDriver.SCAN_FIRST)
    {
      match memoryType
      case Unknown =>
        outcome, report := NoMemorySelected, NoId;
      case NandFlash =>
        trace := trace + NandDriver.ReadIdEvents();
        outcome, report := Success, NandId(nandId);
      case SpiFlash =>
        trace := trace + SpiFlashDriver.ReadIdEvents();
        var identity := SpiFlashDriver.Identify(spiId[0], spiId[1], spiId[2]);
        outcome, report := Success, SpiId(spiId[0], spiId[1], spiId[2], identity);
      case I2cEeprom =>
        var t, found := I2cEepromDriver.Detect(acks);
        trace := trace + t;
        outcome, report := Success, Devices(found);
    }

    /** readData: at most 256 bytes from `address`. `answer` is what the device returns.
        NAND lists the bytes with offsets counted from 0; SPI and I2C label each row with
        its absolute address. */
    method ReadData(address: ulong, requested: uint, answer: seq<byte>, present: bool) returns (outcome: Outcome, listing: seq<char>)
      requires |answer| == ReadCount(requested)
      requires Valid()
      modifies this`trace
      ensures Valid()
      ensures memoryType == Unknown ==> outcome == NoMemorySelected && listing == [] && trace == old(trace)
      ensures memoryType == NandFlash ==>
                && outcome == Success && listing == HexDump.DumpText(0, answer)
                && trace == old(trace) + NandDriver.ReadEvents(address, |answer|)
      ensures memoryType == SpiFlash ==>
                && outcome == Success && listing == HexDump.DumpText(address, answer)
                && trace == old(trace) + SpiFlashDriver.ReadEvents(address, |answer|)
      ensures memoryType == I2cEeprom ==>
                && outcome == I2cEepromDriver.PresenceOutcome(present)
                && listing == (if present then HexDump.DumpText(address, answer) else [])
                && trace == old(trace) + I2cEepromDriver.ReadEvents(i2cAddress, address, |answer|, present)
    {
      listing := [];
      if memoryType == Unknown {
        return NoMemorySelected, listing;
      }
      var numBytes := ReadCount(requested);
      match memoryType
      case NandFlash =>
        trace := trace + NandDriver.ReadEvents(address, numBytes);
        listing := HexDump.Dump(0, answer);
        outcome := Success;
      case SpiFlash =>
        trace := trace + SpiFlashDriver.ReadEvents(address, numBytes);
        listing := HexDump.Dump(address, answer);
        outcome := Success;
      case I2cEeprom =>
        var t;
        t, outcome := I2cEepromDriver.ReadData(i2cAddress, address, numBytes, present);
        trace := trace + t;
        if present {
          listing := HexDump.Dump(address, answer);
        }
    }

    /** writeData: up to 32 bytes at `address`. `status` is the NAND status byte after
        programming and `present` whether the I2C target acknowledges. */
    method WriteData(address: ulong, data: seq<byte>, status: reg, present: bool) returns (outcome: Outcome)
      requires |data| <= WRITE_LIMIT
      requires Valid()
      modifies this`trace
      ensures Valid()
      ensures memoryType == Unknown ==> outcome == NoMemorySelected && trace == old(trace)
      ensures memoryType == NandFlash ==>
                && outcome == NandDriver.WriteOutcome(address, data, status)
                && trace == old(trace) + NandDriver.WriteEvents(address, data)
      ensures memoryType == SpiFlash ==>
                outcome == Success && trace == old(trace) + SpiFlashDriver.WriteEvents(address, data)
      ensures memoryType == I2cEeprom ==>
                && outcome == I2cEepromDriver.PresenceOutcome(present)
                && trace == old(trace) + I2cEepromDriver.WriteEvents(i2cAddress, address, data, present)
    {
      match memoryType
      case Unknown =>
        outcome := NoMemorySelected;
      case NandFlash =>
        trace := trace + NandDriver.WriteEvents(address, data);
        outcome := NandDriver.WriteOutcome(address, data, status);
      case SpiFlash =>
        trace := trace + SpiFlashDriver.WriteEvents(address, data);
        outcome := Success;
      case I2cEeprom =>
        var t;
        t, outcome := I2cEepromDriver.WriteData(i2cAddress, address, data, present);
        trace := trace + t;
    }

    /** eraseMemory: the option picks the scope; a chip erase needs confirming and always
        starts at address 0. `status` is the NAND status byte after erasing. `acks[k]` is
        whether the I2C target answers the probe of the `k`-th 8-byte fill; `skipped` lists
        the fills it did not answer. An I2C erase always ends with "Erase complete". */
    method EraseMemory(option: char, address: ulong, confirmed: bool, status: reg, acks: seq<bool>)
      returns (outcome: Outcome, skipped: seq<ulong>)
      requires Valid()
      requires |acks| >= I2cEepromDriver.FillCount(Chip)
      modifies this`trace
      ensures Valid()
      ensures memoryType != I2cEeprom ==> skipped == []
      ensures memoryType == Unknown ==> outcome == NoMemorySelected && trace == old(trace)
      ensures memoryType != Unknown && EraseOption(option) == None ==>
                outcome == InvalidOption && skipped == [] && trace == old(trace)
      ensures memoryType != Unknown && option == '3' && !confirmed ==>
                outcome == Aborted && skipped == [] && trace == old(trace)
      ensures memoryType != Unknown && EraseOption(option).Some? && (option != '3' || confirmed) ==>
                var scope := EraseOption(option).value;
                var start := if scope == Chip then 0 else address;
                var fills := acks[..I2cEepromDriver.FillCount(scope)];
                && (memoryType == NandFlash ==>
                      outcome == StatusDecoder.NandCompletion(status)
                      && trace == old(trace) + NandDriver.EraseEvents(scope, start))
                && (memoryType == SpiFlash ==>
                      outcome == Success && trace == old(trace) + SpiFlashDriver.EraseEvents(scope, start))
                && (memoryType == I2cEeprom ==>
                      && outcome == Success
                      && skipped == I2cEepromDriver.Unanswered(I2cEepromDriver.EraseStarts(scope, start), fills)
                      && trace == old(trace) + I2cEepromDriver.EraseEvents(i2cAddress, scope, start, fills))
    {
      skipped := [];
      if memoryType == Unknown {
        return NoMemorySelected, skipped;
      }
      var chosen := EraseOption(option);
      if chosen == None {
        return InvalidOption, skipped;
      }
      var scope := chosen.value;
      if scope == Chip && !confirmed {
        return Aborted, skipped;
      }
      var start := if scope == Chip then 0 else address;
      match memoryType
      case NandFlash =>
        trace := trace + NandDriver.EraseEvents(scope, start);
        outcome := StatusDecoder.NandCompletion(status);
      case SpiFlash =>
        trace := trace + SpiFlashDriver.EraseEvents(scope, start);
        outcome := Success;
      case I2cEeprom =>
        var t;
        t, skipped := I2cEepromDriver.Erase(i2cAddress, scope, start, acks[..I2cEepromDriver.FillCount(scope)]);
        trace := trace + t;
        outcome := Success;
    }

    /** readStatus: NAND and SPI read and decode their status registers; I2C reports
        whether the target acknowledges and, if it does, whether it accepts a write of
        address 0 (it does not while a write cycle is in progress). */
    method ReadStatus(nandStatus: reg, spiStatus: reg, present: bool, ready: bool) returns (outcome: Outcome, report: StatusReport)
      requires Valid()
      modifies this`trace
      ensures Valid()
      ensures memoryType == Unknown ==> outcome == NoMemorySelected && report == NoStatus && trace == old(trace)
      ensures memoryType == NandFlash ==>
                && outcome == Success && report == NandReport(StatusDecoder.DecodeNandStatus(nandStatus))
                && trace == old(trace) + NandDriver.StatusEvents()
      ensures memoryType == SpiFlash ==>
                && outcome == Success && report == SpiReport(StatusDecoder.DecodeSpiStatus(spiStatus))
                && trace == old(trace) + SpiFlashDriver.StatusEvents()
      ensures memoryType == I2cEeprom ==>
                && outcome == Success && report == I2cReport(present, present && ready)
                && trace == old(trace) + I2cEepromDriver.StatusEvents(i2cAddress, present)
    {
      match memoryType
      case Unknown =>
        outcome, report := NoMemorySelected, NoStatus;
      case NandFlash =>
        trace := trace + NandDriver.StatusEvents();
        outcome, report := Success, NandReport(StatusDecoder.DecodeNandStatus(nandStatus));
      case SpiFlash =>
        trace := trace + SpiFlashDriver.StatusEvents();
        outcome, report := Success, SpiReport(StatusDecoder.DecodeSpiStatus(spiStatus));
      case I2cEeprom =>
        trace := trace + I2cEepromDriver.StatusEvents(i2cAddress, present);
        outcome, report := Success, I2cReport(present, present && ready);
    }
  }
}
