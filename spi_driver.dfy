/** The SPI-flash sequencer (spiReadID, identifySPIFlash, spiReadData, spiWriteData,
    spiWritePage, spiErase, spiReadStatus, waitForSpiReady). Each chip-select low .. high
    window is one `SpiFrame` holding the bytes shifted out; the bytes shifted in are the
    chip's answers and are passed to the decoders as parameters.
 */
module SpiFlashDriver {
  import opened BusTypes
  import opened StatusDecoder

  const CMD_WRITE_ENABLE: byte := 0x06
  const CMD_READ_STATUS: byte := 0x05
  const CMD_FAST_READ: byte := 0x0B
  const CMD_PAGE_PROGRAM: byte := 0x02
  const CMD_SECTOR_ERASE: byte := 0x20
  const CMD_BLOCK_ERASE_64K: byte := 0xD8
  const CMD_CHIP_ERASE: byte := 0xC7
  const CMD_READ_ID: byte := 0x9F

  // ----- addresses -----

  /** The 24-bit address phase, most significant byte first. Only the low 24 bits of the
      32-bit address reach the chip. */
  function AddressBytes(address: ulong): (a: seq<byte>)
    ensures |a| == 3
    ensures FrameAddress(a) == address % 0x100_0000
  {
    var x := address % 0x100_0000;
    ThreeBytes(x);
    assert address / 0x1_0000 % 256 == x / 0x1_0000 % 256 by {
      assert address / 0x1_0000 == (address / 0x100_0000) * 256 + x / 0x1_0000;
    }
    assert address / 256 % 256 == x / 256 % 256 by {
      assert address / 256 == (address / 0x100_0000) * 0x1_0000 + x / 256;
    }
    [Low8(address / 0x1_0000), Low8(address / 256), Low8(address)]
  }

  /** How the chip reads a three-byte address phase. */
  function FrameAddress(a: seq<byte>): nat
    requires |a| >= 3
  {
    0x1_0000 * a[0] as int + 256 * a[1] as int + a[2] as int
  }

  /** `n` zero bytes: what the programmer shifts out while it clocks in `n` answer bytes. */
  function Zeros(n: nat): (z: seq<byte>)
    ensures |z| == n
    ensures forall i :: 0 <= i < n ==> z[i] == 0
  {
    seq(n, _ => 0)
  }

  // ----- identification and status -----

  /** spiReadID: JEDEC READ ID, then three answer bytes. */
  function ReadIdEvents(): seq<Event>
  {
    [SpiFrame([CMD_READ_ID] + Zeros(3))]
  }

  /** spiReadStatus and one poll of waitForSpiReady: READ STATUS, then one answer byte. */
  function StatusEvents(): seq<Event>
  {
    [SpiFrame([CMD_READ_STATUS] + Zeros(1))]
  }

  /** spiReadID is one chip-select frame: READ ID, then three zero bytes that clock in the
      manufacturer and the two device bytes. */
  lemma ReadIdFrame()
    ensures |ReadIdEvents()| == 1 && ReadIdEvents()[0].SpiFrame?
    ensures var out := ReadIdEvents()[0].out;
      |out| == 4 && out[0] == CMD_READ_ID && out[1] == 0 && out[2] == 0 && out[3] == 0
  {
    var z := Zeros(3);
    assert [CMD_READ_ID] + z == [CMD_READ_ID, z[0], z[1], z[2]];
  }

  /** A status read is one chip-select frame: READ STATUS, then one zero byte that clocks in
      the status register. */
  lemma StatusFrame()
    ensures StatusEvents() == [SpiFrame([CMD_READ_STATUS, 0])]
  {
    var z := Zeros(1);
    assert [CMD_READ_STATUS] + z == [CMD_READ_STATUS, z[0]];
  }

  datatype Manufacturer = SpansionCypress | MicronST | Winbond | Macronix | SST | UnknownManufacturer

  /** What identifySPIFlash prints after the manufacturer: nothing for the makers it only
      names, the part for a recognised Winbond W25Q, or one of the two Winbond fallbacks. */
  datatype Model = NoModel | W25Q(mbit: nat) | UnknownW25QSeries | UnknownWinbondModel

  datatype Identity = Identity(maker: Manufacturer, model: Model)

  function ManufacturerOf(id: byte): Manufacturer
  {
    if id == 0x01 then SpansionCypress
    else if id == 0x20 then MicronST
    else if id == 0xEF then Winbond
    else if id == 0xC2 then Macronix
    else if id == 0xBF then SST
    else UnknownManufacturer
  }

  /** The JEDEC manufacturer code of each maker the programmer names. */
  function ManufacturerCode(m: Manufacturer): Option<byte>
  {
    match m
    case SpansionCypress => Some(0x01)
    case MicronST => Some(0x20)
    case Winbond => Some(0xEF)
    case Macronix => Some(0xC2)
    case SST => Some(0xBF)
    case UnknownManufacturer => None
  }

  /** The manufacturer table is a bijection between the five codes and the five makers. */
  lemma ManufacturerRoundTrip(id: byte, m: Manufacturer)
    ensures ManufacturerOf(id) != UnknownManufacturer ==> ManufacturerCode(ManufacturerOf(id)) == Some(id)
    ensures ManufacturerOf(id) == UnknownManufacturer ==> forall n :: ManufacturerCode(n) != Some(id)
    ensures ManufacturerCode(m).Some? ==> ManufacturerOf(ManufacturerCode(m).value) == m
  {
  }

  function Pow2(n: nat): nat
  {
    if n == 0 then 1 else 2 * Pow2(n - 1)
  }

  /** The JEDEC capacity codes of the W25Q parts identifySPIFlash knows: 1 MiB to 16 MiB. */
  lemma CapacityCodes()
    ensures Pow2(0x14) == 0x10_0000 && Pow2(0x15) == 0x20_0000 && Pow2(0x16) == 0x40_0000
    ensures Pow2(0x17) == 0x80_0000 && Pow2(0x18) == 0x100_0000
  {
    assert Pow2(10) == 1024;
    Pow2Add(10, 10);
  }

  lemma {:induction false} Pow2Add(a: nat, b: nat)
    ensures Pow2(a + b) == Pow2(a) * Pow2(b)
  {
    if a > 0 {
      Pow2Add(a - 1, b);
      assert Pow2(a + b) == 2 * Pow2(a - 1 + b);
      assert 2 * (Pow2(a - 1) * Pow2(b)) == (2 * Pow2(a - 1)) * Pow2(b);
    }
  }

  /** identifySPIFlash. For a Winbond part with memory type 0x40 the capacity code names the
      W25Q part; the part's size in Mbit agrees with the JEDEC rule that the chip holds
      2^capacity bytes. */
  function Identify(manufacturerId: byte, deviceId1: byte, deviceId2: byte): (id: Identity)
    ensures id.maker == ManufacturerOf(manufacturerId)
    ensures id.model.W25Q? <==> (id.maker == Winbond && deviceId1 == 0x40 && 0x14 <= deviceId2 <= 0x18)
    ensures id.model.W25Q? ==> id.model.mbit * 0x2_0000 == Pow2(deviceId2)
    ensures id.model != NoModel <==> id.maker == Winbond
    ensures id.model == UnknownWinbondModel <==> id.maker == Winbond && deviceId1 != 0x40
    ensures id.model == UnknownW25QSeries <==> id.maker == Winbond && deviceId1 == 0x40 && !(0x14 <= deviceId2 <= 0x18)
  {
    CapacityCodes();
    var maker := ManufacturerOf(manufacturerId);
    if maker != Winbond then Identity(maker, NoModel)
    else if deviceId1 != 0x40 then Identity(maker, UnknownWinbondModel)
    else if deviceId2 == 0x14 then Identity(maker, W25Q(8))
    else if deviceId2 == 0x15 then Identity(maker, W25Q(16))
    else if deviceId2 == 0x16 then Identity(maker, W25Q(32))
    else if deviceId2 == 0x17 then Identity(maker, W25Q(64))
    else if deviceId2 == 0x18 then Identity(maker, W25Q(128))
    else Identity(maker, UnknownW25QSeries)
  }

  // ----- read -----

  /** spiReadData: FAST READ, the address, one dummy byte, then one clock byte per byte read,
      all in one frame. */
  function ReadEvents(address: ulong, numBytes: uint): seq<Event>
  {
    [SpiFrame([CMD_FAST_READ] + AddressBytes(address) + [0] + Zeros(numBytes))]
  }

  /** A read is one frame that opens with FAST READ and the low 24 bits of `address`, and then
      shifts out only zeros: one dummy byte and one per byte read. */
  lemma ReadFrame(address: ulong, numBytes: uint)
    ensures |ReadEvents(address, numBytes)| == 1 && ReadEvents(address, numBytes)[0].SpiFrame?
    ensures var out := ReadEvents(address, numBytes)[0].out;
      && |out| == 5 + numBytes
      && out[0] == CMD_FAST_READ
      && FrameAddress(out[1..4]) == address % 0x100_0000
      && forall i :: 4 <= i < |out| ==> out[i] == 0
  {
    var out := ReadEvents(address, numBytes)[0].out;
    assert out[1..4] == AddressBytes(address);
  }

  // ----- write -----

  /** spiWritePage: WRITE ENABLE in its own frame, then PAGE PROGRAM with the address and the
      data, then one status read (the busy bit it returns is not looked at again). */
  function PageProgramEvents(address: ulong, data: seq<byte>): seq<Event>
  {
    [SpiFrame([CMD_WRITE_ENABLE]), SpiFrame([CMD_PAGE_PROGRAM] + AddressBytes(address) + data)] + StatusEvents()
  }

  /** spiWriteData's boundary test, `offset + numBytes > pageSize` in `unsigned int`. */
  predicate CrossesPage(address: ulong, numBytes: uint)
  {
    (address % 256 + numBytes) % 0x1_0000 > 256
  }

  /** How many bytes of a crossing write go to the first page. */
  function FirstPageBytes(address: ulong): nat
  {
    256 - address % 256
  }

  /** spiWriteData: a write that crosses a 256-byte page is split at the boundary into two
      page programs; any other write is one page program. */
  function WriteEvents(address: ulong, data: seq<byte>): seq<Event>
    requires |data| < 0x1_0000
  {
    if CrossesPage(address, |data|) then
      var first := FirstPageBytes(address);
      PageProgramEvents(address, data[..first]) + PageProgramEvents(AddULong(address, first), data[first..])
    else
      PageProgramEvents(address, data)
  }

  /** The bytes a PAGE PROGRAM frame carries after its address. */
  function Payload(e: Event): seq<byte>
    requires e.SpiFrame? && |e.out| >= 4
  {
    e.out[4..]
  }

  /** One page program: write enable comes first, the program frame carries `address` and
      `data`, and the status is read once afterwards. */
  lemma PageProgramShape(address: ulong, data: seq<byte>)
    ensures var t := PageProgramEvents(address, data);
      && |t| == 3
      && t[0] == SpiFrame([CMD_WRITE_ENABLE])
      && t[1].SpiFrame? && |t[1].out| == 4 + |data| && t[1].out[0] == CMD_PAGE_PROGRAM
      && FrameAddress(t[1].out[1..4]) == address % 0x100_0000
      && Payload(t[1]) == data
      && t[2] == SpiFrame([CMD_READ_STATUS, 0])
  {
    var out := [CMD_PAGE_PROGRAM] + AddressBytes(address) + data;
    assert out[1..4] == AddressBytes(address);
    assert out[4..] == data;
  }

  /** Two page programs in a row carry their payloads in frames 1 and 4. */
  lemma TwoProgramsPayload(a1: ulong, d1: seq<byte>, a2: ulong, d2: seq<byte>)
    ensures var t := PageProgramEvents(a1, d1) + PageProgramEvents(a2, d2);
      && |t| == 6
      && t[1].SpiFrame? && |t[1].out| >= 4 && t[4].SpiFrame? && |t[4].out| >= 4
      && Payload(t[1]) + Payload(t[4]) == d1 + d2
  {
    var t1 := PageProgramEvents(a1, d1);
    var t2 := PageProgramEvents(a2, d2);
    PageProgramShape(a1, d1);
    PageProgramShape(a2, d2);
    assert (t1 + t2)[1] == t1[1];
    assert (t1 + t2)[4] == t2[1];
  }

  /** A write that fits its page is one page program of all of `data` at `address`. */
  lemma WriteWithinPage(address: ulong, data: seq<byte>)
    requires address % 256 + |data| <= 256
    ensures WriteEvents(address, data) == PageProgramEvents(address, data)
  {
  }

  /** A write that runs past its page (and is short enough that the 16-bit test cannot wrap)
      becomes exactly two page programs: the first fills the rest of the page at `address`,
      the second starts at the next page boundary, and the two payloads together are `data`
      in order. When `data` is at most one page long the second program fits its page too. */
  lemma WriteAcrossPage(address: ulong, data: seq<byte>)
    requires 256 < address % 256 + |data| < 0x1_0000
    ensures var t := WriteEvents(address, data);
      var first := FirstPageBytes(address);
      && 0 < first < |data|
      && t == PageProgramEvents(address, data[..first]) + PageProgramEvents(AddULong(address, first), data[first..])
      && (address + first) % 256 == 0
      && AddULong(address, first) % 0x100_0000 == (address + first) % 0x100_0000
      && t[1].SpiFrame? && |t[1].out| >= 4 && t[4].SpiFrame? && |t[4].out| >= 4
      && Payload(t[1]) + Payload(t[4]) == data
      && (|data| <= 256 ==> |data[first..]| <= 256)
  {
    var first := FirstPageBytes(address);
    TwoProgramsPayload(address, data[..first], AddULong(address, first), data[first..]);
    assert data[..first] + data[first..] == data;
    NextPageAddress(address, first);
  }

  /** Advancing to the next page boundary in `unsigned long` leaves the low 24 bits the
      chip sees unchanged. */
  lemma NextPageAddress(address: ulong, first: nat)
    requires first == FirstPageBytes(address)
    ensures (address + first) % 256 == 0
    ensures AddULong(address, first) % 0x100_0000 == (address + first) % 0x100_0000
  {
    var q := (address + first) / 0x1_0000_0000;
    assert (address + first) % 0x1_0000_0000 == address + first - q * 0x1_0000_0000;
    assert address + first - q * 0x1_0000_0000 == (address + first) - (q * 256) * 0x100_0000;
  }

  // ----- erase -----

  function EraseOpcode(scope: EraseScope): byte
  {
    match scope
    case Sector => CMD_SECTOR_ERASE
    case Block => CMD_BLOCK_ERASE_64K
    case Chip => CMD_CHIP_ERASE
  }

  /** Which erase an opcode asks for, if any. */
  function ScopeOfOpcode(op: byte): Option<EraseScope>
  {
    if op == CMD_SECTOR_ERASE then Some(Sector)
    else if op == CMD_BLOCK_ERASE_64K then Some(Block)
    else if op == CMD_CHIP_ERASE then Some(Chip)
    else None
  }

  /** spiErase: WRITE ENABLE, then the erase opcode with a 24-bit address for sector (4 KiB)
      and block (64 KiB) erases and none for a chip erase, then status polls until the chip
      is no longer busy. */
  function EraseEvents(scope: EraseScope, address: ulong): seq<Event>
  {
    [SpiFrame([CMD_WRITE_ENABLE]),
     SpiFrame([EraseOpcode(scope)] + (if scope == Chip then [] else AddressBytes(address))),
     SpiWaitWhileBusy]
  }

  /** The erase opcodes are distinct, so the chip can tell which erase was asked for, and
      none of them is a write enable, read, program or status command. */
  lemma EraseOpcodeRoundTrip(scope: EraseScope, op: byte)
    ensures ScopeOfOpcode(EraseOpcode(scope)) == Some(scope)
    ensures ScopeOfOpcode(op) == Some(scope) ==> op == EraseOpcode(scope)
    ensures EraseOpcode(scope) !in {CMD_WRITE_ENABLE, CMD_FAST_READ, CMD_PAGE_PROGRAM, CMD_READ_STATUS, CMD_READ_ID}
  {
  }

  /** An erase frame names the erase, and for sector and block erases the low 24 bits of
      `address`; write enable always comes first. */
  lemma EraseFrame(scope: EraseScope, address: ulong)
    ensures var t := EraseEvents(scope, address);
      && t[0] == SpiFrame([CMD_WRITE_ENABLE])
      && t[1].SpiFrame? && ScopeOfOpcode(t[1].out[0]) == Some(scope)
      && (scope == Chip <==> |t[1].out| == 1)
      && (scope != Chip ==> |t[1].out| == 4 && FrameAddress(t[1].out[1..]) == address % 0x100_0000)
      && t[2] == SpiWaitWhileBusy
  {
    EraseOpcodeRoundTrip(scope, 0);
    if scope != Chip {
      assert EraseEvents(scope, address)[1].out[1..] == AddressBytes(address);
    }
  }
}
