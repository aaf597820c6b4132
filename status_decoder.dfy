/** Decoding of the NAND and SPI-flash status registers (nandReadStatus, spiReadStatus and
    the bit-0 tests after program, erase and in waitForSpiReady).
 */
module StatusDecoder {
  import opened BusTypes

  /** NAND status: bit 0 program/erase failed, bit 6 ready, bit 7 write protected. */
  datatype NandStatus = NandStatus(failed: bool, ready: bool, writeProtected: bool)

  /** The status byte a chip reports for the given fields, with every other bit clear. */
  function NandStatusByte(s: NandStatus): reg
  {
    (if s.failed then 0x01 else 0) | (if s.ready then 0x40 else 0) | (if s.writeProtected then 0x80 else 0)
  }

  /** The decoder reads exactly bits 0, 6 and 7: re-encoding what it reports gives the byte
      with bits 1 to 5 cleared. */
  function DecodeNandStatus(b: reg): (s: NandStatus)
    ensures NandStatusByte(s) == b & 0xC1
  {
    NandStatus(b & 0x01 != 0, b & 0x40 != 0, b & 0x80 != 0)
  }

  lemma NandStatusRoundTrip(s: NandStatus)
    ensures DecodeNandStatus(NandStatusByte(s)) == s
  {
  }

  /** SPI status: bit 0 busy (write in progress), bit 1 write-enable latch, bits 2..5 the
      block-protect field, bit 7 status-register write disable. */
  datatype SpiStatus = SpiStatus(busy: bool, writeEnableLatch: bool, blockProtect: bv8, registerProtect: bool)

  predicate ValidSpiStatus(s: SpiStatus)
  {
    s.blockProtect < 16
  }

  function SpiStatusByte(s: SpiStatus): reg
    requires ValidSpiStatus(s)
  {
    (if s.busy then 0x01 else 0) | (if s.writeEnableLatch then 0x02 else 0)
    | (s.blockProtect << 2) | (if s.registerProtect then 0x80 else 0)
  }

  /** The decoder reads every bit except bit 6, and the protect field has four bits. */
  function DecodeSpiStatus(b: reg): (s: SpiStatus)
    ensures ValidSpiStatus(s)
    ensures SpiStatusByte(s) == b & 0xBF
  {
    SpiStatus(b & 0x01 != 0, b & 0x02 != 0, (b >> 2) & 0x0F, b & 0x80 != 0)
  }

  lemma SpiStatusRoundTrip(s: SpiStatus)
    requires ValidSpiStatus(s)
    ensures DecodeSpiStatus(SpiStatusByte(s)) == s
  {
  }

  /** waitForSpiReady's answer: true while a program or erase is still in progress, which
      the chip signals with bit 0 alone. */
  function SpiBusy(status: reg): (busy: bool)
    ensures busy <==> status & 0x01 == 0x01
  {
    DecodeSpiStatus(status).busy
  }

  /** The verdict nandWriteData and nandErase print after reading the status byte. */
  function NandCompletion(status: reg): (o: Outcome)
    ensures o == Success || o == OperationFailed
    ensures o == Success <==> status & 0x01 == 0
  {
    if DecodeNandStatus(status).failed then OperationFailed else Success
  }
}
