/** The NAND data bus is wired across two AVR ports: data bits 0..5 on PORTD pins 2..7 and
    data bits 6..7 on PORTB pins 0..1 (nandWriteByte, nandReadByte). Only the bit packing is
    modelled; pin directions, strobes and delays are not.
 */
module NandPort {
  import opened BusTypes

  /** The two output registers that carry the bus. */
  datatype Ports = Ports(portd: reg, portb: reg)

  /** nandReadByte: reassemble the bus byte from the input registers PIND and PINB. */
  function SampleBus(pind: reg, pinb: reg): (data: reg)
    ensures data & 0x3F == (pind & 0xFC) >> 2
    ensures data >> 6 == pinb & 0x03
  {
    ((pind >> 2) & 0x3F) | ((pinb & 0x03) << 6)
  }

  /** nandWriteByte: put `data` on the bus pins and leave every other pin of both ports as
      it was. Sampling the pins afterwards gives `data` back. */
  function DriveBus(p: Ports, data: reg): (q: Ports)
    ensures SampleBus(q.portd, q.portb) == data
    ensures q.portd & 0x03 == p.portd & 0x03
    ensures q.portb & 0xFC == p.portb & 0xFC
  {
    Ports((p.portd & 0x03) | ((data & 0x3F) << 2), (p.portb & 0xFC) | ((data >> 6) & 0x03))
  }

  /** The other direction: driving back a sampled byte reproduces the bus pins it was read
      from, so sampling loses nothing of the eight bus pins. */
  lemma DriveSampled(p: Ports, pind: reg, pinb: reg)
    ensures DriveBus(p, SampleBus(pind, pinb)).portd & 0xFC == pind & 0xFC
    ensures DriveBus(p, SampleBus(pind, pinb)).portb & 0x03 == pinb & 0x03
  {
  }
}
