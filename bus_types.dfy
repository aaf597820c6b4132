/** Widths, bus events and results shared by the three memory drivers.

    The programmer runs on an 8-bit AVR: `byte` is 8 bits, `unsigned int` 16 bits and
    `unsigned long` 32 bits. Where the sketch's arithmetic can wrap, the model writes the
    wrap out with `%`.
 */
module BusTypes {

  /** A byte on a bus, as a number. */
  type byte = x: int | 0 <= x < 256

  /** The contents of an 8-bit register (a port or a status register), as bits. */
  type reg = bv8

  /** AVR `unsigned int`. */
  type uint = x: int | 0 <= x < 0x1_0000

  /** AVR `unsigned long`. */
  type ulong = x: int | 0 <= x < 0x1_0000_0000


  /** `x & 0xFF` for a non-negative integer: the byte put on the wire. */
  function Low8(x: int): byte
    requires x >= 0
  {
    x % 256
  }

  /** A number below 2^24 is its three low bytes, least significant first. */
  lemma {:induction false} ThreeBytes(x: nat)
    requires x < 0x100_0000
    ensures x % 256 + 256 * ((x / 256) % 256) + 0x1_0000 * ((x / 0x1_0000) % 256) == x
  {
    assert x / 0x1_0000 == (x / 256) / 256;
    assert x / 0x1_0000 < 256;
  }

  /** Concatenation regrouped, for loops that extend a transcript piece by piece. */
  lemma Associate<T>(a: seq<T>, b: seq<T>, c: seq<T>)
    ensures a + b + c == a + (b + c)
  {
  }

  /** `a + b` computed in `unsigned long`. */
  function AddULong(a: ulong, b: nat): (r: ulong)
    ensures a + b < 0x1_0000_0000 ==> r == a + b
    ensures a + b >= 0x1_0000_0000 && b < 0x1_0000_0000 ==> r == a + b - 0x1_0000_0000
  {
    (a + b) % 0x1_0000_0000
  }

  function Min(a: int, b: int): int
  {
    if a <= b then a else b
  }

  datatype Option<T> = None | Some(value: T)

  /** Which memory technology the session is driving (`enum MemoryType`). */
  datatype MemoryType = Unknown | NandFlash | SpiFlash | I2cEeprom

  /** The three erase options the front end passes on ('1', '2', '3'). */
  datatype EraseScope = Sector | Block | Chip

  /** What an operation reports back to the console. */
  datatype Outcome =
    | Success
    | NoMemorySelected    // "Please select memory type first!"
    | BoundaryViolation   // NAND: "Write crosses page boundary!"
    | OperationFailed     // NAND: status bit 0 set after program or erase
    | BusAbsent           // I2C: target does not acknowledge
    | InvalidOption       // erase: option other than '1', '2' or '3'
    | Aborted             // chip erase not confirmed

  /** One observable step on the wires. */
  datatype Event =
    | NandSelect                 // chip enable driven low
    | NandDeselect               // chip enable driven high
    | NandByte(latch: Latch, b: byte)  // nandWriteByte under the given latch
    | NandReadCycle              // one read-enable pulse; the value comes from the chip
    | NandWaitReady              // waitForNandReady: poll of the ready/busy line
    | SpiFrame(out: seq<byte>)   // bytes shifted out between chip select low and high
    | SpiWaitWhileBusy           // status polls until the write-in-progress bit clears
    | I2cWrite(target: byte, bytes: seq<byte>)  // one beginTransmission .. endTransmission
    | I2cRequest(target: byte, count: nat)      // one requestFrom

  /** How a byte written to the NAND is latched: command latch enable high, address latch
      enable high, or both low (data). */
  datatype Latch = CommandLatch | AddressLatch | DataLatch

  /** The byte `e` latches as `l`, if any. */
  function LatchOf(e: Event, l: Latch): seq<byte>
  {
    if e.NandByte? && e.latch == l then [e.b] else []
  }

  /** The bytes of `t` latched as `l`, in order. */
  function Latched(t: seq<Event>, l: Latch): seq<byte>
  {
    if t == [] then [] else LatchOf(t[0], l) + Latched(t[1..], l)
  }

  lemma {:induction false} LatchedAppend(s: seq<Event>, t: seq<Event>, l: Latch)
    ensures Latched(s + t, l) == Latched(s, l) + Latched(t, l)
  {
    if s == [] {
      assert s + t == t;
    } else {
      assert (s + t)[1..] == s[1..] + t;
      LatchedAppend(s[1..], t, l);
    }
  }

  lemma LatchedJoin(a: seq<Event>, b: seq<Event>, c: seq<Event>, d: seq<Event>, e: seq<Event>, l: Latch)
    ensures Latched(a + b + c + d + e, l) == Latched(a, l) + Latched(b, l) + Latched(c, l) + Latched(d, l) + Latched(e, l)
  {
    LatchedAppend(a + b + c + d, e, l);
    LatchedAppend(a + b + c, d, l);
    LatchedAppend(a + b, c, l);
    LatchedAppend(a, b, l);
  }

  lemma LatchedJoin4(a: seq<Event>, b: seq<Event>, c: seq<Event>, d: seq<Event>, l: Latch)
    ensures Latched(a + b + c + d, l) == Latched(a, l) + Latched(b, l) + Latched(c, l) + Latched(d, l)
  {
    LatchedAppend(a + b + c, d, l);
    LatchedAppend(a + b, c, l);
    LatchedAppend(a, b, l);
  }

  lemma LatchedPair(e0: Event, e1: Event, l: Latch)
    ensures Latched([e0], l) == LatchOf(e0, l)
    ensures Latched([e0, e1], l) == LatchOf(e0, l) + LatchOf(e1, l)
  {
    assert [e0][1..] == [];
    assert Latched([e0], l) == LatchOf(e0, l) + Latched([], l);
    assert [e0, e1][1..] == [e1];
    assert Latched([e1], l) == LatchOf(e1, l) + Latched([e1][1..], l);
    assert [e1][1..] == [];
  }

  lemma LatchedQuad(e0: Event, e1: Event, e2: Event, e3: Event, l: Latch)
    ensures Latched([e0, e1, e2, e3], l) == LatchOf(e0, l) + LatchOf(e1, l) + LatchOf(e2, l) + LatchOf(e3, l)
  {
    assert [e0, e1, e2, e3] == [e0, e1] + [e2, e3];
    LatchedAppend([e0, e1], [e2, e3], l);
    LatchedPair(e0, e1, l);
    LatchedPair(e2, e3, l);
    Associate(LatchOf(e0, l) + LatchOf(e1, l), LatchOf(e2, l), LatchOf(e3, l));
  }
}
