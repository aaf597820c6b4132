/** The I2C-EEPROM sequencer (i2cWriteData, i2cReadData, i2cErase, i2cDetect,
    i2cReadStatus). One `I2cWrite` is one beginTransmission .. endTransmission with the
    bytes queued in between; one `I2cRequest` is one requestFrom. Whether the device
    acknowledges is a parameter.
 */
module I2cEepromDriver {
  import opened BusTypes

  /** Bytes per EEPROM page write. */
  const PAGE_SIZE: nat := 8
  /** Bytes per requestFrom while reading. */
  const READ_CHUNK: nat := 16
  /** What an erase writes. */
  const ERASED: byte := 0xFF

  /** The empty transmission every operation starts with: it only asks for an acknowledge. */
  function Probe(target: byte): Event
  {
    I2cWrite(target, [])
  }

  // ----- address phase -----

  /** Whether an operation starting at `address` sends two address bytes. The choice is
      made once, from the start address, and holds for every transaction of the operation. */
  predicate Wide(address: ulong)
  {
    address > 0xFF
  }

  function PhaseLength(wide: bool): nat
  {
    if wide then 2 else 1
  }

  /** The memory address as the EEPROM receives it: high byte first when wide, then the
      low byte. */
  function AddressPhase(wide: bool, a: ulong): (p: seq<byte>)
    ensures |p| == PhaseLength(wide)
    ensures p[|p| - 1] == a % 256
  {
    if wide then [Low8(a / 256), Low8(a)] else [Low8(a)]
  }

  /** The address a device reads from a phase of the given width. */
  function PhaseValue(wide: bool, p: seq<byte>): nat
    requires |p| >= PhaseLength(wide)
  {
    if wide then 256 * p[0] as int + p[1] as int else p[0] as int
  }

  /** The device reads back the low 16 bits of the address from a wide phase and the low
      8 bits from a narrow one. */
  lemma AddressPhaseValue(wide: bool, a: ulong)
    ensures PhaseValue(wide, AddressPhase(wide, a)) == a % (if wide then 0x1_0000 else 256)
  {
    if wide {
      var q := a / 0x1_0000;
      var r := a % 0x1_0000;
      DivMod256(a, 256 * q + r / 256, r % 256);
      DivMod256(a / 256, q, r / 256);
    }
  }

  lemma DivMod256(a: nat, x: nat, y: nat)
    requires a == 256 * x + y && y < 256
    ensures a / 256 == x && a % 256 == y
  {
  }

  lemma {:induction false} AddULongAssoc(a: ulong, x: nat, y: nat)
    ensures AddULong(AddULong(a, x), y) == AddULong(a, x + y)
  {
    var q := (a + x) / 0x1_0000_0000;
    assert AddULong(a, x) + y == (a + x + y) - q * 0x1_0000_0000;
  }

  // ----- write -----

  /** How many bytes the page write at `cur` carries: up to the next 8-byte boundary, and no
      more than remain. */
  function ChunkLength(cur: ulong, remaining: nat): (n: nat)
    requires remaining > 0
    ensures 0 < n <= remaining
    ensures cur % 8 + n <= 8
    ensures n == remaining || (cur + n) % 8 == 0
  {
    Min(8 - cur % 8, remaining)
  }

  /** The page writes of i2cWriteData for the bytes `rest` still to write at `cur`: each
      transaction stops at the next 8-byte page boundary or at the end of the data. */
  function WriteTransactions(target: byte, wide: bool, cur: ulong, rest: seq<byte>): seq<Event>
    decreases |rest|
  {
    if rest == [] then []
    else
      var len := ChunkLength(cur, |rest|);
      [I2cWrite(target, AddressPhase(wide, cur) + rest[..len])]
      + WriteTransactions(target, wide, AddULong(cur, len), rest[len..])
  }

  /** i2cWriteData: probe; if the device answers, the page writes. */
  function WriteEvents(target: byte, address: ulong, data: seq<byte>, present: bool): seq<Event>
  {
    [Probe(target)] + if present then WriteTransactions(target, Wide(address), address, data) else []
  }

  /** What i2cWriteData and i2cReadData report after their presence probe. */
  function PresenceOutcome(present: bool): Outcome
  {
    if present then Success else BusAbsent
  }

  /** i2cWriteData: probe the device, give up if it does not answer, then write the data
      page by page, each page write carrying the address phase and the bytes up to the next
      8-byte boundary. */
  method WriteData(target: byte, address: ulong, data: seq<byte>, present: bool) returns (t: seq<Event>, outcome: Outcome)
    requires |data| < 0x1_0000
    ensures t == WriteEvents(target, address, data, present)
    ensures outcome == PresenceOutcome(present)
  {
    t := [Probe(target)];
    if !present {
      return t, BusAbsent;
    }
    var wide := address > 0xFF;
    var written := 0;
    assert data[written..] == data;
    while written < |data|
      invariant 0 <= written <= |data|
      invariant WriteEvents(target, address, data, present)
             == t + WriteTransactions(target, wide, AddULong(address, written), data[written..])
    {
      var current := AddULong(address, written);
      var pageOffset := current % 8;
      var count := Min(8 - pageOffset, |data| - written);
      var bytes := PageBytes(wide, current, data, written, count);
      WriteStep(target, wide, address, data, written, count);
      Associate(t, [I2cWrite(target, bytes)], WriteTransactions(target, wide, AddULong(address, written + count), data[written + count..]));
      t := t + [I2cWrite(target, bytes)];
      written := written + count;
    }
    assert data[written..] == [];
    outcome := Success;
  }

  /** The address bytes queued at the start of a transaction: the high byte when wide,
      then the low byte. */
  method PhaseBytes(wide: bool, current: ulong) returns (bytes: seq<byte>)
    ensures bytes == AddressPhase(wide, current)
  {
    bytes := [];
    if wide {
      bytes := bytes + [Low8(current / 256)];
    }
    bytes := bytes + [Low8(current)];
  }

  /** The bytes of one page write: the address phase, then `count` data bytes from
      `written` on, queued one at a time. */
  method PageBytes(wide: bool, current: ulong, data: seq<byte>, written: nat, count: nat) returns (bytes: seq<byte>)
    requires written + count <= |data|
    ensures bytes == AddressPhase(wide, current) + data[written..written + count]
  {
    bytes := PhaseBytes(wide, current);
    var i := 0;
    while i < count
      invariant 0 <= i <= count
      invariant bytes == AddressPhase(wide, current) + data[written..written + i]
    {
      bytes := bytes + [data[written + i]];
      i := i + 1;
    }
  }

  /** One page write of the loop in i2cWriteData: the chunk at `written` is followed by the
      transactions for the rest of the data. */
  lemma WriteStep(target: byte, wide: bool, address: ulong, data: seq<byte>, written: nat, count: nat)
    requires written < |data|
    requires count == Min(8 - AddULong(address, written) % 8, |data| - written)
    ensures WriteTransactions(target, wide, AddULong(address, written), data[written..])
         == [I2cWrite(target, AddressPhase(wide, AddULong(address, written)) + data[written..written + count])]
            + WriteTransactions(target, wide, AddULong(address, written + count), data[written + count..])
  {
    var current := AddULong(address, written);
    var rest := data[written..];
    assert count == ChunkLength(current, |rest|);
    assert rest[..count] == data[written..written + count];
    assert rest[count..] == data[written + count..];
    AddULongAssoc(address, written, count);
  }

  /** The data bytes the write transactions of `t` carry after an address phase of `skip`
      bytes, in order. */
  function Payloads(t: seq<Event>, skip: nat): seq<byte>
  {
    if t == [] then []
    else (if t[0].I2cWrite? && |t[0].bytes| >= skip then t[0].bytes[skip..] else []) + Payloads(t[1..], skip)
  }

  lemma {:induction false} PayloadsAppend(s: seq<Event>, t: seq<Event>, skip: nat)
    ensures Payloads(s + t, skip) == Payloads(s, skip) + Payloads(t, skip)
  {
    if s == [] {
      assert s + t == t;
    } else {
      assert (s + t)[1..] == s[1..] + t;
      PayloadsAppend(s[1..], t, skip);
    }
  }

  /** Taken together the page writes carry exactly the data, in order. */
  lemma {:induction false} WritePayloads(target: byte, wide: bool, cur: ulong, rest: seq<byte>)
    ensures Payloads(WriteTransactions(target, wide, cur, rest), PhaseLength(wide)) == rest
    decreases |rest|
  {
    if rest != [] {
      var len := ChunkLength(cur, |rest|);
      var head := I2cWrite(target, AddressPhase(wide, cur) + rest[..len]);
      var tail := WriteTransactions(target, wide, AddULong(cur, len), rest[len..]);
      WritePayloads(target, wide, AddULong(cur, len), rest[len..]);
      assert ([head] + tail)[1..] == tail;
      assert head.bytes[PhaseLength(wide)..] == rest[..len];
      assert rest[..len] + rest[len..] == rest;
    }
  }

  /** A page write to `target` with an address phase of the given width, carrying between
      one and eight data bytes that stay inside one 8-byte page of the EEPROM. */
  predicate PageWrite(e: Event, target: byte, wide: bool)
  {
    && e.I2cWrite? && e.target == target
    && PhaseLength(wide) < |e.bytes| <= PhaseLength(wide) + PAGE_SIZE
    && e.bytes[PhaseLength(wide) - 1] % 8 + (|e.bytes| - PhaseLength(wide)) <= PAGE_SIZE
  }

  /** The first page write stays in the page of `cur`. */
  lemma FirstPageWrite(target: byte, wide: bool, cur: ulong, rest: seq<byte>)
    requires rest != []
    ensures PageWrite(I2cWrite(target, AddressPhase(wide, cur) + rest[..ChunkLength(cur, |rest|)]), target, wide)
  {
    var len := ChunkLength(cur, |rest|);
    var p := AddressPhase(wide, cur);
    var bytes := p + rest[..len];
    assert |bytes| == PhaseLength(wide) + len;
    assert bytes[PhaseLength(wide) - 1] == cur % 256;
    LowByteModulo(cur);
  }

  /** The offset within an 8-byte page survives truncation to the low address byte. */
  lemma LowByteModulo(x: nat)
    ensures (x % 256) % 8 == x % 8
  {
    var q := x / 256;
    var r := x % 256;
    DivMod8(x, 32 * q + r / 8, r % 8);
  }

  lemma DivMod8(a: nat, x: nat, y: nat)
    requires a == 8 * x + y && y < 8
    ensures a % 8 == y
  {
  }

  lemma {:induction false} WritePageAt(target: byte, wide: bool, cur: ulong, rest: seq<byte>, k: nat)
    requires k < |WriteTransactions(target, wide, cur, rest)|
    ensures PageWrite(WriteTransactions(target, wide, cur, rest)[k], target, wide)
    decreases |rest|
  {
    var len := ChunkLength(cur, |rest|);
    var tail := WriteTransactions(target, wide, AddULong(cur, len), rest[len..]);
    var head := I2cWrite(target, AddressPhase(wide, cur) + rest[..len]);
    assert WriteTransactions(target, wide, cur, rest) == [head] + tail;
    if k == 0 {
      FirstPageWrite(target, wide, cur, rest);
    } else {
      WritePageAt(target, wide, AddULong(cur, len), rest[len..], k - 1);
      assert ([head] + tail)[k] == tail[k - 1];
    }
  }

  /** Every page write of i2cWriteData stays inside one EEPROM page. */
  lemma WritePages(target: byte, wide: bool, cur: ulong, rest: seq<byte>)
    ensures forall k :: 0 <= k < |WriteTransactions(target, wide, cur, rest)| ==>
              PageWrite(WriteTransactions(target, wide, cur, rest)[k], target, wide)
  {
    forall k | 0 <= k < |WriteTransactions(target, wide, cur, rest)| {
      WritePageAt(target, wide, cur, rest, k);
    }
  }

  /** Transaction `k` of `t` is a write whose address phase names `cur` advanced by the
      bytes the earlier transactions carried, in `unsigned long`. */
  predicate AddressedAt(t: seq<Event>, k: nat, wide: bool, cur: ulong)
    requires k < |t|
  {
    && t[k].I2cWrite? && |t[k].bytes| >= PhaseLength(wide)
    && t[k].bytes[..PhaseLength(wide)] == AddressPhase(wide, AddULong(cur, |Payloads(t[..k], PhaseLength(wide))|))
  }

  /** Putting one more transaction in front shifts the offsets of the later ones by the bytes
      it carries. */
  lemma AddressedShift(head: Event, tail: seq<Event>, k: nat, wide: bool, cur: ulong, len: nat)
    requires 0 < k <= |tail|
    requires |Payloads([head], PhaseLength(wide))| == len
    requires AddressedAt(tail, k - 1, wide, AddULong(cur, len))
    ensures AddressedAt([head] + tail, k, wide, cur)
  {
    var pl := PhaseLength(wide);
    var t := [head] + tail;
    assert t[k] == tail[k - 1];
    assert t[..k] == [head] + tail[..k - 1];
    PayloadsAppend([head], tail[..k - 1], pl);
    AddULongAssoc(cur, len, |Payloads(tail[..k - 1], pl)|);
  }

  /** Page write `k` is addressed at the start address advanced by the bytes the earlier
      page writes carried (in `unsigned long`, cut to the width of the phase). */
  lemma {:induction false} WriteAddressAt(target: byte, wide: bool, cur: ulong, rest: seq<byte>, k: nat)
    requires k < |WriteTransactions(target, wide, cur, rest)|
    ensures AddressedAt(WriteTransactions(target, wide, cur, rest), k, wide, cur)
    decreases |rest|
  {
    var pl := PhaseLength(wide);
    var len := ChunkLength(cur, |rest|);
    var tail := WriteTransactions(target, wide, AddULong(cur, len), rest[len..]);
    var head := I2cWrite(target, AddressPhase(wide, cur) + rest[..len]);
    assert WriteTransactions(target, wide, cur, rest) == [head] + tail;
    assert Payloads([head], pl) == rest[..len] by {
      assert [head][1..] == [];
      assert head.bytes[pl..] == rest[..len];
    }
    if k == 0 {
      assert ([head] + tail)[..0] == [];
      assert head.bytes[..pl] == AddressPhase(wide, cur);
    } else {
      WriteAddressAt(target, wide, AddULong(cur, len), rest[len..], k - 1);
      AddressedShift(head, tail, k, wide, cur, len);
    }
  }

  /** The width is fixed by the start address: eight bytes written from 0xFC go out as
      two page writes, both with a one-byte address phase, so the second names 0x00 rather
      than 0x100. */
  lemma NarrowWriteAcross0x100(target: byte, data: seq<byte>)
    requires |data| == 8
    ensures WriteEvents(target, 0xFC, data, true)
         == [Probe(target), I2cWrite(target, [0xFC] + data[..4]), I2cWrite(target, [0x00] + data[4..])]
  {
    var rest := data[4..];
    assert WriteTransactions(target, false, 0x100, rest)
        == [I2cWrite(target, [0x00] + rest[..4])] + WriteTransactions(target, false, 0x104, rest[4..]);
    assert rest[..4] == rest && rest[4..] == [];
  }

  // ----- read -----

  /** The chunks of i2cReadData from offset `i` on: set the address pointer with a write of
      the address phase, then request up to 16 bytes. */
  function ReadTransactions(target: byte, wide: bool, address: ulong, numBytes: nat, i: nat): seq<Event>
    decreases numBytes - i
  {
    if i >= numBytes then []
    else
      [I2cWrite(target, AddressPhase(wide, AddULong(address, i))), I2cRequest(target, Min(READ_CHUNK, numBytes - i))]
      + ReadTransactions(target, wide, address, numBytes, i + READ_CHUNK)
  }

  /** i2cReadData: probe; if the device answers, the chunks. */
  function ReadEvents(target: byte, address: ulong, numBytes: nat, present: bool): seq<Event>
  {
    [Probe(target)] + if present then ReadTransactions(target, Wide(address), address, numBytes, 0) else []
  }

  /** i2cReadData's bus traffic: probe the device, give up if it does not answer, then
      read in chunks of 16 bytes, each an address write followed by a request. The chunk
      offset `i` is an `unsigned int`; below 0xFFF1 bytes it never wraps (a longer read
      would wrap it and never end). */
  method ReadData(target: byte, address: ulong, numBytes: nat, present: bool) returns (t: seq<Event>, outcome: Outcome)
    requires numBytes <= 0xFFF0
    ensures t == ReadEvents(target, address, numBytes, present)
    ensures outcome == PresenceOutcome(present)
  {
    t := [Probe(target)];
    if !present {
      return t, BusAbsent;
    }
    var wide := address > 0xFF;
    var i := 0;
    while i < numBytes
      invariant i < 0x1_0000
      invariant ReadEvents(target, address, numBytes, present)
             == t + ReadTransactions(target, wide, address, numBytes, i)
      decreases numBytes - i
    {
      var count := Min(READ_CHUNK, numBytes - i);
      var current := AddULong(address, i);
      var phase := PhaseBytes(wide, current);
      ReadStep(target, wide, address, numBytes, i);
      t := t + [I2cWrite(target, phase), I2cRequest(target, count)];
      i := (i + READ_CHUNK) % 0x1_0000;
    }
    outcome := Success;
  }

  /** One chunk of the loop in i2cReadData, and the 16-bit step to the next chunk that
      does not wrap. */
  lemma ReadStep(target: byte, wide: bool, address: ulong, numBytes: nat, i: nat)
    requires i < numBytes <= 0xFFF0
    ensures ReadTransactions(target, wide, address, numBytes, i)
         == [I2cWrite(target, AddressPhase(wide, AddULong(address, i))), I2cRequest(target, Min(READ_CHUNK, numBytes - i))]
            + ReadTransactions(target, wide, address, numBytes, (i + READ_CHUNK) % 0x1_0000)
    ensures (i + READ_CHUNK) % 0x1_0000 == i + READ_CHUNK
  {
    SmallModulo(i + READ_CHUNK);
  }

  lemma SmallModulo(x: nat)
    requires x < 0x1_0000
    ensures x % 0x1_0000 == x
  {
  }

  /** The number of bytes the requests in `t` ask for. */
  function Requested(t: seq<Event>): nat
  {
    if t == [] then 0 else (if t[0].I2cRequest? then t[0].count else 0) + Requested(t[1..])
  }

  /** Chunk `k` of a read of `numBytes` bytes from offset `i`: its offset `i + 16 k` is still
      inside the read, and it is an address write pointing at `address + i + 16 k` followed
      by a request for the next 16 bytes, or for the rest when fewer remain. */
  predicate ReadChunkAt(t: seq<Event>, k: nat, target: byte, wide: bool, address: ulong, numBytes: nat, i: nat)
    requires 2 * k + 1 < |t|
  {
    && i + READ_CHUNK * k < numBytes
    && t[2 * k] == I2cWrite(target, AddressPhase(wide, AddULong(address, i + READ_CHUNK * k)))
    && t[2 * k + 1] == I2cRequest(target, Min(READ_CHUNK, numBytes - (i + READ_CHUNK * k)))
  }

  lemma {:induction false} ReadChunkShape(target: byte, wide: bool, address: ulong, numBytes: nat, i: nat, k: nat)
    requires 2 * k + 1 < |ReadTransactions(target, wide, address, numBytes, i)|
    ensures ReadChunkAt(ReadTransactions(target, wide, address, numBytes, i), k, target, wide, address, numBytes, i)
    decreases numBytes - i
  {
    var t := ReadTransactions(target, wide, address, numBytes, i);
    var tail := ReadTransactions(target, wide, address, numBytes, i + READ_CHUNK);
    if k > 0 {
      ReadChunkShape(target, wide, address, numBytes, i + READ_CHUNK, k - 1);
      assert t[2..] == tail;
      assert t[2 * k] == tail[2 * (k - 1)];
      assert t[2 * k + 1] == tail[2 * (k - 1) + 1];
    }
  }

  /** All the requests of a read from offset `i` together ask for exactly the bytes from `i`
      to `numBytes`, and the chunks come in address-write and request pairs, one pair per
      16 bytes or part of 16 bytes. */
  lemma {:induction false} ReadRequested(target: byte, wide: bool, address: ulong, numBytes: nat, i: nat)
    ensures |ReadTransactions(target, wide, address, numBytes, i)| % 2 == 0
    ensures |ReadTransactions(target, wide, address, numBytes, i)|
         == if i < numBytes then 2 * ((numBytes - i + READ_CHUNK - 1) / READ_CHUNK) else 0
    ensures Requested(ReadTransactions(target, wide, address, numBytes, i)) == if i < numBytes then numBytes - i else 0
    decreases numBytes - i
  {
    if i < numBytes {
      var t := ReadTransactions(target, wide, address, numBytes, i);
      var tail := ReadTransactions(target, wide, address, numBytes, i + READ_CHUNK);
      ReadRequested(target, wide, address, numBytes, i + READ_CHUNK);
      assert t[1..][1..] == tail;
    }
  }

  // ----- erase -----

  /** The 8-byte block of 0xFF i2cErase hands to i2cWriteData. */
  function ErasedBlock(): seq<byte>
  {
    seq(8, _ => ERASED)
  }

  /** How many 8-byte fills i2cErase makes: 256, 4096 and 32768 bytes in steps of eight. */
  function FillCount(scope: EraseScope): (n: nat)
    ensures 8 * n == match scope case Sector => 256 case Block => 4096 case Chip => 32 * 1024
  {
    match scope
    case Sector => 32
    case Block => 512
    case Chip => 4096
  }

  /** The start addresses of i2cErase's 8-byte writes: a chip erase fills the first 32 KiB
      from address 0; a sector erase fills 256 bytes and a block erase 4 KiB from `address`
      (the sum taken in `unsigned long`). */
  function EraseStarts(scope: EraseScope, address: ulong): (starts: seq<ulong>)
    ensures |starts| == FillCount(scope)
    ensures forall k :: 0 <= k < |starts| ==>
              starts[k] == if scope == Chip then 8 * k else (address + 8 * k) % 0x1_0000_0000
  {
    match scope
    case Chip => seq(4096, k => 8 * k)
    case Sector => seq(32, k requires 0 <= k < 32 => AddULong(address, 8 * k))
    case Block => seq(512, k requires 0 <= k < 512 => AddULong(address, 8 * k))
  }

  /** One i2cWriteData call per start address; `acks[k]` is whether the device answers the
      probe of fill `k`. */
  function FillEvents(target: byte, starts: seq<ulong>, acks: seq<bool>): seq<Event>
    requires |acks| == |starts|
  {
    if starts == [] then []
    else WriteEvents(target, starts[0], ErasedBlock(), acks[0]) + FillEvents(target, starts[1..], acks[1..])
  }

  /** i2cErase. */
  function EraseEvents(target: byte, scope: EraseScope, address: ulong, acks: seq<bool>): seq<Event>
    requires |acks| == FillCount(scope)
  {
    FillEvents(target, EraseStarts(scope, address), acks)
  }

  /** The start addresses of the fills whose probe went unanswered, in order: i2cWriteData
      reports "not responding" for each and writes nothing there. */
  function Unanswered(starts: seq<ulong>, acks: seq<bool>): (u: seq<ulong>)
    requires |acks| == |starts|
    ensures |u| <= |starts|
    ensures u == [] <==> forall k :: 0 <= k < |acks| ==> acks[k]
    ensures forall x :: x in u ==> x in starts
  {
    if starts == [] then []
    else (if acks[0] then [] else [starts[0]]) + Unanswered(starts[1..], acks[1..])
  }

  /** i2cErase: a chip erase writes 0xFF over the first 32 KiB from address 0; a sector
      erase over 256 bytes and a block erase over 4 KiB from `address`. Each step hands
      eight bytes to i2cWriteData, which probes the device anew: a fill whose probe goes
      unanswered is skipped and reported, and the erase goes on with the next one. */
  method Erase(target: byte, scope: EraseScope, address: ulong, acks: seq<bool>) returns (t: seq<Event>, skipped: seq<ulong>)
    requires |acks| == FillCount(scope)
    ensures t == EraseEvents(target, scope, address, acks)
    ensures skipped == Unanswered(EraseStarts(scope, address), acks)
  {
    var starts := EraseStarts(scope, address);
    var eraseData := ErasedBlock();
    t := [];
    skipped := [];
    var size := if scope == Chip then 32 * 1024 else if scope == Sector then 256 else 4096;
    var i := 0;
    ghost var k := 0;
    assert starts[k..] == starts && acks[k..] == acks;
    while i < size
      invariant i == 8 * k && k <= |starts| && size == 8 * |starts|
      invariant FillEvents(target, starts, acks) == t + FillEvents(target, starts[k..], acks[k..])
      invariant Unanswered(starts, acks) == skipped + Unanswered(starts[k..], acks[k..])
    {
      var start := if scope == Chip then i else AddULong(address, i);
      assert i / 8 == k;
      assert start == starts[k];
      EraseStep(target, starts, acks, k, t, skipped);
      var written, outcome := WriteData(target, start, eraseData, acks[i / 8]);
      var missed := if outcome == Success then [] else [start];
      t := t + written;
      skipped := skipped + missed;
      i := i + 8;
      k := k + 1;
    }
    assert starts[k..] == [] && acks[k..] == [];
  }

  /** One pass of the erase loop: appending fill `k` and its report keeps the loop's
      invariants for `k + 1`. */
  lemma EraseStep(target: byte, starts: seq<ulong>, acks: seq<bool>, k: nat, t: seq<Event>, skipped: seq<ulong>)
    requires |acks| == |starts| && k < |starts|
    requires FillEvents(target, starts, acks) == t + FillEvents(target, starts[k..], acks[k..])
    requires Unanswered(starts, acks) == skipped + Unanswered(starts[k..], acks[k..])
    ensures FillEvents(target, starts, acks)
         == (t + WriteEvents(target, starts[k], ErasedBlock(), acks[k])) + FillEvents(target, starts[k + 1..], acks[k + 1..])
    ensures Unanswered(starts, acks)
         == (skipped + (if acks[k] then [] else [starts[k]])) + Unanswered(starts[k + 1..], acks[k + 1..])
  {
    FillStep(target, starts, acks, k);
    Associate(t, WriteEvents(target, starts[k], ErasedBlock(), acks[k]), FillEvents(target, starts[k + 1..], acks[k + 1..]));
    Associate(skipped, if acks[k] then [] else [starts[k]], Unanswered(starts[k + 1..], acks[k + 1..]));
  }

  /** One step of an erase: the fill at start `k` and what it reports, then the rest. */
  lemma FillStep(target: byte, starts: seq<ulong>, acks: seq<bool>, k: nat)
    requires |acks| == |starts| && k < |starts|
    ensures FillEvents(target, starts[k..], acks[k..])
         == WriteEvents(target, starts[k], ErasedBlock(), acks[k]) + FillEvents(target, starts[k + 1..], acks[k + 1..])
    ensures Unanswered(starts[k..], acks[k..])
         == (if acks[k] then [] else [starts[k]]) + Unanswered(starts[k + 1..], acks[k + 1..])
  {
    assert starts[k..][1..] == starts[k + 1..];
    assert acks[k..][1..] == acks[k + 1..];
  }

  /** i2cWriteData probes the device exactly once: none of its page writes is an empty
      transmission. */
  lemma WriteProbes(target: byte, address: ulong, data: seq<byte>, present: bool)
    ensures multiset(WriteEvents(target, address, data, present))[Probe(target)] == 1
  {
    var w := if present then WriteTransactions(target, Wide(address), address, data) else [];
    WritePages(target, Wide(address), address, data);
    assert forall k :: 0 <= k < |w| ==> w[k] != Probe(target);
    assert Probe(target) !in w;
    assert WriteEvents(target, address, data, present) == [Probe(target)] + w;
  }

  /** i2cWriteData delivers exactly `data` when the device answers, and nothing when it
      does not. */
  lemma WriteDelivers(target: byte, address: ulong, data: seq<byte>, present: bool)
    ensures Payloads(WriteEvents(target, address, data, present), PhaseLength(Wide(address)))
         == if present then data else []
  {
    var pl := PhaseLength(Wide(address));
    var w := if present then WriteTransactions(target, Wide(address), address, data) else [];
    assert WriteEvents(target, address, data, present) == [Probe(target)] + w;
    PayloadsAppend([Probe(target)], w, pl);
    assert Payloads([Probe(target)], pl) == [] by {
      assert [Probe(target)][1..] == [];
    }
    if present {
      WritePayloads(target, Wide(address), address, data);
    }
  }

  /** The fills probe the device once each. */
  lemma {:induction false} FillProbes(target: byte, starts: seq<ulong>, acks: seq<bool>)
    requires |acks| == |starts|
    ensures multiset(FillEvents(target, starts, acks))[Probe(target)] == |starts|
  {
    if starts != [] {
      WriteProbes(target, starts[0], ErasedBlock(), acks[0]);
      FillProbes(target, starts[1..], acks[1..]);
    }
  }

  /** An erase probes the device once per 8-byte fill, answered or not: 32, 512 or 4096
      times. */
  lemma EraseProbes(target: byte, scope: EraseScope, address: ulong, acks: seq<bool>)
    requires |acks| == FillCount(scope)
    ensures multiset(EraseEvents(target, scope, address, acks))[Probe(target)] == FillCount(scope)
  {
    FillProbes(target, EraseStarts(scope, address), acks);
  }

  /** An 8-byte fill at an 8-aligned address is a probe and a single page write. */
  lemma AlignedFill(target: byte, start: ulong)
    requires start % 8 == 0
    ensures WriteEvents(target, start, ErasedBlock(), true)
         == [Probe(target), I2cWrite(target, AddressPhase(Wide(start), start) + ErasedBlock())]
  {
    var rest := ErasedBlock();
    assert rest[..8] == rest;
    assert rest[8..] == [];
  }

  /** A chip erase: fill `k` of the 4096 writes eight 0xFF bytes at `8 k` in a single page
      write, with a one-byte address phase for the first 32 fills and a two-byte phase
      for the rest. */
  lemma ChipEraseFill(target: byte, k: nat)
    requires k < 4096
    ensures EraseStarts(Chip, 0)[k] == 8 * k
    ensures WriteEvents(target, EraseStarts(Chip, 0)[k], ErasedBlock(), true)
         == [Probe(target), I2cWrite(target, AddressPhase(k >= 32, 8 * k) + ErasedBlock())]
  {
    AlignedFill(target, 8 * k);
  }

  // ----- detect and status -----

  /** One scan result: the address that acknowledged and whether it lies in 0x50..0x57. */
  datatype Found = Found(address: byte, likelyEeprom: bool)

  /** The first and one-past-last addresses i2cDetect probes. */
  const SCAN_FIRST: byte := 0x08
  const SCAN_END: nat := 0x78

  /** i2cDetect from `addr` on: one probe per address up to 0x77. */
  function ScanEvents(addr: nat): seq<Event>
    requires addr <= SCAN_END
    decreases SCAN_END - addr
  {
    if addr == SCAN_END then [] else [Probe(addr)] + ScanEvents(addr + 1)
  }

  /** What i2cDetect reports from `addr` on, given the addresses that acknowledge. */
  function ScanResults(acks: set<byte>, addr: nat): seq<Found>
    requires addr <= SCAN_END
    decreases SCAN_END - addr
  {
    if addr == SCAN_END then []
    else if addr in acks then [Found(addr, 0x50 <= addr <= 0x57)] + ScanResults(acks, addr + 1)
    else ScanResults(acks, addr + 1)
  }

  /** The addresses a scan result reports. */
  function Reported(r: seq<Found>): set<byte>
  {
    set f | f in r :: f.address
  }

  /** The scan reports exactly the acknowledging addresses in [addr, 0x77]. */
  lemma {:induction false} ScanComplete(acks: set<byte>, addr: nat)
    requires addr <= SCAN_END
    ensures Reported(ScanResults(acks, addr)) == set a | a in acks && addr <= a < SCAN_END
    decreases SCAN_END - addr
  {
    if addr < SCAN_END {
      var r := ScanResults(acks, addr);
      var tail := ScanResults(acks, addr + 1);
      ScanComplete(acks, addr + 1);
      if addr in acks {
        var x := Found(addr, 0x50 <= addr <= 0x57);
        assert r == [x] + tail;
        assert Reported(r) == {x.address} + Reported(tail);
      } else {
        assert r == tail;
      }
    }
  }

  /** The scan lists addresses in strictly increasing order, so each at most once, and flags
      exactly those in 0x50..0x57 as likely EEPROMs. */
  lemma {:induction false} ScanOrdered(acks: set<byte>, addr: nat)
    requires addr <= SCAN_END
    ensures forall k :: 0 <= k < |ScanResults(acks, addr)| ==> addr <= ScanResults(acks, addr)[k].address < SCAN_END
    ensures forall k :: 0 <= k < |ScanResults(acks, addr)| ==>
              (ScanResults(acks, addr)[k].likelyEeprom <==> 0x50 <= ScanResults(acks, addr)[k].address <= 0x57)
    ensures forall j, k :: 0 <= j < k < |ScanResults(acks, addr)| ==>
              ScanResults(acks, addr)[j].address < ScanResults(acks, addr)[k].address
    decreases SCAN_END - addr
  {
    if addr < SCAN_END {
      ScanOrdered(acks, addr + 1);
      var r := ScanResults(acks, addr);
      var tail := ScanResults(acks, addr + 1);
      if addr in acks {
        assert r == [Found(addr, 0x50 <= addr <= 0x57)] + tail;
        assert forall k :: 1 <= k < |r| ==> r[k] == tail[k - 1];
      }
    }
  }

  /** i2cDetect: probe every address from 0x08 to 0x77 and list those that acknowledge. */
  method Detect(acks: set<byte>) returns (t: seq<Event>, found: seq<Found>)
    ensures t == ScanEvents(SCAN_FIRST)
    ensures found == ScanResults(acks, SCAN_FIRST)
  {
    t := [];
    found := [];
    var addr: byte := 0x08;
    while addr < 0x78
      invariant SCAN_FIRST <= addr <= SCAN_END
      invariant ScanEvents(SCAN_FIRST) == t + ScanEvents(addr as nat)
      invariant ScanResults(acks, SCAN_FIRST) == found + ScanResults(acks, addr as nat)
    {
      var hit := if addr in acks then [Found(addr, addr >= 0x50 && addr <= 0x57)] else [];
      ScanStep(acks, addr);
      Associate(t, [Probe(addr)], ScanEvents(addr as nat + 1));
      Associate(found, hit, ScanResults(acks, addr as nat + 1));
      t := t + [Probe(addr)];
      found := found + hit;
      addr := addr + 1;
    }
  }

  /** One address of the scan: its probe, and its report when it acknowledges. */
  lemma ScanStep(acks: set<byte>, addr: byte)
    requires addr < SCAN_END
    ensures ScanEvents(addr as nat) == [Probe(addr)] + ScanEvents(addr as nat + 1)
    ensures ScanResults(acks, addr as nat)
         == (if addr in acks then [Found(addr, addr >= 0x50 && addr <= 0x57)] else []) + ScanResults(acks, addr as nat + 1)
  {
    if addr !in acks {
      assert ScanResults(acks, addr as nat) == ScanResults(acks, addr as nat + 1);
    }
  }

  /** i2cReadStatus: probe; if the device answers, a one-byte write of address 0 whose
      acknowledge tells whether the device has finished its write cycle. */
  function StatusEvents(target: byte, present: bool): seq<Event>
  {
    [Probe(target)] + if present then [I2cWrite(target, [0])] else []
  }

  /** A status check probes the target once, and only when it answers sends the single
      byte 0 that tests whether a write cycle is still running. */
  lemma StatusTranscript(target: byte, present: bool)
    ensures var t := StatusEvents(target, present);
      && |t| == (if present then 2 else 1)
      && t[0] == Probe(target)
      && (present ==> t[1] == I2cWrite(target, [0]) && t[1] != Probe(target))
  {
  }
}
