/** hexDump: the listing every read prints. Each row shows a label, the bytes of up to
    sixteen consecutive reads as two hex digits and a space each, blank cells up to sixteen,
    then ` | ` and the bytes as text with anything outside 32..126 shown as '.'.

    The label is the offset from the first byte read plus a base: the NAND read passes its
    bytes through hexDump itself, which labels rows with the offset alone (base 0); the SPI
    and I2C reads print the same rows inline and label them `address + i` in
    `unsigned long`.
 */
module HexDump {
  import opened BusTypes

  /** Serial.println's line end. */
  const NEWLINE: seq<char> := "\r\n"

  // ----- hexadecimal text -----

  function HexDigit(d: nat): char
    requires d < 16
  {
    if d < 10 then ('0' as int + d) as char else ('A' as int + d - 10) as char
  }

  predicate IsHexDigit(c: char)
  {
    '0' <= c <= '9' || 'A' <= c <= 'F'
  }

  function DigitValue(c: char): nat
    requires IsHexDigit(c)
  {
    if c <= '9' then c as int - '0' as int else c as int - 'A' as int + 10
  }

  /** Serial.print(n, HEX): upper-case digits, no leading zeros, "0" for zero. */
  function Hex(n: nat): (s: seq<char>)
    ensures 1 <= |s|
    ensures forall c :: c in s ==> IsHexDigit(c)
  {
    if n < 16 then [HexDigit(n)] else Hex(n / 16) + [HexDigit(n % 16)]
  }

  /** The value of a string of hex digits. */
  function ParseHex(s: seq<char>): nat
    requires forall c :: c in s ==> IsHexDigit(c)
  {
    if s == [] then 0 else 16 * ParseHex(s[..|s| - 1]) + DigitValue(s[|s| - 1])
  }

  lemma {:induction false} ParseHexOfHex(n: nat)
    ensures ParseHex(Hex(n)) == n
  {
    if n >= 16 {
      ParseHexOfHex(n / 16);
      var s := Hex(n);
      assert s[..|s| - 1] == Hex(n / 16);
    }
  }

  lemma {:induction false} ParseHexLeadingZero(s: seq<char>)
    requires forall c :: c in s ==> IsHexDigit(c)
    ensures ParseHex("0" + s) == ParseHex(s)
  {
    if s != [] {
      ParseHexLeadingZero(s[..|s| - 1]);
      assert ("0" + s)[..|"0" + s| - 1] == "0" + s[..|s| - 1];
    }
  }

  /** The label after "0x": one zero for each of `n < 0x1000`, `n < 0x100`, `n < 0x10`,
      then the hex digits of `n`. */
  function Label(n: nat): seq<char>
  {
    (if n < 0x1000 then "0" else "") + (if n < 0x100 then "0" else "") + (if n < 0x10 then "0" else "") + Hex(n)
  }

  function Pow16(k: nat): nat
  {
    if k == 0 then 1 else 16 * Pow16(k - 1)
  }

  /** `n` has at most `k` hex digits exactly when it is below 16^k. */
  lemma {:induction false} HexLength(n: nat, k: nat)
    requires k >= 1
    ensures |Hex(n)| <= k <==> n < Pow16(k)
  {
    if n >= 16 {
      if k == 1 {
        assert |Hex(n)| == |Hex(n / 16)| + 1;
      } else {
        HexLength(n / 16, k - 1);
        assert n / 16 < Pow16(k - 1) <==> n < 16 * Pow16(k - 1);
      }
    } else {
      assert Pow16(k) >= 16 by {
        assert Pow16(k) == 16 * Pow16(k - 1);
        Pow16Positive(k - 1);
      }
    }
  }

  lemma {:induction false} Pow16Positive(k: nat)
    ensures Pow16(k) >= 1
  {
    if k > 0 {
      Pow16Positive(k - 1);
    }
  }

  function ZeroChars(m: nat): (z: seq<char>)
    ensures |z| == m
    ensures forall c :: c in z ==> c == '0'
  {
    seq(m, _ => '0')
  }

  lemma {:induction false} ParseHexLeadingZeros(m: nat, s: seq<char>)
    requires forall c :: c in s ==> IsHexDigit(c)
    ensures ParseHex(ZeroChars(m) + s) == ParseHex(s)
  {
    if m > 0 {
      ParseHexLeadingZeros(m - 1, s);
      assert ZeroChars(m) == "0" + ZeroChars(m - 1);
      assert ZeroChars(m) + s == "0" + (ZeroChars(m - 1) + s);
      ParseHexLeadingZero(ZeroChars(m - 1) + s);
    } else {
      assert ZeroChars(m) + s == s;
    }
  }

  /** The three tests of the label each add one zero. */
  function PadCount(n: nat): nat
  {
    (if n < 0x1000 then 1 else 0) + (if n < 0x100 then 1 else 0) + (if n < 0x10 then 1 else 0)
  }

  lemma LabelIsPadded(n: nat)
    ensures Label(n) == ZeroChars(PadCount(n)) + Hex(n)
  {
    var h := Hex(n);
    if n < 0x10 {
      assert Label(n) == "000" + h;
    } else if n < 0x100 {
      assert Label(n) == "00" + h;
    } else if n < 0x1000 {
      assert Label(n) == "0" + h;
    } else {
      assert Label(n) == [] + h;
    }
  }

  /** A label is hex digits and reads back as the number it labels. */
  lemma LabelParses(n: nat)
    ensures forall c :: c in Label(n) ==> IsHexDigit(c)
    ensures ParseHex(Label(n)) == n
  {
    LabelIsPadded(n);
    ParseHexOfHex(n);
    ParseHexLeadingZeros(PadCount(n), Hex(n));
  }

  /** A label has at least four digits, and exactly four below 0x10000. */
  lemma LabelLength(n: nat)
    ensures |Label(n)| >= 4
    ensures n < 0x1_0000 ==> |Label(n)| == 4
  {
    LabelIsPadded(n);
    assert Pow16(1) == 0x10 && Pow16(2) == 0x100 && Pow16(3) == 0x1000 && Pow16(4) == 0x1_0000;
    HexLength(n, 1);
    HexLength(n, 2);
    HexLength(n, 3);
    HexLength(n, 4);
  }

  // ----- one row -----

  /** One byte's cell: a leading zero below 0x10, the hex digits, a space. */
  function Cell(b: byte): seq<char>
  {
    (if b < 0x10 then "0" else "") + Hex(b) + " "
  }

  function Cells(bytes: seq<byte>): seq<char>
  {
    if bytes == [] then [] else Cells(bytes[..|bytes| - 1]) + Cell(bytes[|bytes| - 1])
  }

  /** Every cell is exactly two hex digits and a space, and reads back as its byte. */
  lemma CellShape(b: byte)
    ensures |Cell(b)| == 3 && Cell(b)[2] == ' '
    ensures IsHexDigit(Cell(b)[0]) && IsHexDigit(Cell(b)[1])
    ensures 16 * DigitValue(Cell(b)[0]) + DigitValue(Cell(b)[1]) == b
  {
    if b >= 16 {
      assert Hex(b) == [HexDigit(b / 16), HexDigit(b % 16)];
    }
  }

  /** The blank cells for the `k` missing bytes of a short last row. */
  function Padding(k: int): seq<char>
    decreases k
  {
    if k <= 0 then [] else Padding(k - 1) + "   "
  }

  /** How a byte shows in the text column. */
  function Printable(b: byte): char
  {
    if 32 <= b <= 126 then b as char else '.'
  }

  function Ascii(bytes: seq<byte>): seq<char>
  {
    if bytes == [] then [] else Ascii(bytes[..|bytes| - 1]) + [Printable(bytes[|bytes| - 1])]
  }

  datatype Row = Row(address: ulong, bytes: seq<byte>)

  /** A row: label and cells, then the padding and the text column. */
  function RowText(r: Row): seq<char>
  {
    RowHead(r.address, r.bytes) + RowTail(r.bytes)
  }

  /** The start of a row: "0x", the label, ": ", then the cells. */
  function RowHead(address: ulong, bytes: seq<byte>): seq<char>
  {
    "0x" + Label(address) + ": " + Cells(bytes)
  }

  /** The end of a row: blank cells up to sixteen, the separator and the text column. */
  function RowTail(bytes: seq<byte>): seq<char>
  {
    Padding(16 - |bytes|) + " | " + Ascii(bytes)
  }

  lemma {:induction false} CellsLength(bytes: seq<byte>)
    ensures |Cells(bytes)| == 3 * |bytes|
  {
    if bytes != [] {
      CellsLength(bytes[..|bytes| - 1]);
      CellShape(bytes[|bytes| - 1]);
    }
  }

  lemma {:induction false} PaddingLength(k: int)
    ensures |Padding(k)| == if k <= 0 then 0 else 3 * k
    decreases k
  {
    if k > 0 {
      PaddingLength(k - 1);
    }
  }

  lemma {:induction false} AsciiLength(bytes: seq<byte>)
    ensures |Ascii(bytes)| == |bytes|
  {
    if bytes != [] {
      AsciiLength(bytes[..|bytes| - 1]);
    }
  }

  lemma {:induction false} AsciiShape(bytes: seq<byte>)
    ensures |Ascii(bytes)| == |bytes|
    ensures forall i :: 0 <= i < |bytes| ==> 32 <= Ascii(bytes)[i] as int <= 126
    ensures forall i :: 0 <= i < |bytes| ==> (Ascii(bytes)[i] == bytes[i] as char <==> 32 <= bytes[i] <= 126)
  {
    if bytes != [] {
      AsciiShape(bytes[..|bytes| - 1]);
      assert forall i :: 0 <= i < |bytes| - 1 ==> Ascii(bytes)[i] == Ascii(bytes[..|bytes| - 1])[i];
    }
  }

  lemma HeadLength(address: ulong, bytes: seq<byte>)
    requires address < 0x1_0000
    ensures |RowHead(address, bytes)| == 8 + 3 * |bytes|
  {
    LabelLength(address);
    CellsLength(bytes);
  }

  /** Rows with labels below 0x10000 and one to sixteen bytes line up: the ` | ` separator
      always starts at column 56, so the text columns of all rows align. */
  lemma RowAlignment(r: Row)
    requires r.address < 0x1_0000 && 1 <= |r.bytes| <= 16
    ensures |RowText(r)| == 59 + |r.bytes|
    ensures RowText(r)[56..59] == " | "
  {
    HeadLength(r.address, r.bytes);
    PaddingLength(16 - |r.bytes|);
    AsciiLength(r.bytes);
    var head := RowHead(r.address, r.bytes) + Padding(16 - |r.bytes|);
    var tail := " | " + Ascii(r.bytes);
    assert RowText(r) == head + tail;
    assert (head + tail)[56..59] == tail[..3];
  }

  // ----- the whole listing -----

  /** The rows of a listing of `data` whose first byte has offset `offset`: sixteen bytes to
      a row, the last row possibly shorter, each labelled `base` plus its offset. */
  function DumpRows(base: ulong, offset: nat, data: seq<byte>): seq<Row>
    decreases |data|
  {
    if data == [] then []
    else
      var n := Min(16, |data|);
      [Row(AddULong(base, offset), data[..n])] + DumpRows(base, offset + n, data[n..])
  }

  /** The rows, a line end between consecutive rows. */
  function RenderRows(rows: seq<Row>): seq<char>
  {
    if rows == [] then []
    else RenderRows(rows[..|rows| - 1]) + (if |rows| > 1 then NEWLINE else []) + RowText(rows[|rows| - 1])
  }

  /** Everything hexDump prints for `data`: the rows, then a final line end. */
  function DumpText(base: ulong, data: seq<byte>): seq<char>
  {
    RenderRows(DumpRows(base, 0, data)) + NEWLINE
  }

  /** The bytes of the rows, in order. */
  function RowBytes(rows: seq<Row>): seq<byte>
  {
    if rows == [] then [] else rows[0].bytes + RowBytes(rows[1..])
  }

  /** The listing shows every byte once, in order: reading the rows back gives the data. */
  lemma {:induction false} DumpRowsCover(base: ulong, offset: nat, data: seq<byte>)
    ensures RowBytes(DumpRows(base, offset, data)) == data
    decreases |data|
  {
    if data != [] {
      var n := Min(16, |data|);
      var rows := DumpRows(base, offset, data);
      DumpRowsCover(base, offset + n, data[n..]);
      assert rows[1..] == DumpRows(base, offset + n, data[n..]);
      assert data[..n] + data[n..] == data;
    }
  }

  /** Row `k` holds sixteen bytes unless it is the last, which holds one to sixteen, and is
      labelled with the base plus `offset + 16 k`. */
  lemma {:induction false} DumpRowAt(base: ulong, offset: nat, data: seq<byte>, k: nat)
    requires k < |DumpRows(base, offset, data)|
    ensures DumpRows(base, offset, data)[k].address == AddULong(base, offset + 16 * k)
    ensures 1 <= |DumpRows(base, offset, data)[k].bytes| <= 16
    ensures k < |DumpRows(base, offset, data)| - 1 ==> |DumpRows(base, offset, data)[k].bytes| == 16
    decreases |data|
  {
    var n := Min(16, |data|);
    var rows := DumpRows(base, offset, data);
    if k > 0 {
      DumpRowAt(base, offset + n, data[n..], k - 1);
      assert rows[k] == DumpRows(base, offset + n, data[n..])[k - 1];
    }
  }

  /** Appending a row's worth of bytes after whole rows appends one row. */
  lemma {:induction false} DumpRowsAppend(base: ulong, offset: nat, x: seq<byte>, y: seq<byte>)
    requires |x| % 16 == 0 && 1 <= |y| <= 16
    ensures DumpRows(base, offset, x + y) == DumpRows(base, offset, x) + [Row(AddULong(base, offset + |x|), y)]
    decreases |x|
  {
    if x == [] {
      assert x + y == y;
      assert y[..|y|] == y;
    } else {
      assert (x + y)[..16] == x[..16];
      assert (x + y)[16..] == x[16..] + y;
      DumpRowsAppend(base, offset + 16, x[16..], y);
    }
  }

  /** Serial.println() before every row but the first. */
  function Separator(start: nat): seq<char>
  {
    if start > 0 then NEWLINE else []
  }

  /** What hexDump has printed of the row that starts at offset `start` once it has read
      the bytes before offset `end`. */
  function RowPrefix(base: ulong, source: seq<byte>, start: nat, end: nat): seq<char>
    requires start <= end <= |source|
  {
    Separator(start) + RowHead(AddULong(base, start), source[start..end])
  }

  lemma CellStep(base: ulong, source: seq<byte>, start: nat, i: nat)
    requires start <= i < |source|
    ensures RowPrefix(base, source, start, i + 1) == RowPrefix(base, source, start, i) + Cell(source[i])
  {
    assert source[start..i + 1][..i - start] == source[start..i];
  }

  lemma RenderAppend(rows: seq<Row>, r: Row)
    ensures RenderRows(rows + [r]) == RenderRows(rows) + (if rows != [] then NEWLINE else []) + RowText(r)
  {
    assert (rows + [r])[..|rows|] == rows;
  }

  lemma DumpRowsEmpty(base: ulong, offset: nat, data: seq<byte>)
    ensures DumpRows(base, offset, data) == [] <==> data == []
  {
  }

  /** Closing the row that starts at `start` and ends before `end` completes one more row
      of the listing. */
  lemma CloseRow(base: ulong, source: seq<byte>, start: nat, end: nat)
    requires start % 16 == 0 && start < end <= |source| && end - start <= 16
    ensures RenderRows(DumpRows(base, 0, source[..end]))
         == RenderRows(DumpRows(base, 0, source[..start])) + RowPrefix(base, source, start, end)
            + RowTail(source[start..end])
  {
    var x := source[..start];
    var y := source[start..end];
    var rows := DumpRows(base, 0, x);
    var r := Row(AddULong(base, start), y);
    assert DumpRows(base, 0, source[..end]) == rows + [r] by {
      assert x + y == source[..end];
      DumpRowsAppend(base, 0, x, y);
    }
    assert RenderRows(rows + [r]) == RenderRows(rows) + Separator(start) + RowText(r) by {
      RenderAppend(rows, r);
      DumpRowsEmpty(base, 0, x);
    }
    Regroup(RenderRows(rows), Separator(start), RowHead(AddULong(base, start), y), RowTail(y));
  }

  lemma Regroup(a: seq<char>, b: seq<char>, c: seq<char>, d: seq<char>)
    ensures a + b + (c + d) == a + (b + c) + d
  {
  }

  /** Opening a row prints the separator, "0x", the label and ": ". */
  lemma OpenRow(base: ulong, source: seq<byte>, i: nat)
    requires i <= |source|
    ensures RowPrefix(base, source, i, i) == Separator(i) + ("0x" + Label(AddULong(base, i)) + ": ")
  {
    assert source[i..i] == [];
  }

  /** The blank cells that close a short row. */
  method PadRow(filled: nat) returns (text: seq<char>)
    requires 1 <= filled <= 16
    ensures text == Padding(16 - filled)
  {
    text := [];
    var j := filled;
    while j < 16
      invariant filled <= j <= 16
      invariant text == Padding(j - filled)
    {
      text := text + "   ";
      j := j + 1;
    }
  }

  /** The text column, read back from the first `count` cells of the buffer. */
  method TextColumn(buffer: array<byte>, count: nat) returns (text: seq<char>)
    requires count <= buffer.Length
    ensures text == Ascii(buffer[..count])
  {
    text := [];
    var j := 0;
    while j < count
      invariant 0 <= j <= count
      invariant text == Ascii(buffer[..j])
    {
      if 32 <= buffer[j] <= 126 {
        text := text + [buffer[j] as char];
      } else {
        text := text + ".";
      }
      assert buffer[..j + 1][..j] == buffer[..j];
      j := j + 1;
    }
  }

  /** What hexDump has printed when it is about to open the row at offset `start`: every
      row before it. */
  ghost predicate Rendered(base: ulong, source: seq<byte>, start: nat, out: seq<char>)
    requires start <= |source|
  {
    out == RenderRows(DumpRows(base, 0, source[..start]))
  }

  /** What hexDump has printed once it has read the bytes before offset `i`, the open row
      starting at offset `start`: every finished row, then the open row's prefix. */
  ghost predicate Partway(base: ulong, source: seq<byte>, start: nat, i: nat, out: seq<char>)
    requires start <= i <= |source|
  {
    out == RenderRows(DumpRows(base, 0, source[..start])) + RowPrefix(base, source, start, i)
  }

  /** Reading the first byte of a row prints the row's header, then the byte's cell. */
  lemma OpenCell(base: ulong, source: seq<byte>, i: nat, out: seq<char>)
    requires i < |source|
    requires Rendered(base, source, i, out)
    ensures Partway(base, source, i, i + 1,
                    out + Separator(i) + ("0x" + Label(AddULong(base, i)) + ": ") + Cell(source[i]))
  {
    OpenRow(base, source, i);
    CellStep(base, source, i, i);
  }

  /** Reading any other byte of a row prints the byte's cell. */
  lemma NextCell(base: ulong, source: seq<byte>, start: nat, i: nat, out: seq<char>)
    requires start < i < |source|
    requires Partway(base, source, start, i, out)
    ensures Partway(base, source, start, i + 1, out + Cell(source[i]))
  {
    CellStep(base, source, start, i);
    Associate(RenderRows(DumpRows(base, 0, source[..start])), RowPrefix(base, source, start, i), Cell(source[i]));
  }

  /** Printing the padding and the text column of the row [start, end) finishes that row. */
  lemma FinishRow(base: ulong, source: seq<byte>, start: nat, end: nat, out: seq<char>)
    requires start % 16 == 0 && start < end <= |source| && end - start <= 16
    requires Partway(base, source, start, end, out)
    ensures Rendered(base, source, end, out + RowTail(source[start..end]))
  {
    CloseRow(base, source, start, end);
  }

  /** Closing a line: blank cells for the bytes missing from a short row, " | ", then the
      row's bytes as text, taken from the buffer. */
  method CloseLine(buffer: array<byte>, base: ulong, source: seq<byte>, ghost start: nat, end: nat,
                   filled: nat, out: seq<char>) returns (line: seq<char>)
    requires start % 16 == 0 && start < end <= |source| && filled == end - start <= 16 == buffer.Length
    requires buffer[..filled] == source[start..end]
    requires Partway(base, source, start, end, out)
    ensures Rendered(base, source, end, line)
  {
    var pad := PadRow(filled);
    var text := TextColumn(buffer, filled);
    assert pad + " | " + text == RowTail(source[start..end]);
    FinishRow(base, source, start, end, out);
    line := out + (pad + " | " + text);
  }

  /** Reading byte `i` into the buffer: the row's header first when the byte opens a row,
      then the byte's cell. */
  method ReadCell(buffer: array<byte>, base: ulong, source: seq<byte>, ghost start: nat, i: nat,
                  out: seq<char>) returns (line: seq<char>)
    modifies buffer
    requires buffer.Length == 16 && start <= i < |source| && i - start == i % 16
    requires buffer[..i - start] == source[start..i]
    requires i == start ==> Rendered(base, source, start, out)
    requires i > start ==> Partway(base, source, start, i, out)
    ensures buffer[..i + 1 - start] == source[start..i + 1]
    ensures Partway(base, source, start, i + 1, line)
  {
    line := out;
    if i % 16 == 0 {
      if i > 0 {
        line := line + NEWLINE;
      }
      line := line + ("0x" + Label(AddULong(base, i)) + ": ");
    }
    ghost var stored := buffer[..];
    buffer[i % 16] := source[i];
    BufferStep(stored, buffer[..], source, start, i);
    line := line + Cell(buffer[i % 16]);
    if i == start {
      assert line == out + Separator(i) + ("0x" + Label(AddULong(base, i)) + ": ") + Cell(source[i]);
      OpenCell(base, source, i, out);
    } else {
      assert line == out + Cell(source[i]);
      NextCell(base, source, start, i, out);
    }
  }

  /** One turn of hexDump's loop: read byte `i` and close the line after the sixteenth byte
      of a row or the last byte of the dump. */
  method ReadByte(buffer: array<byte>, base: ulong, source: seq<byte>, ghost start: nat, i: nat,
                  out: seq<char>) returns (line: seq<char>, closed: bool)
    modifies buffer
    requires buffer.Length == 16 && start <= i < |source| && i - start < 16 && start % 16 == 0
    requires buffer[..i - start] == source[start..i]
    requires i == start ==> Rendered(base, source, start, out)
    requires i > start ==> Partway(base, source, start, i, out)
    ensures buffer[..i + 1 - start] == source[start..i + 1]
    ensures closed ==> ((i + 1) % 16 == 0 || i + 1 == |source|) && Rendered(base, source, i + 1, line)
    ensures !closed ==> i + 1 < |source| && i + 1 - start < 16 && Partway(base, source, start, i + 1, line)
  {
    NextColumn(start, i, |source|);
    line := ReadCell(buffer, base, source, start, i, out);
    var column := i % 16;
    closed := column == 15 || i + 1 == |source|;
    if closed {
      line := CloseLine(buffer, base, source, start, i + 1, column + 1, line);
    }
  }

  /** One pass of hexDump's loop: the byte at `i` is read and, when it ends a row, the row
      is closed; `next` is where the row being filled now starts. */
  method Advance(buffer: array<byte>, base: ulong, source: seq<byte>, ghost start: nat, i: nat,
                 out: seq<char>) returns (line: seq<char>, ghost next: nat)
    modifies buffer
    requires buffer.Length == 16 && start <= i < |source| && i - start < 16 && start % 16 == 0
    requires buffer[..i - start] == source[start..i]
    requires i == start ==> Rendered(base, source, start, out)
    requires i > start ==> Partway(base, source, start, i, out)
    ensures next <= i + 1 && i + 1 - next < 16
    ensures next % 16 == 0 || next == |source|
    ensures i + 1 == |source| ==> next == i + 1
    ensures buffer[..i + 1 - next] == source[next..i + 1]
    ensures i + 1 == next ==> Rendered(base, source, next, line)
    ensures i + 1 > next ==> Partway(base, source, next, i + 1, line)
  {
    var closed;
    line, closed := ReadByte(buffer, base, source, start, i, out);
    next := start;
    if closed {
      assert buffer[..0] == source[i + 1..i + 1];
      next := i + 1;
    }
  }

  /** hexDump over the bytes `source` yields, with the 16-byte `buffer` of the sketch: each
      byte is stored at `i % 16` and printed as a cell; a row is opened before its first byte
      and closed after its sixteenth or after the last byte, with the padding and the text
      column read back from the buffer. The listing printed is `DumpText(base, source)`. */
  method Dump(base: ulong, source: seq<byte>) returns (out: seq<char>)
    requires |source| < 0x1_0000
    ensures out == DumpText(base, source)
  {
    var buffer := new byte[16];
    out := [];
    var i := 0;
    ghost var start := 0;
    assert DumpRows(base, 0, source[..0]) == [];
    while i < |source|
      invariant 0 <= start <= i <= |source| && i - start < 16
      invariant i < |source| ==> start % 16 == 0
      invariant i == |source| ==> start == i
      invariant buffer[..i - start] == source[start..i]
      invariant i == start ==> Rendered(base, source, start, out)
      invariant i > start ==> Partway(base, source, start, i, out)
    {
      out, start := Advance(buffer, base, source, start, i, out);
      i := i + 1;
    }
    assert source[..start] == source;
    out := out + NEWLINE;
  }

  /** Storing byte `i` at its column extends the buffered row by that byte. */
  lemma BufferStep(before: seq<byte>, after: seq<byte>, source: seq<byte>, start: nat, i: nat)
    requires start <= i < |source| && i - start < |before| == |after|
    requires before[..i - start] == source[start..i]
    requires after == before[i - start := source[i]]
    ensures after[..i + 1 - start] == source[start..i + 1]
  {
    assert after[..i + 1 - start] == before[..i - start] + [source[i]];
    assert source[start..i + 1] == source[start..i] + [source[i]];
  }

  /** The column of byte `i` in the row that starts at `start`; after the sixteenth byte or
      the last byte of the dump a new row starts. */
  lemma NextColumn(start: nat, i: nat, n: nat)
    requires start <= i < n && start % 16 == 0 && i - start < 16
    ensures i % 16 == i - start
    ensures (i - start == 15 || i + 1 == n) ==> ((i + 1) % 16 == 0 || i + 1 == n)
    ensures !(i - start == 15 || i + 1 == n) ==> i + 1 < n && i + 1 - start < 16
  {
  }
}
