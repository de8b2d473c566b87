/** The fixture's pixel identity: a packet drawn as a two-colour grid over the whole window.
    The checksum is an arbitrary function of the packet body. */
module FixtureIdentity {
  import opened Options

  type Byte = n: nat | n < 256
  type Word = n: nat | n < 0x1_0000_0000
  type Checksum = seq<Byte> -> Word

  const U64: nat := 0xFFFF_FFFF_FFFF_FFFF
  const COLS: nat := 32
  const ROWS: nat := 10
  const CELLS: nat := 320
  const CELL_W: nat := 40
  const CELL_H: nat := 72
  const SIZE: nat := 3686400
  const BLACK: seq<Byte> := [24, 24, 24, 255]
  const WHITE: seq<Byte> := [232, 232, 232, 255]
  const MAGIC: seq<Byte> := [0x4D, 0x46, 0x56, 0x32]

  datatype Identity = Identity(session: seq<Byte>, challenge: nat, paint: nat)

  predicate Valid(id: Identity) {
    && |id.session| == 16 && (exists i :: 0 <= i < 16 && id.session[i] != 0)
    && 1 <= id.challenge <= U64 && 1 <= id.paint <= U64
  }

  // ------------------------------------------------------------------- big-endian digits

  function Pow(base: nat, k: nat): nat { if k == 0 then 1 else base * Pow(base, k - 1) }

  /** The k low digits of n, most significant first. */
  function Digits(n: nat, base: nat, k: nat): (r: seq<nat>)
    requires base >= 2
    ensures |r| == k && forall i :: 0 <= i < k ==> r[i] < base
  {
    if k == 0 then [] else Digits(n / base, base, k - 1) + [n % base]
  }

  function Value(digits: seq<nat>, base: nat): nat {
    if digits == [] then 0 else base * Value(digits[..|digits|-1], base) + digits[|digits|-1]
  }

  lemma {:induction false} QuotientBelow(n: nat, base: nat, limit: nat)
    requires base >= 2 && n < base * limit
    ensures n / base < limit && base * (n / base) + n % base == n
  {
    TimesOneMore(base, n / base - limit + 1);
    assert base * (n / base - limit + 1) == base * (n / base) - base * limit + base;
  }

  lemma {:induction false} ValueOfDigits(n: nat, base: nat, k: nat)
    requires base >= 2 && n < Pow(base, k)
    ensures Value(Digits(n, base, k), base) == n
  {
    hide *;
    NoDigits(base);
    if k > 0 {
      var q, r := LastDigit(n, base, k);
      ValueOfDigits(q, base, k - 1);
      ValueStep(Digits(q, base, k - 1), r, base);
    } else {
      DigitsStep(n, base, 0);
    }
  }

  lemma {:induction false} LastDigit(n: nat, base: nat, k: nat) returns (q: nat, r: nat)
    requires base >= 2 && k > 0 && n < Pow(base, k)
    ensures Digits(n, base, k) == Digits(q, base, k - 1) + [r]
    ensures n == base * q + r && q < Pow(base, k - 1)
  {
    q, r := n / base, n % base;
    DigitsStep(n, base, k);
    hide *;
    QuotientBelow(n, base, Pow(base, k - 1));
  }

  lemma {:induction false} NoDigits(base: nat)
    ensures Pow(base, 0) == 1 && Value([], base) == 0
  {
  }

  lemma {:induction false} TimesOneMore(base: int, k: int)
    requires base >= 1
    ensures k >= 1 ==> base * k >= base
    ensures k <= -1 ==> base * k <= -base
  {
    if k >= 1 { assert base * (k - 1) >= 0; }
    if k <= -1 { assert base * (-k - 1) >= 0; }
  }

  lemma {:induction false} UniqueQuotient(base: nat, q: int, r: nat, high: nat, low: nat)
    requires base >= 2 && low < base && r < base && base * q + r == base * high + low
    ensures q == high && r == low
  {
    assert base * (high - q) == r - low;
    TimesOneMore(base, high - q);
  }

  lemma {:induction false} DivideBack(base: nat, high: nat, low: nat)
    requires base >= 2 && low < base
    ensures (base * high + low) / base == high && (base * high + low) % base == low
  {
    var n := base * high + low;
    UniqueQuotient(base, n / base, n % base, high, low);
  }

  lemma {:induction false} ProductBelow(base: nat, high: nat, low: nat, limit: nat)
    requires base >= 1 && low < base && high < limit
    ensures base * high + low < base * limit
  {
    TimesOneMore(base, limit - high);
    assert base * (limit - high) == base * limit - base * high;
  }

  lemma {:induction false} DigitsOfValue(digits: seq<nat>, base: nat)
    requires base >= 2 && forall i :: 0 <= i < |digits| ==> digits[i] < base
    ensures Digits(Value(digits, base), base, |digits|) == digits
    ensures Value(digits, base) < Pow(base, |digits|)
  {
    if digits == [] {
      assert Value([], base) == 0 && Pow(base, 0) == 1;
    } else {
      var front, last := digits[..|digits|-1], digits[|digits|-1];
      assert digits == front + [last];
      ValueStep(front, last, base);
      hide *;
      DigitsOfValue(front, base);
      DivideBack(base, Value(front, base), last);
      ProductBelow(base, Value(front, base), last, Pow(base, |front|));
      DigitsStep(Value(digits, base), base, |digits|);
    }
  }

  lemma {:induction false} DigitsStep(n: nat, base: nat, k: nat)
    requires base >= 2
    ensures k > 0 ==> Digits(n, base, k) == Digits(n / base, base, k - 1) + [n % base]
    ensures k > 0 ==> Pow(base, k) == base * Pow(base, k - 1)
    ensures Digits(n, base, 0) == []
  {
  }

  lemma {:induction false} ValueStep(front: seq<nat>, last: nat, base: nat)
    ensures Value(front + [last], base) == base * Value(front, base) + last
  {
    assert (front + [last])[..|front|] == front;
  }

  lemma {:induction false} Powers()
    ensures Pow(2, 8) == 256 && Pow(256, 4) == 0x1_0000_0000 && Pow(256, 8) == U64 + 1
  {
    assert Pow(2, 4) == 16;
    assert Pow(2, 8) == 2 * Pow(2, 7) && Pow(2, 7) == 2 * Pow(2, 6) && Pow(2, 6) == 2 * Pow(2, 5) && Pow(2, 5) == 2 * Pow(2, 4);
    assert Pow(256, 2) == 65536 && Pow(256, 4) == 256 * Pow(256, 3) && Pow(256, 3) == 256 * Pow(256, 2);
    assert Pow(256, 8) == 256 * Pow(256, 7) && Pow(256, 7) == 256 * Pow(256, 6) && Pow(256, 6) == 256 * Pow(256, 5) &&
           Pow(256, 5) == 256 * Pow(256, 4);
  }

  // ------------------------------------------------------------------- packets and bits

  function Number(n: nat, k: nat): (r: seq<Byte>)
    ensures |r| == k && r == Digits(n, 256, k)
  {
    Digits(n, 256, k)
  }

  function BodyOf(id: Identity): seq<Byte> {
    MAGIC + id.session + Number(id.challenge, 8) + Number(id.paint, 8)
  }

  function PacketOf(crc: Checksum, id: Identity): seq<Byte> {
    BodyOf(id) + Number(crc(BodyOf(id)), 4)
  }

  /** Most significant bit first, byte by byte. */
  function Bits(packet: seq<Byte>): seq<nat> {
    if packet == [] then [] else Bits(packet[..|packet|-1]) + Digits(packet[|packet|-1], 2, 8)
  }

  lemma {:induction false} BitsShape(packet: seq<Byte>)
    ensures |Bits(packet)| == 8 * |packet| && forall i :: 0 <= i < |Bits(packet)| ==> Bits(packet)[i] < 2
  {
    if packet != [] { BitsShape(packet[..|packet|-1]); }
  }

  function ByteFrom(bits: seq<nat>): Byte {
    Value(bits, 2) % 256
  }

  function Bytes(bits: seq<nat>): seq<Byte> {
    if |bits| < 8 then [] else Bytes(bits[..|bits|-8]) + [ByteFrom(bits[|bits|-8..])]
  }

  lemma {:induction false} ByteBack(b: Byte)
    ensures ByteFrom(Digits(b, 2, 8)) == b
  {
    hide Value, Digits, Pow;
    Powers();
    ValueOfDigits(b, 2, 8);
  }

  lemma {:induction false} BytesStep(bits: seq<nat>, more: seq<nat>)
    requires |more| == 8
    ensures Bytes(bits + more) == Bytes(bits) + [ByteFrom(more)]
  {
    var all := bits + more;
    hide ByteFrom;
    assert all[..|all|-8] == bits && all[|all|-8..] == more;
  }

  lemma {:induction false} BytesOfBits(packet: seq<Byte>)
    ensures Bytes(Bits(packet)) == packet
  {
    if packet != [] {
      var front, last := packet[..|packet|-1], packet[|packet|-1];
      BytesOfBits(front);
      BytesStep(Bits(front), Digits(last, 2, 8));
      ByteBack(last);
      hide Bytes, Digits, ByteFrom;
      assert packet == front + [last];
    }
  }

  lemma {:induction false} BytesLength(bits: seq<nat>)
    requires |bits| % 8 == 0
    ensures 8 * |Bytes(bits)| == |bits|
  {
    if |bits| >= 8 { BytesLength(bits[..|bits|-8]); }
  }

  // ------------------------------------------------------------------------ the picture

  function Repeat(s: seq<Byte>, n: nat): seq<Byte> { if n == 0 then [] else Repeat(s, n - 1) + s }

  function Colour(bit: nat): seq<Byte> { if bit != 0 then WHITE else BLACK }

  /** One row of 32 cells, one pixel high: 160 bytes a cell, 5120 a line, 368640 a band of 72 lines. */
  function LineOf(cells: seq<nat>): seq<Byte> {
    if cells == [] then [] else LineOf(cells[..|cells|-1]) + Repeat(Colour(cells[|cells|-1]), CELL_W)
  }

  /** The first rows of the grid. */
  function Picture(bits: seq<nat>, rows: nat): seq<Byte>
    requires 32 * rows <= |bits|
  {
    if rows == 0 then []
    else Picture(bits, rows - 1) + Repeat(LineOf(bits[32 * rows - 32..32 * rows]), CELL_H)
  }

  function Encode(crc: Checksum, id: Identity): seq<Byte>
    requires Valid(id)
  {
    BitsShape(PacketOf(crc, id));
    Picture(Bits(PacketOf(crc, id)), ROWS)
  }

  lemma {:induction false} RepeatLength(s: seq<Byte>, n: nat)
    ensures |Repeat(s, n)| == n * |s|
    ensures n > 0 ==> s <= Repeat(s, n)
  {
    if n > 0 {
      RepeatLength(s, n - 1);
      assert (n - 1) * |s| + |s| == n * |s|;
      if n == 1 { assert Repeat(s, 0) + s == s; }
    }
  }

  lemma {:induction false} SliceLeft(a: seq<Byte>, b: seq<Byte>, i: nat, j: nat)
    requires i <= j <= |a|
    ensures (a + b)[i..j] == a[i..j]
  {
  }

  lemma {:induction false} SliceRight(a: seq<Byte>, b: seq<Byte>, i: nat, j: nat)
    requires i == |a| && j <= |b|
    ensures (a + b)[i..i + j] == b[..j]
  {
  }

  lemma {:induction false} SliceSlice(a: seq<Byte>, i: nat, j: nat, k: nat, l: nat)
    requires i <= j <= |a| && k <= l <= j - i
    ensures a[i..j][k..l] == a[i + k..i + l]
  {
    var middle := a[i..j];
    assert forall n :: 0 <= n < j - i ==> middle[n] == a[i + n];
    assert forall n :: 0 <= n < l - k ==> middle[k..l][n] == a[i + k..i + l][n];
  }

  lemma {:induction false} CellStarts(bit: nat)
    ensures |Repeat(Colour(bit), CELL_W)| == 160 && Repeat(Colour(bit), CELL_W)[..4] == Colour(bit)
  {
    RepeatLength(Colour(bit), CELL_W);
    hide Repeat;
  }

  lemma {:induction false} LineSnoc(cells: seq<nat>)
    requires cells != []
    ensures LineOf(cells) == LineOf(cells[..|cells|-1]) + Repeat(Colour(cells[|cells|-1]), CELL_W)
  {
  }

  lemma {:induction false} LineLength(cells: seq<nat>)
    ensures |LineOf(cells)| == 160 * |cells|
  {
    if cells == [] {
      assert LineOf([]) == [];
    } else {
      LineLength(cells[..|cells|-1]);
      CellStarts(cells[|cells|-1]);
      LineSnoc(cells);
    }
    hide *;
  }

  lemma {:induction false} LineCell(cells: seq<nat>, c: nat)
    requires c < |cells|
    ensures |LineOf(cells)| == 160 * |cells|
    ensures LineOf(cells)[160 * c..160 * c + 4] == Colour(cells[c])
  {
    hide *;
    var front, last := cells[..|cells|-1], cells[|cells|-1];
    LineSnoc(cells);
    LineLength(cells);
    LineLength(front);
    CellStarts(last);
    if c < |front| {
      LineCell(front, c);
      SliceLeft(LineOf(front), Repeat(Colour(last), CELL_W), 160 * c, 160 * c + 4);
    } else {
      SliceRight(LineOf(front), Repeat(Colour(last), CELL_W), 160 * c, 4);
    }
  }

  lemma {:induction false} BandStarts(cells: seq<nat>)
    requires |cells| == COLS
    ensures |Repeat(LineOf(cells), CELL_H)| == 368640 && |LineOf(cells)| == 5120
    ensures Repeat(LineOf(cells), CELL_H)[..5120] == LineOf(cells)
  {
    LineLength(cells);
    RepeatLength(LineOf(cells), CELL_H);
    hide Repeat, LineOf;
  }

  function RowCells(bits: seq<nat>, row: nat): seq<nat>
    requires 32 * row + 32 <= |bits|
  {
    bits[32 * row..32 * row + 32]
  }

  function BandOf(bits: seq<nat>, row: nat): seq<Byte>
    requires 32 * row + 32 <= |bits|
  {
    Repeat(LineOf(RowCells(bits, row)), CELL_H)
  }

  lemma {:induction false} BandShape(bits: seq<nat>, row: nat)
    requires 32 * row + 32 <= |bits|
    ensures |BandOf(bits, row)| == 368640 && BandOf(bits, row)[..5120] == LineOf(RowCells(bits, row))
  {
    BandStarts(RowCells(bits, row));
    hide Repeat, LineOf;
  }

  lemma {:induction false} PictureSnoc(bits: seq<nat>, rows: nat)
    requires 32 * rows <= |bits|
    ensures Picture(bits, 0) == []
    ensures rows > 0 ==> Picture(bits, rows) == Picture(bits, rows - 1) + BandOf(bits, rows - 1)
  {
    hide Repeat, LineOf;
  }

  lemma {:induction false} PictureLength(bits: seq<nat>, rows: nat)
    requires 32 * rows <= |bits|
    ensures |Picture(bits, rows)| == 368640 * rows
  {
    hide *;
    PictureSnoc(bits, rows);
    if rows > 0 {
      PictureLength(bits, rows - 1);
      BandShape(bits, rows - 1);
    }
  }

  lemma {:induction false} PictureBand(bits: seq<nat>, rows: nat, r: nat)
    requires 32 * rows <= |bits| && r < rows
    ensures 368640 * r + 5120 <= |Picture(bits, rows)|
    ensures Picture(bits, rows)[368640 * r..368640 * r + 5120] == LineOf(RowCells(bits, r))
  {
    hide *;
    PictureSnoc(bits, rows);
    PictureLength(bits, rows - 1);
    BandShape(bits, rows - 1);
    var front, band := Picture(bits, rows - 1), BandOf(bits, rows - 1);
    if r < rows - 1 {
      PictureBand(bits, rows - 1, r);
      SliceLeft(front, band, 368640 * r, 368640 * r + 5120);
    } else {
      SliceRight(front, band, 368640 * r, 5120);
    }
  }

  /** The pixel a decoder samples for one cell. */
  function PixelAt(pixels: seq<Byte>, row: nat, col: nat): seq<Byte>
    requires |pixels| == SIZE && row < ROWS && col < COLS
  {
    pixels[368640 * row + 160 * col..368640 * row + 160 * col + 4]
  }

  lemma {:induction false} PixelInLine(pixels: seq<Byte>, row: nat, col: nat)
    requires |pixels| == SIZE && row < ROWS && col < COLS
    ensures pixels[368640 * row..368640 * row + 5120][160 * col..160 * col + 4] == PixelAt(pixels, row, col)
  {
    SliceSlice(pixels, 368640 * row, 368640 * row + 5120, 160 * col, 160 * col + 4);
  }

  lemma {:induction false} RowCell(bits: seq<nat>, row: nat, col: nat)
    requires |bits| == CELLS && row < ROWS && col < COLS
    ensures |RowCells(bits, row)| == 32 && RowCells(bits, row)[col] == bits[32 * row + col]
  {
  }

  lemma {:induction false} PictureSize(bits: seq<nat>)
    requires |bits| == CELLS
    ensures |Picture(bits, ROWS)| == SIZE
  {
    PictureLength(bits, ROWS);
    hide Picture;
  }

  lemma {:induction false} SampledCell(bits: seq<nat>, picture: seq<Byte>, row: nat, col: nat)
    requires |bits| == CELLS && row < ROWS && col < COLS
    requires picture == Picture(bits, ROWS) && |picture| == SIZE
    ensures PixelAt(picture, row, col) == Colour(bits[32 * row + col])
  {
    PictureBand(bits, ROWS, row);
    RowCell(bits, row, col);
    PixelInLine(picture, row, col);
    LineCell(RowCells(bits, row), col);
    hide Picture, LineOf, Colour, RowCells, PixelAt;
  }

  // --------------------------------------------------------------------------- decoding

  datatype Failure =
    | WrongSize | UnknownPalette | ChecksumMismatch | UnknownSchema | BadIdentity | Noncanonical

  datatype Decoded = Decoded(identity: Identity) | Failed(reason: Failure)

  /** The first k sampled cells, row by row; None once a pixel is neither colour. */
  function Sampled(pixels: seq<Byte>, k: nat): Option<seq<nat>>
    requires |pixels| == SIZE && k <= CELLS
  {
    if k == 0 then Some([])
    else
      var before, pixel := Sampled(pixels, k - 1), PixelAt(pixels, (k - 1) / 32, (k - 1) % 32);
      if before.None? || (pixel != BLACK && pixel != WHITE) then None
      else Some(before.value + [if pixel == WHITE then 1 else 0])
  }

  lemma {:induction false} SampledShape(pixels: seq<Byte>, k: nat)
    requires |pixels| == SIZE && k <= CELLS
    ensures Sampled(pixels, k).Some? ==> |Sampled(pixels, k).value| == k
  {
    if k > 0 { SampledShape(pixels, k - 1); }
  }

  function IdentityFrom(body: seq<Byte>): Identity
    requires |body| == 36
  {
    Identity(body[4..20], Value(body[20..28], 256), Value(body[28..36], 256))
  }

  function Unpacked(crc: Checksum, pixels: seq<Byte>, packet: seq<Byte>): Decoded
    requires |packet| == 40
  {
    var body, checksum := packet[..36], packet[36..];
    if checksum != Number(crc(body), 4) then Failed(ChecksumMismatch)
    else if body[..4] != MAGIC then Failed(UnknownSchema)
    else if !Valid(IdentityFrom(body)) then Failed(BadIdentity)
    else if pixels != Encode(crc, IdentityFrom(body)) then Failed(Noncanonical)
    else Decoded(IdentityFrom(body))
  }

  function DecodeOf(crc: Checksum, pixels: seq<Byte>): Decoded {
    if |pixels| != SIZE then Failed(WrongSize)
    else
      var bits := Sampled(pixels, CELLS);
      if bits.None? then Failed(UnknownPalette)
      else
        SampledShape(pixels, CELLS);
        BytesLength(bits.value);
        Unpacked(crc, pixels, Bytes(bits.value))
  }

  lemma {:induction false} SampledFails(pixels: seq<Byte>, k: nat)
    requires |pixels| == SIZE && k <= CELLS && Sampled(pixels, k).None?
    ensures Sampled(pixels, CELLS).None?
    decreases CELLS - k
  {
    if k < CELLS { SampledFails(pixels, k + 1); }
  }

  function Cell(pixel: seq<Byte>): Option<nat> {
    if pixel == WHITE then Some(1) else if pixel == BLACK then Some(0) else None
  }

  lemma {:induction false} SampleStep(pixels: seq<Byte>, k: nat, row: nat, col: nat)
    requires |pixels| == SIZE && row < ROWS && col < COLS && k == 32 * row + col && Sampled(pixels, k).Some?
    ensures var cell := Cell(PixelAt(pixels, row, col));
            Sampled(pixels, k + 1) == if cell.None? then None else Some(Sampled(pixels, k).value + [cell.value])
  {
    assert k / 32 == row && k % 32 == col;
    hide PixelAt;
  }

  /** One row of samples, appended to the bits read so far. */
  method SampleRow(pixels: seq<Byte>, row: nat, before: seq<nat>) returns (ok: bool, bits: seq<nat>)
    requires |pixels| == SIZE && row < ROWS && Sampled(pixels, 32 * row) == Some(before)
    ensures ok ==> Sampled(pixels, 32 * row + COLS) == Some(bits)
    ensures !ok ==> Sampled(pixels, CELLS).None?
  {
    hide Sampled, PixelAt;
    bits := before;
    for col := 0 to COLS
      invariant Sampled(pixels, 32 * row + col) == Some(bits)
    {
      SampleStep(pixels, 32 * row + col, row, col);
      var pixel := PixelAt(pixels, row, col);
      if pixel != BLACK && pixel != WHITE {
        SampledFails(pixels, 32 * row + col + 1);
        return false, bits;
      }
      bits := bits + [if pixel == WHITE then 1 else 0];
    }
    ok := true;
  }

  lemma {:induction false} NoSamples(pixels: seq<Byte>)
    requires |pixels| == SIZE
    ensures Sampled(pixels, 0) == Some([])
  {
  }

  /** Packing a complete sampling gives a packet of the right length, which decides the result. */
  lemma {:induction false} DecodeOfBits(crc: Checksum, pixels: seq<Byte>, bits: seq<nat>)
    requires |pixels| == SIZE && Sampled(pixels, CELLS) == Some(bits)
    ensures |bits| == CELLS && |Bytes(bits)| == 40 && DecodeOf(crc, pixels) == Unpacked(crc, pixels, Bytes(bits))
  {
    SampledShape(pixels, CELLS);
    BytesLength(bits);
    hide Unpacked, Bytes, Sampled;
  }

  lemma {:induction false} DecodeOfNone(crc: Checksum, pixels: seq<Byte>)
    requires |pixels| == SIZE && Sampled(pixels, CELLS).None?
    ensures DecodeOf(crc, pixels) == Failed(UnknownPalette)
  {
    hide Unpacked, Bytes, Sampled;
  }

  /** The decoder's loops: sample one pixel a cell, then repack the bits. */
  method Decode(crc: Checksum, pixels: seq<Byte>) returns (r: Decoded)
    ensures r == DecodeOf(crc, pixels)
  {
    if |pixels| != SIZE { return Failed(WrongSize); }
    NoSamples(pixels);
    var ok, bits := SampleGrid(pixels);
    hide Sampled, DecodeOf, Bytes, Unpacked;
    if !ok {
      DecodeOfNone(crc, pixels);
      return Failed(UnknownPalette);
    }
    DecodeOfBits(crc, pixels, bits);
    var packet := PackBits(bits);
    r := Unpacked(crc, pixels, packet);
  }

  method SampleGrid(pixels: seq<Byte>) returns (ok: bool, bits: seq<nat>)
    requires |pixels| == SIZE
    ensures Sampled(pixels, CELLS) == if ok then Some(bits) else None
  {
    NoSamples(pixels);
    hide Sampled;
    bits, ok := [], true;
    for row := 0 to ROWS
      invariant Sampled(pixels, 32 * row) == Some(bits)
    {
      ok, bits := SampleRow(pixels, row, bits);
      if !ok { return; }
    }
  }

  lemma {:induction false} BytesSnoc(bits: seq<nat>, start: nat)
    requires start + 8 <= |bits|
    ensures Bytes(bits[..start+8]) == Bytes(bits[..start]) + [ByteFrom(bits[start..start+8])]
  {
    var taken := bits[..start+8];
    assert taken[..start] == bits[..start] && taken[start..] == bits[start..start+8];
  }

  lemma {:induction false} BytesFit(length: nat, start: nat)
    requires start % 8 == 0 && length % 8 == 0 && start < length
    ensures start + 8 <= length && (start + 8) % 8 == 0
  {
  }

  method PackBits(bits: seq<nat>) returns (packet: seq<Byte>)
    requires |bits| % 8 == 0
    ensures packet == Bytes(bits)
  {
    packet := [];
    var start := 0;
    assert Bytes(bits[..0]) == [];
    hide Bytes, ByteFrom;
    while start < |bits|
      invariant start <= |bits| && start % 8 == 0
      invariant packet == Bytes(bits[..start])
      decreases |bits| - start
    {
      BytesFit(|bits|, start);
      BytesSnoc(bits, start);
      packet := packet + [ByteFrom(bits[start..start+8])];
      start := start + 8;
    }
    assert bits[..start] == bits;
  }

  // -------------------------------------------------------------------------- round trip

  lemma {:induction false} CellOfColour(bit: nat)
    requires bit < 2
    ensures Cell(Colour(bit)) == Some(bit)
  {
    assert WHITE[0] != BLACK[0];
  }

  lemma {:induction false} SampledNext(bits: seq<nat>, picture: seq<Byte>, k: nat)
    requires |bits| == CELLS && k < |bits| && bits[k] < 2
    requires picture == Picture(bits, ROWS) && |picture| == SIZE && Sampled(picture, k) == Some(bits[..k])
    ensures Sampled(picture, k + 1) == Some(bits[..k+1])
  {
    hide Picture, PixelAt, Cell, Colour, Sampled;
    var row, col := k / 32, k % 32;
    SampledCell(bits, picture, row, col);
    SampleStep(picture, k, row, col);
    CellOfColour(bits[k]);
    assert bits[..k+1] == bits[..k] + [bits[k]];
  }

  lemma {:induction false} SampledEncode(bits: seq<nat>, picture: seq<Byte>, k: nat)
    requires |bits| == CELLS && k <= |bits| && forall i :: 0 <= i < |bits| ==> bits[i] < 2
    requires picture == Picture(bits, ROWS) && |picture| == SIZE
    ensures Sampled(picture, k) == Some(bits[..k])
  {
    hide *;
    NoSamples(picture);
    if k > 0 {
      SampledEncode(bits, picture, k - 1);
      SampledNext(bits, picture, k - 1);
    }
  }

  lemma {:induction false} PacketUnpacks(crc: Checksum, id: Identity)
    requires Valid(id)
    ensures |PacketOf(crc, id)| == 40 && PacketOf(crc, id)[..36] == BodyOf(id)
    ensures IdentityFrom(BodyOf(id)) == id && BodyOf(id)[..4] == MAGIC
  {
    Powers();
    ValueOfDigits(id.challenge, 256, 8);
    ValueOfDigits(id.paint, 256, 8);
    hide Digits, Value, Pow;
    var body := BodyOf(id);
    assert body[4..20] == id.session;
    assert body[20..28] == Number(id.challenge, 8);
    assert body[28..36] == Number(id.paint, 8);
  }

  /** ROUND TRIP. Every valid identity is read back from its own pixels. */
  lemma {:induction false} EncodeDecode(crc: Checksum, id: Identity)
    requires Valid(id)
    ensures DecodeOf(crc, Encode(crc, id)) == Decoded(id)
  {
    var packet := PacketOf(crc, id);
    PacketUnpacks(crc, id);
    BitsShape(packet);
    PictureSize(Bits(packet));
    SampledEncode(Bits(packet), Encode(crc, id), CELLS);
    BytesOfBits(packet);
    assert Bits(packet)[..CELLS] == Bits(packet);
    hide Bits, Bytes, Sampled, Picture, BodyOf, IdentityFrom, Number, Valid;
    assert packet[36..] == Number(crc(BodyOf(id)), 4);
  }

  /** CANONICAL FORM. The decoder reads an identity from exactly the pixels that encode it, down to
      the last byte, whatever the checksum function. */
  lemma {:induction false} DecodeExactly(crc: Checksum, pixels: seq<Byte>, id: Identity)
    ensures DecodeOf(crc, pixels) == Decoded(id) <==> Valid(id) && pixels == Encode(crc, id)
  {
    if Valid(id) { EncodeDecode(crc, id); }
    hide Sampled, Bytes, Encode, Valid, IdentityFrom, Number;
  }

  /** No two identities share a picture. */
  lemma {:induction false} EncodeInjective(crc: Checksum, a: Identity, b: Identity)
    requires Valid(a) && Valid(b) && Encode(crc, a) == Encode(crc, b)
    ensures a == b
  {
    EncodeDecode(crc, a);
    EncodeDecode(crc, b);
  }
}
