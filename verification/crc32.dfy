/** Table-driven CRC-32 against bit-serial polynomial division, as in section 8 of RFC 1952. */
module Crc32Table {
  const POLYNOMIAL: bv32 := 0xEDB8_8320

  // Named word operations, so that the proofs below can treat them algebraically.
  function Xor(a: bv32, b: bv32): bv32 { a ^ b }
  function Not(a: bv32): bv32 { !a }
  function Half(a: bv32): bv32 { a >> 1 }
  function Rest(a: bv32): bv32 { a >> 8 }
  function Low(a: bv32): bv32 { a & 0xFF }
  function High(a: bv32): bv32 { a & 0xFFFF_FF00 }
  predicate Odd(a: bv32) { a & 1 == 1 }

  // ------------------------------------------------------------ one bit at a time

  /** One step of the reflected division: shift out the low bit and subtract the divisor if set. */
  function Shift(c: bv32): bv32 { if Odd(c) then Xor(POLYNOMIAL, Half(c)) else Half(c) }

  function Shifts(c: bv32, n: nat): bv32 { if n == 0 then c else Shift(Shifts(c, n - 1)) }

  function Halves(c: bv32, n: nat): bv32 { if n == 0 then c else Half(Halves(c, n - 1)) }

  /** Bit n of a byte, least significant first. */
  function Bit(b: bv8, n: nat): bv32 { Halves(b as bv32, n) & 1 }

  /** The first n bits of a byte enter the division. */
  function BitsIn(c: bv32, b: bv8, n: nat): bv32 {
    if n == 0 then c else Shift(Xor(BitsIn(c, b, n - 1), Bit(b, n - 1)))
  }

  /** The division register after a whole message. */
  function Divide(c: bv32, data: seq<bv8>): bv32 {
    if data == [] then c else BitsIn(Divide(c, data[..|data|-1]), data[|data|-1], 8)
  }

  /** CRC-32 of a message, continuing from an earlier checksum. */
  function Crc(data: seq<bv8>, crc: bv32): bv32 { Not(Divide(Not(crc), data)) }

  // ------------------------------------------------------------ one byte at a time

  function Folded(c: bv32, b: bv8): bv32 { Xor(Shifts(Low(Xor(c, b as bv32)), 8), Rest(c)) }

  // ---------------------------------------------------------------- the two agree

  lemma {:induction false} XorAssociates(p: bv32, a: bv32, b: bv32)
    ensures Xor(p, Xor(a, b)) == Xor(Xor(p, a), b)
  {
  }

  lemma {:induction false} XorSwaps(p: bv32, a: bv32, b: bv32)
    ensures Xor(p, Xor(a, b)) == Xor(a, Xor(p, b))
  {
  }

  lemma {:induction false} XorUndone(p: bv32, a: bv32)
    ensures Xor(Xor(p, a), p) == a
  {
  }

  lemma {:induction false} XorCancels(p: bv32, a: bv32, b: bv32)
    ensures Xor(Xor(p, a), Xor(p, b)) == Xor(a, b)
  {
    XorAssociates(Xor(p, a), p, b);
    XorUndone(p, a);
    hide Xor;
  }

  lemma {:induction false} HalfLinear(a: bv32, b: bv32)
    ensures Half(Xor(a, b)) == Xor(Half(a), Half(b))
  {
  }

  lemma {:induction false} OddLinear(a: bv32, b: bv32)
    ensures Odd(Xor(a, b)) <==> (Odd(a) != Odd(b))
  {
  }

  /** Division is linear over exclusive or. */
  lemma {:induction false} ShiftLinear(a: bv32, b: bv32)
    ensures Shift(Xor(a, b)) == Xor(Shift(a), Shift(b))
  {
    HalfLinear(a, b);
    OddLinear(a, b);
    XorAssociates(POLYNOMIAL, Half(a), Half(b));
    XorSwaps(POLYNOMIAL, Half(a), Half(b));
    XorCancels(POLYNOMIAL, Half(a), Half(b));
    hide Xor, Half, Odd;
  }

  lemma {:induction false} ShiftsLinear(a: bv32, b: bv32, n: nat)
    ensures Shifts(Xor(a, b), n) == Xor(Shifts(a, n), Shifts(b, n))
  {
    if n > 0 {
      ShiftsLinear(a, b, n - 1);
      ShiftLinear(Shifts(a, n - 1), Shifts(b, n - 1));
    }
    hide Xor, Shift;
  }

  lemma {:induction false} HalfAgain(x: bv32)
    ensures Half(x) == x >> 1 && Half(x >> 1) == x >> 2 && Half(x >> 2) == x >> 3 && Half(x >> 3) == x >> 4
    ensures Half(x >> 4) == x >> 5 && Half(x >> 5) == x >> 6 && Half(x >> 6) == x >> 7 && Half(x >> 7) == Rest(x)
  {
  }

  lemma {:induction false} HalvesStep(x: bv32, n: nat)
    ensures Halves(x, 0) == x && Halves(x, n + 1) == Half(Halves(x, n))
  {
  }

  lemma {:induction false} HalvesAre(x: bv32)
    ensures Halves(x, 0) == x && Halves(x, 1) == x >> 1 && Halves(x, 2) == x >> 2 && Halves(x, 3) == x >> 3
    ensures Halves(x, 4) == x >> 4 && Halves(x, 5) == x >> 5 && Halves(x, 6) == x >> 6 && Halves(x, 7) == x >> 7
    ensures Halves(x, 8) == Rest(x)
  {
    hide *;
    HalfAgain(x);
    HalvesStep(x, 0);
    HalvesStep(x, 1);
    HalvesStep(x, 2);
    HalvesStep(x, 3);
    HalvesStep(x, 4);
    HalvesStep(x, 5);
    HalvesStep(x, 6);
    HalvesStep(x, 7);
  }

  /** A clear low byte never meets the divisor in eight shifts. */
  lemma {:induction false} HighEven(x: bv32, n: nat)
    requires Low(x) == 0 && n < 8
    ensures !Odd(Halves(x, n))
  {
    HalvesAre(x);
    hide Halves;
    match n
    case 0 => case 1 => case 2 => case 3 => case 4 => case 5 => case 6 => case 7 =>
  }

  lemma {:induction false} HighShifts(x: bv32, n: nat)
    requires Low(x) == 0 && n <= 8
    ensures Shifts(x, n) == Halves(x, n)
  {
    if n > 0 {
      HighShifts(x, n - 1);
      HighEven(x, n - 1);
    }
    hide Odd, Half, Low, Xor;
  }

  lemma {:induction false} SplitWord(x: bv32)
    ensures x == Xor(Low(x), High(x)) && Low(High(x)) == 0 && Rest(High(x)) == Rest(x)
  {
  }

  lemma {:induction false} RestIgnoresByte(c: bv32, b: bv8)
    ensures Rest(Xor(c, b as bv32)) == Rest(c)
  {
  }

  /** Eight shifts are one lookup of the low byte and a move of the rest. */
  lemma {:induction false} FoldedIsShifts(c: bv32, b: bv8)
    ensures Folded(c, b) == Shifts(Xor(c, b as bv32), 8)
  {
    var x := Xor(c, b as bv32);
    hide Xor, Shifts, Low, High, Halves, Rest;
    SplitWord(x);
    RestIgnoresByte(c, b);
    ShiftsLinear(Low(x), High(x), 8);
    HighShifts(High(x), 8);
    HalvesAre(High(x));
  }

  lemma {:induction false} ByteSplits(x: bv32)
    ensures x == Xor(x & 1, x & 0xFFFF_FFFE)
    ensures !Odd(x & 0xFFFF_FFFE) && Half(x & 0xFFFF_FFFE) == Half(x)
  {
  }

  /** The bits still to come and the register so far shift exactly like byte and register at once. */
  lemma {:induction false} BitsAreShifts(c: bv32, b: bv8, n: nat)
    ensures Xor(BitsIn(c, b, n), Halves(b as bv32, n)) == Shifts(Xor(c, b as bv32), n)
  {
    if n > 0 {
      BitsAreShifts(c, b, n - 1);
      var before, left := BitsIn(c, b, n - 1), Halves(b as bv32, n - 1);
      ByteSplits(left);
      XorAssociates(before, left & 1, left & 0xFFFF_FFFE);
      ShiftLinear(Xor(before, left & 1), left & 0xFFFF_FFFE);
    }
    hide Xor, Half, Odd;
  }

  lemma {:induction false} ByteIsShifts(c: bv32, b: bv8)
    ensures BitsIn(c, b, 8) == Shifts(Xor(c, b as bv32), 8)
  {
    BitsAreShifts(c, b, 8);
    HalvesAre(b as bv32);
    NothingLeft(BitsIn(c, b, 8), b);
    hide Xor, Halves, Shifts, BitsIn;
  }

  lemma {:induction false} NothingLeft(c: bv32, b: bv8)
    ensures Xor(c, Rest(b as bv32)) == c
  {
  }

  // ------------------------------------------------------------------- as implemented

  /** The table constructor's two loops. */
  method MakeTable() returns (table: array<bv32>)
    ensures fresh(table) && table.Length == 256
    ensures forall i :: 0 <= i < 256 ==> table[i] == Shifts(i as bv32, 8)
  {
    table := new bv32[256](_ => 0);
    for i := 0 to 256
      invariant forall j :: 0 <= j < i ==> table[j] == Shifts(j as bv32, 8)
    {
      hide Shifts;
      var c := i as bv32;
      assert Shifts(c, 0) == c by { ShiftsBegin(c, 0); }
      for k := 0 to 8
        invariant c == Shifts(i as bv32, k)
        invariant forall j :: 0 <= j < i ==> table[j] == Shifts(j as bv32, 8)
      {
        ShiftsBegin(i as bv32, k);
        c := if c & 1 == 1 then POLYNOMIAL ^ (c >> 1) else c >> 1;
      }
      table[i] := c;
    }
  }

  lemma {:induction false} ShiftsBegin(c: bv32, k: nat)
    ensures Shifts(c, 0) == c && Shifts(c, k + 1) == Shift(Shifts(c, k))
  {
  }

  lemma {:induction false} LowIndex(x: bv32)
    ensures Low(x) as int < 256 && (Low(x) as int) as bv32 == Low(x)
  {
  }

  /** CRC-32. The table-driven loop computes the bit-serial division of the whole message. */
  method Crc32(table: array<bv32>, data: seq<bv8>, crc: bv32) returns (r: bv32)
    requires table.Length == 256 && forall i :: 0 <= i < 256 ==> table[i] == Shifts(i as bv32, 8)
    ensures r == Crc(data, crc)
  {
    var c := Not(crc);
    for i := 0 to |data|
      invariant c == Divide(Not(crc), data[..i])
    {
      assert data[..i+1][..i] == data[..i];
      LowIndex(Xor(c, data[i] as bv32));
      FoldedIsShifts(c, data[i]);
      ByteIsShifts(c, data[i]);
      hide Shifts, Low, BitsIn, Xor, Not;
      var index := Low(Xor(c, data[i] as bv32)) as int;
      c := Xor(table[index], Rest(c));
    }
    assert data[..|data|] == data;
    r := Not(c);
  }

  lemma {:induction false} DivideAppend(c: bv32, a: seq<bv8>, b: seq<bv8>)
    ensures Divide(c, a + b) == Divide(Divide(c, a), b)
  {
    if b == [] {
      assert a + b == a;
    } else {
      DivideAppend(c, a, b[..|b|-1]);
      assert (a + b)[..|a + b|-1] == a + b[..|b|-1];
    }
    hide BitsIn;
  }

  lemma {:induction false} DoubleNot(c: bv32)
    ensures Not(Not(c)) == c
  {
  }

  /** APPEND. Continuing a checksum over a second message is the checksum of both. */
  lemma {:induction false} CrcAppend(a: seq<bv8>, b: seq<bv8>, crc: bv32)
    ensures Crc(b, Crc(a, crc)) == Crc(a + b, crc)
  {
    DivideAppend(Not(crc), a, b);
    DoubleNot(Divide(Not(crc), a));
    hide Divide, Not;
  }
}
