/** CRC-32 of section 8 of RFC 1952: the bitwise loop of the engine, the table form, and streaming. */
module Crc32 {

  type Byte = bv8

  const ONES: bv32 := 0xFFFFFFFF

  predicate LowBit(c: bv32) { c & 1 == 1 }

  /** One place to the right; the low bit is lost. */
  function Half(c: bv32): bv32 { c >> 1 }

  /** The generator polynomial, least significant bit first. */
  const POLYNOMIAL: bv32 := 0xEDB88320

  function Plus(h: bv32): bv32 { h ^ POLYNOMIAL }

  /** The polynomial is added when a bit drops out. */
  function Added(h: bv32, low: bool): bv32 { if low then Plus(h) else h }

  /** One turn of the inner loop. */
  function ShiftOne(c: bv32): bv32 {
    Added(Half(c), LowBit(c))
  }

  function Shift(c: bv32, n: nat): bv32 {
    if n == 0 then c else ShiftOne(Shift(c, n - 1))
  }

  function Mix(c: bv32, b: Byte): bv32 { c ^ (b as bv32) }

  /** One turn of the outer loop. */
  function Feed(c: bv32, b: Byte): bv32 { Shift(Mix(c, b), 8) }

  /** The register after a run of bytes. */
  function Register(c: bv32, data: seq<Byte>): bv32 {
    if data == [] then c else Feed(Register(c, data[..|data| - 1]), data[|data| - 1])
  }

  function Flip(c: bv32): bv32 { c ^ ONES }

  /** crc32_calc */
  function Checksum(data: seq<Byte>): bv32 { Flip(Register(ONES, data)) }

  method Crc32Calc(data: seq<Byte>) returns (r: bv32)
    ensures r == Checksum(data)
  {
    hide Feed;
    var crc := ONES;
    for i := 0 to |data|
      invariant crc == Register(ONES, data[..i])
    {
      assert data[..i + 1][..i] == data[..i];
      crc := FeedByte(crc, data[i]);
    }
    assert data[..|data|] == data;
    r := Flip(crc);
  }

  /** The inner loop, which selects the polynomial by an arithmetic mask. */
  method FeedByte(c: bv32, b: Byte) returns (r: bv32)
    ensures r == Feed(c, b)
  {
    hide ShiftOne;
    r := Mix(c, b);
    for k := 0 to 8
      invariant r == Shift(Mix(c, b), k)
    {
      r := Masked(r);
    }
  }

  /** With the mask 0 - (c & 1): all ones when the low bit is set, else zero. */
  method Masked(c: bv32) returns (r: bv32)
    ensures r == ShiftOne(c)
  {
    var mask := 0 - (c & 1);
    r := (c >> 1) ^ (POLYNOMIAL & mask);
  }

  // ---------------------------------------------------------------- streaming

  lemma {:induction false} RegisterSplits(c: bv32, a: seq<Byte>, b: seq<Byte>)
    ensures Register(c, a + b) == Register(Register(c, a), b)
  {
    hide Feed;
    if b == [] {
      assert a + b == a;
    } else {
      var n := |b| - 1;
      assert (a + b)[..|a| + n] == a + b[..n];
      RegisterSplits(c, a, b[..n]);
    }
  }

  /** One Write on a running hash: section 8's update_crc around the previous sum. */
  function Write(sum: bv32, data: seq<Byte>): bv32 { Flip(Register(Flip(sum), data)) }

  function Concat(parts: seq<seq<Byte>>): seq<Byte> {
    if parts == [] then [] else Concat(parts[..|parts| - 1]) + parts[|parts| - 1]
  }

  /** The sum after writing the parts one by one, from a new hash. */
  function WriteAll(parts: seq<seq<Byte>>): bv32 {
    if parts == [] then 0 else Write(WriteAll(parts[..|parts| - 1]), parts[|parts| - 1])
  }

  lemma FlipTwice(x: bv32)
    ensures Flip(Flip(x)) == x
  {}

  lemma FlipOnes()
    ensures Flip(ONES) == 0
  {}

  /** Hashing the parts one after the other gives the checksum of their concatenation. */
  lemma {:induction false} StreamingIsWhole(parts: seq<seq<Byte>>)
    ensures WriteAll(parts) == Checksum(Concat(parts))
  {
    hide Feed, Flip;
    if parts == [] {
      FlipOnes();
    } else {
      var n := |parts| - 1;
      StreamingIsWhole(parts[..n]);
      FlipTwice(Register(ONES, Concat(parts[..n])));
      RegisterSplits(ONES, Concat(parts[..n]), parts[n]);
    }
  }

  // ---------------------------------------------------------------- the table form

  predicate IsXor(c: bv32, a: bv32, b: bv32) { c == a ^ b }

  lemma HalvesXor(a: bv32, b: bv32)
    ensures Half(a ^ b) == Half(a) ^ Half(b)
  {}

  lemma LowBitXor(a: bv32, b: bv32)
    ensures LowBit(a ^ b) <==> LowBit(a) != LowBit(b)
  {}

  lemma BothAdded(c: bv32, a: bv32, b: bv32)
    requires IsXor(c, a, b)
    ensures IsXor(c, Plus(a), Plus(b))
  {}

  lemma OneAdded(c: bv32, a: bv32, b: bv32)
    requires IsXor(c, a, b)
    ensures IsXor(Plus(c), Plus(a), b) && IsXor(Plus(c), a, Plus(b))
  {}

  lemma AddedXor(h: bv32, a: bv32, b: bv32, p: bool, q: bool)
    requires IsXor(h, a, b)
    ensures IsXor(Added(h, p != q), Added(a, p), Added(b, q))
  {
    hide IsXor, Plus;
    BothAdded(h, a, b);
    OneAdded(h, a, b);
  }

  lemma HalvesAreXor(c: bv32, a: bv32, b: bv32)
    requires IsXor(c, a, b)
    ensures IsXor(Half(c), Half(a), Half(b)) && (LowBit(c) <==> LowBit(a) != LowBit(b))
  {
    HalvesXor(a, b);
    LowBitXor(a, b);
  }

  lemma ShiftOneXor(c: bv32, a: bv32, b: bv32)
    requires IsXor(c, a, b)
    ensures IsXor(ShiftOne(c), ShiftOne(a), ShiftOne(b))
  {
    hide IsXor, Half, LowBit;
    HalvesAreXor(c, a, b);
    AddedXor(Half(c), Half(a), Half(b), LowBit(a), LowBit(b));
  }

  lemma {:induction false} ShiftXor(c: bv32, a: bv32, b: bv32, n: nat)
    requires IsXor(c, a, b)
    ensures IsXor(Shift(c, n), Shift(a, n), Shift(b, n))
  {
    hide IsXor, ShiftOne;
    if n > 0 {
      ShiftXor(c, a, b, n - 1);
      ShiftOneXor(Shift(c, n - 1), Shift(a, n - 1), Shift(b, n - 1));
    }
  }

  function LowByte(c: bv32): bv32 { c & 0xFF }
  function HighPart(c: bv32): bv32 { c & 0xFFFFFF00 }
  function Down8(c: bv32): bv32 { c >> 8 }

  /** A register whose low byte is zero, moved down k places. */
  function Down(x: bv32, k: nat): bv32
    requires k <= 8
  {
    match k
    case 0 => HighPart(x)
    case 1 => HighPart(x) >> 1
    case 2 => HighPart(x) >> 2
    case 3 => HighPart(x) >> 3
    case 4 => HighPart(x) >> 4
    case 5 => HighPart(x) >> 5
    case 6 => HighPart(x) >> 6
    case 7 => HighPart(x) >> 7
    case 8 => Down8(x)
  }

  lemma Move0(x: bv32)
    ensures ShiftOne(HighPart(x)) == (HighPart(x) >> 1)
  {}

  lemma Move1(x: bv32)
    ensures ShiftOne((HighPart(x) >> 1)) == (HighPart(x) >> 2)
  {}

  lemma Move2(x: bv32)
    ensures ShiftOne((HighPart(x) >> 2)) == (HighPart(x) >> 3)
  {}

  lemma Move3(x: bv32)
    ensures ShiftOne((HighPart(x) >> 3)) == (HighPart(x) >> 4)
  {}

  lemma Move4(x: bv32)
    ensures ShiftOne((HighPart(x) >> 4)) == (HighPart(x) >> 5)
  {}

  lemma Move5(x: bv32)
    ensures ShiftOne((HighPart(x) >> 5)) == (HighPart(x) >> 6)
  {}

  lemma Move6(x: bv32)
    ensures ShiftOne((HighPart(x) >> 6)) == (HighPart(x) >> 7)
  {}

  lemma Move7(x: bv32)
    ensures ShiftOne((HighPart(x) >> 7)) == Down8(x)
  {}

  lemma MovesDown(x: bv32, k: nat)
    requires k < 8
    ensures ShiftOne(Down(x, k)) == Down(x, k + 1)
  {
    Move0(x); Move1(x); Move2(x); Move3(x); Move4(x); Move5(x); Move6(x); Move7(x);
    hide ShiftOne, HighPart, Down8;
  }

  /** A register whose low byte is zero just moves down. */
  lemma {:induction false} HighPartMovesDown(x: bv32, k: nat)
    requires k <= 8
    ensures Shift(HighPart(x), k) == Down(x, k)
  {
    hide ShiftOne, HighPart;
    if k > 0 {
      HighPartMovesDown(x, k - 1);
      MovesDown(x, k - 1);
    }
  }

  /** crc_table[n] of section 8. */
  function TableEntry(n: bv32): bv32 { Shift(n, 8) }

  lemma PartsOf(x: bv32)
    ensures IsXor(x, LowByte(x), HighPart(x))
  {}

  lemma Down8OfMix(c: bv32, b: Byte)
    ensures Down8(Mix(c, b)) == Down8(c)
  {}

  /** One look-up in the table does what eight turns of the loop do. */
  lemma TableStepIsEightShifts(c: bv32, b: Byte)
    ensures IsXor(Feed(c, b), TableEntry(LowByte(Mix(c, b))), Down8(c))
  {
    hide IsXor, Shift, Mix, LowByte, HighPart, Down8;
    var x := Mix(c, b);
    PartsOf(x);
    ShiftXor(x, LowByte(x), HighPart(x), 8);
    HighPartMovesDown(x, 8);
    assert Down(x, 8) == Down8(x);
    Down8OfMix(c, b);
  }

  /** The register computed by table look-ups. */
  function TableRegister(c: bv32, data: seq<Byte>): bv32 {
    if data == [] then c else
      var r := TableRegister(c, data[..|data| - 1]);
      TableEntry(LowByte(Mix(r, data[|data| - 1]))) ^ Down8(r)
  }

  /** The table form of section 8, which hash/crc32 uses, and the engine's bitwise loop agree. */
  lemma {:induction false} TableIsBitwise(c: bv32, data: seq<Byte>)
    ensures TableRegister(c, data) == Register(c, data)
  {
    hide Feed, TableEntry, LowByte, Mix, Down8;
    if data != [] {
      var n := |data| - 1;
      TableIsBitwise(c, data[..n]);
      TableStepIsEightShifts(Register(c, data[..n]), data[n]);
    }
  }

  // ---------------------------------------------------------------- the published check value

  lemma EightTurns(c: bv32, b: Byte, r: bv32)
    requires ShiftOne(ShiftOne(ShiftOne(ShiftOne(ShiftOne(ShiftOne(ShiftOne(ShiftOne(Mix(c, b))))))))) == r
    ensures Feed(c, b) == r
  {
    hide ShiftOne, Mix;
    var m := Mix(c, b);
    assert Shift(m, 0) == m;
    assert Shift(m, 1) == ShiftOne(m);
    assert Shift(m, 2) == ShiftOne(Shift(m, 1));
    assert Shift(m, 3) == ShiftOne(Shift(m, 2));
    assert Shift(m, 4) == ShiftOne(Shift(m, 3));
    assert Shift(m, 5) == ShiftOne(Shift(m, 4));
    assert Shift(m, 6) == ShiftOne(Shift(m, 5));
    assert Shift(m, 7) == ShiftOne(Shift(m, 6));
    assert Shift(m, 8) == ShiftOne(Shift(m, 7));
  }

  lemma OneMore(c: bv32, s: seq<Byte>, b: Byte)
    ensures Register(c, s + [b]) == Feed(Register(c, s), b)
  {
    assert (s + [b])[..|s|] == s;
  }

  /** The ASCII digits 1 to 9. */
  const DIGITS: seq<Byte> := [0x31, 0x32, 0x33, 0x34, 0x35, 0x36, 0x37, 0x38, 0x39]

  /** The checksum of the digits 1 to 9 is 0xCBF43926, the check value under which this CRC is catalogued: it fixes
      polynomial, bit order, preset and final complement at once. */
  lemma CheckValue()
    ensures Checksum(DIGITS) == 0xCBF43926
  {
    hide Feed;
    EightTurns(0xFFFFFFFF, 0x31, 0x7C231048);
    EightTurns(0x7C231048, 0x32, 0xB0ACBB32);
    EightTurns(0xB0ACBB32, 0x33, 0x77B79C2D);
    EightTurns(0x77B79C2D, 0x34, 0x641C1F5C);
    EightTurns(0x641C1F5C, 0x35, 0x340AC5E3);
    EightTurns(0x340AC5E3, 0x36, 0xF68D2C9E);
    EightTurns(0xF68D2C9E, 0x37, 0xAFFC9660);
    EightTurns(0xAFFC9660, 0x38, 0x651F2550);
    EightTurns(0x651F2550, 0x39, 0x340BC6D9);
    var d := DIGITS;
    assert Register(ONES, []) == ONES;
    OneMore(ONES, d[..0], d[0]);
    assert d[..0] + [d[0]] == d[..1];
    OneMore(ONES, d[..1], d[1]);
    assert d[..1] + [d[1]] == d[..2];
    OneMore(ONES, d[..2], d[2]);
    assert d[..2] + [d[2]] == d[..3];
    OneMore(ONES, d[..3], d[3]);
    assert d[..3] + [d[3]] == d[..4];
    OneMore(ONES, d[..4], d[4]);
    assert d[..4] + [d[4]] == d[..5];
    OneMore(ONES, d[..5], d[5]);
    assert d[..5] + [d[5]] == d[..6];
    OneMore(ONES, d[..6], d[6]);
    assert d[..6] + [d[6]] == d[..7];
    OneMore(ONES, d[..7], d[7]);
    assert d[..7] + [d[7]] == d[..8];
    OneMore(ONES, d[..8], d[8]);
    assert d[..8] + [d[8]] == d[..9];
    assert d[..9] == d;
  }
}
