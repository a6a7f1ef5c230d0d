/** The generator 0x11021 has an even number of terms, so the register carries the parity of all the bits that
    went in: an odd number of flipped bits can never go unnoticed. */
module CrcParity {
  import opened Crc16
  import Framing

  /** A bit, named by its mask, is set. */
  predicate Hit(c: bv16, m: bv16) { c & m != 0 }

  predicate Single(m: bv16) { m != 0 && m & (m - 1) == 0 }

  predicate OddHigh(c: bv16) {
    Hit(c, 0x8000) != (Hit(c, 0x4000) != (Hit(c, 0x2000) != (Hit(c, 0x1000) != (Hit(c, 0x0800) != (Hit(c, 0x0400) != (Hit(c, 0x0200) != Hit(c, 0x0100)))))))
  }

  predicate OddLow(c: bv16) {
    Hit(c, 0x0080) != (Hit(c, 0x0040) != (Hit(c, 0x0020) != (Hit(c, 0x0010) != (Hit(c, 0x0008) != (Hit(c, 0x0004) != (Hit(c, 0x0002) != Hit(c, 0x0001)))))))
  }

  /** Whether an odd number of bits is set. */
  predicate Odd(c: bv16) { OddHigh(c) != OddLow(c) }

  predicate OddByte(b: bv8) {
    Bit(b, 0) != (Bit(b, 1) != (Bit(b, 2) != (Bit(b, 3) != (Bit(b, 4) != (Bit(b, 5) != (Bit(b, 6) != Bit(b, 7)))))))
  }

  lemma LeftBits(c: bv16)
    ensures Hit(Left(c), 0x8000) <==> Hit(c, 0x4000)
    ensures Hit(Left(c), 0x4000) <==> Hit(c, 0x2000)
    ensures Hit(Left(c), 0x2000) <==> Hit(c, 0x1000)
    ensures Hit(Left(c), 0x1000) <==> Hit(c, 0x0800)
    ensures Hit(Left(c), 0x0800) <==> Hit(c, 0x0400)
    ensures Hit(Left(c), 0x0400) <==> Hit(c, 0x0200)
    ensures Hit(Left(c), 0x0200) <==> Hit(c, 0x0100)
    ensures Hit(Left(c), 0x0100) <==> Hit(c, 0x0080)
    ensures Hit(Left(c), 0x0080) <==> Hit(c, 0x0040)
    ensures Hit(Left(c), 0x0040) <==> Hit(c, 0x0020)
    ensures Hit(Left(c), 0x0020) <==> Hit(c, 0x0010)
    ensures Hit(Left(c), 0x0010) <==> Hit(c, 0x0008)
    ensures Hit(Left(c), 0x0008) <==> Hit(c, 0x0004)
    ensures Hit(Left(c), 0x0004) <==> Hit(c, 0x0002)
    ensures Hit(Left(c), 0x0002) <==> Hit(c, 0x0001)
    ensures !Hit(Left(c), 0x0001) && (TopBit(c) <==> Hit(c, 0x8000))
  {}

  lemma LeftParity(c: bv16)
    ensures Odd(Left(c)) <==> Odd(c) != TopBit(c)
  {
    LeftBits(c);
    hide Hit, Left, TopBit;
  }

  lemma HitXor(c: bv16, d: bv16, m: bv16)
    requires Single(m)
    ensures Hit(c ^ d, m) <==> Hit(c, m) != Hit(d, m)
  {}

  lemma HighMasks()
    ensures Single(0x8000) && Single(0x4000) && Single(0x2000) && Single(0x1000) && Single(0x0800) && Single(0x0400) && Single(0x0200) && Single(0x0100)
  {}

  lemma LowMasks()
    ensures Single(0x0080) && Single(0x0040) && Single(0x0020) && Single(0x0010) && Single(0x0008) && Single(0x0004) && Single(0x0002) && Single(0x0001)
  {}

  /** The parity of a difference. */
  lemma OddHighXor(c: bv16, d: bv16)
    ensures OddHigh(c ^ d) <==> OddHigh(c) != OddHigh(d)
  {
    hide Hit, Single;
    HighMasks();
    forall m | Single(m) { HitXor(c, d, m); }
  }

  lemma OddLowXor(c: bv16, d: bv16)
    ensures OddLow(c ^ d) <==> OddLow(c) != OddLow(d)
  {
    hide Hit, Single;
    LowMasks();
    forall m | Single(m) { HitXor(c, d, m); }
  }

  lemma OddXor(c: bv16, d: bv16)
    ensures OddHigh(c ^ d) <==> OddHigh(c) != OddHigh(d)
    ensures OddLow(c ^ d) <==> OddLow(c) != OddLow(d)
  {
    OddHighXor(c, d);
    OddLowXor(c, d);
  }

  lemma GeneratorIsOdd()
    ensures OddHigh(0x1021) && !OddLow(0x1021)
  {}

  lemma GeneratorParity(c: bv16)
    ensures Odd(c ^ 0x1021) <==> !Odd(c)
  {
    hide OddHigh, OddLow;
    OddXor(c, 0x1021);
    GeneratorIsOdd();
  }

  /** The bit that drops out is made up for by the three that the generator flips. */
  lemma ShiftOneParity(c: bv16)
    ensures Odd(ShiftOne(c)) <==> Odd(c)
  {
    LeftParity(c);
    GeneratorParity(Left(c));
    hide Odd, Left, TopBit;
  }

  lemma {:induction false} ShiftParity(c: bv16, n: nat)
    ensures Odd(Shift(c, n)) <==> Odd(c)
  {
    hide Odd, ShiftOne;
    if n > 0 {
      ShiftParity(c, n - 1);
      ShiftOneParity(Shift(c, n - 1));
    }
  }

  function Raised(b: bv8): bv16 { (b as bv16) << 8 }

  lemma RaisedBits(b: bv8)
    ensures Hit(Raised(b), 0x8000) <==> Bit(b, 0)
    ensures Hit(Raised(b), 0x4000) <==> Bit(b, 1)
    ensures Hit(Raised(b), 0x2000) <==> Bit(b, 2)
    ensures Hit(Raised(b), 0x1000) <==> Bit(b, 3)
    ensures Hit(Raised(b), 0x0800) <==> Bit(b, 4)
    ensures Hit(Raised(b), 0x0400) <==> Bit(b, 5)
    ensures Hit(Raised(b), 0x0200) <==> Bit(b, 6)
    ensures Hit(Raised(b), 0x0100) <==> Bit(b, 7)
  {}

  lemma RaisedLow(b: bv8)
    ensures !OddLow(Raised(b))
  {}

  lemma RaisedParity(b: bv8)
    ensures (OddHigh(Raised(b)) <==> OddByte(b)) && !OddLow(Raised(b))
  {
    RaisedBits(b);
    RaisedLow(b);
    hide Hit, Bit, Raised, OddLow;
  }

  lemma MixIsXor(c: bv16, b: bv8)
    ensures Mix(c, b) == c ^ Raised(b)
  {}

  lemma MixParity(c: bv16, b: bv8)
    ensures Odd(Mix(c, b)) <==> Odd(c) != OddByte(b)
  {
    hide OddHigh, OddLow, OddByte, Raised, Mix;
    MixIsXor(c, b);
    RaisedParity(b);
    OddXor(c, Raised(b));
  }

  predicate OddBytes(s: seq<bv8>) {
    if s == [] then false else OddBytes(s[..|s| - 1]) != OddByte(s[|s| - 1])
  }

  /** The register has the parity of what it started with and of what went in. */
  lemma {:induction false} CrcParity(c: bv16, s: seq<bv8>)
    ensures Odd(Crc(c, s)) <==> Odd(c) != OddBytes(s)
  {
    hide Odd, OddByte, Mix, ShiftOne;
    if s != [] {
      var n := |s| - 1;
      var before := Crc(c, s[..n]);
      CrcParity(c, s[..n]);
      MixParity(before, s[n]);
      ShiftParity(Mix(before, s[n]), 8);
    }
  }

  // ---------------------------------------------------------------- flipped bits

  function One(b: bool): nat { if b then 1 else 0 }

  /** How many bits two bytes differ in. */
  function Differ(a: bv8, b: bv8): nat {
    One(Bit(a, 0) != Bit(b, 0)) + One(Bit(a, 1) != Bit(b, 1)) + One(Bit(a, 2) != Bit(b, 2)) + One(Bit(a, 3) != Bit(b, 3))
    + One(Bit(a, 4) != Bit(b, 4)) + One(Bit(a, 5) != Bit(b, 5)) + One(Bit(a, 6) != Bit(b, 6)) + One(Bit(a, 7) != Bit(b, 7))
  }

  /** How many bits two frames of the same length differ in. */
  function Flips(f: seq<bv8>, g: seq<bv8>): nat
    requires |f| == |g|
  {
    if f == [] then 0 else Flips(f[..|f| - 1], g[..|g| - 1]) + Differ(f[|f| - 1], g[|g| - 1])
  }

  lemma DifferParity(a: bv8, b: bv8)
    ensures Differ(a, b) % 2 == 1 <==> OddByte(a) != OddByte(b)
  {
    hide Bit;
  }

  lemma {:induction false} FlipsParity(f: seq<bv8>, g: seq<bv8>)
    requires |f| == |g|
    ensures Flips(f, g) % 2 == 1 <==> OddBytes(f) != OddBytes(g)
  {
    hide OddByte, Differ;
    if f != [] {
      var n := |f| - 1;
      FlipsParity(f[..n], g[..n]);
      DifferParity(f[n], g[n]);
    }
  }

  /** A frame in which an odd number of bits was flipped, anywhere, is rejected. */
  lemma OddFlipsAreRejected(f: seq<bv8>, g: seq<bv8>)
    requires Framing.Decode(f).Message? && |g| == |f| && Flips(f, g) % 2 == 1
    ensures !Framing.Decode(g).Message?
  {
    hide Odd, OddBytes, Flips, Crc, Framing.Decode;
    Framing.AcceptsIffZeroResidue(f);
    Framing.AcceptsIffZeroResidue(g);
    CrcParity(PRESET, f);
    CrcParity(PRESET, g);
    FlipsParity(f, g);
  }
}
