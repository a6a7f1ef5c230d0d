/** The CRC-16 of protocol.h and of the SPI link: generator 0x1021, register preset by the caller
    (0xFFFF on the wire), most significant bit first, no final exclusive-or.

    The register is updated by a map that is linear over exclusive-or and injective. Those two facts
    give the zero residue of a finished frame and the rejection of every error burst of 16 bits. */
module Crc16 {

  predicate TopBit(c: bv16) { c & 0x8000 != 0 }

  /** One place to the left; the top bit is lost. */
  function Left(c: bv16): bv16 { c << 1 }

  /** One turn of the inner loop. */
  function ShiftOne(c: bv16): bv16 {
    if TopBit(c) then Left(c) ^ 0x1021 else Left(c)
  }

  function Shift(c: bv16, n: nat): bv16 {
    if n == 0 then c else ShiftOne(Shift(c, n - 1))
  }

  /** One turn of the outer loop. */
  function ByteStep(c: bv16, b: bv8): bv16 {
    Shift(Mix(c, b), 8)
  }

  /** The register after all of `data`, started at `c`. */
  function Crc(c: bv16, data: seq<bv8>): bv16 {
    if data == [] then c else ByteStep(Crc(c, data[..|data| - 1]), data[|data| - 1])
  }

  function High(c: bv16): bv8 { (c >> 8) as bv8 }

  function Low(c: bv16): bv8 { (c & 0xFF) as bv8 }

  const PRESET: bv16 := 0xFFFF

  lemma CrcSnoc(c: bv16, s: seq<bv8>, b: bv8)
    ensures Crc(c, s + [b]) == ByteStep(Crc(c, s), b)
  {
    assert (s + [b])[..|s|] == s;
  }

  /** The body of the outer loop. */
  method FeedByte(c: bv16, b: bv8) returns (crc: bv16)
    ensures crc == ByteStep(c, b)
  {
    crc := Mix(c, b);
    for n := 0 to 8
      invariant crc == Shift(Mix(c, b), n)
    {
      if TopBit(crc) {
        crc := Left(crc) ^ 0x1021;
      } else {
        crc := Left(crc);
      }
    }
  }

  /** protocol_crc16 and spi_crc16 over a buffer prefix. */
  method ComputeCrc(data: array<bv8>, len: nat) returns (crc: bv16)
    requires len <= data.Length
    ensures crc == Crc(PRESET, data[..len])
  {
    crc := PRESET;
    for i := 0 to len
      invariant crc == Crc(PRESET, data[..i])
    {
      crc := FeedByte(crc, data[i]);
      CrcSnoc(PRESET, data[..i], data[i]);
      assert data[..i + 1] == data[..i] + [data[i]];
    }
  }

  // ---------------------------------------------------------------- linearity and injectivity

  lemma ShiftBitsXor(a: bv16, b: bv16)
    ensures (a ^ b) << 1 == (a << 1) ^ (b << 1)
    ensures (a ^ b) & 0x8000 == (a & 0x8000) ^ (b & 0x8000)
    ensures a & 0x8000 == 0 || a & 0x8000 == 0x8000
    ensures b & 0x8000 == 0 || b & 0x8000 == 0x8000
  {}

  predicate IsXor(c: bv16, a: bv16, b: bv16) { c == a ^ b }

  predicate IsXorByte(c: bv8, a: bv8, b: bv8) { c == a ^ b }

  lemma ShiftOneXor(c: bv16, a: bv16, b: bv16)
    requires c == a ^ b
    ensures ShiftOne(c) == ShiftOne(a) ^ ShiftOne(b)
  {
    ShiftBitsXor(a, b);
  }

  lemma ShiftOneIsXor(c: bv16, a: bv16, b: bv16)
    requires IsXor(c, a, b)
    ensures IsXor(ShiftOne(c), ShiftOne(a), ShiftOne(b))
  {
    ShiftOneXor(c, a, b);
  }

  lemma {:induction false} ShiftXor(c: bv16, a: bv16, b: bv16, n: nat)
    requires IsXor(c, a, b)
    ensures IsXor(Shift(c, n), Shift(a, n), Shift(b, n))
  {
    if n > 0 {
      ShiftXor(c, a, b, n - 1);
      ShiftOneIsXor(Shift(c, n - 1), Shift(a, n - 1), Shift(b, n - 1));
    }
  }

  lemma {:induction false} ShiftZero(a: bv16, n: nat)
    ensures Shift(a, n) == 0 <==> a == 0
  {
    if n > 0 {
      ShiftZero(a, n - 1);
      assert ShiftOne(Shift(a, n - 1)) == 0 <==> Shift(a, n - 1) == 0;
    }
  }

  /** The register with a byte mixed into its high half. */
  function Mix(c: bv16, b: bv8): bv16 { c ^ ((b as bv16) << 8) }

  lemma MixXor(c: bv16, a: bv16, b: bv16, x: bv8, f: bv8, g: bv8)
    requires IsXor(c, a, b) && IsXorByte(x, f, g)
    ensures IsXor(Mix(c, x), Mix(a, f), Mix(b, g))
  {
    XorArrange(c, a, b, x, f, g);
  }

  lemma XorArrange(c: bv16, a: bv16, b: bv16, x: bv8, f: bv8, g: bv8)
    requires c == a ^ b && x == f ^ g
    ensures c ^ ((x as bv16) << 8) == (a ^ ((f as bv16) << 8)) ^ (b ^ ((g as bv16) << 8))
  {}

  lemma ByteStepXor(c: bv16, a: bv16, b: bv16, x: bv8, f: bv8, g: bv8)
    requires IsXor(c, a, b) && IsXorByte(x, f, g)
    ensures IsXor(ByteStep(c, x), ByteStep(a, f), ByteStep(b, g))
  {
    MixXor(c, a, b, x, f, g);
    ShiftXor(Mix(c, x), Mix(a, f), Mix(b, g), 8);
  }

  predicate IsXorSeq(e: seq<bv8>, f: seq<bv8>, g: seq<bv8>) {
    |e| == |f| == |g| && forall i :: 0 <= i < |e| ==> IsXorByte(e[i], f[i], g[i])
  }

  /** The register is linear: it maps the difference of two runs to the difference of the results. */
  lemma {:induction false} CrcXor(c: bv16, a: bv16, b: bv16, e: seq<bv8>, f: seq<bv8>, g: seq<bv8>)
    requires IsXor(c, a, b) && IsXorSeq(e, f, g)
    ensures IsXor(Crc(c, e), Crc(a, f), Crc(b, g))
  {
    if e != [] {
      var n := |e| - 1;
      CrcXor(c, a, b, e[..n], f[..n], g[..n]);
      ByteStepXor(Crc(c, e[..n]), Crc(a, f[..n]), Crc(b, g[..n]), e[n], f[n], g[n]);
    }
  }

  lemma {:induction false} CrcConcat(c: bv16, a: seq<bv8>, b: seq<bv8>)
    ensures Crc(c, a + b) == Crc(Crc(c, a), b)
  {
    if b == [] {
      assert a + b == a;
    } else {
      CrcConcat(c, a, b[..|b| - 1]);
      assert (a + b)[..|a + b| - 1] == a + b[..|b| - 1];
    }
  }

  predicate AllZero(s: seq<bv8>) { forall i :: 0 <= i < |s| ==> s[i] == 0 }

  /** Feeding zero bytes neither creates nor destroys a difference. */
  lemma {:induction false} ZeroBytesKeepDifference(c: bv16, z: seq<bv8>)
    requires AllZero(z)
    ensures Crc(c, z) == 0 <==> c == 0
  {
    if z != [] {
      var d := Crc(c, z[..|z| - 1]);
      ZeroBytesKeepDifference(c, z[..|z| - 1]);
      assert Mix(d, 0) == d;
      ShiftZero(d, 8);
    }
  }

  // ---------------------------------------------------------------- zero residue

  lemma ShiftEight(c: bv16)
    ensures Shift(c, 8)
         == ShiftOne(ShiftOne(ShiftOne(ShiftOne(ShiftOne(ShiftOne(ShiftOne(ShiftOne(c))))))))
  {
    assert Shift(c, 1) == ShiftOne(c);
    assert Shift(c, 2) == ShiftOne(Shift(c, 1));
    assert Shift(c, 3) == ShiftOne(Shift(c, 2));
    assert Shift(c, 4) == ShiftOne(Shift(c, 3));
    assert Shift(c, 5) == ShiftOne(Shift(c, 4));
    assert Shift(c, 6) == ShiftOne(Shift(c, 5));
    assert Shift(c, 7) == ShiftOne(Shift(c, 6));
  }

  lemma ShiftLowByte(c: bv16)
    requires c & 0xFF00 == 0
    ensures Shift(c, 8) == c << 8
  {
    ShiftEight(c);
  }

  lemma SplitBytes(c: bv16)
    ensures Mix(c, High(c)) & 0xFF00 == 0
    ensures Mix(Mix(c, High(c)) << 8, Low(c)) == 0
    ensures c == ((High(c) as bv16) << 8) | (Low(c) as bv16)
  {}

  lemma JoinBytes(h: bv8, l: bv8)
    ensures High(((h as bv16) << 8) | (l as bv16)) == h
    ensures Low(((h as bv16) << 8) | (l as bv16)) == l
  {}

  /** A frame that ends in its own register, high byte first, leaves the register at zero. */
  lemma ResidueOfOwnCrc(c: bv16)
    ensures Crc(c, [High(c), Low(c)]) == 0
  {
    SplitBytes(c);
    ShiftLowByte(Mix(c, High(c)));
    ShiftZero(Mix(ByteStep(c, High(c)), Low(c)), 8);
    CrcTwo(c, High(c), Low(c));
  }

  lemma CrcTwo(c: bv16, h: bv8, l: bv8)
    ensures Crc(c, [h, l]) == ByteStep(ByteStep(c, h), l)
  {
    assert [h, l][..1] == [h];
    assert [h][..0] == [];
    assert Crc(c, [h]) == ByteStep(c, h);
  }

  lemma SameByte(x: bv8, f: bv8, g: bv8)
    requires IsXorByte(x, f, g)
    ensures x == 0 <==> f == g
  {
    XorZeroByte(f, g);
  }

  lemma XorZeroByte(f: bv8, g: bv8)
    ensures f ^ g == 0 <==> f == g
  {}

  lemma SameRegister(c: bv16, a: bv16, b: bv16)
    requires IsXor(c, a, b)
    ensures c == 0 <==> a == b
  {
    XorZero(a, b);
  }

  lemma XorZero(a: bv16, b: bv16)
    ensures a ^ b == 0 <==> a == b
  {}

  function XorBytes(f: seq<bv8>, g: seq<bv8>): (e: seq<bv8>)
    requires |f| == |g|
    ensures IsXorSeq(e, f, g)
  {
    seq(|f|, i requires 0 <= i < |f| => f[i] ^ g[i])
  }

  lemma EightShiftsKeepHighByte(a: bv8, b: bv8)
    requires Mix(ShiftOne(ShiftOne(ShiftOne(ShiftOne(ShiftOne(ShiftOne(ShiftOne(ShiftOne(Mix(0, a))))))))), b) == 0
    ensures a == 0 && b == 0
  {}

  lemma OnlyZerosKeepZero(a: bv8, b: bv8)
    requires Crc(0, [a, b]) == 0
    ensures a == 0 && b == 0
  {
    CrcTwo(0, a, b);
    ShiftZero(Mix(ByteStep(0, a), b), 8);
    ShiftEight(Mix(0, a));
    EightShiftsKeepHighByte(a, b);
  }

  lemma DifferenceOfTwo(c: bv16, a: bv8, b: bv8, h: bv8, l: bv8, h': bv8, l': bv8)
    requires IsXorByte(a, h, h') && IsXorByte(b, l, l')
    requires Crc(c, [h, l]) == Crc(c, [h', l']) == 0
    ensures Crc(0, [a, b]) == 0
  {
    CrcTwo(c, h, l);
    CrcTwo(c, h', l');
    CrcTwo(0, a, b);
    TwoStepsXor(0, c, c, a, h, h', b, l, l');
  }

  lemma TwoStepsXor(c: bv16, d: bv16, e: bv16, x: bv8, f: bv8, g: bv8, x': bv8, f': bv8, g': bv8)
    requires IsXor(c, d, e) && IsXorByte(x, f, g) && IsXorByte(x', f', g')
    ensures IsXor(ByteStep(ByteStep(c, x), x'), ByteStep(ByteStep(d, f), f'), ByteStep(ByteStep(e, g), g'))
  {
    ByteStepXor(c, d, e, x, f, g);
    ByteStepXor(ByteStep(c, x), ByteStep(d, f), ByteStep(e, g), x', f', g');
  }

  /** No pair of bytes other than the register itself takes it to zero. */
  lemma OnlyOwnCrcHasZeroResidue(c: bv16, h: bv8, l: bv8)
    requires Crc(c, [h, l]) == 0
    ensures h == High(c) && l == Low(c)
  {
    ResidueOfOwnCrc(c);
    var a, b := h ^ High(c), l ^ Low(c);
    DifferenceOfTwo(c, a, b, h, l, High(c), Low(c));
    OnlyZerosKeepZero(a, b);
    SameByte(a, h, High(c));
    SameByte(b, l, Low(c));
  }

  /** The residue test is the comparison of the stored with the computed register. */
  lemma ResidueIffStored(c: bv16, body: seq<bv8>, h: bv8, l: bv8)
    ensures Crc(c, body + [h, l]) == 0 <==> (h == High(Crc(c, body)) && l == Low(Crc(c, body)))
  {
    CrcConcat(c, body, [h, l]);
    ResidueOfOwnCrc(Crc(c, body));
    if Crc(c, body + [h, l]) == 0 {
      OnlyOwnCrcHasZeroResidue(Crc(c, body), h, l);
    }
  }

  // ---------------------------------------------------------------- burst errors

  /** Bit j of a byte, counted from the most significant one as the register takes them. */
  predicate Bit(b: bv8, j: int)
    requires 0 <= j < 8
  {
    match j
    case 0 => b & 0x80 != 0
    case 1 => b & 0x40 != 0
    case 2 => b & 0x20 != 0
    case 3 => b & 0x10 != 0
    case 4 => b & 0x08 != 0
    case 5 => b & 0x04 != 0
    case 6 => b & 0x02 != 0
    case _ => b & 0x01 != 0
  }

  predicate BitAt(s: seq<bv8>, i: int)
    requires 0 <= i < 8 * |s|
  {
    Bit(s[i / 8], i % 8)
  }

  /** g differs from f at most in the 16 bits that start at bit p. */
  predicate WithinBurst(f: seq<bv8>, g: seq<bv8>, p: int)
    requires |f| == |g|
  {
    forall i :: 0 <= i < 8 * |f| && !(p <= i < p + 16) ==> BitAt(f, i) == BitAt(g, i)
  }

  /** The bits of a byte before position r. */
  function BeforeMask(r: int): bv8 {
    match r
    case 0 => 0x00
    case 1 => 0x80
    case 2 => 0xC0
    case 3 => 0xE0
    case 4 => 0xF0
    case 5 => 0xF8
    case 6 => 0xFC
    case 7 => 0xFE
    case _ => 0xFF
  }

  lemma BitXor(x: bv8, a: bv8, b: bv8, j: int)
    requires 0 <= j < 8 && IsXorByte(x, a, b) && Bit(a, j) == Bit(b, j)
    ensures !Bit(x, j)
  {}

  predicate NoBitBefore(x: bv8, r: int)
    requires r <= 8
  {
    forall j :: 0 <= j < r ==> !Bit(x, j)
  }

  predicate NoBitFrom(x: bv8, r: int)
    requires 0 <= r
  {
    forall j :: r <= j < 8 ==> !Bit(x, j)
  }

  lemma BitsBefore(x: bv8, r: int)
    requires 0 <= r <= 8 && NoBitBefore(x, r)
    ensures x & BeforeMask(r) == 0
  {
    assert r > 0 ==> !Bit(x, 0);
    assert r > 1 ==> !Bit(x, 1);
    assert r > 2 ==> !Bit(x, 2);
    assert r > 3 ==> !Bit(x, 3);
    assert r > 4 ==> !Bit(x, 4);
    assert r > 5 ==> !Bit(x, 5);
    assert r > 6 ==> !Bit(x, 6);
    assert r > 7 ==> !Bit(x, 7);
  }

  lemma BitsFrom(x: bv8, r: int)
    requires 0 <= r <= 8 && NoBitFrom(x, r)
    ensures x & !BeforeMask(r) == 0
  {
    assert r <= 0 ==> !Bit(x, 0);
    assert r <= 1 ==> !Bit(x, 1);
    assert r <= 2 ==> !Bit(x, 2);
    assert r <= 3 ==> !Bit(x, 3);
    assert r <= 4 ==> !Bit(x, 4);
    assert r <= 5 ==> !Bit(x, 5);
    assert r <= 6 ==> !Bit(x, 6);
    assert r <= 7 ==> !Bit(x, 7);
  }

  lemma WindowOfRegister(r: int, e0: bv8, e1: bv8, e2: bv8, s1: bv16, s2: bv16)
    requires 0 <= r < 8
    requires e0 & BeforeMask(r) == 0 && e2 & !BeforeMask(r) == 0
    requires e0 != 0 || e1 != 0 || e2 != 0
    requires s1 == Mix(ShiftOne(ShiftOne(ShiftOne(ShiftOne(ShiftOne(ShiftOne(ShiftOne(ShiftOne(Mix(0, e0))))))))), e1)
    requires s2 == Mix(ShiftOne(ShiftOne(ShiftOne(ShiftOne(ShiftOne(ShiftOne(ShiftOne(ShiftOne(s1)))))))), e2)
    ensures s2 != 0
  {
    match r
    case 0 =>
    case 1 =>
    case 2 =>
    case 3 =>
    case 4 =>
    case 5 =>
    case 6 =>
    case _ =>
  }

  /** Three bytes whose set bits lie in one window of 16 bits never lead from zero back to zero. */
  lemma WindowIsSeen(r: int, e0: bv8, e1: bv8, e2: bv8)
    requires 0 <= r < 8 && NoBitBefore(e0, r) && NoBitFrom(e2, r)
    requires e0 != 0 || e1 != 0 || e2 != 0
    ensures Crc(0, [e0, e1, e2]) != 0
  {
    BitsBefore(e0, r);
    BitsFrom(e2, r);
    assert [e0, e1, e2][..2] == [e0, e1];
    CrcTwo(0, e0, e1);
    ShiftEight(Mix(0, e0));
    var s1 := Mix(ByteStep(0, e0), e1);
    ShiftEight(s1);
    var s2 := Mix(Shift(s1, 8), e2);
    WindowOfRegister(r, e0, e1, e2, s1, s2);
    ShiftZero(s2, 8);
  }

  lemma BitOutsideBurst(f: seq<bv8>, g: seq<bv8>, p: nat, k: nat, j: nat)
    requires |f| == |g| && WithinBurst(f, g, p) && k < |f| && j < 8
    requires !(p <= 8 * k + j < p + 16)
    ensures Bit(f[k], j) == Bit(g[k], j)
  {
    assert (8 * k + j) / 8 == k && (8 * k + j) % 8 == j;
    assert BitAt(f, 8 * k + j) == BitAt(g, 8 * k + j);
  }

  lemma ErrorBit(f: seq<bv8>, g: seq<bv8>, p: nat, k: nat, j: nat, x: bv8)
    requires |f| == |g| && WithinBurst(f, g, p) && k < |f| && IsXorByte(x, f[k], g[k])
    requires j < 8 && !(p <= 8 * k + j < p + 16)
    ensures !Bit(x, j)
  {
    BitOutsideBurst(f, g, p, k, j);
    BitXor(x, f[k], g[k], j);
  }

  /** A difference confined to a burst touches three bytes, the outer two only in part. */
  lemma ErrorByte(f: seq<bv8>, g: seq<bv8>, p: nat, k: nat, x: bv8)
    requires |f| == |g| && WithinBurst(f, g, p) && k < |f| && IsXorByte(x, f[k], g[k])
    ensures k < p / 8 || k > p / 8 + 2 ==> NoBitBefore(x, 8)
    ensures k == p / 8 ==> NoBitBefore(x, p % 8)
    ensures k == p / 8 + 2 ==> NoBitFrom(x, p % 8)
  {
    forall j: nat | j < 8 && !(p <= 8 * k + j < p + 16)
      ensures !Bit(x, j)
    {
      ErrorBit(f, g, p, k, j, x);
    }
  }

  lemma NoBits(x: bv8)
    requires NoBitBefore(x, 8)
    ensures x == 0
  {
    BitsBefore(x, 8);
  }

  lemma NoBitsInZero(r: int)
    requires 0 <= r <= 8
    ensures NoBitBefore(0, r) && NoBitFrom(0, r)
  {}

  /** Every burst of up to 16 bits changes the register, wherever it starts. */
  lemma BurstChangesCrc(c: bv16, f: seq<bv8>, g: seq<bv8>, p: nat)
    requires |f| == |g| && f != g && WithinBurst(f, g, p)
    ensures Crc(c, f) != Crc(c, g)
  {
    var e := XorBytes(f, g);
    var q, r := p / 8, p % 8;
    forall k | 0 <= k < |e|
      ensures k < q || k > q + 2 ==> e[k] == 0
      ensures k == q ==> NoBitBefore(e[k], r)
      ensures k == q + 2 ==> NoBitFrom(e[k], r)
    {
      ErrorByte(f, g, p, k, e[k]);
      if k < q || k > q + 2 { NoBits(e[k]); }
    }
    var k :| 0 <= k < |f| && f[k] != g[k];
    SameByte(e[k], f[k], g[k]);
    ErrorInWindow(e, q, r, k);
    CrcXor(0, c, c, e, f, g);
    SameRegister(Crc(0, e), Crc(c, f), Crc(c, g));
  }

  lemma ErrorInWindow(e: seq<bv8>, q: nat, r: int, k: nat)
    requires 0 <= r < 8 && q <= k <= q + 2 && k < |e| && e[k] != 0
    requires forall i :: 0 <= i < |e| && (i < q || i > q + 2) ==> e[i] == 0
    requires NoBitBefore(e[q], r)
    requires q + 2 < |e| ==> NoBitFrom(e[q + 2], r)
    ensures Crc(0, e) != 0
  {
    var padded := e + [0, 0];
    NoBitsInZero(r);
    assert padded[k] == e[k];
    PaddedError(padded, q, r, k);
    AppendZeros(e, [0, 0]);
  }

  lemma AppendZeros(e: seq<bv8>, z: seq<bv8>)
    requires AllZero(z)
    ensures Crc(0, e + z) == 0 <==> Crc(0, e) == 0
  {
    CrcConcat(0, e, z);
    ZeroBytesKeepDifference(Crc(0, e), z);
  }

  lemma PaddedError(e: seq<bv8>, q: nat, r: int, k: nat)
    requires 0 <= r < 8 && q <= k <= q + 2 < |e| && e[k] != 0
    requires forall i :: 0 <= i < |e| && (i < q || i > q + 2) ==> e[i] == 0
    requires NoBitBefore(e[q], r) && NoBitFrom(e[q + 2], r)
    ensures Crc(0, e) != 0
  {
    WindowIsSeen(r, e[q], e[q + 1], e[q + 2]);
    CrcOfPadded(e[..q], [e[q], e[q + 1], e[q + 2]], e[q + 3..]);
    Reassemble(e, q);
  }

  lemma Reassemble(e: seq<bv8>, q: nat)
    requires q + 2 < |e|
    ensures e == e[..q] + [e[q], e[q + 1], e[q + 2]] + e[q + 3..]
  {}

  lemma CrcOfPadded(before: seq<bv8>, window: seq<bv8>, after: seq<bv8>)
    requires AllZero(before) && AllZero(after)
    ensures Crc(0, before + window + after) == 0 <==> Crc(0, window) == 0
  {
    ZeroBytesKeepDifference(0, before);
    CrcConcat(0, before, window);
    AppendZeros(before + window, after);
  }

  // ---------------------------------------------------------------- the published check value

  lemma EightTurns(c: bv16, b: bv8, r: bv16)
    requires ShiftOne(ShiftOne(ShiftOne(ShiftOne(ShiftOne(ShiftOne(ShiftOne(ShiftOne(Mix(c, b))))))))) == r
    ensures ByteStep(c, b) == r
  {
    hide ShiftOne, Mix;
    var m := Mix(c, b);
    assert Shift(m, 0) == m;
    assert Shift(m, 1) == ShiftOne(m);
    assert Shift(m, 2) == ShiftOne(Shift(m, 1));
    assert Shift(m, 3) == ShiftOne(Shift(m, 2));
    assert Shift(m, 4) == ShiftOne(Shift(m, 3));
    assert Shift(m, 5) == ShiftOne(Shift(m, 4));
    assert Shift(m, 6) == ShiftOne(Shift(m, 5));
    assert Shift(m, 7) == ShiftOne(Shift(m, 6));
    assert Shift(m, 8) == ShiftOne(Shift(m, 7));
  }

  /** The ASCII digits 1 to 9. */
  const DIGITS: seq<bv8> := [0x31, 0x32, 0x33, 0x34, 0x35, 0x36, 0x37, 0x38, 0x39]

  /** The register after the digits 1 to 9 is 0x29B1, the check value under which this CRC is catalogued: it fixes
      polynomial, bit order and preset at once. */
  lemma CheckValue()
    ensures Crc(0xFFFF, DIGITS) == 0x29B1 && PRESET == 0xFFFF
  {
    hide ByteStep;
    EightTurns(0xFFFF, 0x31, 0xC782);
    EightTurns(0xC782, 0x32, 0x3DBA);
    EightTurns(0x3DBA, 0x33, 0x5BCE);
    EightTurns(0x5BCE, 0x34, 0x5349);
    EightTurns(0x5349, 0x35, 0x4560);
    EightTurns(0x4560, 0x36, 0x2EF4);
    EightTurns(0x2EF4, 0x37, 0x7718);
    EightTurns(0x7718, 0x38, 0xA12B);
    EightTurns(0xA12B, 0x39, 0x29B1);
    var d := DIGITS;
    assert Crc(PRESET, []) == PRESET;
    CrcSnoc(PRESET, d[..0], d[0]);
    assert d[..0] + [d[0]] == d[..1];
    CrcSnoc(PRESET, d[..1], d[1]);
    assert d[..1] + [d[1]] == d[..2];
    CrcSnoc(PRESET, d[..2], d[2]);
    assert d[..2] + [d[2]] == d[..3];
    CrcSnoc(PRESET, d[..3], d[3]);
    assert d[..3] + [d[3]] == d[..4];
    CrcSnoc(PRESET, d[..4], d[4]);
    assert d[..4] + [d[4]] == d[..5];
    CrcSnoc(PRESET, d[..5], d[5]);
    assert d[..5] + [d[5]] == d[..6];
    CrcSnoc(PRESET, d[..6], d[6]);
    assert d[..6] + [d[6]] == d[..7];
    CrcSnoc(PRESET, d[..7], d[7]);
    assert d[..7] + [d[7]] == d[..8];
    CrcSnoc(PRESET, d[..8], d[8]);
    assert d[..8] + [d[8]] == d[..9];
    assert d[..9] == d;
  }
}
