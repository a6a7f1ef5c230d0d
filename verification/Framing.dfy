/** protocol.h: the RPMsg frame [type][seq:2][payload_len:2][payload][crc:2], big-endian. */
module Framing {
  import opened Crc16

  const MAX_PAYLOAD_SIZE: nat := 480
  const MSG_HEADER_SIZE: nat := 5
  const MSG_OVERHEAD: nat := 7

  datatype Decoded =
    | TooShort
    | BadLength
    | BadCrc
    | Message(kind: bv8, seqNo: bv16, payload: seq<bv8>)

  /** protocol_get_u16_be and protocol_put_u16_be. */
  function GetBe(h: bv8, l: bv8): bv16 { ((h as bv16) << 8) | (l as bv16) }

  function Nat(v: bv16): nat { v as nat }

  function PutBe(v: bv16): seq<bv8> { [High(v), Low(v)] }

  function Header(kind: bv8, seqNo: bv16, plen: bv16): seq<bv8> {
    [kind] + PutBe(seqNo) + PutBe(plen)
  }

  /** The frame protocol_encode writes when the payload is not too large. */
  function Encode(kind: bv8, seqNo: bv16, payload: seq<bv8>, plen: bv16): (f: seq<bv8>)
    requires |payload| == Nat(plen)
    ensures |f| == MSG_OVERHEAD + |payload|
  {
    var body := Header(kind, seqNo, plen) + payload;
    body + PutBe(Crc(PRESET, body))
  }

  /** The payload length a frame claims in its header. */
  function ClaimedLength(f: seq<bv8>): bv16
    requires |f| >= MSG_HEADER_SIZE
  {
    GetBe(f[3], f[4])
  }

  predicate LengthsAgree(f: seq<bv8>) {
    |f| >= MSG_OVERHEAD
    && Nat(ClaimedLength(f)) <= MAX_PAYLOAD_SIZE
    && |f| == MSG_OVERHEAD + Nat(ClaimedLength(f))
  }

  function Body(f: seq<bv8>): seq<bv8>
    requires |f| >= MSG_OVERHEAD
  {
    f[..|f| - 2]
  }

  /** protocol_decode. */
  function Decode(f: seq<bv8>): Decoded {
    if |f| < MSG_OVERHEAD then TooShort
    else if !LengthsAgree(f) then BadLength
    else if Crc(PRESET, Body(f)) != GetBe(f[|f| - 2], f[|f| - 1]) then BadCrc
    else Message(f[0], GetBe(f[1], f[2]), f[MSG_HEADER_SIZE..|f| - 2])
  }

  // ---------------------------------------------------------------- the two C functions

  method PutU16(buf: array<bv8>, at: nat, v: bv16)
    requires at + 2 <= buf.Length
    modifies buf
    ensures buf[at..at + 2] == PutBe(v)
    ensures forall i :: 0 <= i < buf.Length && i != at && i != at + 1 ==> buf[i] == old(buf[i])
  {
    buf[at], buf[at + 1] := High(v), Low(v);
  }

  method PutHeader(buf: array<bv8>, kind: bv8, seqNo: bv16, plen: bv16)
    requires buf.Length >= MSG_HEADER_SIZE
    modifies buf
    ensures buf[..MSG_HEADER_SIZE] == Header(kind, seqNo, plen)
    ensures forall i :: MSG_HEADER_SIZE <= i < buf.Length ==> buf[i] == old(buf[i])
  {
    hide High, Low;
    buf[0] := kind;
    PutU16(buf, 1, seqNo);
    PutU16(buf, 3, plen);
    assert buf[..5] == buf[..1] + buf[1..3] + buf[3..5];
  }

  method PutPayload(buf: array<bv8>, payload: seq<bv8>)
    requires buf.Length >= MSG_HEADER_SIZE + |payload|
    modifies buf
    ensures buf[..MSG_HEADER_SIZE] == old(buf[..MSG_HEADER_SIZE])
    ensures buf[MSG_HEADER_SIZE..MSG_HEADER_SIZE + |payload|] == payload
    ensures forall i :: MSG_HEADER_SIZE + |payload| <= i < buf.Length ==> buf[i] == old(buf[i])
  {
    for i := 0 to |payload|
      invariant buf[..MSG_HEADER_SIZE] == old(buf[..MSG_HEADER_SIZE])
      invariant forall k :: 0 <= k < i ==> buf[MSG_HEADER_SIZE + k] == payload[k]
      invariant forall k :: MSG_HEADER_SIZE + i <= k < buf.Length ==> buf[k] == old(buf[k])
    {
      buf[MSG_HEADER_SIZE + i] := payload[i];
    }
  }

  /** protocol_encode: the caller's buffer holds MSG_MAX_TOTAL, 487, bytes or more. */
  method EncodeInto(buf: array<bv8>, kind: bv8, seqNo: bv16, payload: seq<bv8>, plen: bv16)
    returns (n: nat)
    requires buf.Length >= 487 && |payload| == Nat(plen)
    modifies buf
    ensures |payload| > 480 ==> n == 0 && buf[..] == old(buf[..])
    ensures |payload| <= 480 ==>
              n == MSG_OVERHEAD + |payload|
              && buf[..n] == Encode(kind, seqNo, payload, plen)
              && forall k :: n <= k < buf.Length ==> buf[k] == old(buf[k])
  {
    hide Nat, High, Low, Header, Crc;
    if Nat(plen) > MAX_PAYLOAD_SIZE {
      return 0;
    }
    var bodyLen := MSG_HEADER_SIZE + |payload|;
    PutHeader(buf, kind, seqNo, plen);
    PutPayload(buf, payload);
    assert buf[..bodyLen] == buf[..MSG_HEADER_SIZE] + buf[MSG_HEADER_SIZE..bodyLen];
    var crc := ComputeCrc(buf, bodyLen);
    PutU16(buf, bodyLen, crc);
    n := bodyLen + 2;
    assert buf[..n] == buf[..bodyLen] + buf[bodyLen..n];
  }

  /** protocol_decode over the first `len` bytes of a receive buffer. */
  method DecodeBuffer(buf: array<bv8>, len: nat) returns (d: Decoded)
    requires len <= buf.Length
    ensures d == Decode(buf[..len])
  {
    hide Nat, GetBe, Crc;
    if len < MSG_OVERHEAD {
      return TooShort;
    }
    var kind := buf[0];
    var seqNo := GetBe(buf[1], buf[2]);
    var plen := Nat(GetBe(buf[3], buf[4]));
    if plen > MAX_PAYLOAD_SIZE {
      return BadLength;
    }
    if len != MSG_HEADER_SIZE + plen + 2 {
      return BadLength;
    }
    var computed := ComputeCrc(buf, MSG_HEADER_SIZE + plen);
    var received := GetBe(buf[len - 2], buf[len - 1]);
    assert buf[..len][..len - 2] == buf[..len - 2];
    if computed != received {
      return BadCrc;
    }
    return Message(kind, seqNo, buf[MSG_HEADER_SIZE..MSG_HEADER_SIZE + plen]);
  }

  // ---------------------------------------------------------------- what the pair guarantees

  lemma BytesOfBe(v: bv16)
    ensures GetBe(High(v), Low(v)) == v
  {
    SplitBytes(v);
  }

  lemma BeOfBytes(h: bv8, l: bv8)
    ensures PutBe(GetBe(h, l)) == [h, l]
  {
    JoinBytes(h, l);
  }

  /** Whatever is encoded is decoded to the same type, sequence number and payload. */
  lemma RoundTrip(kind: bv8, seqNo: bv16, payload: seq<bv8>, plen: bv16)
    requires |payload| == Nat(plen) <= MAX_PAYLOAD_SIZE
    ensures Decode(Encode(kind, seqNo, payload, plen)) == Message(kind, seqNo, payload)
  {
    var f := Encode(kind, seqNo, payload, plen);
    var body := Header(kind, seqNo, plen) + payload;
    BytesOfBe(seqNo);
    BytesOfBe(plen);
    BytesOfBe(Crc(PRESET, body));
    assert f[3] == High(plen) && f[4] == Low(plen);
    assert Body(f) == body;
    assert f[MSG_HEADER_SIZE..|f| - 2] == payload;
  }

  lemma FrameInParts(f: seq<bv8>)
    requires |f| >= MSG_OVERHEAD
    ensures Body(f) == [f[0]] + [f[1], f[2]] + [f[3], f[4]] + f[MSG_HEADER_SIZE..|f| - 2]
    ensures f == Body(f) + [f[|f| - 2], f[|f| - 1]]
  {}

  /** Where everything lies on the wire, all numbers with the high byte first: type, number, length, payload, register. */
  lemma WireLayout(kind: bv8, seqNo: bv16, payload: seq<bv8>, plen: bv16)
    requires |payload| == Nat(plen)
    ensures var f := Encode(kind, seqNo, payload, plen);
            var n := |payload|;
            && |f| == n + 7 && f[0] == kind && f[5..n + 5] == payload
            && ((f[1] as bv16) << 8) | (f[2] as bv16) == seqNo
            && ((f[3] as bv16) << 8) | (f[4] as bv16) == plen
            && ((f[n + 5] as bv16) << 8) | (f[n + 6] as bv16) == Crc(0xFFFF, f[..n + 5])
  {
    hide Nat, Crc;
    var f := Encode(kind, seqNo, payload, plen);
    var body := Header(kind, seqNo, plen) + payload;
    BytesOfBe(seqNo);
    BytesOfBe(plen);
    BytesOfBe(Crc(PRESET, body));
    assert f[..|payload| + 5] == body;
    assert f[5..|payload| + 5] == payload;
  }

  /** How a refusal is told: fewer than 7 bytes; a claimed length above 480 or other than the frame's own; a register that
      does not match. */
  lemma RefusalIs(f: seq<bv8>)
    ensures Decode(f).TooShort? <==> |f| < 7
    ensures Decode(f).BadLength? <==> |f| >= 7 && (Nat(ClaimedLength(f)) > 480 || |f| != Nat(ClaimedLength(f)) + 7)
    ensures Decode(f).Message? ==> |f| <= 487 && |Decode(f).payload| <= 480
  {
    hide Nat, Crc, GetBe;
  }

  /** Nothing else is decoded: an accepted frame is the encoding of what was read from it. */
  lemma AcceptsOnlyEncodings(f: seq<bv8>)
    requires Decode(f).Message?
    ensures var m := Decode(f);
            |m.payload| == Nat(ClaimedLength(f))
            && f == Encode(m.kind, m.seqNo, m.payload, ClaimedLength(f))
  {
    hide Nat, GetBe, High, Low, Crc;
    BeOfBytes(f[1], f[2]);
    BeOfBytes(f[3], f[4]);
    BeOfBytes(f[|f| - 2], f[|f| - 1]);
    FrameInParts(f);
  }

  /** Acceptance is agreement of the two lengths and a zero register over the whole frame. */
  lemma AcceptsIffZeroResidue(f: seq<bv8>)
    ensures Decode(f).Message? <==> LengthsAgree(f) && Crc(PRESET, f) == 0
  {
    if LengthsAgree(f) {
      var n := |f|;
      var c := Crc(PRESET, Body(f));
      assert f == Body(f) + [f[n - 2], f[n - 1]];
      ResidueIffStored(PRESET, Body(f), f[n - 2], f[n - 1]);
      BytesOfBe(c);
      JoinBytes(f[n - 2], f[n - 1]);
    }
  }

  /** A frame altered only within 16 consecutive bits is rejected, wherever those bits lie. */
  lemma BurstIsRejected(f: seq<bv8>, g: seq<bv8>, p: nat)
    requires Decode(f).Message?
    requires |g| == |f| && g != f && WithinBurst(f, g, p)
    ensures !Decode(g).Message?
  {
    AcceptsIffZeroResidue(f);
    AcceptsIffZeroResidue(g);
    BurstChangesCrc(PRESET, f, g, p);
  }
}
