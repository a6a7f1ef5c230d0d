/** A node message on its way over radio, SPI and RPMsg, up and down: rfEchoTx.c on the node, radio_task.c and
    spi_slave_task.c on the CC1310, spi_master.c on the M4F, telemetry.go on the gateway. */
module RfFrames {
  import opened Wrappers
  import opened Crc16
  import Framing

  type Byte = bv8
  type Bytes = seq<bv8>

  /** CMD and payload included: sizeof(MessageStruct). Byte 0 is the node's address, byte 3 the length. */
  const MESSAGE_SIZE := 44
  type Message = m: Bytes | |m| == MESSAGE_SIZE witness ZERO_MESSAGE
  const ZERO_MESSAGE: Bytes := ZERO_FID + ZERO_FID + ZERO_FID + ZERO_FID + ZERO_FID + [0, 0, 0, 0]

  const FID_SIZE := 8
  const ZERO_FID: Bytes := [0, 0, 0, 0, 0, 0, 0, 0]
  type Fid = f: Bytes | |f| == FID_SIZE witness ZERO_FID

  /** NodeFrame: the chip a message concerns, and the message. */
  const FRAME_SIZE := 52
  datatype NodeFrame = NodeFrame(fid: Fid, msg: Message)

  function Pack(nf: NodeFrame): (b: Bytes)
    ensures |b| == FRAME_SIZE
  {
    nf.fid + nf.msg
  }

  const GATEWAY: Byte := 0x00
  const GEN1_GATEWAY: Byte := 0xF0
  const TAG_D: Byte := 68
  const TAG_E: Byte := 69

  /** The length field of a message. */
  function Length(m: Message): nat { m[3] as nat }

  /** The bytes of a message that travel. */
  function Sent(m: Message): Bytes
    requires Length(m) <= MESSAGE_SIZE
  {
    m[..Length(m)]
  }

  /** A buffer cleared to zero, with the body copied to its front. */
  function Padded(body: Bytes): (m: Message)
    requires |body| <= MESSAGE_SIZE
    ensures m[..|body|] == body && forall i :: |body| <= i < MESSAGE_SIZE ==> m[i] == 0
  {
    body + ZERO_MESSAGE[|body|..]
  }

  /** calcChecksum */
  function Checksum(s: Bytes): Byte {
    if s == [] then 0 else Checksum(s[..|s| - 1]) ^ s[|s| - 1]
  }

  // ---------------------------------------------------------------- the radio frame

  /** Everything that the checksum covers, behind destination and tag. */
  function Sealed(dest: Byte, tag: Byte, covered: Bytes): Bytes {
    [dest, tag] + covered + [Checksum(covered)]
  }

  /** What the node sends: always with its chip id. */
  function NodeBuild(mine: Fid, m: Message, seqNo: Byte): Bytes
    requires Length(m) <= MESSAGE_SIZE
  {
    Sealed(GATEWAY, TAG_E, [m[0]] + mine + Sent(m) + [seqNo])
  }

  /** What the gateway sends: with the chip id if there is one. */
  function GatewayBuild(nf: NodeFrame, seqNo: Byte): Bytes
    requires Length(nf.msg) <= MESSAGE_SIZE
  {
    if nf.fid != ZERO_FID then Sealed(nf.msg[0], TAG_E, [GATEWAY] + nf.fid + Sent(nf.msg) + [seqNo])
    else Sealed(nf.msg[0], TAG_D, [GATEWAY] + Sent(nf.msg) + [seqNo])
  }

  /** A received packet that is no longer than its message buffer can take. */
  predicate Fits(f: Bytes) {
    5 <= |f| && (if f[1] == TAG_E && |f| >= 13 then |f| <= 13 + MESSAGE_SIZE else |f| <= 5 + MESSAGE_SIZE)
  }

  predicate ChecksumOk(f: Bytes)
    requires 5 <= |f|
  {
    f[|f| - 1] == Checksum(f[2..|f| - 1])
  }

  /** The CC1310 on receiving a packet. */
  function GatewayParse(f: Bytes): Option<NodeFrame>
    requires Fits(f)
  {
    if f[0] != GATEWAY && f[0] != GEN1_GATEWAY then None
    else if f[1] != TAG_D && f[1] != TAG_E then None
    else if !ChecksumOk(f) then None
    else if f[1] == TAG_E && |f| >= 13 then Some(NodeFrame(f[3..11], Padded(f[11..|f| - 2])))
    else Some(NodeFrame(ZERO_FID, Padded(f[3..|f| - 2])))
  }

  /** The node on receiving a packet: a v2 frame is for it only with its own chip id. */
  function NodeParse(address: Byte, mine: Fid, f: Bytes): Option<Message>
    requires Fits(f) && (f[1] == TAG_E ==> |f| >= 13)
  {
    if f[0] != address then None
    else if f[1] != TAG_D && f[1] != TAG_E then None
    else if !ChecksumOk(f) then None
    else if f[1] == TAG_E then
      if f[3..11] == mine then Some(Padded(f[11..|f| - 2])) else None
    else Some(Padded(f[3..|f| - 2]))
  }

  lemma SealedParts(dest: Byte, tag: Byte, covered: Bytes)
    requires |covered| >= 2
    ensures var f := Sealed(dest, tag, covered);
            |f| == |covered| + 3 && f[0] == dest && f[1] == tag && f[2..|f| - 1] == covered && ChecksumOk(f)
  {
    var f := Sealed(dest, tag, covered);
    assert f[2..|f| - 1] == covered;
  }

  lemma CoveredAt(f: Bytes, covered: Bytes)
    requires |f| == |covered| + 3 && f[2..|f| - 1] == covered
    ensures forall i :: 0 <= i < |covered| ==> f[2 + i] == covered[i]
  {
    forall i | 0 <= i < |covered|
      ensures f[2 + i] == covered[i]
    {
      assert f[2..|f| - 1][i] == covered[i];
    }
  }

  /** Chip id and body found again behind the two header bytes. */
  lemma V2Parts(dest: Byte, src: Byte, fid: Fid, body: Bytes, seqNo: Byte)
    ensures var f := Sealed(dest, TAG_E, [src] + fid + body + [seqNo]);
            |f| == 13 + |body| && f[0] == dest && f[1] == TAG_E && ChecksumOk(f)
            && f[3..11] == fid && f[11..|f| - 2] == body
  {
    hide Checksum;
    var covered := [src] + fid + body + [seqNo];
    var f := Sealed(dest, TAG_E, covered);
    SealedParts(dest, TAG_E, covered);
    hide ChecksumOk, Sealed;
    CoveredAt(f, covered);
    forall i | 0 <= i < 8 ensures f[3..11][i] == fid[i] { assert f[2 + (1 + i)] == covered[1 + i]; }
    forall i | 0 <= i < |body| ensures f[11..|f| - 2][i] == body[i] { assert f[2 + (9 + i)] == covered[9 + i]; }
  }

  lemma LegacyParts(dest: Byte, src: Byte, body: Bytes, seqNo: Byte)
    ensures var f := Sealed(dest, TAG_D, [src] + body + [seqNo]);
            |f| == 5 + |body| && f[0] == dest && f[1] == TAG_D && ChecksumOk(f) && f[3..|f| - 2] == body
  {
    hide Checksum;
    var covered := [src] + body + [seqNo];
    var f := Sealed(dest, TAG_D, covered);
    SealedParts(dest, TAG_D, covered);
    hide ChecksumOk, Sealed;
    CoveredAt(f, covered);
    forall i | 0 <= i < |body| ensures f[3..|f| - 2][i] == body[i] { assert f[2 + (1 + i)] == covered[1 + i]; }
  }

  /** Up over the radio: chip id and message arrive, the message's unsent tail as zeros. */
  lemma UplinkRoundTrip(mine: Fid, m: Message, seqNo: Byte)
    requires Length(m) <= MESSAGE_SIZE
    ensures var f := NodeBuild(mine, m, seqNo);
            Fits(f) && GatewayParse(f) == Some(NodeFrame(mine, Padded(Sent(m))))
  {
    hide Length, ChecksumOk, Sealed;
    V2Parts(GATEWAY, m[0], mine, Sent(m), seqNo);
  }

  /** Down over the radio: a frame with a chip id reaches exactly that chip, one without any node at the
      address. */
  lemma DownlinkRoundTrip(nf: NodeFrame, seqNo: Byte, address: Byte, mine: Fid)
    requires Length(nf.msg) <= MESSAGE_SIZE
    ensures var f := GatewayBuild(nf, seqNo);
            && Fits(f) && (f[1] == TAG_E ==> |f| >= 13)
            && NodeParse(address, mine, f)
               == if nf.msg[0] == address && (nf.fid == ZERO_FID || nf.fid == mine) then Some(Padded(Sent(nf.msg))) else None
  {
    hide Length, ChecksumOk, Sealed;
    if nf.fid != ZERO_FID {
      V2Parts(nf.msg[0], GATEWAY, nf.fid, Sent(nf.msg), seqNo);
    } else {
      LegacyParts(nf.msg[0], GATEWAY, Sent(nf.msg), seqNo);
    }
  }

  /** Where everything lies in the node's frame: the gateway's address, the tag 'E', the node's own address, the chip id, the
      bytes that travel, the sequence number, the checksum. */
  lemma NodeFrameLayout(mine: Fid, m: Message, seqNo: Byte)
    requires Length(m) <= MESSAGE_SIZE
    ensures var f, n := NodeBuild(mine, m, seqNo), Length(m);
            && |f| == n + 13 && f[0] == 0x00 && f[1] == 69 && f[2] == m[0] && f[3..11] == mine
            && f[11..n + 11] == m[..n] && f[n + 11] == seqNo && f[n + 12] == Checksum(f[2..n + 12])
  {
    hide Length, Checksum, ChecksumOk, Sealed;
    V2Parts(GATEWAY, m[0], mine, Sent(m), seqNo);
    SealedAt(GATEWAY, TAG_E, [m[0]] + mine + Sent(m) + [seqNo]);
  }

  lemma SealedAt(dest: Byte, tag: Byte, covered: Bytes)
    ensures var f := Sealed(dest, tag, covered);
            && |f| == |covered| + 3 && f[|covered| + 2] == Checksum(f[2..|covered| + 2])
            && (covered != [] ==> f[2] == covered[0] && f[|covered| + 1] == covered[|covered| - 1])
  {
    var f := Sealed(dest, tag, covered);
    assert f[2..|covered| + 2] == covered;
  }

  /** And in the gateway's: the node's address, 'E' and the chip id or 'D' without one. */
  lemma GatewayFrameLayout(nf: NodeFrame, seqNo: Byte)
    requires Length(nf.msg) <= MESSAGE_SIZE
    ensures var f, n := GatewayBuild(nf, seqNo), Length(nf.msg);
            var head := if nf.fid == [0, 0, 0, 0, 0, 0, 0, 0] then 3 else 11;
            && |f| == n + head + 2 && f[0] == nf.msg[0] && f[1] == (if head == 3 then 68 else 69) && f[2] == 0x00
            && (head == 11 ==> f[3..11] == nf.fid)
            && f[head..n + head] == nf.msg[..n] && f[n + head] == seqNo && f[n + head + 1] == Checksum(f[2..n + head + 1])
  {
    hide Length, Checksum, ChecksumOk, Sealed;
    if nf.fid != ZERO_FID {
      V2Parts(nf.msg[0], GATEWAY, nf.fid, Sent(nf.msg), seqNo);
      SealedAt(nf.msg[0], TAG_E, [GATEWAY] + nf.fid + Sent(nf.msg) + [seqNo]);
    } else {
      LegacyParts(nf.msg[0], GATEWAY, Sent(nf.msg), seqNo);
      SealedAt(nf.msg[0], TAG_D, [GATEWAY] + Sent(nf.msg) + [seqNo]);
    }
  }

  // ---------------------------------------------------------------- altered radio frames

  /** The exclusive-or of the bytes from position i on. */
  function XorFrom(f: Bytes, i: nat): Byte
    requires i <= |f|
    decreases |f| - i
  {
    if i == |f| then 0 else f[i] ^ XorFrom(f, i + 1)
  }

  lemma XorCancels(a: Byte, b: Byte, c: Byte)
    ensures (a ^ b) ^ c == a ^ (b ^ c) && a ^ 0 == a
    ensures (a == b <==> a ^ b == 0) && (a ^ c == b ^ c <==> a == b)
  {}

  lemma {:induction false} XorOfSlice(f: Bytes, i: nat, j: nat)
    requires i <= j <= |f|
    ensures Checksum(f[i..j]) ^ XorFrom(f, j) == XorFrom(f, i)
    decreases j - i
  {
    if i == j {
      assert f[i..j] == [];
      XorZero(XorFrom(f, j));
    } else {
      assert f[i..j][..j - 1 - i] == f[i..j - 1];
      XorOfSlice(f, i, j - 1);
      XorCancels(Checksum(f[i..j - 1]), f[j - 1], XorFrom(f, j));
    }
  }

  lemma XorZero(a: Byte)
    ensures 0 ^ a == a && a ^ 0 == a
  {}

  /** A radio frame is accepted by the gateway exactly if it is addressed to it, carries one of the two tags ('D' and 'E'), and
      everything from byte 2 on, the checksum included, adds up to zero. */
  lemma GatewayAcceptsIff(f: Bytes)
    requires Fits(f)
    ensures GatewayParse(f).Some? <==> (f[0] == 0x00 || f[0] == 0xF0) && (f[1] == 68 || f[1] == 69)
                                       && XorFrom(f, 2) == 0
  {
    hide Padded, XorFrom, Checksum, ChecksumOk;
    SealIsZero(f);
  }

  /** A node asks for its own address, and in a frame with a chip id for its own. */
  lemma NodeAcceptsIff(address: Byte, mine: Fid, f: Bytes)
    requires Fits(f) && (f[1] == TAG_E ==> |f| >= 13)
    ensures NodeParse(address, mine, f).Some?
        <==> f[0] == address && (f[1] == 68 || (f[1] == 69 && f[3..11] == mine)) && XorFrom(f, 2) == 0
  {
    hide Padded, XorFrom, Checksum, ChecksumOk;
    SealIsZero(f);
  }

  lemma SealIsZero(f: Bytes)
    requires 5 <= |f|
    ensures ChecksumOk(f) <==> XorFrom(f, 2) == 0
  {
    var n := |f| - 1;
    XorOfSlice(f, 2, n);
    XorCancels(f[n], 0, 0);
    XorCancels(Checksum(f[2..n]), f[n], 0);
  }

  lemma {:induction false} XorOfAltered(f: Bytes, i: nat, k: nat, b: Byte)
    requires i <= |f| && k < |f| && b != f[k]
    ensures XorFrom(f[k := b], i) == XorFrom(f, i) <==> k < i
    decreases |f| - i
  {
    if i < |f| {
      XorOfAltered(f, i + 1, k, b);
      XorDiffers(f[i], f[k := b][i], XorFrom(f, i + 1), XorFrom(f[k := b], i + 1));
    }
  }

  lemma XorDiffers(a: Byte, a': Byte, x: Byte, x': Byte)
    ensures a == a' ==> (a ^ x == a' ^ x' <==> x == x')
    ensures x == x' ==> (a ^ x == a' ^ x' <==> a == a')
  {}

  /** An accepted radio frame that is altered in exactly one byte behind the tag is refused, by the gateway and by every
      node, whichever byte it is. */
  lemma AlteredByteIsRefused(f: Bytes, k: nat, b: Byte, address: Byte, mine: Fid)
    requires Fits(f) && 2 <= k < |f| && b != f[k]
    ensures Fits(f[k := b])
    ensures GatewayParse(f).Some? ==> GatewayParse(f[k := b]).None?
    ensures (f[1] == TAG_E ==> |f| >= 13) && NodeParse(address, mine, f).Some? ==> NodeParse(address, mine, f[k := b]).None?
  {
    hide GatewayParse, NodeParse;
    XorOfAltered(f, 2, k, b);
    GatewayAcceptsIff(f);
    GatewayAcceptsIff(f[k := b]);
    if f[1] == TAG_E ==> |f| >= 13 {
      NodeAcceptsIff(address, mine, f);
      NodeAcceptsIff(address, mine, f[k := b]);
    }
  }

  // ---------------------------------------------------------------- the SPI frame

  const SPI_SIZE := 128
  const SPI_PAYLOAD := 118
  const SPI_CRC_AT := 126
  const SPI_MAGIC: Byte := 0xA5

  const NODE_DATA: Byte := 0x01
  const NODE_CMD: Byte := 0x02

  function Zeros(n: nat): (z: Bytes)
    ensures |z| == n && forall i :: 0 <= i < n ==> z[i] == 0
  {
    if n == 0 then [] else Zeros(n - 1) + [0]
  }

  /** frame_finalize on the first 126 bytes. */
  function Finalized(body: Bytes): Bytes { body + Framing.PutBe(Crc(PRESET, body)) }

  /** frame_make_node_data and frame_make_node_cmd. */
  function SpiBuild(kind: Byte, nf: NodeFrame, seqNo: Byte, pending: Byte): (f: Bytes)
    ensures |f| == SPI_SIZE
  {
    Finalized([SPI_MAGIC, kind, seqNo, pending, 52, 0, 0, 0] + Pack(nf) + Zeros(SPI_PAYLOAD - FRAME_SIZE))
  }

  /** frame_valid */
  predicate SpiValid(f: Bytes)
    requires |f| == SPI_SIZE
  {
    f[0] == SPI_MAGIC && f[126] == High(Crc(PRESET, f[..SPI_CRC_AT])) && f[127] == Low(Crc(PRESET, f[..SPI_CRC_AT]))
  }

  /** route_rx_frame, for the kind of frame the receiving side forwards. */
  function SpiRoute(kind: Byte, f: Bytes): Option<NodeFrame>
    requires |f| == SPI_SIZE
  {
    if !SpiValid(f) || f[1] != kind then None
    else if f[4] >= 52 then Some(NodeFrame(f[8..16], f[16..60]))
    else if f[4] >= 44 then Some(NodeFrame(ZERO_FID, f[8..52]))
    else None
  }

  /** Over SPI a node frame arrives as it was, on the side that handles its kind. */
  lemma SpiRoundTrip(kind: Byte, nf: NodeFrame, seqNo: Byte, pending: Byte)
    ensures SpiRoute(kind, SpiBuild(kind, nf, seqNo, pending)) == Some(nf)
  {
    hide High, Low, Crc, Framing.GetBe;
    var head := [SPI_MAGIC, kind, seqNo, pending, 52, 0, 0, 0];
    var body := head + Pack(nf) + Zeros(SPI_PAYLOAD - FRAME_SIZE);
    var f := SpiBuild(kind, nf, seqNo, pending);
    assert f[..SPI_CRC_AT] == body;
    assert f[8..16] == nf.fid && f[16..60] == nf.msg;
    assert f[0] == SPI_MAGIC && f[1] == kind && f[4] == 52;
    assert f[126] == High(Crc(PRESET, body)) && f[127] == Low(Crc(PRESET, body));
  }

  lemma SpiKind(kind: Byte, nf: NodeFrame, seqNo: Byte, pending: Byte)
    ensures SpiBuild(kind, nf, seqNo, pending)[1] == kind
  {
    hide High, Low, Crc;
  }

  /** Which frames are routed, and how: by kind, and by the length that byte 4 gives; from 52 on a node frame, from 44 on a
      bare message of no known chip, below that nothing. An invalid frame is not routed. */
  lemma SpiRouteIff(kind: Byte, f: Bytes)
    requires |f| == SPI_SIZE
    ensures SpiRoute(kind, f).Some? <==> SpiValid(f) && f[1] == kind && f[4] >= 44
    ensures SpiValid(f) ==> f[0] == 0xA5
    ensures SpiValid(f) && f[1] == kind && f[4] >= 52 ==> SpiRoute(kind, f) == Some(NodeFrame(f[8..16], f[16..60]))
    ensures SpiValid(f) && f[1] == kind && 44 <= f[4] < 52 ==>
              SpiRoute(kind, f) == Some(NodeFrame([0, 0, 0, 0, 0, 0, 0, 0], f[8..52]))
  {}

  /** A valid SPI frame altered only within 16 consecutive bits is no longer valid. */
  lemma SpiBurstIsRejected(f: Bytes, g: Bytes, p: nat)
    requires |f| == SPI_SIZE && SpiValid(f)
    requires |g| == |f| && g != f && WithinBurst(f, g, p)
    ensures !SpiValid(g)
  {
    SpiResidue(f);
    SpiResidue(g);
    BurstChangesCrc(PRESET, f, g, p);
  }

  lemma SpiResidue(f: Bytes)
    requires |f| == SPI_SIZE
    ensures SpiValid(f) <==> f[0] == SPI_MAGIC && Crc(PRESET, f) == 0
  {
    hide High, Low;
    ResidueIffStored(PRESET, f[..SPI_CRC_AT], f[126], f[127]);
    assert f == f[..SPI_CRC_AT] + [f[126], f[127]];
  }

  // ---------------------------------------------------------------- the gateway service

  /** splitNodeFrame */
  function Split(payload: Bytes): Option<NodeFrame> {
    if |payload| >= FRAME_SIZE then Some(NodeFrame(payload[..8], payload[8..52]))
    else if |payload| >= MESSAGE_SIZE then Some(NodeFrame(ZERO_FID, payload[..44]))
    else None
  }

  /** MSG_NODE_CMD on the M4F: exactly a node frame or a bare message. */
  function Dispatched(payload: Bytes): Option<NodeFrame> {
    if |payload| == FRAME_SIZE then Some(NodeFrame(payload[..8], payload[8..]))
    else if |payload| == MESSAGE_SIZE then Some(NodeFrame(ZERO_FID, payload))
    else None
  }

  lemma SplitOfPack(nf: NodeFrame)
    ensures Split(Pack(nf)) == Some(nf) && Dispatched(Pack(nf)) == Some(nf)
  {
    assert Pack(nf)[..8] == nf.fid && Pack(nf)[8..52] == nf.msg;
  }

  /** The gateway service takes 52 bytes or more for a node frame and 44 to 51 for a bare message; the M4F takes exactly 52
      or exactly 44. */
  lemma SplitIff(p: Bytes)
    ensures Split(p).Some? <==> |p| >= 44
    ensures |p| >= 52 ==> Split(p) == Some(NodeFrame(p[..8], p[8..52]))
    ensures 44 <= |p| < 52 ==> Split(p) == Some(NodeFrame([0, 0, 0, 0, 0, 0, 0, 0], p[..44]))
    ensures Dispatched(p) == if |p| == 52 || |p| == 44 then Split(p) else None
  {
    assert |p| == 52 ==> p[8..] == p[8..52];
    assert |p| == 44 ==> p == p[..44];
  }

  /** What travels of a message is as many of its bytes as its byte 3 says. */
  lemma SentIs(m: Message)
    requires Length(m) <= MESSAGE_SIZE
    ensures |Sent(m)| == m[3] as nat && Sent(m) <= m
  {}

  // ---------------------------------------------------------------- all hops

  /** From the node's message queue to the gateway service: radio, SPI, RPMsg frame, split. */
  lemma UplinkEndToEnd(mine: Fid, m: Message, rfSeq: Byte, spiSeq: Byte, pending: Byte, kind: Byte, seqNo: bv16, plen: bv16)
    requires Length(m) <= MESSAGE_SIZE && Framing.Nat(plen) == FRAME_SIZE
    ensures var radio := NodeBuild(mine, m, rfSeq);
            && Fits(radio) && GatewayParse(radio).Some?
            && var spi := SpiBuild(NODE_DATA, GatewayParse(radio).value, spiSeq, pending);
            && spi[1] == 0x01 && SpiRoute(NODE_DATA, spi).Some?
            && var wire := Framing.Encode(kind, seqNo, Pack(SpiRoute(NODE_DATA, spi).value), plen);
            && Framing.Decode(wire).Message?
            && Split(Framing.Decode(wire).payload) == Some(NodeFrame(mine, Padded(Sent(m))))
  {
    hide Length, GatewayParse, SpiRoute, Framing.Nat;
    UplinkRoundTrip(mine, m, rfSeq);
    var nf := NodeFrame(mine, Padded(Sent(m)));
    SpiRoundTrip(NODE_DATA, nf, spiSeq, pending);
    SpiKind(NODE_DATA, nf, spiSeq, pending);
    Framing.RoundTrip(kind, seqNo, Pack(nf), plen);
    SplitOfPack(nf);
  }

  /** From the gateway service to the node: RPMsg frame, dispatch, SPI, radio. */
  lemma DownlinkEndToEnd(nf: NodeFrame, address: Byte, mine: Fid, kind: Byte, seqNo: bv16, plen: bv16,
                         spiSeq: Byte, pending: Byte, rfSeq: Byte)
    requires Length(nf.msg) <= MESSAGE_SIZE && Framing.Nat(plen) == FRAME_SIZE
    ensures var wire := Framing.Encode(kind, seqNo, Pack(nf), plen);
            && Framing.Decode(wire).Message? && Dispatched(Framing.Decode(wire).payload) == Some(nf)
            && var spi := SpiBuild(NODE_CMD, nf, spiSeq, pending);
            && spi[1] == 0x02 && SpiRoute(NODE_CMD, spi) == Some(nf)
            && var radio := GatewayBuild(nf, rfSeq);
            && Fits(radio) && (radio[1] == TAG_E ==> |radio| >= 13)
            && NodeParse(address, mine, radio)
               == if nf.msg[0] == address && (nf.fid == ZERO_FID || nf.fid == mine) then Some(Padded(Sent(nf.msg))) else None
  {
    hide Length, NodeParse, SpiRoute, Framing.Nat, GatewayBuild;
    Framing.RoundTrip(kind, seqNo, Pack(nf), plen);
    SplitOfPack(nf);
    SpiRoundTrip(NODE_CMD, nf, spiSeq, pending);
    SpiKind(NODE_CMD, nf, spiSeq, pending);
    DownlinkRoundTrip(nf, rfSeq, address, mine);
  }
}
