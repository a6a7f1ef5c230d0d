/** The frames of RfFrames as the firmware makes and checks them, in place in fixed buffers. */
module RfBuffers {
  import opened Crc16
  import opened RfFrames

  /** MAX_MSG_SIZE of the radio tasks. */
  const RF_BUFFER := 70

  method CalcChecksum(buf: array<Byte>, at: nat, len: nat) returns (crc: Byte)
    requires at + len <= buf.Length
    ensures crc == Checksum(buf[at..at + len])
  {
    crc := 0;
    for i := 0 to len
      invariant crc == Checksum(buf[at..at + i])
    {
      assert buf[at..at + i + 1][..i] == buf[at..at + i];
      crc := crc ^ buf[at + i];
    }
  }

  /** memcpy into a buffer. */
  method Copy(buf: array<Byte>, at: nat, src: Bytes)
    requires at + |src| <= buf.Length
    modifies buf
    ensures buf[..] == old(buf[..at]) + src + old(buf[at + |src|..])
  {
    for i := 0 to |src|
      invariant buf[..at] == old(buf[..at])
      invariant buf[at..at + i] == src[..i]
      invariant buf[at + i..] == old(buf[at + i..])
    {
      buf[at + i] := src[i];
      assert buf[at..at + i + 1] == buf[at..at + i] + [src[i]];
    }
    assert buf[..] == buf[..at] + buf[at..at + |src|] + buf[at + |src|..];
  }

  lemma CopiedFront(before: Bytes, at: nat, src: Bytes, after: Bytes)
    requires at + |src| <= |before| && after == before[..at] + src + before[at + |src|..]
    ensures |after| == |before| && after[..at + |src|] == before[..at] + src
  {}

  /** The fields behind destination and tag, copied one after the other, and the checksum over them. */
  method Seal(buf: array<Byte>, dest: Byte, tag: Byte, covered: Bytes) returns (n: nat)
    requires buf.Length == RF_BUFFER && |covered| + 3 <= RF_BUFFER
    modifies buf
    ensures n == |covered| + 3 && buf[..n] == Sealed(dest, tag, covered)
  {
    hide Checksum;
    buf[0] := dest;
    buf[1] := tag;
    assert buf[..2] == [dest, tag];
    ghost var before := buf[..];
    Copy(buf, 2, covered);
    CopiedFront(before, 2, covered, buf[..]);
    n := |covered| + 3;
    assert buf[..n - 1] == [dest, tag] + covered;
    assert buf[2..2 + |covered|] == covered;
    var crc := CalcChecksum(buf, 2, |covered|);
    buf[n - 1] := crc;
    assert buf[..n] == buf[..n - 1] + [crc];
  }

  /** The node's frame: source, chip id, message, sequence number. */
  method NodeBuildInto(buf: array<Byte>, mine: Fid, m: Message, len: nat, seqNo: Byte) returns (n: nat)
    requires buf.Length == RF_BUFFER && len == Length(m) <= MESSAGE_SIZE
    modifies buf
    ensures buf.Length >= n == 13 + len && buf[..n] == NodeBuild(mine, m, seqNo)
  {
    hide Length, Sealed;
    n := Seal(buf, GATEWAY, TAG_E, [m[0]] + mine + m[..len] + [seqNo]);
  }

  /** The gateway's frame; a chip id of all zeros makes it a legacy one. */
  method GatewayBuildInto(buf: array<Byte>, nf: NodeFrame, len: nat, seqNo: Byte) returns (n: nat)
    requires buf.Length == RF_BUFFER && len == Length(nf.msg) <= MESSAGE_SIZE
    modifies buf
    ensures n <= buf.Length && buf[..n] == GatewayBuild(nf, seqNo)
  {
    hide Length, Sealed;
    var hasFactory := false;
    for k := 0 to 8
      invariant hasFactory <==> exists j :: 0 <= j < k && nf.fid[j] != 0
    {
      if nf.fid[k] != 0 {
        hasFactory := true;
      }
    }
    SomeByteSet(nf.fid);
    if hasFactory {
      n := Seal(buf, nf.msg[0], TAG_E, [GATEWAY] + nf.fid + nf.msg[..len] + [seqNo]);
    } else {
      n := Seal(buf, nf.msg[0], TAG_D, [GATEWAY] + nf.msg[..len] + [seqNo]);
    }
  }

  lemma SomeByteSet(fid: Fid)
    ensures (exists j :: 0 <= j < 8 && fid[j] != 0) <==> fid != ZERO_FID
  {
    if forall j :: 0 <= j < 8 ==> fid[j] == 0 {
      assert fid == ZERO_FID;
    }
  }

  /** frame_finalize: the magic, and the register over the first 126 bytes. */
  method Finalize(buf: array<Byte>)
    requires buf.Length == SPI_SIZE
    modifies buf
    ensures buf[..] == Finalized([SPI_MAGIC] + old(buf[1..SPI_CRC_AT]))
  {
    hide High, Low, Crc;
    buf[0] := SPI_MAGIC;
    ghost var body := buf[..SPI_CRC_AT];
    assert body == [SPI_MAGIC] + old(buf[1..SPI_CRC_AT]);
    var c := ComputeCrc(buf, SPI_CRC_AT);
    buf[126] := High(c);
    buf[127] := Low(c);
    assert buf[..] == body + [High(c), Low(c)];
  }

  /** frame_valid */
  method FrameValid(buf: array<Byte>) returns (ok: bool)
    requires buf.Length == SPI_SIZE
    ensures ok == SpiValid(buf[..])
  {
    hide High, Low, Crc;
    if buf[0] != SPI_MAGIC {
      return false;
    }
    var c := ComputeCrc(buf, SPI_CRC_AT);
    assert buf[..][..SPI_CRC_AT] == buf[..SPI_CRC_AT];
    return buf[126] == High(c) && buf[127] == Low(c);
  }

  method Clear(buf: array<Byte>)
    requires buf.Length == SPI_SIZE
    modifies buf
    ensures forall k :: 0 <= k < SPI_SIZE ==> buf[k] == 0
  {
    for i := 0 to SPI_SIZE
      invariant forall k :: 0 <= k < i ==> buf[k] == 0
    {
      buf[i] := 0;
    }
  }

  /** A cleared frame with its header fields and its payload in place. */
  lemma NodeFrameBody(body: Bytes, head: Bytes, nf: NodeFrame, cleared: Bytes)
    requires |head| == 8 && |cleared| == SPI_SIZE && cleared[..8] == head
    requires forall k :: 8 <= k < SPI_SIZE ==> cleared[k] == 0
    requires body == cleared[..8] + Pack(nf) + cleared[60..]
    ensures |body| == SPI_SIZE
    ensures body[1..SPI_CRC_AT] == head[1..] + Pack(nf) + Zeros(SPI_PAYLOAD - FRAME_SIZE)
  {
    assert cleared[60..SPI_CRC_AT] == Zeros(SPI_PAYLOAD - FRAME_SIZE);
  }

  /** frame_make_node_data, frame_make_node_cmd */
  method MakeNodeFrame(buf: array<Byte>, kind: Byte, nf: NodeFrame, seqNo: Byte, pending: Byte)
    requires buf.Length == SPI_SIZE
    modifies buf
    ensures buf[..] == SpiBuild(kind, nf, seqNo, pending)
  {
    hide Finalized, Pack, Zeros;
    Clear(buf);
    buf[1], buf[2], buf[3], buf[4] := kind, seqNo, pending, 52;
    ghost var head := [0, kind, seqNo, pending, 52, 0, 0, 0];
    ghost var cleared := buf[..];
    assert cleared[..8] == head;
    Copy(buf, 8, Pack(nf));
    NodeFrameBody(buf[..], head, nf, cleared);
    assert buf[1..SPI_CRC_AT] == buf[..][1..SPI_CRC_AT];
    Finalize(buf);
    assert [SPI_MAGIC] + (head[1..] + Pack(nf) + Zeros(SPI_PAYLOAD - FRAME_SIZE))
        == [SPI_MAGIC, kind, seqNo, pending, 52, 0, 0, 0] + Pack(nf) + Zeros(SPI_PAYLOAD - FRAME_SIZE);
  }
}
