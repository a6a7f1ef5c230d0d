/** The payloads of the upload messages: packed by PushRules (rules.go), unpacked by engine_rpmsg_dispatch
    (engine_rpmsg.c). */
module RuleWire {
  import opened Wrappers
  import opened Crc32
  import opened RuleUpload

  /** MSG_RULE_BEGIN, MSG_RULE_ITEM, MSG_RULE_COMMIT */
  datatype Kind = KindBegin | KindItem | KindCommit

  // ---------------------------------------------------------------- big-endian numbers

  function Value(b: Byte): (n: nat)
    ensures n < 256
  {
    b as nat
  }

  function ByteOf(n: nat): Byte
    requires n < 256
  {
    n as Byte
  }

  lemma Successor(b: Byte)
    requires b != 255
    ensures Value(b + 1) == Value(b) + 1
  {}

  lemma {:induction false} ByteWith(n: nat) returns (b: Byte)
    requires n < 256
    ensures Value(b) == n
  {
    if n == 0 {
      b := 0;
    } else {
      var before := ByteWith(n - 1);
      Successor(before);
      b := before + 1;
    }
  }

  lemma ByteOfValue(b: Byte)
    ensures ByteOf(Value(b)) == b
  {}

  lemma ValueOfByte(n: nat)
    requires n < 256
    ensures Value(ByteOf(n)) == n
  {
    hide Value, ByteOf;
    var b := ByteWith(n);
    ByteOfValue(b);
  }

  function PutU16(n: nat): (p: seq<Byte>)
    requires n < WRAP
    ensures |p| == 2
  {
    [ByteOf(n / 256), ByteOf(n % 256)]
  }

  /** protocol_get_u16_be */
  function GetU16(p: seq<Byte>): (n: nat)
    requires |p| >= 2
    ensures n < WRAP
  {
    Value(p[0]) * 256 + Value(p[1])
  }

  lemma U16RoundTrip(n: nat)
    requires n < WRAP
    ensures GetU16(PutU16(n)) == n
  {
    hide Value, ByteOf;
    ValueOfByte(n / 256);
    ValueOfByte(n % 256);
  }

  lemma U16Back(p: seq<Byte>)
    requires |p| >= 2
    ensures PutU16(GetU16(p)) == p[..2]
  {
    hide Value, ByteOf;
    var a, b := Value(p[0]), Value(p[1]);
    assert (a * 256 + b) / 256 == a && (a * 256 + b) % 256 == b;
    ByteOfValue(p[0]);
    ByteOfValue(p[1]);
  }

  function Byte3(n: bv32): Byte { (n >> 24) as Byte }
  function Byte2(n: bv32): Byte { ((n >> 16) & 0xFF) as Byte }
  function Byte1(n: bv32): Byte { ((n >> 8) & 0xFF) as Byte }
  function Byte0(n: bv32): Byte { (n & 0xFF) as Byte }

  function Word(a: Byte, b: Byte, c: Byte, d: Byte): bv32 {
    ((a as bv32) << 24) | ((b as bv32) << 16) | ((c as bv32) << 8) | (d as bv32)
  }

  function PutU32(n: bv32): (p: seq<Byte>)
    ensures |p| == 4
  {
    [Byte3(n), Byte2(n), Byte1(n), Byte0(n)]
  }

  function GetU32(p: seq<Byte>): bv32
    requires |p| == 4
  {
    Word(p[0], p[1], p[2], p[3])
  }

  lemma WordOfBytes(n: bv32)
    ensures Word(Byte3(n), Byte2(n), Byte1(n), Byte0(n)) == n
  {}

  lemma BytesOfWord(a: Byte, b: Byte, c: Byte, d: Byte)
    ensures var n := Word(a, b, c, d); Byte3(n) == a && Byte2(n) == b && Byte1(n) == c && Byte0(n) == d
  {}

  lemma U32RoundTrip(n: bv32)
    ensures GetU32(PutU32(n)) == n
  {
    hide Word, Byte3, Byte2, Byte1, Byte0;
    WordOfBytes(n);
  }

  lemma U32Back(p: seq<Byte>)
    requires |p| == 4
    ensures PutU32(GetU32(p)) == p
  {
    hide Word, Byte3, Byte2, Byte1, Byte0;
    BytesOfWord(p[0], p[1], p[2], p[3]);
  }

  // ---------------------------------------------------------------- packing and unpacking

  function KindOf(m: Command): Kind {
    match m case RuleBegin(_) => KindBegin case RuleItem(_, _) => KindItem case RuleCommit(_, _) => KindCommit
  }

  /** Numbers that a uint16_t holds. */
  predicate Fits(m: Command) {
    match m
    case RuleBegin(count) => count < WRAP
    case RuleItem(index, _) => index < WRAP
    case RuleCommit(count, _) => count < WRAP
  }

  function Pack(m: Command): seq<Byte>
    requires Fits(m)
  {
    match m
    case RuleBegin(count) => PutU16(count)
    case RuleItem(index, image) => PutU16(index) + image
    case RuleCommit(count, crc) => PutU16(count) + PutU32(crc)
  }

  /** A BEGIN may be longer than its count, the other two have one length each. */
  predicate RightLength(kind: Kind, p: seq<Byte>) {
    match kind
    case KindBegin => |p| >= 2
    case KindItem => |p| == 2 + RULE_BYTES
    case KindCommit => |p| == 6
  }

  /** None is answered with ERROR. */
  function Unpack(kind: Kind, p: seq<Byte>): Option<Command> {
    if !RightLength(kind, p) then None
    else
      match kind
      case KindBegin => Some(RuleBegin(GetU16(p)))
      case KindItem => Some(RuleItem(GetU16(p), p[2..]))
      case KindCommit => Some(RuleCommit(GetU16(p), GetU32(p[2..])))
  }

  /** Each side reads what the other wrote: unpacking undoes packing, and what is unpacked packs to the bytes it
      was read from, save for what follows the count of a BEGIN. */
  lemma WireRoundTrip(m: Command, kind: Kind, p: seq<Byte>)
    ensures Fits(m) ==> Unpack(KindOf(m), Pack(m)) == Some(m)
    ensures Unpack(kind, p).Some?
        <==> (kind.KindBegin? && |p| >= 2) || (kind.KindItem? && |p| == 198) || (kind.KindCommit? && |p| == 6)
    ensures Unpack(kind, p).Some? ==>
              var m' := Unpack(kind, p).value;
              Fits(m') && KindOf(m') == kind && Pack(m') == if kind.KindBegin? then p[..2] else p
  {
    if Fits(m) {
      Packed(m);
    }
    if RightLength(kind, p) {
      U16Back(p);
      match kind
      case KindBegin =>
      case KindItem => assert p == p[..2] + p[2..];
      case KindCommit =>
        U32Back(p[2..]);
        assert p == p[..2] + p[2..];
    }
  }

  /** Where everything lies in the payloads, high bytes first. */
  lemma WireLayout(m: Command)
    requires Fits(m)
    ensures m.RuleBegin? ==> |Pack(m)| == 2 && Value(Pack(m)[0]) * 256 + Value(Pack(m)[1]) == m.count
    ensures m.RuleItem? ==>
              |Pack(m)| == 198 && Value(Pack(m)[0]) * 256 + Value(Pack(m)[1]) == m.index && Pack(m)[2..] == m.image
    ensures m.RuleCommit? ==>
              && |Pack(m)| == 6 && Value(Pack(m)[0]) * 256 + Value(Pack(m)[1]) == m.count
              && Word(Pack(m)[2], Pack(m)[3], Pack(m)[4], Pack(m)[5]) == m.crc
  {
    hide Word, Value, ByteOf, Byte3, Byte2, Byte1, Byte0;
    match m
    case RuleBegin(count) => U16RoundTrip(count);
    case RuleItem(index, image) =>
      U16RoundTrip(index);
      assert Pack(m)[2..] == image;
    case RuleCommit(count, crc) =>
      U16RoundTrip(count);
      WordOfBytes(crc);
  }

  lemma Packed(m: Command)
    requires Fits(m)
    ensures Unpack(KindOf(m), Pack(m)) == Some(m)
  {
    hide GetU32, PutU32;
    match m
    case RuleBegin(count) => U16RoundTrip(count);
    case RuleItem(index, image) =>
      U16RoundTrip(index);
      assert Pack(m)[2..] == image;
    case RuleCommit(count, crc) =>
      U16RoundTrip(count);
      U32RoundTrip(crc);
      assert Pack(m)[2..] == PutU32(crc);
  }

  // ---------------------------------------------------------------- the dispatcher

  /** What a message of the given kind and payload does to the engine, and whether it is answered with ACK. */
  function OnPayload(e: State, kind: Kind, p: seq<Byte>): (State, bool) {
    match Unpack(kind, p) case None => (e, false) case Some(m) => Dispatch(e, m)
  }

  /** The three upload cases of engine_rpmsg_dispatch on the bytes of the message. */
  method OnMessage(e: Engine, kind: Kind, payload: seq<Byte>) returns (acked: bool)
    requires e.Valid()
    modifies e, e.rules, e.count
    ensures (e.Contents(), acked) == OnPayload(old(e.Contents()), kind, payload)
  {
    hide Dispatch, Engine.Contents, GetU32;
    match kind
    case KindBegin =>
      if |payload| < 2 {
        return false;
      }
      acked := e.OnCommand(RuleBegin(GetU16(payload)));
    case KindItem =>
      if |payload| != 2 + RULE_BYTES {
        return false;
      }
      acked := e.OnCommand(RuleItem(GetU16(payload), payload[2..]));
    case KindCommit =>
      if |payload| != 6 {
        return false;
      }
      acked := e.OnCommand(RuleCommit(GetU16(payload), GetU32(payload[2..])));
  }

  /** The bytes that the pusher sends do to the engine what the command that it means does. */
  lemma PayloadMeansCommand(e: State, m: Command)
    requires Fits(m)
    ensures OnPayload(e, KindOf(m), Pack(m)) == Dispatch(e, m)
  {
    hide Dispatch;
    Packed(m);
  }

  // ---------------------------------------------------------------- refusals before anything is sent

  /** PushRules from its rules on: None stands for a rule that encodeRule refuses. */
  function PushAll(e: State, abiOk: bool, encoded: seq<Option<Image>>, w: Weather): (State, bool)
    requires PossibleFor(w, |encoded|)
  {
    if abiOk && forall i :: 0 <= i < |encoded| ==> encoded[i].Some? then Push(e, Images(encoded), w) else (e, false)
  }

  function Images(encoded: seq<Option<Image>>): (images: seq<Image>)
    requires forall i :: 0 <= i < |encoded| ==> encoded[i].Some?
    ensures |images| == |encoded| && forall i :: 0 <= i < |images| ==> images[i] == encoded[i].value
  {
    if encoded == [] then [] else Images(encoded[..|encoded| - 1]) + [encoded[|encoded| - 1].value]
  }

  /** A nil error means that every rule could be encoded and the engine runs exactly the encoded rules; an error leaves
      it with those or the old ones. */
  lemma PushAllMeansAll(e: State, abiOk: bool, encoded: seq<Option<Image>>, w: Weather)
    requires e.Sound() && PossibleFor(w, |encoded|)
    ensures var (e', ok) := PushAll(e, abiOk, encoded, w);
            && e'.Sound()
            && (ok ==> abiOk && |encoded| <= MAX_RULES && |e'.Live()| == |encoded|
                       && forall i :: 0 <= i < |encoded| ==> encoded[i] == Some(e'.Live()[i]))
            && (!ok ==> e'.Live() == e.Live()
                        || (|e'.Live()| == |encoded| && forall i :: 0 <= i < |encoded| ==> encoded[i] == Some(e'.Live()[i])))
  {
    if abiOk && forall i :: 0 <= i < |encoded| ==> encoded[i].Some? {
      var images := Images(encoded);
      PushIsAtomic(e, images, w);
      if Push(e, images, w).1 {
        NilMeansPushed(e, images, w);
      }
    }
  }

  /** PushRules with its refusals. */
  method PushRulesFrom(e: Engine, abiOk: bool, encoded: seq<Option<Image>>, w: Weather) returns (ok: bool)
    requires e.Valid() && PossibleFor(w, |encoded|)
    modifies e, e.rules, e.count
    ensures (e.Contents(), ok) == PushAll(old(e.Contents()), abiOk, encoded, w)
  {
    hide Push, Engine.Contents;
    if !abiOk {
      return false;
    }
    if |encoded| > MAX_RULES {
      TooManyIsRefused(e.Contents(), abiOk, encoded, w);
      return false;
    }
    var images: seq<Image> := [];
    for i := 0 to |encoded|
      invariant forall k :: 0 <= k < i ==> encoded[k].Some?
      invariant |images| == i && forall k :: 0 <= k < i ==> images[k] == encoded[k].value
    {
      if encoded[i].None? {
        return false;
      }
      images := images + [encoded[i].value];
    }
    assert images == Images(encoded);
    ok := PushRules(e, images, w);
  }

  lemma TooManyIsRefused(e: State, abiOk: bool, encoded: seq<Option<Image>>, w: Weather)
    requires |encoded| > MAX_RULES && PossibleFor(w, |encoded|)
    ensures PushAll(e, abiOk, encoded, w) == (e, false)
  {}
}
