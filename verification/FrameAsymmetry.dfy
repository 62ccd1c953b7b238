/** Where `encode_frame` and `decode_frame` part: what each accepts that the other refuses. */
module FrameAsymmetry {
  import opened Prelude
  import opened Layout
  import opened Payload
  import opened PayloadProofs
  import opened PayloadCodec
  import opened Flags
  import opened Frame
  import opened FrameProofs
  import opened FrameRoundTrip
  import CurrentHeader

  // ---------------------------------------------------------------- one field changed

  lemma RecordPriority(h: Header, n: int)
    ensures ToRecord(h.(priority := n)) == ToRecord(h)["priority" := Num(n)]
  {
  }

  lemma RecordMinor(h: Header, n: int)
    ensures ToRecord(h.(minor := n)) == ToRecord(h)["minor" := Num(n)]
  {
  }

  /** A header that can be written at all can be sealed. */
  lemma CanSeal(schema: Schema, h: Header, payload: seq<byte>)
    requires HeaderOk(schema.header)
    ensures Sealed(schema, h, payload).Some? <==> EncodeFields(schema.header, ToRecord(h.(checksum := 0))).Some?
  {
    hide *;
    if EncodeFields(schema.header, ToRecord(h.(checksum := 0))).Some? {
      var blank := EncodeFields(schema.header, ToRecord(h.(checksum := 0))).value;
      var sum := Checksum(schema, blank + payload);
      ChecksumFits(schema, blank + payload);
      SealSplit(schema.header, h, 0);
      SealSplit(schema.header, h, sum);
      var front, zeros := ChainSplit(Front(schema.header, h), Some(LittleEndian(0, 4)), blank);
      ChainOk(front, LittleEndian(sum, 4));
      SealedFold(schema, h.(checksum := sum), payload, blank, front + LittleEndian(sum, 4));
      assert h.(checksum := sum).(checksum := 0) == h.(checksum := 0);
      SealedIgnoresSum(schema, h, payload);
    } else {
      CannotSeal(schema, h, payload);
    }
  }

  lemma SealedIgnoresSum(schema: Schema, h: Header, payload: seq<byte>)
    ensures Sealed(schema, h.(checksum := 0), payload) == Sealed(schema, h, payload)
  {
    hide EncodeFields, ToRecord, Checksum;
  }

  lemma CannotSeal(schema: Schema, h: Header, payload: seq<byte>)
    requires EncodeFields(schema.header, ToRecord(h.(checksum := 0))).None?
    ensures Sealed(schema, h, payload).None?
  {
    hide EncodeFields, ToRecord, Checksum;
  }

  // ---------------------------------------------------------------- another priority

  /** The encoder does not care about the priority: any value that the field can hold is encoded. */
  lemma AnyPriorityEncodes(schema: Schema, m: Message, given: Given, values: Values, context: Context, p: int)
    requires HeaderOk(schema.header) && ShapeOk(m.shape) && Holds(schema.header, "priority", Num(p))
    requires EncodeFrameSpec(schema, m, given, values, context).Some?
    ensures EncodeFrameSpec(schema, m, given.(priority := Some(p)), values, context).Some?
  {
    hide *;
    var frame := EncodeFrameSpec(schema, m, given, values, context).value;
    var payload := FrameRoundTrip.EncodeUnfold(schema, m, given, values, context, frame);
    var h, other := HeaderFor(schema, m, given, |payload|), HeaderFor(schema, m, given.(priority := Some(p)), |payload|);
    PriorityAlone(schema, m, given, |payload|, p);
    PriorityIgnored(schema, m, h, p, VariantName(values), context,
                    DecodePayloadSpec(schema.judge, m.name, schema.tlv, m.shape, payload).value);
    EncodeFold(schema, m, given.(priority := Some(p)), values, context, payload);
    CanSeal(schema, h, payload);
    EncodeUpdated(schema.header, ToRecord(h.(checksum := 0)), "priority", Num(p));
    RecordPriority(h.(checksum := 0), p);
    assert other.(checksum := 0) == h.(checksum := 0).(priority := p);
    CanSeal(schema, other, payload);
  }

  lemma PriorityAlone(schema: Schema, m: Message, given: Given, length: nat, p: int)
    ensures HeaderFor(schema, m, given.(priority := Some(p)), length) == HeaderFor(schema, m, given, length).(priority := p)
  {
  }

  lemma PriorityIgnored(schema: Schema, m: Message, h: Header, p: int, variant: Option<string>, context: Context,
                        payload: Values)
    requires context.Complete()
    ensures HeaderSendable(schema, m, h.(priority := p), variant, context) == HeaderSendable(schema, m, h, variant, context)
    ensures ContentFault(schema, m, h.(priority := p), payload, context) == ContentFault(schema, m, h, payload, context)
  {
    hide FlagsFault, Uncorrelated, SessionSendable, FragmentFault, Bits, Known;
  }

  /** A frame with another priority than its message has is encoded, and refused for that priority. */
  lemma WrongPriorityRefused(schema: Schema, m: Message, given: Given, values: Values, context: Context, p: int)
    requires WellFormed(schema) && m in schema.messages && ShapeOk(m.shape) && Holds(schema.header, "priority", Num(p))
    requires EncodeFrameSpec(schema, m, given, values, context).Some? && p != m.priority
    ensures var frame := EncodeFrameSpec(schema, m, given.(priority := Some(p)), values, context);
            frame.Some? && DecodeFrameSpec(schema, frame.value, context) == Err(BadPriority)
  {
    hide *;
    Listed(schema, m);
    AnyPriorityEncodes(schema, m, given, values, context, p);
    var frame := EncodeFrameSpec(schema, m, given.(priority := Some(p)), values, context).value;
    EncodeThenDecode(schema, m, given.(priority := Some(p)), values, context, frame);
    PriorityAlone(schema, m, given, |frame| - HEADER_SIZE, p);
  }

  // ---------------------------------------------------------------- another minor version

  /** An accepted frame stays accepted, with the same message and payload, when its minor version is
      replaced by any other and its checksum recomputed. */
  lemma AnyMinorAccepted(schema: Schema, frame: seq<byte>, context: Context, d: Decoded, n: int)
    requires WellFormed(schema) && DecodeFrameSpec(schema, frame, context) == Ok(d) && Holds(schema.header, "minor", Num(n))
    ensures |frame| >= HEADER_SIZE
    ensures var h := d.header.(minor := n, checksum := 0);
            var other := Sealed(schema, h, frame[HEADER_SIZE..]);
            && other.Some?
            && |other.value| >= HEADER_SIZE
            && var sum := Checksum(schema, other.value[..28] + Zeros(4) + frame[HEADER_SIZE..]);
               DecodeFrameSpec(schema, other.value, context) == Ok(Decoded(h.(checksum := sum), d.message, d.payload))
  {
    hide *;
    DecodedFacts(schema, frame, context, d);
    var body, m := frame[HEADER_SIZE..], d.message;
    Listed(schema, m);
    SealedAgain(schema, d.header, frame);
    var h := d.header.(minor := n, checksum := 0);
    CanSeal(schema, d.header.(checksum := 0), body);
    assert d.header.(checksum := 0).(checksum := 0) == d.header.(checksum := 0);
    EncodeUpdated(schema.header, ToRecord(d.header.(checksum := 0)), "minor", Num(n));
    RecordMinor(d.header.(checksum := 0), n);
    assert h == d.header.(checksum := 0).(minor := n) && h.(checksum := 0) == h;
    CanSeal(schema, h, body);
    var other := Sealed(schema, h, body).value;
    var sum := SealedDecodes(schema, h, body, other);
    var sent := h.(checksum := sum);
    DecodeUnfold(schema, other, context, sent, m);
    MinorIgnored(schema, d.header, sent, frame, other, body, n);
    MinorAlone(schema, m, d.header, sent, n, d.payload, context);
    DecodeContentUnfold(schema, m, sent, body, context);
    PriorityMatches(schema, frame, context, d);
  }

  lemma MinorIgnored(schema: Schema, h: Header, sent: Header, frame: seq<byte>, other: seq<byte>, body: seq<byte>, n: int)
    requires |frame| >= HEADER_SIZE && HeaderFault(schema, h, frame).None? && body == frame[HEADER_SIZE..]
    requires |other| == HEADER_SIZE + |body| && other[HEADER_SIZE..] == body
    requires sent == h.(minor := n, checksum := sent.checksum)
    requires sent.checksum == Checksum(schema, other[..28] + Zeros(4) + body)
    ensures HeaderFault(schema, sent, other).None?
  {
    hide Checksum, Zeros, Known;
  }

  lemma MinorAlone(schema: Schema, m: Message, h: Header, sent: Header, n: int, payload: Values, context: Context)
    requires context.Complete() && sent == h.(minor := n, checksum := sent.checksum)
    ensures PolicyFault(schema, m, sent, payload, context) == PolicyFault(schema, m, h, payload, context)
  {
    hide FlagsFault, Uncorrelated, SessionFault, PeersFault, FragmentFault, Bits;
  }

  lemma PriorityMatches(schema: Schema, frame: seq<byte>, context: Context, d: Decoded)
    requires WellFormed(schema) && DecodeFrameSpec(schema, frame, context) == Ok(d)
    ensures d.header.priority == d.message.priority
  {
    hide *;
    var m := FrameDecoded(schema, frame, context, d);
    ContentPriority(schema, m, d.header, frame[HEADER_SIZE..], context, d);
  }

  lemma ContentPriority(schema: Schema, m: Message, h: Header, body: seq<byte>, context: Context, d: Decoded)
    requires ShapeOk(m.shape) && DecodeContent(schema, m, h, body, context) == Ok(d)
    ensures d.header.priority == d.message.priority
  {
    hide ShapeOk, DecodePayloadSpec, PolicyFault;
  }

  lemma ShapesKnown(schema: Schema)
    requires WellFormed(schema)
    ensures ShapesOk(schema)
  {
    hide HeaderOk, ShapesOk, MessageOk;
  }

  /** Such a frame of another minor version than the schema's is accepted and not rebuilt. */
  lemma OtherMinorNotRebuilt(schema: Schema, frame: seq<byte>, context: Context, d: Decoded, n: int)
    requires WellFormed(schema) && DecodeFrameSpec(schema, frame, context) == Ok(d)
    requires Holds(schema.header, "minor", Num(n)) && n != schema.minor
    ensures ShapeOk(d.message.shape)
    ensures exists other, e :: DecodeFrameSpec(schema, other, context) == Ok(e)
                               && e.message == d.message && e.payload == d.payload && e.header.minor == n
                               && EncodeFrameSpec(schema, d.message, Resend(e.header), e.payload, context) != Some(other)
  {
    hide *;
    AnyMinorAccepted(schema, frame, context, d, n);
    ShapesKnown(schema);
    var other := Sealed(schema, d.header.(minor := n, checksum := 0), frame[HEADER_SIZE..]).value;
    var e := DecodeFrameSpec(schema, other, context).value;
    DecodeThenEncode(schema, other, context, e);
  }

  // ---------------------------------------------------------------- another pre-session context

  /** A pre-session frame that needs no authentication is accepted under any session context; under a
      non-zero one it is not rebuilt. */
  lemma AnySessionAccepted(schema: Schema, frame: seq<byte>, context: Context, d: Decoded, s: int)
    requires WellFormed(schema) && DecodeFrameSpec(schema, frame, context) == Ok(d)
    requires d.message.name in schema.frame.sessionZero && d.message.name !in schema.frame.authenticatedSessionZero
    ensures DecodeFrameSpec(schema, frame, context.(session := Some(s))) == Ok(d)
    ensures ShapeOk(d.message.shape)
    ensures s != 0 ==>
              EncodeFrameSpec(schema, d.message, Resend(d.header), d.payload, context.(session := Some(s))) != Some(frame)
  {
    hide *;
    var other := context.(session := Some(s));
    var m := FrameDecoded(schema, frame, context, d);
    HeaderDecodes(schema.header, frame[..HEADER_SIZE]);
    ContentDecoded(schema, m, d.header, frame[HEADER_SIZE..], context, d);
    SessionAlone(schema, m, d.header, frame[HEADER_SIZE..], context, d, s);
    Listed(schema, m);
    DecodeUnfold(schema, frame, other, d.header, m);
    DecodeThenEncode(schema, frame, other, d);
  }

  lemma SessionAlone(schema: Schema, m: Message, h: Header, body: seq<byte>, context: Context, d: Decoded, s: int)
    requires ShapeOk(m.shape) && DecodeContent(schema, m, h, body, context) == Ok(d)
    requires m.name in schema.frame.sessionZero && m.name !in schema.frame.authenticatedSessionZero
    ensures DecodeContent(schema, m, h, body, context.(session := Some(s))) == Ok(d)
  {
    hide ShapeOk, DecodePayloadSpec, FlagsFault, Uncorrelated, FragmentFault, Bits, VariantRoles;
  }

  // ---------------------------------------------------------------- one frame of which all this is true

  /** A pre-session message without payload, alone in a schema with the shipped header. */
  const PING := Message("PING", 1, 2, false, false, {"BRIDGE"}, {"DISPLAY"}, {"UNPAIRED"}, Fixed(Part(0, [])))

  const POLICY := FramePolicy({}, {}, [], true, {}, {"PING"}, {}, {}, {})

  const SCHEMA := Schema(67, 1, 3, CurrentHeader.LAYOUT, [PING], POLICY, Policies(map[], map[]), (_, _, _, _) => None, _ => 0)

  const PEERS := Context(Some("BRIDGE"), Some("DISPLAY"), Some("UNPAIRED"), Some(0), false)

  const GIVEN := Given(None, None, None, None, None, None)

  const PONG := Flat(map[])

  /** A field of one byte or more holds every byte. */
  predicate HoldsBytes(f: Field) {
    f.kind.Scalar? && !f.kind.signed && (f.kind.width == 1 || f.kind.width == 2 || f.kind.width == 4 || f.kind.width == 8)
  }

  lemma ByteEncodes(f: Field, n: int)
    requires HoldsBytes(f) && 0 <= n < 256
    ensures EncodeField(f, Some(Num(n))).Some?
  {
    assert Pow256(f.kind.width) == 256 * Pow256(f.kind.width - 1);
  }

  lemma {:induction false} BytesEncode(fields: seq<Field>, values: Record)
    requires forall i :: 0 <= i < |fields| ==> HoldsBytes(fields[i])
    requires forall i :: 0 <= i < |fields| ==>
               fields[i].name in values && values[fields[i].name].Num? && 0 <= values[fields[i].name].n < 256
    ensures EncodeFields(fields, values).Some?
  {
    if fields != [] {
      ByteEncodes(fields[0], values[fields[0].name].n);
      hide HoldsBytes, EncodeField;
      BytesEncode(fields[1..], values);
    }
  }

  lemma LayoutHoldsBytes()
    ensures forall i :: 0 <= i < |CurrentHeader.LAYOUT| ==> HoldsBytes(CurrentHeader.LAYOUT[i])
    ensures forall n :: 0 <= n < 256 ==> Holds(CurrentHeader.LAYOUT, "priority", Num(n)) && Holds(CurrentHeader.LAYOUT, "minor", Num(n))
  {
    CurrentHeader.FrontPlaces();
    CurrentHeader.BackPlaces();
    hide CurrentHeader.LAYOUT;
    forall n | 0 <= n < 256
      ensures Holds(CurrentHeader.LAYOUT, "priority", Num(n)) && Holds(CurrentHeader.LAYOUT, "minor", Num(n))
    {
      forall i | 0 <= i < |CurrentHeader.LAYOUT| ensures EncodeField(CurrentHeader.LAYOUT[i], Some(Num(n))).Some? {
        ByteEncodes(CurrentHeader.LAYOUT[i], n);
      }
    }
  }

  lemma SmallHeaderEncodes(h: Header)
    requires forall n :: n in HEADER_NAMES ==> 0 <= FieldOf(h, n) < 256
    ensures EncodeFields(CurrentHeader.LAYOUT, ToRecord(h)).Some?
  {
    LayoutHoldsBytes();
    CurrentHeader.NameSet();
    var f := CurrentHeader.LAYOUT;
    hide CurrentHeader.LAYOUT, HEADER_NAMES, FieldOf, HoldsBytes, EncodeFields, Holds;
    forall i | 0 <= i < |f|
      ensures f[i].name in ToRecord(h) && ToRecord(h)[f[i].name].Num? && 0 <= ToRecord(h)[f[i].name].n < 256
    {
      assert f[i].name in WireNames(f);
    }
    BytesEncode(f, ToRecord(h));
  }

  lemma SchemaWellFormed()
    ensures WellFormed(SCHEMA) && PING in SCHEMA.messages && ShapeOk(PING.shape)
  {
    CurrentHeader.CurrentHeaderOk();
    hide HeaderOk, CurrentHeader.LAYOUT;
  }

  lemma PingSendable()
    ensures var h := HeaderFor(SCHEMA, PING, GIVEN, 0);
            && PEERS.Complete() && PeersFault(POLICY, PING, None, PEERS).None? && !NeedsAuthentication(POLICY, PING)
            && HeaderSendable(SCHEMA, PING, h, None, PEERS)
            && ContentFault(SCHEMA, PING, h, PONG, PEERS).None?
  {
    NoFlagsPass();
    hide CurrentHeader.LAYOUT, Bits, FlagsFault;
  }

  lemma NoFlagsPass()
    ensures FlagsFault(POLICY, PING, Bits(0), PEERS.sender, None).None?
  {
    BitsWord(0, NO_FLAGS);
    hide Bits;
  }

  lemma PingHeader()
    ensures var h := HeaderFor(SCHEMA, PING, GIVEN, 0);
            && (forall n :: n in HEADER_NAMES ==> 0 <= FieldOf(h, n) < 256)
            && h.(checksum := 0) == h && h.priority == PING.priority
    ensures VariantName(PONG) == None && SCHEMA.header == CurrentHeader.LAYOUT && SCHEMA.frame == POLICY
  {
    hide CurrentHeader.LAYOUT, HEADER_NAMES;
  }

  lemma PongEncodes()
    ensures EncodePayloadSpec(SCHEMA.judge, PING.name, SCHEMA.tlv, PING.shape, PONG) == Some([])
    ensures ShapeOk(PING.shape)
    ensures DecodePayloadSpec(SCHEMA.judge, PING.name, SCHEMA.tlv, PING.shape, []) == Ok(PONG)
  {
    hide CurrentHeader.LAYOUT;
  }

  /** The hypotheses of the findings above are met: this frame is encoded and accepted, under any
      priority and minor version of one byte and any session. */
  lemma PingFrame() returns (frame: seq<byte>)
    ensures WellFormed(SCHEMA) && PING in SCHEMA.messages && ShapeOk(PING.shape)
    ensures EncodeFrameSpec(SCHEMA, PING, GIVEN, PONG, PEERS) == Some(frame)
    ensures DecodeFrameSpec(SCHEMA, frame, PEERS).Ok? && DecodeFrameSpec(SCHEMA, frame, PEERS).value.message == PING
    ensures PING.name in SCHEMA.frame.sessionZero && PING.name !in SCHEMA.frame.authenticatedSessionZero
    ensures forall n :: 0 <= n < 256 ==> Holds(SCHEMA.header, "priority", Num(n)) && Holds(SCHEMA.header, "minor", Num(n))
  {
    hide CurrentHeader.LAYOUT, HeaderOk, WellFormed, EncodeFrameSpec, DecodeFrameSpec, Holds, HoldsBytes, EncodeFields,
         ToRecord, FieldOf, HEADER_NAMES, HeaderSendable, ContentFault, PeersFault, Sealed, Checksum, ShapeOk;
    SchemaWellFormed();
    PingSendable();
    PongEncodes();
    LayoutHoldsBytes();
    CurrentHeader.CurrentHeaderOk();
    PingHeader();
    var h := HeaderFor(SCHEMA, PING, GIVEN, 0);
    SmallHeaderEncodes(h);
    CanSeal(SCHEMA, h, []);
    EncodeFold(SCHEMA, PING, GIVEN, PONG, PEERS, []);
    frame := EncodeFrameSpec(SCHEMA, PING, GIVEN, PONG, PEERS).value;
    EncodeThenDecode(SCHEMA, PING, GIVEN, PONG, PEERS, frame);
  }
}
