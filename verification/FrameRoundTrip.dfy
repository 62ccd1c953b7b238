/** What `encode_frame` and `decode_frame` promise each other under one peer and session context. */
module FrameRoundTrip {
  import opened Prelude
  import opened Layout
  import opened Payload
  import opened PayloadProofs
  import opened PayloadCodec
  import opened Flags
  import opened Frame
  import opened FrameProofs

  // ---------------------------------------------------------------- variants

  /** Two variant names get the same treatment. */
  ghost predicate Alike(policy: FramePolicy, m: Message, a: Option<string>, b: Option<string>) {
    VariantRoles(policy, m, a) == VariantRoles(policy, m, b) && IsResponse(policy, m, a) == IsResponse(policy, m, b)
  }

  /** The variant name is of no consequence for a message without variants. */
  lemma VariantIrrelevant(policy: FramePolicy, m: Message, variant: Option<string>)
    requires PolicyCovers(policy, m) && !m.shape.Variants?
    ensures Alike(policy, m, variant, None)
  {
    if variant.Some? {
      PolicyForListed(policy.variantPolicies, m.name, variant.value);
      assert (m.name, variant.value).0 == m.name;
    }
  }

  lemma AlikeVerdicts(policy: FramePolicy, m: Message, a: Option<string>, b: Option<string>, flags: FlagSet,
                      correlation: int, context: Context)
    requires Alike(policy, m, a, b) && context.Complete()
    ensures FlagsFault(policy, m, flags, context.sender, a) == FlagsFault(policy, m, flags, context.sender, b)
    ensures Uncorrelated(policy, m, a, correlation) == Uncorrelated(policy, m, b, correlation)
    ensures PeersFault(policy, m, a, context) == PeersFault(policy, m, b, context)
  {
    hide VariantRoles, IsResponse;
  }

  lemma {:induction false} NamedAsAsked(vs: seq<Variant>, name: string)
    ensures VariantNamed(vs, name).Some? ==> VariantNamed(vs, name).value.name == name
  {
    if vs != [] {
      NamedAsAsked(vs[1..], name);
    }
  }

  /** The variant that decodes is the variant that was asked for. */
  lemma SentVariant(policy: FramePolicy, m: Message, policies: Policies, values: Values)
    requires PolicyCovers(policy, m) && EncodeShape(policies, m.shape, values).Some?
    ensures Alike(policy, m, VariantName(values), NormalValues(m.shape, values).variant)
  {
    hide PolicyCovers, VariantRoles, IsResponse, EncodeFields, Normal;
    if m.shape.Variants? {
      NamedAsAsked(m.shape.variants, values.variant.GetOr(""));
      hide VariantNamed;
    } else {
      VariantIrrelevant(policy, m, VariantName(values));
      hide EncodeShape;
    }
  }

  lemma ReadVariant(policy: FramePolicy, m: Message, policies: Policies, data: seq<byte>)
    requires MessageOk(policy, m) && DecodeShape(policies, m.shape, data).Ok?
    ensures VariantName(DecodeShape(policies, m.shape, data).value) == DecodeShape(policies, m.shape, data).value.variant
  {
    hide DecodeFields, DecodeRecords, PolicyCovers, PartOk, CountFieldOk, SmallestSize, LargestSize;
    if m.shape.Variants? {
      SizedAmong(m.shape.variants, |data|);
    }
  }

  lemma SizedAmong(vs: seq<Variant>, size: nat)
    requires DistinctVariants(vs)
    ensures VariantSized(vs, size).Some? ==> VariantSized(vs, size).value.name != ""
  {
    if VariantSized(vs, size).Some? {
      var i := VariantFound(vs, size);
    }
  }

  // ---------------------------------------------------------------- unfolding the two directions

  lemma Listed(schema: Schema, m: Message)
    requires WellFormed(schema) && m in schema.messages
    ensures MessageOk(schema.frame, m) && ShapeOk(m.shape) && Unambiguous(m.shape) && PolicyCovers(schema.frame, m)
    ensures 0 <= m.priority <= 4
    ensures MessageWithId(schema.messages, m.id) == Some(m)
    ensures HeaderOk(schema.header)
  {
    hide HeaderOk, ShapeOk, Unambiguous, PolicyCovers, MessageWithId;
    MessageFound(schema.messages, m.id);
  }

  lemma EncodeUnfold(schema: Schema, m: Message, given: Given, values: Values, context: Context, frame: seq<byte>)
    returns (payload: seq<byte>)
    requires ShapeOk(m.shape) && EncodeFrameSpec(schema, m, given, values, context) == Some(frame)
    ensures context.Complete() && PeersFault(schema.frame, m, VariantName(values), context).None?
    ensures NeedsAuthentication(schema.frame, m) ==> context.authenticated
    ensures EncodePayloadSpec(schema.judge, m.name, schema.tlv, m.shape, values) == Some(payload) && |payload| <= MAX_PAYLOAD
    ensures var h := HeaderFor(schema, m, given, |payload|);
            && HeaderSendable(schema, m, h, VariantName(values), context)
            && Sealed(schema, h, payload) == Some(frame)
            && DecodePayloadSpec(schema.judge, m.name, schema.tlv, m.shape, payload).Ok?
            && ContentFault(schema, m, h, DecodePayloadSpec(schema.judge, m.name, schema.tlv, m.shape, payload).value,
                            context).None?
  {
    hide ShapeOk, PeersFault, NeedsAuthentication, EncodePayloadSpec, DecodePayloadSpec, HeaderFor, HeaderSendable,
         ContentFault, Sealed, VariantName;
    payload := EncodePayloadSpec(schema.judge, m.name, schema.tlv, m.shape, values).value;
  }

  lemma EncodeFold(schema: Schema, m: Message, given: Given, values: Values, context: Context, payload: seq<byte>)
    requires ShapeOk(m.shape)
    requires context.Complete() && PeersFault(schema.frame, m, VariantName(values), context).None?
    requires NeedsAuthentication(schema.frame, m) ==> context.authenticated
    requires EncodePayloadSpec(schema.judge, m.name, schema.tlv, m.shape, values) == Some(payload) && |payload| <= MAX_PAYLOAD
    requires HeaderSendable(schema, m, HeaderFor(schema, m, given, |payload|), VariantName(values), context)
    requires DecodePayloadSpec(schema.judge, m.name, schema.tlv, m.shape, payload).Ok?
    requires ContentFault(schema, m, HeaderFor(schema, m, given, |payload|),
                          DecodePayloadSpec(schema.judge, m.name, schema.tlv, m.shape, payload).value, context).None?
    ensures EncodeFrameSpec(schema, m, given, values, context)
         == Sealed(schema, HeaderFor(schema, m, given, |payload|), payload)
  {
    hide ShapeOk, PeersFault, NeedsAuthentication, EncodePayloadSpec, DecodePayloadSpec, HeaderFor, HeaderSendable,
         ContentFault, Sealed, VariantName;
  }

  lemma DecodeUnfold(schema: Schema, frame: seq<byte>, context: Context, h: Header, m: Message)
    requires WellFormed(schema) && |frame| >= HEADER_SIZE && ShapeOk(m.shape)
    requires DecodeFields(schema.header, frame[..HEADER_SIZE]) == Ok(ToRecord(h))
    ensures HeaderFault(schema, h, frame).Some? ==>
              DecodeFrameSpec(schema, frame, context) == Err(HeaderFault(schema, h, frame).value)
    ensures HeaderFault(schema, h, frame).None? && MessageWithId(schema.messages, h.messageType) == Some(m) ==>
              DecodeFrameSpec(schema, frame, context) == DecodeContent(schema, m, h, frame[HEADER_SIZE..], context)
  {
    HeaderRecord(h);
    hide ShapeOk, WellFormed, DecodeFields, ToRecord, FromRecord, HeaderFault, MessageWithId, DecodeContent;
  }

  /** The encoder's checks leave the decoder nothing to complain about but the payload in its frame. */
  lemma SendablePasses(schema: Schema, m: Message, h: Header, payload: Values, context: Context)
    requires context.Complete() && PolicyCovers(schema.frame, m)
    requires NeedsAuthentication(schema.frame, m) ==> context.authenticated
    requires HeaderSendable(schema, m, h, payload.variant, context)
    requires PeersFault(schema.frame, m, payload.variant, context).None?
    ensures PolicyFault(schema, m, h, payload, context) == ContentFault(schema, m, h, payload, context)
  {
    hide VariantRoles, IsResponse, Bits, ContentFault, Known, PeersFault;
  }

  // ---------------------------------------------------------------- encode, then decode

  /** Whatever the encoder produces decodes, under the same context, to the header it was given and the
      normal form of its payload, unless the header was given another priority than the message has:
      then, and only then, it is refused. */
  lemma EncodeThenDecode(schema: Schema, m: Message, given: Given, values: Values, context: Context, frame: seq<byte>)
    requires WellFormed(schema) && m in schema.messages && ShapeOk(m.shape)
    requires EncodeFrameSpec(schema, m, given, values, context) == Some(frame)
    ensures |frame| >= HEADER_SIZE
    ensures var sum := Checksum(schema, frame[..28] + Zeros(4) + frame[HEADER_SIZE..]);
            var h := HeaderFor(schema, m, given, |frame| - HEADER_SIZE).(checksum := sum);
            DecodeFrameSpec(schema, frame, context)
              == if h.priority == m.priority then Ok(Decoded(h, m, NormalValues(m.shape, values))) else Err(BadPriority)
  {
    hide *;
    Listed(schema, m);
    var payload := EncodeUnfold(schema, m, given, values, context, frame);
    var h := HeaderFor(schema, m, given, |payload|);
    HeaderForUnfold(schema, m, given, |payload|);
    var sum := SealedDecodes(schema, h, payload, frame);
    var sent := h.(checksum := sum);
    DecodeUnfold(schema, frame, context, sent, m);
    EncodedShape(schema.judge, m.name, schema.tlv, m.shape, values);
    DecodeEncodedPayload(schema.judge, m.name, schema.tlv, m.shape, values, payload);
    SentVariant(schema.frame, m, schema.tlv, values);
    var decoded := NormalValues(m.shape, values);
    AlikeVerdicts(schema.frame, m, VariantName(values), decoded.variant, Bits(h.flags), h.correlation, context);
    SendableAlike(schema, m, h, sent, VariantName(values), decoded.variant, context);
    SendablePasses(schema, m, sent, decoded, context);
    ContentIgnoresChecksum(schema, m, h, sent, decoded, context);
    SentHeader(schema, sent, payload, frame);
    DecodeContentUnfold(schema, m, sent, payload, context);
  }

  lemma HeaderForUnfold(schema: Schema, m: Message, given: Given, length: nat)
    ensures var h := HeaderFor(schema, m, given, length);
            && h.magic == schema.magic && h.major == schema.major && h.minor == schema.minor
            && h.headerLength == HEADER_SIZE && h.messageType == m.id && h.payloadLength == length
            && h.reserved == 0 && h.checksum == 0
  {
  }

  lemma EncodedShape(judge: Judge, name: string, policies: Policies, s: Shape, values: Values)
    ensures EncodePayloadSpec(judge, name, policies, s, values).Some? ==> EncodeShape(policies, s, values).Some?
  {
    hide EncodeShape;
  }

  lemma SendableAlike(schema: Schema, m: Message, h: Header, sent: Header, a: Option<string>, b: Option<string>,
                      context: Context)
    requires context.Complete() && sent == h.(checksum := sent.checksum) && HeaderSendable(schema, m, h, a, context)
    requires FlagsFault(schema.frame, m, Bits(h.flags), context.sender, a)
          == FlagsFault(schema.frame, m, Bits(h.flags), context.sender, b)
    requires Uncorrelated(schema.frame, m, a, h.correlation) == Uncorrelated(schema.frame, m, b, h.correlation)
    ensures HeaderSendable(schema, m, sent, b, context) && Known(sent.flags)
  {
    hide FlagsFault, Uncorrelated, SessionSendable, Bits;
  }

  lemma ContentIgnoresChecksum(schema: Schema, m: Message, h: Header, sent: Header, payload: Values, context: Context)
    requires sent == h.(checksum := sent.checksum)
    ensures ContentFault(schema, m, sent, payload, context) == ContentFault(schema, m, h, payload, context)
  {
    hide FragmentFault, Bits;
  }

  lemma SentHeader(schema: Schema, sent: Header, payload: seq<byte>, frame: seq<byte>)
    requires Known(sent.flags)
    requires sent.magic == schema.magic && sent.major == schema.major && sent.headerLength == HEADER_SIZE
    requires sent.payloadLength == |payload| <= MAX_PAYLOAD
    requires |frame| == HEADER_SIZE + |payload| && frame[HEADER_SIZE..] == payload
    requires sent.checksum == Checksum(schema, frame[..28] + Zeros(4) + payload)
    ensures HeaderFault(schema, sent, frame) == if sent.priority > 4 then Some(BadPriority) else None
  {
    hide Checksum, Zeros;
  }

  lemma DecodeContentUnfold(schema: Schema, m: Message, h: Header, body: seq<byte>, context: Context)
    requires ShapeOk(m.shape) && context.Complete()
    requires DecodePayloadSpec(schema.judge, m.name, schema.tlv, m.shape, body).Ok?
    ensures var payload := DecodePayloadSpec(schema.judge, m.name, schema.tlv, m.shape, body).value;
            DecodeContent(schema, m, h, body, context)
              == if h.priority != m.priority then Err(BadPriority)
                 else if PolicyFault(schema, m, h, payload, context).Some? then
                   Err(PolicyFault(schema, m, h, payload, context).value)
                 else Ok(Decoded(h, m, payload))
  {
    hide ShapeOk, DecodePayloadSpec, PolicyFault;
  }

  // ---------------------------------------------------------------- decode, then encode

  /** The header dict of a decoded frame, handed back to the encoder. */
  function Resend(h: Header): Given {
    Given(Some(h.flags), Some(h.priority), Some(h.session), Some(h.sequence), Some(h.senderTime), Some(h.correlation))
  }

  /** Every accepted frame is rebuilt byte for byte by the encoder under the same context exactly when
      it carries the current minor version and, for a pre-session message, the context has session
      zero: the decoder checks neither. */
  lemma DecodeThenEncode(schema: Schema, frame: seq<byte>, context: Context, d: Decoded)
    requires WellFormed(schema) && DecodeFrameSpec(schema, frame, context) == Ok(d)
    ensures d.message in schema.messages && ShapeOk(d.message.shape)
    ensures EncodeFrameSpec(schema, d.message, Resend(d.header), d.payload, context) == Some(frame) <==>
              && d.header.minor == schema.minor
              && (d.message.name in schema.frame.sessionZero ==> context.session == Some(0))
  {
    hide *;
    DecodedFacts(schema, frame, context, d);
    var h, m, body := d.header, d.message, frame[HEADER_SIZE..];
    Listed(schema, m);
    ReadPayload(schema, m, body, d.payload);
    PolicyUnfold(schema, m, h, d.payload, context);
    SealedAgain(schema, h, frame);
    if EncodeFrameSpec(schema, m, Resend(h), d.payload, context) == Some(frame) {
      var payload := EncodeUnfold(schema, m, Resend(h), d.payload, context, frame);
      SameMinor(schema, m, h, payload, frame);
      SendableSession(schema, m, HeaderFor(schema, m, Resend(h), |payload|), VariantName(d.payload), context);
    }
    if h.minor == schema.minor && (m.name in schema.frame.sessionZero ==> context.session == Some(0)) {
      HeaderAgain(schema, m, h, frame);
      ReadSendable(schema, m, h, d.payload.variant, context);
      ContentIgnoresChecksum(schema, m, h, h.(checksum := 0), d.payload, context);
      EncodeFold(schema, m, Resend(h), d.payload, context, body);
    }
  }

  lemma DecodedFacts(schema: Schema, frame: seq<byte>, context: Context, d: Decoded)
    requires WellFormed(schema) && DecodeFrameSpec(schema, frame, context) == Ok(d)
    ensures d.message in schema.messages && ShapeOk(d.message.shape) && d.header.messageType == d.message.id
    ensures |frame| >= HEADER_SIZE && DecodeFields(schema.header, frame[..HEADER_SIZE]) == Ok(ToRecord(d.header))
    ensures HeaderFault(schema, d.header, frame).None? && context.Complete()
    ensures DecodePayloadSpec(schema.judge, d.message.name, schema.tlv, d.message.shape, frame[HEADER_SIZE..]) == Ok(d.payload)
    ensures PolicyFault(schema, d.message, d.header, d.payload, context).None?
    ensures HeaderOk(schema.header)
    ensures d.header.checksum == Checksum(schema, frame[..28] + Zeros(4) + frame[HEADER_SIZE..])
    ensures |frame[HEADER_SIZE..]| <= MAX_PAYLOAD
  {
    hide *;
    var m := FrameDecoded(schema, frame, context, d);
    ContentDecoded(schema, m, d.header, frame[HEADER_SIZE..], context, d);
    HeaderDecodes(schema.header, frame[..HEADER_SIZE]);
    FaultlessHeader(schema, d.header, frame);
  }

  lemma FrameDecoded(schema: Schema, frame: seq<byte>, context: Context, d: Decoded) returns (m: Message)
    requires WellFormed(schema) && DecodeFrameSpec(schema, frame, context) == Ok(d)
    ensures |frame| >= HEADER_SIZE && HeaderOk(schema.header) && DecodeFields(schema.header, frame[..HEADER_SIZE]).Ok?
    ensures var h := FromRecord(DecodeFields(schema.header, frame[..HEADER_SIZE]).value);
            && h == d.header
            && HeaderFault(schema, h, frame).None?
            && m in schema.messages && m.id == h.messageType && ShapeOk(m.shape)
            && DecodeContent(schema, m, h, frame[HEADER_SIZE..], context) == Ok(d)
  {
    hide HeaderOk, MessageOk, ShapeOk, DecodeFields, FromRecord, MessageWithId, HeaderFault, DecodeContent;
    var h := FromRecord(DecodeFields(schema.header, frame[..HEADER_SIZE]).value);
    MessageListed(schema, h.messageType);
    m := MessageWithId(schema.messages, h.messageType).value;
    ContentHeader(schema, m, h, frame[HEADER_SIZE..], context);
  }

  lemma ContentHeader(schema: Schema, m: Message, h: Header, body: seq<byte>, context: Context)
    requires ShapeOk(m.shape) && DecodeContent(schema, m, h, body, context).Ok?
    ensures DecodeContent(schema, m, h, body, context).value.header == h
  {
    hide ShapeOk, DecodePayloadSpec, PolicyFault;
  }

  lemma ContentDecoded(schema: Schema, m: Message, h: Header, body: seq<byte>, context: Context, d: Decoded)
    requires ShapeOk(m.shape) && DecodeContent(schema, m, h, body, context) == Ok(d)
    ensures context.Complete() && d.header == h && d.message == m
    ensures DecodePayloadSpec(schema.judge, m.name, schema.tlv, m.shape, body) == Ok(d.payload)
    ensures PolicyFault(schema, m, h, d.payload, context).None?
  {
    hide ShapeOk, DecodePayloadSpec, PolicyFault;
  }

  lemma FaultlessHeader(schema: Schema, h: Header, frame: seq<byte>)
    requires |frame| >= HEADER_SIZE && HeaderFault(schema, h, frame).None?
    ensures h.checksum == Checksum(schema, frame[..28] + Zeros(4) + frame[HEADER_SIZE..])
    ensures |frame[HEADER_SIZE..]| <= MAX_PAYLOAD
  {
    hide Checksum, Zeros, Known;
  }

  lemma ReadPayload(schema: Schema, m: Message, body: seq<byte>, payload: Values)
    requires MessageOk(schema.frame, m) && ShapeOk(m.shape) && Unambiguous(m.shape)
    requires DecodePayloadSpec(schema.judge, m.name, schema.tlv, m.shape, body) == Ok(payload)
    ensures EncodePayloadSpec(schema.judge, m.name, schema.tlv, m.shape, payload) == Some(body)
    ensures VariantName(payload) == payload.variant
  {
    EncodeDecodedPayload(schema.judge, m.name, schema.tlv, m.shape, body, payload);
    ReadVariant(schema.frame, m, schema.tlv, body);
    hide MessageOk, ShapeOk, Unambiguous, DecodeShape, EncodeShape;
  }

  /** What the decoder has checked by the time it accepts. */
  lemma PolicyUnfold(schema: Schema, m: Message, h: Header, payload: Values, context: Context)
    requires context.Complete() && PolicyFault(schema, m, h, payload, context).None?
    ensures FlagsFault(schema.frame, m, Bits(h.flags), context.sender, payload.variant).None?
    ensures !Uncorrelated(schema.frame, m, payload.variant, h.correlation)
    ensures SessionFault(schema.frame, m, h.session, context).None?
    ensures PeersFault(schema.frame, m, payload.variant, context).None?
    ensures ContentFault(schema, m, h, payload, context).None?
  {
    hide FlagsFault, Uncorrelated, SessionFault, PeersFault, ContentFault, Bits;
  }

  lemma ReadSendable(schema: Schema, m: Message, h: Header, variant: Option<string>, context: Context)
    requires context.Complete() && PolicyCovers(schema.frame, m) && Known(h.flags)
    requires FlagsFault(schema.frame, m, Bits(h.flags), context.sender, variant).None?
    requires !Uncorrelated(schema.frame, m, variant, h.correlation)
    requires SessionFault(schema.frame, m, h.session, context).None?
    requires m.name in schema.frame.sessionZero ==> context.session == Some(0)
    ensures HeaderSendable(schema, m, h.(checksum := 0), variant, context)
    ensures NeedsAuthentication(schema.frame, m) ==> context.authenticated
  {
    hide FlagsFault, Uncorrelated, Bits, Known;
  }

  lemma SendableSession(schema: Schema, m: Message, h: Header, variant: Option<string>, context: Context)
    requires context.Complete() && HeaderSendable(schema, m, h, variant, context)
    ensures m.name in schema.frame.sessionZero ==> context.session == Some(0)
  {
    hide FlagsFault, Uncorrelated, Bits, Known;
  }

  /** A decoded header of the current minor version is the header the encoder would write. */
  lemma HeaderAgain(schema: Schema, m: Message, h: Header, frame: seq<byte>)
    requires |frame| >= HEADER_SIZE && h.reserved == 0 && h.messageType == m.id && h.minor == schema.minor
    requires HeaderFault(schema, h, frame).None?
    ensures HeaderFor(schema, m, Resend(h), |frame[HEADER_SIZE..]|) == h.(checksum := 0)
    ensures Known(h.flags)
  {
    hide Checksum, Zeros, Known;
  }

  /** What the encoder writes carries the current minor version. */
  lemma SameMinor(schema: Schema, m: Message, h: Header, payload: seq<byte>, frame: seq<byte>)
    requires HeaderOk(schema.header) && |frame| >= HEADER_SIZE
    requires DecodeFields(schema.header, frame[..HEADER_SIZE]) == Ok(ToRecord(h))
    requires Sealed(schema, HeaderFor(schema, m, Resend(h), |payload|), payload) == Some(frame)
    ensures h.minor == schema.minor
  {
    hide *;
    var sent := HeaderFor(schema, m, Resend(h), |payload|);
    HeaderForUnfold(schema, m, Resend(h), |payload|);
    var sum := SealedDecodes(schema, sent, payload, frame);
    HeaderRecord(h);
    HeaderRecord(sent.(checksum := sum));
  }
}
