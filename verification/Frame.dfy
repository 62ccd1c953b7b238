/** Frames of the ESP-NOW protocol, after `encode_frame` and `decode_frame` in tools/generate_protocol.py:
 *  a 32-byte header sealed by a checksum, and a payload of at most 208 bytes. The schema, its semantic
 *  policy and the checksum are parameters. */
module Frame {
  import opened Prelude
  import opened Layout
  import opened Payload
  import opened PayloadCodec
  import opened Flags

  const HEADER_SIZE: nat := 32
  const CHECKSUM_LIMIT: nat := 0x1_0000_0000

  datatype Schema = Schema(magic: int, major: int, minor: int, header: seq<Field>, messages: seq<Message>,
                           frame: FramePolicy, tlv: Policies, judge: Judge, checksum: seq<byte> -> nat)

  /** The peers and session a frame is exchanged under. */
  datatype Context = Context(sender: Option<string>, receiver: Option<string>, state: Option<string>,
                             session: Option<int>, authenticated: bool)
  {
    predicate Complete() {
      sender.Some? && receiver.Some? && state.Some? && session.Some?
    }
  }

  datatype Header = Header(magic: int, major: int, minor: int, headerLength: int, messageType: int, flags: int,
                           priority: int, session: int, sequence: int, senderTime: int, correlation: int,
                           payloadLength: int, reserved: int, checksum: int)

  /** The entries of a header dict that the encoder reads. */
  datatype Given = Given(flags: Option<int>, priority: Option<int>, session: Option<int>, sequence: Option<int>,
                         senderTime: Option<int>, correlation: Option<int>)

  datatype Decoded = Decoded(header: Header, message: Message, payload: Values)

  const HEADER_NAMES: set<string> := {
    "magic", "major", "minor", "header_len", "message_type", "flags", "priority", "session_id", "sequence",
    "sender_time_ms", "correlation_id", "payload_len", "reserved", "crc32" }

  /** The entry of a header by its wire name. */
  function FieldOf(h: Header, name: string): int {
    if name == "magic" then h.magic
    else if name == "major" then h.major
    else if name == "minor" then h.minor
    else if name == "header_len" then h.headerLength
    else if name == "message_type" then h.messageType
    else if name == "flags" then h.flags
    else if name == "priority" then h.priority
    else if name == "session_id" then h.session
    else if name == "sequence" then h.sequence
    else if name == "sender_time_ms" then h.senderTime
    else if name == "correlation_id" then h.correlation
    else if name == "payload_len" then h.payloadLength
    else if name == "reserved" then h.reserved
    else h.checksum
  }

  function ToRecord(h: Header): Record {
    map n | n in HEADER_NAMES :: Num(FieldOf(h, n))
  }

  function NumAt(r: Record, name: string): int {
    if name in r && r[name].Num? then r[name].n else 0
  }

  function FromRecord(r: Record): Header {
    Header(NumAt(r, "magic"), NumAt(r, "major"), NumAt(r, "minor"), NumAt(r, "header_len"), NumAt(r, "message_type"),
           NumAt(r, "flags"), NumAt(r, "priority"), NumAt(r, "session_id"), NumAt(r, "sequence"),
           NumAt(r, "sender_time_ms"), NumAt(r, "correlation_id"), NumAt(r, "payload_len"), NumAt(r, "reserved"),
           NumAt(r, "crc32"))
  }

  // ---------------------------------------------------------------- well-formed schemas

  predicate HeaderOk(header: seq<Field>) {
    && IsLayout(header, HEADER_SIZE)
    && WireNames(header) == HEADER_NAMES
    && (forall i :: 0 <= i < |header| ==> header[i].kind.Scalar? && (header[i].reserved <==> header[i].name == "reserved"))
    && exists i :: 0 <= i < |header| && header[i].name == "crc32" && header[i].kind == Scalar(4, false)
                   && header[i].offset == 28
  }

  predicate VariantKnown(m: Message, variant: string) {
    m.shape.Variants? && exists i :: 0 <= i < |m.shape.variants| && m.shape.variants[i].name == variant
  }

  /** A policy that names the message speaks of one of its variants. */
  predicate PolicyCovers(policy: FramePolicy, m: Message) {
    && (forall i :: 0 <= i < |policy.variantPolicies| && policy.variantPolicies[i].message == m.name ==>
          VariantKnown(m, policy.variantPolicies[i].variant))
    && (forall pair :: pair in policy.responseVariants && pair.0 == m.name ==> VariantKnown(m, pair.1))
    && (m.name in policy.secure <==> m.name !in policy.sessionZero)
    && (m.name in policy.authenticatedSessionZero ==> m.name in policy.sessionZero)
  }

  predicate MessageOk(policy: FramePolicy, m: Message) {
    && ShapeOk(m.shape)
    && Unambiguous(m.shape)
    && 0 <= m.priority <= 4
    && PolicyCovers(policy, m)
  }

  predicate ShapesOk(schema: Schema) {
    forall i :: 0 <= i < |schema.messages| ==> ShapeOk(schema.messages[i].shape)
  }

  predicate WellFormed(schema: Schema) {
    && HeaderOk(schema.header)
    && ShapesOk(schema)
    && (forall i :: 0 <= i < |schema.messages| ==> MessageOk(schema.frame, schema.messages[i]))
    && (forall i, j :: 0 <= i < j < |schema.messages| ==> schema.messages[i].id != schema.messages[j].id)
  }

  // ---------------------------------------------------------------- checks shared by both directions

  /** The variant a payload dict names; an empty name counts as none. */
  function VariantName(values: Values): Option<string> {
    if values.variant == Some("") then None else values.variant
  }

  function PeersFault(policy: FramePolicy, m: Message, variant: Option<string>, context: Context): Option<Code>
    requires context.Complete()
  {
    var roles := VariantRoles(policy, m, variant);
    if context.sender.value !in roles.0 then Some(UnauthorizedSender)
    else if context.receiver.value !in roles.1 then Some(UnauthorizedReceiver)
    else if context.state.value !in m.states then Some(InvalidState)
    else None
  }

  predicate Uncorrelated(policy: FramePolicy, m: Message, variant: Option<string>, correlation: int) {
    policy.correlationRequired && IsResponse(policy, m, variant) && correlation == 0
  }

  /** Complaints about a decoded payload in its frame. */
  function ContentFault(schema: Schema, m: Message, h: Header, payload: Values, context: Context): Option<Code> {
    var semantic := schema.judge(m.name, payload, context.sender, context.receiver);
    if semantic.Some? then Some(Semantic(semantic.value))
    else if FragmentFault(schema.frame, m, payload, Bits(h.flags)).Some? then Some(BadFragment)
    else if "wireless_session_id" in payload.fields && payload.fields["wireless_session_id"] != Num(h.session) then
      Some(SessionMismatch)
    else None
  }

  // ---------------------------------------------------------------- encode_frame

  predicate NeedsAuthentication(policy: FramePolicy, m: Message) {
    m.name in policy.secure || m.name in policy.authenticatedSessionZero
  }

  predicate SessionSendable(policy: FramePolicy, m: Message, session: int, expected: int) {
    if m.name in policy.sessionZero then session == 0 && expected == 0
    else session != 0 && (m.name in policy.secure ==> expected == session)
  }

  function HeaderFor(schema: Schema, m: Message, given: Given, payloadLength: nat): Header {
    Header(schema.magic, schema.major, schema.minor, HEADER_SIZE, m.id, given.flags.GetOr(0),
           given.priority.GetOr(m.priority), given.session.GetOr(0), given.sequence.GetOr(0), given.senderTime.GetOr(0),
           given.correlation.GetOr(0), payloadLength, 0, 0)
  }

  predicate HeaderSendable(schema: Schema, m: Message, h: Header, variant: Option<string>, context: Context)
    requires context.Complete()
  {
    && Known(h.flags)
    && FlagsFault(schema.frame, m, Bits(h.flags), context.sender, variant).None?
    && !Uncorrelated(schema.frame, m, variant, h.correlation)
    && SessionSendable(schema.frame, m, h.session, context.session.value)
  }

  function Checksum(schema: Schema, data: seq<byte>): nat {
    schema.checksum(data) % CHECKSUM_LIMIT
  }

  /** The header with its checksum, computed while the checksum field is zero, and the payload. */
  function Sealed(schema: Schema, h: Header, payload: seq<byte>): Option<seq<byte>> {
    var blank := EncodeFields(schema.header, ToRecord(h.(checksum := 0)));
    if blank.None? then None
    else
      var sum := Checksum(schema, blank.value + payload);
      Chain(EncodeFields(schema.header, ToRecord(h.(checksum := sum))), Some(payload))
  }

  function EncodeFrameSpec(schema: Schema, m: Message, given: Given, values: Values, context: Context): Option<seq<byte>>
    requires ShapeOk(m.shape)
  {
    if !context.Complete() then None
    else
      var variant := VariantName(values);
      if PeersFault(schema.frame, m, variant, context).Some? then None
      else if NeedsAuthentication(schema.frame, m) && !context.authenticated then None
      else
        var payload := EncodePayloadSpec(schema.judge, m.name, schema.tlv, m.shape, values);
        if payload.None? || |payload.value| > MAX_PAYLOAD then None
        else
          var h := HeaderFor(schema, m, given, |payload.value|);
          if !HeaderSendable(schema, m, h, variant, context) then None
          else
            var decoded := DecodePayloadSpec(schema.judge, m.name, schema.tlv, m.shape, payload.value);
            if decoded.Err? || ContentFault(schema, m, h, decoded.value, context).Some? then None
            else Sealed(schema, h, payload.value)
  }

  method EncodeFrame(schema: Schema, m: Message, given: Given, values: Values, context: Context)
    returns (r: Option<seq<byte>>)
    requires ShapeOk(m.shape)
    ensures r == EncodeFrameSpec(schema, m, given, values, context)
  {
    hide EncodePayloadSpec, DecodePayloadSpec, ShapeOk, EncodeFields, ToRecord, VariantRoles, IsResponse, Bits, FlagsFault,
         FragmentFault, Known, Chain;
    if context.sender.None? || context.receiver.None? || context.state.None? || context.session.None? {
      return None;
    }
    var variant := VariantName(values);
    var roles := VariantRoles(schema.frame, m, variant);
    if context.sender.value !in roles.0 || context.receiver.value !in roles.1 || context.state.value !in m.states {
      return None;
    }
    if NeedsAuthentication(schema.frame, m) && !context.authenticated {
      return None;
    }
    var payload := EncodePayload(schema.judge, m.name, schema.tlv, m.shape, values);
    if payload.None? || |payload.value| > MAX_PAYLOAD {
      return None;
    }
    var h := HeaderFor(schema, m, given, |payload.value|);
    if !Known(h.flags) || FlagsFault(schema.frame, m, Bits(h.flags), context.sender, variant).Some? {
      return None;
    }
    if Uncorrelated(schema.frame, m, variant, h.correlation) {
      return None;
    }
    if !SessionSendable(schema.frame, m, h.session, context.session.value) {
      return None;
    }
    var decoded := DecodePayload(schema.judge, m.name, schema.tlv, m.shape, payload.value);
    if decoded.Err? || ContentFault(schema, m, h, decoded.value, context).Some? {
      return None;
    }
    var blank := EncodeFields(schema.header, ToRecord(h));
    if blank.None? {
      return None;
    }
    h := h.(checksum := Checksum(schema, blank.value + payload.value));
    r := Chain(EncodeFields(schema.header, ToRecord(h)), payload);
  }

  // ---------------------------------------------------------------- decode_frame

  function MessageWithId(messages: seq<Message>, id: int): Option<Message> {
    if messages == [] then None else if messages[0].id == id then Some(messages[0]) else MessageWithId(messages[1..], id)
  }

  /** Complaints about the header by itself and against the length and checksum of the frame. */
  function HeaderFault(schema: Schema, h: Header, frame: seq<byte>): Option<Code>
    requires |frame| >= HEADER_SIZE
  {
    if h.magic != schema.magic then Some(BadMagic)
    else if h.major != schema.major then Some(IncompatibleMajor)
    else if h.headerLength != HEADER_SIZE then Some(BadLength)
    else if !Known(h.flags) then Some(BadFlags)
    else if h.priority > 4 then Some(BadPriority)
    else if h.payloadLength > MAX_PAYLOAD || |frame| != HEADER_SIZE + h.payloadLength then Some(BadLength)
    else if h.checksum != Checksum(schema, frame[..28] + Zeros(4) + frame[HEADER_SIZE..]) then Some(BadCrc)
    else None
  }

  function SessionFault(policy: FramePolicy, m: Message, session: int, context: Context): Option<Code>
    requires context.Complete()
  {
    if m.name in policy.sessionZero then
      if session != 0 then Some(BadSession)
      else if m.name !in policy.authenticatedSessionZero then None
      else if !context.authenticated then Some(Unauthenticated)
      else if context.session.value != 0 then Some(SessionMismatch)
      else None
    else if session == 0 then Some(SessionRequired)
    else if !context.authenticated then Some(Unauthenticated)
    else if context.session.value != session then Some(SessionMismatch)
    else None
  }

  /** Complaints once the payload is decoded, in the order they are raised. */
  function PolicyFault(schema: Schema, m: Message, h: Header, payload: Values, context: Context): Option<Code>
    requires context.Complete()
  {
    var flags := Bits(h.flags);
    if flags.ackRequired != m.ackRequired || flags.broadcast != m.broadcast then Some(BadFlags)
    else if FlagsFault(schema.frame, m, flags, context.sender, payload.variant).Some? then
      FlagsFault(schema.frame, m, flags, context.sender, payload.variant)
    else if Uncorrelated(schema.frame, m, payload.variant, h.correlation) then Some(BadCorrelation)
    else if SessionFault(schema.frame, m, h.session, context).Some? then SessionFault(schema.frame, m, h.session, context)
    else if PeersFault(schema.frame, m, payload.variant, context).Some? then
      PeersFault(schema.frame, m, payload.variant, context)
    else ContentFault(schema, m, h, payload, context)
  }

  function DecodeFrameSpec(schema: Schema, frame: seq<byte>, context: Context): Result<Decoded, Code>
    requires ShapesOk(schema)
  {
    if |frame| < HEADER_SIZE then Err(BadLength)
    else
      var record :- DecodeFields(schema.header, frame[..HEADER_SIZE]);
      var h := FromRecord(record);
      if HeaderFault(schema, h, frame).Some? then Err(HeaderFault(schema, h, frame).value)
      else
        var m := MessageWithId(schema.messages, h.messageType);
        if m.None? then Err(UnsupportedMessage)
        else
          MessageListed(schema, h.messageType);
          DecodeContent(schema, m.value, h, frame[HEADER_SIZE..], context)
  }

  /** The frame of a known message, once its header is sound. */
  function DecodeContent(schema: Schema, m: Message, h: Header, body: seq<byte>, context: Context): Result<Decoded, Code>
    requires ShapeOk(m.shape)
  {
    if !context.Complete() then Err(ContextRequired)
    else if h.priority != m.priority then Err(BadPriority)
    else
      var payload :- DecodePayloadSpec(schema.judge, m.name, schema.tlv, m.shape, body);
      var fault := PolicyFault(schema, m, h, payload, context);
      if fault.Some? then Err(fault.value) else Ok(Decoded(h, m, payload))
  }

  lemma {:induction false} MessageFound(messages: seq<Message>, id: int)
    ensures var m := MessageWithId(messages, id); m.Some? ==> m.value in messages && m.value.id == id
    ensures MessageWithId(messages, id).None? ==> forall i :: 0 <= i < |messages| ==> messages[i].id != id
  {
    if messages != [] {
      MessageFound(messages[1..], id);
      assert forall i :: 0 < i < |messages| ==> messages[i] == messages[1..][i - 1];
    }
  }

  lemma MessageListed(schema: Schema, id: int)
    requires ShapesOk(schema)
    ensures var m := MessageWithId(schema.messages, id);
            m.Some? ==> m.value in schema.messages && m.value.id == id && ShapeOk(m.value.shape)
  {
    hide ShapeOk;
    MessageFound(schema.messages, id);
  }

  method FindMessage(messages: seq<Message>, id: int) returns (r: Option<Message>)
    ensures r == MessageWithId(messages, id)
  {
    for i := 0 to |messages|
      invariant MessageWithId(messages, id) == MessageWithId(messages[i..], id)
    {
      if messages[i].id == id {
        return Some(messages[i]);
      }
    }
    r := None;
  }

  method DecodeFrame(schema: Schema, frame: seq<byte>, context: Context) returns (r: Result<Decoded, Code>)
    requires ShapesOk(schema)
    ensures r == DecodeFrameSpec(schema, frame, context)
  {
    hide DecodePayloadSpec, ShapeOk, DecodeFields, FromRecord, ShapesOk, PolicyFault, MessageWithId, Known, Zeros;
    if |frame| < HEADER_SIZE {
      return Err(BadLength);
    }
    var record :- DecodeSlices(schema.header, frame[..HEADER_SIZE]);
    var h := FromRecord(record);
    if h.magic != schema.magic {
      return Err(BadMagic);
    }
    if h.major != schema.major {
      return Err(IncompatibleMajor);
    }
    if h.headerLength != HEADER_SIZE {
      return Err(BadLength);
    }
    if !Known(h.flags) {
      return Err(BadFlags);
    }
    if h.priority > 4 {
      return Err(BadPriority);
    }
    if h.payloadLength > MAX_PAYLOAD || |frame| != HEADER_SIZE + h.payloadLength {
      return Err(BadLength);
    }
    if h.checksum != Checksum(schema, frame[..28] + Zeros(4) + frame[HEADER_SIZE..]) {
      return Err(BadCrc);
    }
    var m := FindMessage(schema.messages, h.messageType);
    if m.None? {
      return Err(UnsupportedMessage);
    }
    if !context.Complete() {
      return Err(ContextRequired);
    }
    if h.priority != m.value.priority {
      return Err(BadPriority);
    }
    MessageListed(schema, h.messageType);
    var payload :- DecodePayload(schema.judge, m.value.name, schema.tlv, m.value.shape, frame[HEADER_SIZE..]);
    var fault := PolicyFault(schema, m.value, h, payload, context);
    r := if fault.Some? then Err(fault.value) else Ok(Decoded(h, m.value, payload));
  }
}
