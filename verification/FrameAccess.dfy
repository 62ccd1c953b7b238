/** Who may exchange which frame: what every accepted and every encoded frame satisfies, and the code that
 *  refuses any other, in terms of the schema, the link and the entries of the header. */
module FrameAccess {
  import opened Prelude
  import opened Complaints
  import opened Layout
  import opened Payload
  import opened PayloadCodec
  import opened Flags
  import opened Frame
  import FrameProofs

  // ---------------------------------------------------------------- roles

  ghost predicate About(p: VariantPolicy, message: string, variant: string) {
    p.message == message && p.variant == variant
  }

  /** Policy `i` is the first one about this variant of the message. */
  ghost predicate Governs(policy: FramePolicy, m: Message, variant: Option<string>, i: nat) {
    && variant.Some?
    && i < |policy.variantPolicies|
    && About(policy.variantPolicies[i], m.name, variant.value)
    && forall j: nat :: j < i ==> !About(policy.variantPolicies[j], m.name, variant.value)
  }

  ghost predicate Ungoverned(policy: FramePolicy, m: Message, variant: Option<string>) {
    forall i: nat :: !Governs(policy, m, variant, i)
  }

  ghost predicate MaySend(policy: FramePolicy, m: Message, variant: Option<string>, role: string) {
    || (Ungoverned(policy, m, variant) && role in m.senders)
    || exists i: nat :: Governs(policy, m, variant, i) && role in policy.variantPolicies[i].senders
  }

  ghost predicate MayReceive(policy: FramePolicy, m: Message, variant: Option<string>, role: string) {
    || (Ungoverned(policy, m, variant) && role in m.receivers)
    || exists i: nat :: Governs(policy, m, variant, i) && role in policy.variantPolicies[i].receivers
  }

  lemma {:induction false} FirstPolicy(policies: seq<VariantPolicy>, message: string, variant: string)
    ensures var p := PolicyFor(policies, message, variant);
            if p.None? then forall i: nat :: i < |policies| ==> !About(policies[i], message, variant)
            else exists i: nat :: i < |policies| && policies[i] == p.value && About(policies[i], message, variant)
                                  && forall j: nat :: j < i ==> !About(policies[j], message, variant)
  {
    if policies != [] {
      var rest := policies[1..];
      FirstPolicy(rest, message, variant);
      assert forall i: nat :: 0 < i < |policies| ==> policies[i] == rest[i - 1];
      var p := PolicyFor(rest, message, variant);
      if About(policies[0], message, variant) {
        assert policies[0] == PolicyFor(policies, message, variant).value;
      } else if p.Some? {
        var k: nat :| k < |rest| && rest[k] == p.value && About(rest[k], message, variant)
                      && forall j: nat :: j < k ==> !About(rest[j], message, variant);
        assert policies[k + 1] == p.value;
        forall j: nat | j < k + 1 ensures !About(policies[j], message, variant) {
          if j > 0 {
            assert !About(rest[j - 1], message, variant);
          }
        }
      }
    }
  }

  lemma SoleGovernor(policy: FramePolicy, m: Message, variant: Option<string>, i: nat, j: nat)
    requires Governs(policy, m, variant, i) && Governs(policy, m, variant, j)
    ensures i == j
  {
  }

  lemma RolesMeaning(policy: FramePolicy, m: Message, variant: Option<string>, role: string)
    ensures role in VariantRoles(policy, m, variant).0 <==> MaySend(policy, m, variant, role)
    ensures role in VariantRoles(policy, m, variant).1 <==> MayReceive(policy, m, variant, role)
  {
    if variant.Some? {
      FirstPolicy(policy.variantPolicies, m.name, variant.value);
      var p := PolicyFor(policy.variantPolicies, m.name, variant.value);
      hide PolicyFor;
      if p.Some? {
        var i: nat :| i < |policy.variantPolicies| && policy.variantPolicies[i] == p.value
                      && Governs(policy, m, variant, i);
        forall j: nat | Governs(policy, m, variant, j) ensures i == j {
          SoleGovernor(policy, m, variant, i, j);
        }
      }
    }
  }

  ghost function PeersComplaint(policy: FramePolicy, m: Message, variant: Option<string>, sender: string, receiver: string,
                                state: string): Option<Code> {
    Then(When(!MaySend(policy, m, variant, sender), UnauthorizedSender),
    Then(When(!MayReceive(policy, m, variant, receiver), UnauthorizedReceiver),
         When(state !in m.states, InvalidState)))
  }

  lemma PeersComplain(policy: FramePolicy, m: Message, variant: Option<string>, context: Context)
    requires context.Complete()
    ensures PeersFault(policy, m, variant, context) ==
            PeersComplaint(policy, m, variant, context.sender.value, context.receiver.value, context.state.value)
  {
    RolesMeaning(policy, m, variant, context.sender.value);
    RolesMeaning(policy, m, variant, context.receiver.value);
    hide VariantRoles, MaySend, MayReceive;
  }

  // ---------------------------------------------------------------- correlation and session

  ghost predicate Replies(policy: FramePolicy, m: Message, variant: Option<string>) {
    m.name in policy.responseMessages || exists v :: variant == Some(v) && (m.name, v) in policy.responseVariants
  }

  lemma RepliesMeaning(policy: FramePolicy, m: Message, variant: Option<string>, correlation: int)
    ensures Uncorrelated(policy, m, variant, correlation) <==>
              policy.correlationRequired && Replies(policy, m, variant) && correlation == 0
  {
    ResponseMeaning(policy, m, variant);
    hide IsResponse;
  }

  function SessionComplaint(policy: FramePolicy, m: Message, session: int, expected: int, authenticated: bool): Option<Code> {
    var zero := m.name in policy.sessionZero;
    var open := zero && m.name !in policy.authenticatedSessionZero;
    Then(When(zero && session != 0, BadSession),
    Then(When(!zero && session == 0, SessionRequired),
    Then(When(!open && !authenticated, Unauthenticated),
         When(!open && expected != session, SessionMismatch))))
  }

  lemma SessionComplains(policy: FramePolicy, m: Message, session: int, context: Context)
    requires context.Complete()
    ensures SessionFault(policy, m, session, context) ==
            SessionComplaint(policy, m, session, context.session.value, context.authenticated)
  {
  }

  // ---------------------------------------------------------------- the content of a frame

  ghost function ContentComplaint(schema: Schema, m: Message, flags: int, session: int, payload: Values, context: Context)
    : Option<Code>
  {
    var semantic := schema.judge(m.name, payload, context.sender, context.receiver);
    Then(if semantic.Some? then Some(Semantic(semantic.value)) else None,
    Then(When(m.name in schema.frame.fragmentMessages && !Placed(payload, flags), BadFragment),
         When("wireless_session_id" in payload.fields && payload.fields["wireless_session_id"] != Num(session),
              SessionMismatch)))
  }

  lemma ContentComplains(schema: Schema, m: Message, h: Header, payload: Values, context: Context)
    ensures ContentFault(schema, m, h, payload, context) ==
            ContentComplaint(schema, m, h.flags, h.session, payload, context)
  {
    FragmentComplains(schema.frame, m, payload, h.flags);
    hide FragmentFault, Placed, Bits;
  }

  ghost function PolicyComplaint(schema: Schema, m: Message, flags: int, session: int, correlation: int, payload: Values,
                                 context: Context): Option<Code>
    requires context.Complete()
  {
    var policy, variant := schema.frame, payload.variant;
    Then(FlagsComplaint(policy, m, flags, context.sender, variant),
    Then(When(policy.correlationRequired && Replies(policy, m, variant) && correlation == 0, BadCorrelation),
    Then(SessionComplaint(policy, m, session, context.session.value, context.authenticated),
    Then(PeersComplaint(policy, m, variant, context.sender.value, context.receiver.value, context.state.value),
         ContentComplaint(schema, m, flags, session, payload, context)))))
  }

  lemma EarlyFlags(policy: FramePolicy, m: Message, flags: int, sender: Option<string>, variant: Option<string>)
    ensures Bits(flags).ackRequired != m.ackRequired || Bits(flags).broadcast != m.broadcast ==>
              FlagsComplaint(policy, m, flags, sender, variant) == Some(BadFlags)
  {
    BitsMeaning(flags);
    hide Bits, On;
  }

  lemma PolicyComplains(schema: Schema, m: Message, h: Header, payload: Values, context: Context)
    requires context.Complete()
    ensures PolicyFault(schema, m, h, payload, context) ==
            PolicyComplaint(schema, m, h.flags, h.session, h.correlation, payload, context)
  {
    EarlyFlags(schema.frame, m, h.flags, context.sender, payload.variant);
    FlagsComplain(schema.frame, m, h.flags, context.sender, payload.variant);
    RepliesMeaning(schema.frame, m, payload.variant, h.correlation);
    SessionComplains(schema.frame, m, h.session, context);
    PeersComplain(schema.frame, m, payload.variant, context);
    ContentComplains(schema, m, h, payload, context);
    hide Bits, FlagsFault, FlagsComplaint, Uncorrelated, Replies, SessionFault, SessionComplaint, PeersFault, PeersComplaint,
         ContentFault, ContentComplaint;
  }

  // ---------------------------------------------------------------- decoded frames

  /** What the header of a frame is refused for, by the names of its entries. */
  function HeaderComplaint(schema: Schema, record: Record, frame: seq<byte>): Option<Code>
    requires |frame| >= 32
  {
    var flags, size := NumAt(record, "flags"), NumAt(record, "payload_len");
    Then(When(NumAt(record, "magic") != schema.magic, BadMagic),
    Then(When(NumAt(record, "major") != schema.major, IncompatibleMajor),
    Then(When(NumAt(record, "header_len") != 32, BadLength),
    Then(When(flags < 0 || flags > 127, BadFlags),
    Then(When(NumAt(record, "priority") > 4, BadPriority),
    Then(When(size > 208 || |frame| != 32 + size, BadLength),
         When(NumAt(record, "crc32") != schema.checksum(frame[..28] + [0, 0, 0, 0] + frame[32..]) % 0x1_0000_0000,
              BadCrc)))))))
  }

  lemma HeaderComplains(schema: Schema, record: Record, frame: seq<byte>)
    requires |frame| >= 32
    ensures HeaderFault(schema, FromRecord(record), frame) == HeaderComplaint(schema, record, frame)
  {
    hide NumAt;
    assert Zeros(4) == [0, 0, 0, 0];
  }

  /** Message `i` is the first one with this identifier. */
  ghost predicate Identifies(schema: Schema, id: int, i: nat) {
    && i < |schema.messages|
    && schema.messages[i].id == id
    && forall j: nat :: j < i ==> schema.messages[j].id != id
  }

  lemma {:induction false} FirstMessage(messages: seq<Message>, id: int)
    ensures var m := MessageWithId(messages, id);
            if m.None? then forall i: nat :: i < |messages| ==> messages[i].id != id
            else exists i: nat :: i < |messages| && messages[i] == m.value && messages[i].id == id
                                  && forall j: nat :: j < i ==> messages[j].id != id
  {
    if messages != [] {
      var rest := messages[1..];
      FirstMessage(rest, id);
      assert forall i: nat :: 0 < i < |messages| ==> messages[i] == rest[i - 1];
      var m := MessageWithId(rest, id);
      if messages[0].id == id {
        assert messages[0] == MessageWithId(messages, id).value;
      } else if m.Some? {
        var k: nat :| k < |rest| && rest[k] == m.value && rest[k].id == id && forall j: nat :: j < k ==> rest[j].id != id;
        assert messages[k + 1] == m.value;
        forall j: nat | j < k + 1 ensures messages[j].id != id {
          if j > 0 {
            assert rest[j - 1].id != id;
          }
        }
      }
    }
  }

  lemma MessageIs(schema: Schema, id: int, i: nat)
    requires Identifies(schema, id, i)
    ensures MessageWithId(schema.messages, id) == Some(schema.messages[i])
  {
    FirstMessage(schema.messages, id);
    hide MessageWithId;
  }

  lemma MessageSome(schema: Schema, id: int)
    ensures MessageWithId(schema.messages, id).Some? ==> exists i: nat :: Identifies(schema, id, i)
  {
    FirstMessage(schema.messages, id);
    hide MessageWithId;
    if MessageWithId(schema.messages, id).Some? {
      var i: nat :| i < |schema.messages| && schema.messages[i].id == id
                    && forall j: nat :: j < i ==> schema.messages[j].id != id;
      assert Identifies(schema, id, i);
    }
  }

  /** Frames refused before their message is known. */
  lemma FrameRefused(schema: Schema, frame: seq<byte>, context: Context)
    requires ShapesOk(schema)
    ensures |frame| < 32 ==> DecodeFrameSpec(schema, frame, context) == Err(BadLength)
    ensures |frame| >= 32 ==>
              match DecodeFields(schema.header, frame[..32])
              case Err(e) => DecodeFrameSpec(schema, frame, context) == Err(e)
              case Ok(record) =>
                var fault := HeaderComplaint(schema, record, frame);
                && (fault.Some? ==> DecodeFrameSpec(schema, frame, context) == Err(fault.value))
                && (fault.None? && (forall i: nat :: !Identifies(schema, NumAt(record, "message_type"), i)) ==>
                      DecodeFrameSpec(schema, frame, context) == Err(UnsupportedMessage))
  {
    hide ShapesOk, DecodeFields, HeaderFault, HeaderComplaint, MessageWithId, DecodeContent, NumAt, Identifies;
    if |frame| >= 32 {
      var record := DecodeFields(schema.header, frame[..32]);
      if record.Ok? {
        HeaderComplains(schema, record.value, frame);
        MessageSome(schema, NumAt(record.value, "message_type"));
      }
    }
  }

  /** The header says of each entry what the record has under its name. */
  predicate Reads(h: Header, record: Record) {
    && h.magic == NumAt(record, "magic")
    && h.major == NumAt(record, "major")
    && h.minor == NumAt(record, "minor")
    && h.headerLength == NumAt(record, "header_len")
    && h.messageType == NumAt(record, "message_type")
    && h.flags == NumAt(record, "flags")
    && h.priority == NumAt(record, "priority")
    && h.session == NumAt(record, "session_id")
    && h.sequence == NumAt(record, "sequence")
    && h.senderTime == NumAt(record, "sender_time_ms")
    && h.correlation == NumAt(record, "correlation_id")
    && h.payloadLength == NumAt(record, "payload_len")
    && h.reserved == NumAt(record, "reserved")
    && h.checksum == NumAt(record, "crc32")
  }

  lemma ReadsMeaning(h: Header, record: Record)
    ensures h == FromRecord(record) <==> Reads(h, record)
  {
    hide NumAt;
  }

  /** The complaint about a frame whose header is sound and whose message is known. */
  ghost function MessageComplaint(schema: Schema, m: Message, record: Record, body: seq<byte>, context: Context): Option<Code>
    requires ShapeOk(m.shape)
  {
    if !context.Complete() then Some(ContextRequired)
    else if NumAt(record, "priority") != m.priority then Some(BadPriority)
    else
      match DecodePayloadSpec(schema.judge, m.name, schema.tlv, m.shape, body)
      case Err(e) => Some(e)
      case Ok(payload) =>
        PolicyComplaint(schema, m, NumAt(record, "flags"), NumAt(record, "session_id"), NumAt(record, "correlation_id"),
                        payload, context)
  }

  lemma DecodedContent(schema: Schema, m: Message, record: Record, body: seq<byte>, context: Context)
    requires ShapeOk(m.shape)
    ensures var r := DecodeContent(schema, m, FromRecord(record), body, context);
            && Of(r) == MessageComplaint(schema, m, record, body, context)
            && (r.Ok? ==> Reads(r.value.header, record) && r.value.message == m
                          && DecodePayloadSpec(schema.judge, m.name, schema.tlv, m.shape, body) == Ok(r.value.payload))
  {
    ReadsMeaning(FromRecord(record), record);
    hide ShapeOk, DecodePayloadSpec, PolicyFault, PolicyComplaint, NumAt, Reads;
    if context.Complete() {
      var payload := DecodePayloadSpec(schema.judge, m.name, schema.tlv, m.shape, body);
      if payload.Ok? {
        PolicyComplains(schema, m, FromRecord(record), payload.value, context);
      }
    }
  }

  /** All other frames: the code that refuses one, and what is returned when none does. */
  lemma FrameDecided(schema: Schema, frame: seq<byte>, context: Context, record: Record, i: nat)
    requires ShapesOk(schema) && |frame| >= 32
    requires DecodeFields(schema.header, frame[..32]) == Ok(record)
    requires HeaderComplaint(schema, record, frame).None? && Identifies(schema, NumAt(record, "message_type"), i)
    ensures var r, m := DecodeFrameSpec(schema, frame, context), schema.messages[i];
            && Of(r) == MessageComplaint(schema, m, record, frame[32..], context)
            && (r.Ok? ==> Reads(r.value.header, record) && r.value.message == m
                          && DecodePayloadSpec(schema.judge, m.name, schema.tlv, m.shape, frame[32..]) == Ok(r.value.payload))
  {
    hide DecodeFields, HeaderFault, HeaderComplaint, MessageWithId, DecodeContent, NumAt, MessageComplaint, ShapeOk, Reads,
         DecodePayloadSpec;
    HeaderComplains(schema, record, frame);
    MessageIs(schema, NumAt(record, "message_type"), i);
    DecodedContent(schema, schema.messages[i], record, frame[32..], context);
  }

  // ---------------------------------------------------------------- accepted frames

  /** A header of this schema, and a frame of the announced length with the right checksum. */
  predicate Sound(schema: Schema, h: Header, frame: seq<byte>)
    requires |frame| >= 32
  {
    && h.magic == schema.magic
    && h.major == schema.major
    && h.headerLength == 32
    && 0 <= h.flags < 128
    && h.priority <= 4
    && h.payloadLength <= 208
    && |frame| == 32 + h.payloadLength
    && h.checksum == schema.checksum(frame[..28] + [0, 0, 0, 0] + frame[32..]) % 0x1_0000_0000
  }

  /** The peers may exchange this variant of the message in this state, and a response names its request. */
  ghost predicate Exchanged(policy: FramePolicy, m: Message, variant: Option<string>, correlation: int, context: Context) {
    && (exists role :: context.sender == Some(role) && MaySend(policy, m, variant, role))
    && (exists role :: context.receiver == Some(role) && MayReceive(policy, m, variant, role))
    && (exists state :: context.state == Some(state) && state in m.states)
    && (policy.correlationRequired && Replies(policy, m, variant) ==> correlation != 0)
  }

  /** Pre-session messages have session zero, and the encrypted ones of them an authenticated link of session
      zero; every other message has the session of an authenticated link. */
  predicate Seated(policy: FramePolicy, m: Message, session: int, context: Context) {
    && (m.name in policy.sessionZero <==> session == 0)
    && (m.name !in policy.sessionZero || m.name in policy.authenticatedSessionZero ==>
          context.authenticated && context.session == Some(session))
  }

  /** The flags, the semantic policy and the session a command names. */
  ghost predicate Fitting(schema: Schema, m: Message, variant: Option<string>, flags: int, session: int, payload: Values,
                          context: Context)
  {
    && BitsFit(schema.frame, m, variant, flags)
    && (On(flags, 0x40) <==> exists role :: context.sender == Some(role) && role in schema.frame.readOnlyRoles)
    && (m.name in schema.frame.fragmentMessages ==> Placed(payload, flags))
    && schema.judge(m.name, payload, context.sender, context.receiver).None?
    && ("wireless_session_id" in payload.fields ==> payload.fields["wireless_session_id"] == Num(session))
  }

  lemma PolicyMet(schema: Schema, m: Message, flags: int, session: int, correlation: int, payload: Values, context: Context)
    requires context.Complete()
    ensures PolicyComplaint(schema, m, flags, session, correlation, payload, context).None? <==>
              && Exchanged(schema.frame, m, payload.variant, correlation, context)
              && Seated(schema.frame, m, session, context)
              && Fitting(schema, m, payload.variant, flags, session, payload, context)
  {
    hide MaySend, MayReceive, Replies, BitsFit, Placed, On;
  }

  /** The payload is what the message takes, and the link may exchange the message. */
  ghost predicate Carried(schema: Schema, d: Decoded, body: seq<byte>, context: Context) {
    var h, m, payload := d.header, d.message, d.payload;
    && h.priority == m.priority
    && ShapeOk(m.shape)
    && DecodePayloadSpec(schema.judge, m.name, schema.tlv, m.shape, body) == Ok(payload)
    && context.session.Some?
    && Exchanged(schema.frame, m, payload.variant, h.correlation, context)
    && Seated(schema.frame, m, h.session, context)
    && Fitting(schema, m, payload.variant, h.flags, h.session, payload, context)
  }

  /** A frame is accepted, and as this, exactly when its header is read and sound, its message is the first of its
      number, and the link may carry it. */
  lemma FrameAccepted(schema: Schema, frame: seq<byte>, context: Context, d: Decoded)
    requires ShapesOk(schema)
    ensures DecodeFrameSpec(schema, frame, context) == Ok(d) <==>
              && |frame| >= 32
              && (exists record :: DecodeFields(schema.header, frame[..32]) == Ok(record) && Reads(d.header, record))
              && Sound(schema, d.header, frame)
              && (exists i: nat :: Identifies(schema, d.header.messageType, i) && d.message == schema.messages[i])
              && Carried(schema, d, frame[32..], context)
  {
    hide DecodeFrameSpec, DecodeFields, DecodePayloadSpec, Reads, NumAt, HeaderComplaint, MessageComplaint, Sound, ShapeOk,
         ShapesOk, Exchanged, Seated, Fitting;
    FrameRefused(schema, frame, context);
    if |frame| >= 32 {
      var fields := DecodeFields(schema.header, frame[..32]);
      if fields.Ok? {
        var record := fields.value;
        SoundMeaning(schema, d.header, record, frame);
        ReadNumber(d.header, record);
        if DecodeFrameSpec(schema, frame, context) == Ok(d) {
          var i: nat :| Identifies(schema, NumAt(record, "message_type"), i);
          FrameDecided(schema, frame, context, record, i);
          IdentifiesListed(schema, NumAt(record, "message_type"), i);
          CarriedMeaning(schema, d, record, frame[32..], context);
        }
        if Reads(d.header, record) && Sound(schema, d.header, frame) && Carried(schema, d, frame[32..], context)
           && exists i: nat :: Identifies(schema, d.header.messageType, i) && d.message == schema.messages[i] {
          var i: nat :| Identifies(schema, d.header.messageType, i) && d.message == schema.messages[i];
          FrameDecided(schema, frame, context, record, i);
          IdentifiesListed(schema, NumAt(record, "message_type"), i);
          CarriedMeaning(schema, d, record, frame[32..], context);
          SameContent(d, DecodeFrameSpec(schema, frame, context), record);
        }
      }
    }
  }

  lemma IdentifiesListed(schema: Schema, id: int, i: nat)
    requires ShapesOk(schema) && Identifies(schema, id, i)
    ensures i < |schema.messages| && ShapeOk(schema.messages[i].shape)
  {
    hide ShapeOk;
  }

  lemma ReadNumber(h: Header, record: Record)
    ensures Reads(h, record) ==> h.messageType == NumAt(record, "message_type")
  {
    hide NumAt;
  }

  lemma SoundMeaning(schema: Schema, h: Header, record: Record, frame: seq<byte>)
    requires |frame| >= 32
    ensures Reads(h, record) ==> (HeaderComplaint(schema, record, frame).None? <==> Sound(schema, h, frame))
  {
    hide NumAt;
  }

  lemma CarriedMeaning(schema: Schema, d: Decoded, record: Record, body: seq<byte>, context: Context)
    requires ShapeOk(d.message.shape) && Reads(d.header, record)
    requires DecodePayloadSpec(schema.judge, d.message.name, schema.tlv, d.message.shape, body) == Ok(d.payload)
    ensures Carried(schema, d, body, context) <==>
              MessageComplaint(schema, d.message, record, body, context).None?
  {
    if context.Complete() {
      PolicyMet(schema, d.message, d.header.flags, d.header.session, d.header.correlation, d.payload, context);
    }
    hide NumAt, PolicyComplaint, ShapeOk, DecodePayloadSpec, Seated, Fitting, MaySend, MayReceive, Replies;
  }

  lemma SameContent(d: Decoded, r: Result<Decoded, Code>, record: Record)
    requires r.Ok? && Reads(d.header, record) && Reads(r.value.header, record)
    requires d.message == r.value.message && d.payload == r.value.payload
    ensures r == Ok(d)
  {
    ReadsMeaning(d.header, record);
    ReadsMeaning(r.value.header, record);
    hide Reads, FromRecord;
  }

  // ---------------------------------------------------------------- encoded frames

  /** The header record of a frame with a payload of this size. */
  ghost predicate Filled(r: Record, schema: Schema, m: Message, given: Given, size: nat, sum: nat) {
    && r.Keys == HEADER_NAMES
    && (forall n :: n in r ==> r[n].Num?)
    && NumAt(r, "magic") == schema.magic
    && NumAt(r, "major") == schema.major
    && NumAt(r, "minor") == schema.minor
    && NumAt(r, "header_len") == 32
    && NumAt(r, "message_type") == m.id
    && NumAt(r, "flags") == given.flags.GetOr(0)
    && NumAt(r, "priority") == given.priority.GetOr(m.priority)
    && NumAt(r, "session_id") == given.session.GetOr(0)
    && NumAt(r, "sequence") == given.sequence.GetOr(0)
    && NumAt(r, "sender_time_ms") == given.senderTime.GetOr(0)
    && NumAt(r, "correlation_id") == given.correlation.GetOr(0)
    && NumAt(r, "payload_len") == size
    && NumAt(r, "reserved") == 0
    && NumAt(r, "crc32") == sum
  }

  lemma FilledMeaning(r: Record, schema: Schema, m: Message, given: Given, size: nat, sum: nat)
    ensures Filled(r, schema, m, given, size, sum) <==>
              r == ToRecord(HeaderFor(schema, m, given, size).(checksum := sum))
  {
    var h := HeaderFor(schema, m, given, size).(checksum := sum);
    hide NumAt, ToRecord, FieldOf, HEADER_NAMES;
    FrameProofs.HeaderRecord(h);
    RecordNumbers(h);
    ReadsMeaning(h, r);
    if Filled(r, schema, m, given, size, sum) {
      FrameProofs.RecordHeader(r);
    }
  }

  lemma RecordNumbers(h: Header)
    ensures forall n :: n in ToRecord(h) ==> ToRecord(h)[n].Num?
  {
    hide FieldOf;
  }

  /** The variant a payload names; the empty name stands for none. */
  function Named(values: Values): Option<string> {
    if values.variant.Some? && |values.variant.value| > 0 then values.variant else None
  }

  lemma NamedMeaning(values: Values)
    ensures VariantName(values) == Named(values)
  {
  }

  /** What the encoder demands of session and link: pre-session messages have session zero and expect it, secure
      messages have the session of the link, and the link of a secure or an encrypted pre-session message is
      authenticated. */
  predicate Sendable(policy: FramePolicy, m: Message, session: int, context: Context) {
    && (m.name in policy.sessionZero <==> session == 0)
    && (m.name in policy.sessionZero ==> context.session == Some(0))
    && (m.name in policy.secure && m.name !in policy.sessionZero ==> context.session == Some(session))
    && (m.name in policy.secure || m.name in policy.authenticatedSessionZero ==> context.authenticated)
  }

  /** What the encoder demands of a message before it writes the header; the payload is judged as it decodes. */
  ghost predicate Allowed(schema: Schema, m: Message, given: Given, values: Values, context: Context)
    requires ShapeOk(m.shape)
  {
    var variant, flags, session := Named(values), given.flags.GetOr(0), given.session.GetOr(0);
    && context.session.Some?
    && Exchanged(schema.frame, m, variant, given.correlation.GetOr(0), context)
    && Sendable(schema.frame, m, session, context)
    && 0 <= flags < 128
    && exists payload, decoded ::
         && EncodePayloadSpec(schema.judge, m.name, schema.tlv, m.shape, values) == Some(payload)
         && |payload| <= 208
         && DecodePayloadSpec(schema.judge, m.name, schema.tlv, m.shape, payload) == Ok(decoded)
         && Fitting(schema, m, variant, flags, session, decoded, context)
  }

  /** A header with the checksum of the frame whose checksum is zero, and the payload. */
  ghost predicate Framed(schema: Schema, m: Message, given: Given, payload: seq<byte>, frame: seq<byte>) {
    exists unsealed, sealed, blank, head ::
      && Filled(unsealed, schema, m, given, |payload|, 0)
      && EncodeFields(schema.header, unsealed) == Some(blank)
      && Filled(sealed, schema, m, given, |payload|, schema.checksum(blank + payload) % 0x1_0000_0000)
      && EncodeFields(schema.header, sealed) == Some(head)
      && frame == head + payload
  }

  /** A frame is encoded, and as these bytes, exactly when the message is allowed and the bytes frame its payload. */
  lemma FrameEncoded(schema: Schema, m: Message, given: Given, values: Values, context: Context, frame: seq<byte>)
    requires ShapeOk(m.shape)
    ensures EncodeFrameSpec(schema, m, given, values, context) == Some(frame) <==>
              && Allowed(schema, m, given, values, context)
              && exists payload ::
                   && EncodePayloadSpec(schema.judge, m.name, schema.tlv, m.shape, values) == Some(payload)
                   && Framed(schema, m, given, payload, frame)
  {
    hide *;
    AllowedMeaning(schema, m, given, values, context);
    var payload := EncodePayloadSpec(schema.judge, m.name, schema.tlv, m.shape, values);
    if payload.Some? {
      SealedMeaning(schema, m, given, payload.value, frame);
    }
  }

  /** The frame that is sealed once nothing is wrong. */
  lemma AllowedMeaning(schema: Schema, m: Message, given: Given, values: Values, context: Context)
    requires ShapeOk(m.shape)
    ensures var payload := EncodePayloadSpec(schema.judge, m.name, schema.tlv, m.shape, values);
            && (Allowed(schema, m, given, values, context) ==>
                  && payload.Some?
                  && EncodeFrameSpec(schema, m, given, values, context) ==
                     Sealed(schema, HeaderFor(schema, m, given, |payload.value|), payload.value))
            && (EncodeFrameSpec(schema, m, given, values, context).Some? ==> Allowed(schema, m, given, values, context))
  {
    hide EncodePayloadSpec, DecodePayloadSpec, ShapeOk, PeersFault, ContentFault, Sealed, FlagsFault, Bits, Uncorrelated,
         SessionSendable, Exchanged, Sendable, Fitting, HeaderSendable, NeedsAuthentication, VariantName, HeaderFor, Named;
    if Allowed(schema, m, given, values, context) {
      ExchangedComplete(schema.frame, m, Named(values), given.correlation.GetOr(0), context);
    }
    if context.Complete() {
      var payload := EncodePayloadSpec(schema.judge, m.name, schema.tlv, m.shape, values);
      if payload.Some? && |payload.value| <= 208 {
        var decoded := DecodePayloadSpec(schema.judge, m.name, schema.tlv, m.shape, payload.value);
        if decoded.Ok? {
          FaultsMeaning(schema, m, given, values, payload.value, decoded.value, context);
        }
      }
    }
  }

  lemma ExchangedComplete(policy: FramePolicy, m: Message, variant: Option<string>, correlation: int, context: Context)
    requires Exchanged(policy, m, variant, correlation, context)
    ensures context.session.Some? ==> context.Complete()
  {
    hide MaySend, MayReceive, Replies;
  }

  lemma FaultsMeaning(schema: Schema, m: Message, given: Given, values: Values, payload: seq<byte>, decoded: Values,
                      context: Context)
    requires context.Complete()
    ensures var h, variant := HeaderFor(schema, m, given, |payload|), VariantName(values);
            && PeersFault(schema.frame, m, variant, context).None?
            && (NeedsAuthentication(schema.frame, m) ==> context.authenticated)
            && HeaderSendable(schema, m, h, variant, context)
            && ContentFault(schema, m, h, decoded, context).None?
            <==>
            && Exchanged(schema.frame, m, Named(values), given.correlation.GetOr(0), context)
            && Sendable(schema.frame, m, given.session.GetOr(0), context)
            && 0 <= given.flags.GetOr(0) < 128
            && Fitting(schema, m, Named(values), given.flags.GetOr(0), given.session.GetOr(0), decoded, context)
  {
    var h, variant := HeaderFor(schema, m, given, |payload|), VariantName(values);
    NamedMeaning(values);
    PeersComplain(schema.frame, m, variant, context);
    FlagsComplain(schema.frame, m, h.flags, context.sender, variant);
    RepliesMeaning(schema.frame, m, variant, h.correlation);
    ContentComplains(schema, m, h, decoded, context);
    hide PeersFault, FlagsFault, Bits, Uncorrelated, ContentFault, VariantName, Named, MaySend, MayReceive, Replies, BitsFit,
         Placed, On;
  }

  lemma SealedMeaning(schema: Schema, m: Message, given: Given, payload: seq<byte>, frame: seq<byte>)
    ensures Sealed(schema, HeaderFor(schema, m, given, |payload|), payload) == Some(frame) <==>
              Framed(schema, m, given, payload, frame)
  {
    hide *;
    if Sealed(schema, HeaderFor(schema, m, given, |payload|), payload) == Some(frame) {
      SealedFramed(schema, m, given, payload, frame);
    }
    if Framed(schema, m, given, payload, frame) {
      FramedSealed(schema, m, given, payload, frame);
    }
  }

  lemma SealedFramed(schema: Schema, m: Message, given: Given, payload: seq<byte>, frame: seq<byte>)
    requires Sealed(schema, HeaderFor(schema, m, given, |payload|), payload) == Some(frame)
    ensures Framed(schema, m, given, payload, frame)
  {
    var h := HeaderFor(schema, m, given, |payload|);
    hide EncodeFields, ToRecord, Filled, HeaderFor;
    var unsealed := ToRecord(h.(checksum := 0));
    FilledMeaning(unsealed, schema, m, given, |payload|, 0);
    var blank := EncodeFields(schema.header, unsealed);
    var sum := schema.checksum(blank.value + payload) % 0x1_0000_0000;
    var sealed := ToRecord(h.(checksum := sum));
    FilledMeaning(sealed, schema, m, given, |payload|, sum);
    assert EncodeFields(schema.header, sealed).Some?;
  }

  lemma FramedSealed(schema: Schema, m: Message, given: Given, payload: seq<byte>, frame: seq<byte>)
    requires Framed(schema, m, given, payload, frame)
    ensures Sealed(schema, HeaderFor(schema, m, given, |payload|), payload) == Some(frame)
  {
    hide EncodeFields, ToRecord, Filled, HeaderFor;
    var unsealed, sealed, blank, head :|
      && Filled(unsealed, schema, m, given, |payload|, 0)
      && EncodeFields(schema.header, unsealed) == Some(blank)
      && Filled(sealed, schema, m, given, |payload|, schema.checksum(blank + payload) % 0x1_0000_0000)
      && EncodeFields(schema.header, sealed) == Some(head)
      && frame == head + payload;
    FilledMeaning(unsealed, schema, m, given, |payload|, 0);
    FilledMeaning(sealed, schema, m, given, |payload|, schema.checksum(blank + payload) % 0x1_0000_0000);
  }

  // ---------------------------------------------------------------- which schemas the round trips are about

  /** Fourteen integer fields in 32 bytes, of which `reserved` alone is reserved and the checksum takes the last four. */
  ghost predicate HeaderLike(header: seq<Field>) {
    && IsLayout(header, 32)
    && WireNames(header) == {"magic", "major", "minor", "header_len", "message_type", "flags", "priority", "session_id",
                             "sequence", "sender_time_ms", "correlation_id", "payload_len", "reserved", "crc32"}
    && (forall i :: 0 <= i < |header| ==> header[i].kind.Scalar?)
    && (forall i :: 0 <= i < |header| ==> (header[i].reserved <==> header[i].name == "reserved"))
    && (exists i :: 0 <= i < |header| && header[i].offset == 28 && header[i].name == "crc32"
                    && header[i].kind == Scalar(4, false))
  }

  ghost predicate OfMessage(m: Message, variant: string) {
    exists i :: 0 <= i < (if m.shape.Variants? then |m.shape.variants| else 0) && m.shape.variants[i].name == variant
  }

  /** Shapes that can be told apart; a priority from 0 to 4; policies about variants that the message has; secure
      exactly without session zero, and encrypted without a session only with session zero. */
  ghost predicate MessageLike(policy: FramePolicy, m: Message) {
    && ShapeOk(m.shape)
    && Unambiguous(m.shape)
    && (m.priority == 0 || m.priority == 1 || m.priority == 2 || m.priority == 3 || m.priority == 4)
    && (forall i :: 0 <= i < |policy.variantPolicies| && policy.variantPolicies[i].message == m.name ==>
          OfMessage(m, policy.variantPolicies[i].variant))
    && (forall variant :: (m.name, variant) in policy.responseVariants ==> OfMessage(m, variant))
    && (m.name in policy.secure || m.name in policy.sessionZero)
    && !(m.name in policy.secure && m.name in policy.sessionZero)
    && (m.name in policy.authenticatedSessionZero ==> m.name in policy.sessionZero)
  }

  lemma VariantListed(m: Message, variant: string)
    ensures VariantKnown(m, variant) <==> OfMessage(m, variant)
  {
  }

  lemma MessageMeaning(policy: FramePolicy, m: Message)
    ensures MessageOk(policy, m) <==> MessageLike(policy, m)
  {
    hide ShapeOk, Unambiguous, VariantKnown, OfMessage;
    forall variant ensures VariantKnown(m, variant) <==> OfMessage(m, variant) {
      VariantListed(m, variant);
    }
    if MessageLike(policy, m) {
      forall pair | pair in policy.responseVariants && pair.0 == m.name ensures VariantKnown(m, pair.1) {
        assert (m.name, pair.1) == pair;
      }
    }
  }

  ghost predicate AllLike(schema: Schema) {
    forall i :: 0 <= i < |schema.messages| ==> MessageLike(schema.frame, schema.messages[i])
  }

  lemma AllMeaning(schema: Schema)
    ensures (forall i :: 0 <= i < |schema.messages| ==> MessageOk(schema.frame, schema.messages[i])) <==> AllLike(schema)
    ensures AllLike(schema) ==> ShapesOk(schema)
  {
    hide MessageOk, MessageLike, ShapeOk;
    forall i | 0 <= i < |schema.messages|
      ensures MessageOk(schema.frame, schema.messages[i]) <==> MessageLike(schema.frame, schema.messages[i])
      ensures MessageLike(schema.frame, schema.messages[i]) ==> ShapeOk(schema.messages[i].shape)
    {
      MessageMeaning(schema.frame, schema.messages[i]);
      MessageShaped(schema.frame, schema.messages[i]);
    }
  }

  /** The well-formed schemas: header and messages as said, and no number twice. */
  lemma WellFormedMeaning(schema: Schema)
    ensures WellFormed(schema) <==>
              && HeaderLike(schema.header)
              && AllLike(schema)
              && forall i, j :: 0 <= i < j < |schema.messages| ==> schema.messages[i].id != schema.messages[j].id
  {
    hide HeaderOk, HeaderLike, MessageOk, AllLike, ShapesOk;
    HeaderMeaning(schema.header);
    AllMeaning(schema);
  }

  lemma MessageShaped(policy: FramePolicy, m: Message)
    ensures MessageLike(policy, m) ==> ShapeOk(m.shape)
  {
    hide ShapeOk, Unambiguous;
  }

  lemma HeaderMeaning(header: seq<Field>)
    ensures HeaderOk(header) <==> HeaderLike(header)
  {
    hide IsLayout, WireNames;
  }
}
