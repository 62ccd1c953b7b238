/** Roles, flags and fragment positions of a frame, after `_variant_roles`, `_is_response_variant`,
 *  `_allowed_frame_flags`, `_validate_frame_flags` and `_validate_fragment_payload` in
 *  tools/generate_protocol.py. */
module Flags {
  import opened Prelude
  import opened Complaints
  import opened Layout
  import opened Payload

  /** The seven known bits of a flags byte: 0x01, 0x02, 0x04, 0x08, 0x10, 0x20 and 0x40. */
  datatype FlagSet = FlagSet(ackRequired: bool, response: bool, error: bool, fragment: bool, lastFragment: bool,
                             broadcast: bool, readOnly: bool)
  {
    /** `self & ~allowed == 0` */
    predicate Within(allowed: FlagSet) {
      && (ackRequired ==> allowed.ackRequired)
      && (response ==> allowed.response)
      && (error ==> allowed.error)
      && (fragment ==> allowed.fragment)
      && (lastFragment ==> allowed.lastFragment)
      && (broadcast ==> allowed.broadcast)
      && (readOnly ==> allowed.readOnly)
    }

    function Word(): nat {
      Weight(ackRequired, 0x01) + Weight(response, 0x02) + Weight(error, 0x04) + Weight(fragment, 0x08)
      + Weight(lastFragment, 0x10) + Weight(broadcast, 0x20) + Weight(readOnly, 0x40)
    }
  }

  const NO_FLAGS := FlagSet(false, false, false, false, false, false, false)

  function Weight(condition: bool, bit: nat): (n: nat)
    ensures n <= bit
  {
    if condition then bit else 0
  }

  /** `flags & ~0x7F == 0` */
  predicate Known(flags: int) {
    0 <= flags < 0x80
  }

  function Odd(n: int): bool {
    n % 2 == 1
  }

  function Half(n: int): int {
    n / 2
  }

  /** The low seven bits; dividing rounds down, as a right shift does. */
  function Bits(flags: int): FlagSet {
    var b1 := Half(flags);
    var b2 := Half(b1);
    var b3 := Half(b2);
    var b4 := Half(b3);
    var b5 := Half(b4);
    FlagSet(Odd(flags), Odd(b1), Odd(b2), Odd(b3), Odd(b4), Odd(b5), Odd(Half(b5)))
  }

  function Push(bit: bool, rest: int): int {
    Weight(bit, 1) + 2 * rest
  }

  lemma PushHalf(bit: bool, rest: int)
    ensures Odd(Push(bit, rest)) == bit && Half(Push(bit, rest)) == rest
  {
  }

  lemma HalfPush(n: int)
    ensures n == Push(Odd(n), Half(n))
  {
  }

  lemma WordPushes(f: FlagSet)
    ensures f.Word() == Push(f.ackRequired, Push(f.response, Push(f.error, Push(f.fragment, Push(f.lastFragment,
                          Push(f.broadcast, Push(f.readOnly, 0)))))))
  {
  }

  lemma SevenHalves(n: int)
    ensures Known(n) <==> Half(Half(Half(Half(Half(Half(Half(n))))))) == 0
  {
  }

  /** The known bits of a byte and the byte determine each other. */
  lemma BitsWord(flags: int, f: FlagSet)
    ensures Known(flags) && Bits(flags) == f <==> flags == f.Word()
  {
    BitsOfWord(f);
    WordKnown(f);
    if Known(flags) {
      WordOfBits(flags);
    }
    hide Bits;
  }

  lemma WordKnown(f: FlagSet)
    ensures Known(f.Word())
  {
    hide Weight;
  }

  lemma BitsOfWord(f: FlagSet)
    ensures Bits(f.Word()) == f
  {
    var w6 := Push(f.readOnly, 0);
    var w5 := Push(f.broadcast, w6);
    var w4 := Push(f.lastFragment, w5);
    var w3 := Push(f.fragment, w4);
    var w2 := Push(f.error, w3);
    var w1 := Push(f.response, w2);
    hide *;
    WordPushes(f);
    PushHalf(f.ackRequired, w1);
    PushHalf(f.response, w2);
    PushHalf(f.error, w3);
    PushHalf(f.fragment, w4);
    PushHalf(f.lastFragment, w5);
    PushHalf(f.broadcast, w6);
    PushHalf(f.readOnly, 0);
    BitsUnfold(f.Word());
  }

  lemma WordOfBits(flags: int)
    requires Known(flags)
    ensures Bits(flags).Word() == flags
  {
    hide *;
    var b1 := Half(flags);
    var b2 := Half(b1);
    var b3 := Half(b2);
    var b4 := Half(b3);
    var b5 := Half(b4);
    var b6 := Half(b5);
    HalfPush(flags);
    HalfPush(b1);
    HalfPush(b2);
    HalfPush(b3);
    HalfPush(b4);
    HalfPush(b5);
    HalfPush(b6);
    SevenHalves(flags);
    BitsUnfold(flags);
    WordPushes(Bits(flags));
  }

  lemma BitsUnfold(flags: int)
    ensures var b1 := Half(flags);
            var b2 := Half(b1);
            var b3 := Half(b2);
            var b4 := Half(b3);
            var b5 := Half(b4);
            Bits(flags) == FlagSet(Odd(flags), Odd(b1), Odd(b2), Odd(b3), Odd(b4), Odd(b5), Odd(Half(b5)))
  {
    hide Odd, Half;
  }

  datatype Message = Message(name: string, id: int, priority: int, ackRequired: bool, broadcast: bool,
                             senders: set<string>, receivers: set<string>, states: set<string>, shape: Shape)

  datatype VariantPolicy = VariantPolicy(message: string, variant: string, senders: set<string>, receivers: set<string>)

  datatype FramePolicy = FramePolicy(
    responseMessages: set<string>,
    responseVariants: set<(string, string)>,
    variantPolicies: seq<VariantPolicy>,
    correlationRequired: bool,
    fragmentMessages: set<string>,
    sessionZero: set<string>,
    authenticatedSessionZero: set<string>,
    secure: set<string>,
    readOnlyRoles: set<string>)

  // ---------------------------------------------------------------- roles and responses

  function PolicyFor(policies: seq<VariantPolicy>, message: string, variant: string): Option<VariantPolicy> {
    if policies == [] then None
    else if policies[0].message == message && policies[0].variant == variant then Some(policies[0])
    else PolicyFor(policies[1..], message, variant)
  }

  /** The senders and receivers of a variant: its own policy when it has one, else those of the message. */
  function VariantRoles(policy: FramePolicy, m: Message, variant: Option<string>): (set<string>, set<string>) {
    var own := if variant.Some? then PolicyFor(policy.variantPolicies, m.name, variant.value) else None;
    if own.Some? then (own.value.senders, own.value.receivers) else (m.senders, m.receivers)
  }

  predicate IsResponse(policy: FramePolicy, m: Message, variant: Option<string>) {
    m.name in policy.responseMessages || (variant.Some? && (m.name, variant.value) in policy.responseVariants)
  }

  // ---------------------------------------------------------------- flags

  function AllowedFlags(policy: FramePolicy, m: Message, variant: Option<string>): FlagSet {
    FlagSet(m.ackRequired, IsResponse(policy, m, variant), m.name == "ERROR", m.name in policy.fragmentMessages,
            m.name in policy.fragmentMessages, m.broadcast, policy.readOnlyRoles * m.senders != {})
  }

  method AllowedFrameFlags(policy: FramePolicy, m: Message, variant: Option<string>) returns (flags: FlagSet)
    ensures flags == AllowedFlags(policy, m, variant)
  {
    flags := NO_FLAGS;
    if m.ackRequired {
      flags := flags.(ackRequired := true);
    }
    if m.broadcast {
      flags := flags.(broadcast := true);
    }
    if IsResponse(policy, m, variant) {
      flags := flags.(response := true);
    }
    if m.name == "ERROR" {
      flags := flags.(error := true);
    }
    if m.name in policy.fragmentMessages {
      flags := flags.(fragment := true, lastFragment := true);
    }
    if policy.readOnlyRoles * m.senders != {} {
      flags := flags.(readOnly := true);
    }
  }

  /** The first complaint about the flags of a frame. */
  function FlagsFault(policy: FramePolicy, m: Message, flags: FlagSet, sender: Option<string>, variant: Option<string>)
    : Option<Code>
  {
    if !flags.Within(AllowedFlags(policy, m, variant)) then Some(BadFlags)
    else if flags.ackRequired != m.ackRequired then Some(BadFlags)
    else if flags.broadcast != m.broadcast then Some(BadFlags)
    else if flags.response != IsResponse(policy, m, variant) then Some(BadFlags)
    else if m.name == "ERROR" && !flags.error then Some(BadFlags)
    else if m.name in policy.fragmentMessages && !flags.fragment then Some(BadFlags)
    else if flags.lastFragment && !flags.fragment then Some(BadFlags)
    else if flags.readOnly then
      if sender.None? then Some(ContextRequired)
      else if sender.value !in policy.readOnlyRoles then Some(UnauthorizedSender)
      else None
    else if sender.Some? && sender.value in policy.readOnlyRoles then Some(BadFlags)
    else None
  }

  // ---------------------------------------------------------------- fragments

  function IntAt(values: Values, name: string): Option<int> {
    var v := Lookup(values.fields, name);
    if v.Some? && v.value.Num? then Some(v.value.n) else None
  }

  predicate PositionValid(values: Values) {
    var index, total := IntAt(values, "fragment_index"), IntAt(values, "total_fragments");
    index.Some? && total.Some? && 0 <= index.value < total.value
  }

  predicate PositionLast(values: Values)
    requires PositionValid(values)
  {
    IntAt(values, "fragment_index").value == IntAt(values, "total_fragments").value - 1
  }

  function FragmentFault(policy: FramePolicy, m: Message, values: Values, flags: FlagSet): Option<Code> {
    if m.name !in policy.fragmentMessages then None
    else if !PositionValid(values) then Some(BadFragment)
    else if flags.lastFragment != PositionLast(values) then Some(BadFragment)
    else None
  }

  // ---------------------------------------------------------------- one flags byte

  /** The flags byte meets every check of the frame. */
  predicate Passes(policy: FramePolicy, m: Message, values: Values, sender: Option<string>, variant: Option<string>,
                   flags: int)
  {
    && Known(flags)
    && FlagsFault(policy, m, Bits(flags), sender, variant).None?
    && FragmentFault(policy, m, values, Bits(flags)).None?
  }

  predicate ReadOnlySender(policy: FramePolicy, sender: Option<string>) {
    sender.Some? && sender.value in policy.readOnlyRoles
  }

  /** Some flags byte can pass: the position of a fragment is valid, and a read-only sender meets a
      message that some read-only role may send. */
  predicate Flaggable(policy: FramePolicy, m: Message, values: Values, sender: Option<string>) {
    && (m.name in policy.fragmentMessages ==> PositionValid(values))
    && (ReadOnlySender(policy, sender) ==> policy.readOnlyRoles * m.senders != {})
  }

  function RequiredFlags(policy: FramePolicy, m: Message, values: Values, sender: Option<string>, variant: Option<string>)
    : FlagSet
    requires Flaggable(policy, m, values, sender)
  {
    var fragment := m.name in policy.fragmentMessages;
    FlagSet(m.ackRequired, IsResponse(policy, m, variant), m.name == "ERROR", fragment, fragment && PositionLast(values),
            m.broadcast, ReadOnlySender(policy, sender))
  }

  /** The flags of a frame are determined: exactly one byte passes when the frame can be flagged at
      all, and none does otherwise. */
  lemma FlagsDetermined(policy: FramePolicy, m: Message, values: Values, sender: Option<string>, variant: Option<string>,
                        flags: int)
    ensures Passes(policy, m, values, sender, variant, flags) <==>
              && Flaggable(policy, m, values, sender)
              && flags == RequiredFlags(policy, m, values, sender, variant).Word()
  {
    hide IsResponse, PositionValid, PositionLast, Bits;
    if Passes(policy, m, values, sender, variant, flags) {
      assert Bits(flags) == RequiredFlags(policy, m, values, sender, variant);
      BitsWord(flags, RequiredFlags(policy, m, values, sender, variant));
    }
    if Flaggable(policy, m, values, sender) {
      BitsWord(flags, RequiredFlags(policy, m, values, sender, variant));
    }
  }

  /** A sender that the message or the variant permits can always be flagged. */
  lemma PermittedSenderFlaggable(policy: FramePolicy, m: Message, values: Values, sender: Option<string>,
                                 variant: Option<string>)
    requires forall i :: 0 <= i < |policy.variantPolicies| && policy.variantPolicies[i].message == m.name ==>
                policy.variantPolicies[i].senders <= m.senders
    requires sender.Some? && sender.value in VariantRoles(policy, m, variant).0
    requires m.name in policy.fragmentMessages ==> PositionValid(values)
    ensures Flaggable(policy, m, values, sender)
  {
    if variant.Some? {
      PolicyForListed(policy.variantPolicies, m.name, variant.value);
    }
    if ReadOnlySender(policy, sender) {
      assert sender.value in policy.readOnlyRoles * m.senders;
    }
  }

  lemma {:induction false} PolicyForListed(policies: seq<VariantPolicy>, message: string, variant: string)
    ensures var p := PolicyFor(policies, message, variant);
            p.Some? ==> p.value in policies && p.value.message == message && p.value.variant == variant
  {
    if policies != [] {
      PolicyForListed(policies[1..], message, variant);
    }
  }

  // ---------------------------------------------------------------- the byte, bit by bit

  /** The bit of this weight is set. */
  predicate On(flags: int, weight: nat)
    requires weight > 0
  {
    flags / weight % 2 == 1
  }

  lemma BitsMeaning(flags: int)
    ensures Bits(flags) == FlagSet(On(flags, 0x01), On(flags, 0x02), On(flags, 0x04), On(flags, 0x08), On(flags, 0x10),
                                   On(flags, 0x20), On(flags, 0x40))
  {
    assert Half(flags) == flags / 2;
    assert Half(flags / 2) == flags / 4;
    assert Half(flags / 4) == flags / 8;
    assert Half(flags / 8) == flags / 16;
    assert Half(flags / 16) == flags / 32;
    assert Half(flags / 32) == flags / 64;
  }

  /** The bits that the message, its variant and its senders settle, whoever sends the frame. */
  ghost predicate BitsFit(policy: FramePolicy, m: Message, variant: Option<string>, flags: int) {
    && (On(flags, 0x01) <==> m.ackRequired)
    && (On(flags, 0x02) <==>
        m.name in policy.responseMessages || exists v :: variant == Some(v) && (m.name, v) in policy.responseVariants)
    && (On(flags, 0x04) <==> m.name == "ERROR")
    && (On(flags, 0x08) <==> m.name in policy.fragmentMessages)
    && (On(flags, 0x10) ==> m.name in policy.fragmentMessages)
    && (On(flags, 0x20) <==> m.broadcast)
    && (On(flags, 0x40) ==> exists role :: role in policy.readOnlyRoles && role in m.senders)
  }

  /** The code that refuses a flags byte. */
  ghost function FlagsComplaint(policy: FramePolicy, m: Message, flags: int, sender: Option<string>,
                                variant: Option<string>): Option<Code> {
    var reader := sender.Some? && sender.value in policy.readOnlyRoles;
    Then(When(!BitsFit(policy, m, variant, flags), BadFlags),
    Then(When(On(flags, 0x40) && sender.None?, ContextRequired),
    Then(When(On(flags, 0x40) && !reader, UnauthorizedSender),
         When(!On(flags, 0x40) && reader, BadFlags))))
  }

  lemma FlagsComplain(policy: FramePolicy, m: Message, flags: int, sender: Option<string>, variant: Option<string>)
    ensures FlagsFault(policy, m, Bits(flags), sender, variant) == FlagsComplaint(policy, m, flags, sender, variant)
  {
    hide Bits, On;
    BitsMeaning(flags);
    ReadersMeaning(policy, m);
    ResponseMeaning(policy, m, variant);
    hide IsResponse;
  }

  lemma ResponseMeaning(policy: FramePolicy, m: Message, variant: Option<string>)
    ensures IsResponse(policy, m, variant) <==>
              m.name in policy.responseMessages || exists v :: variant == Some(v) && (m.name, v) in policy.responseVariants
  {
  }

  lemma ReadersMeaning(policy: FramePolicy, m: Message)
    ensures policy.readOnlyRoles * m.senders != {} <==> exists role :: role in policy.readOnlyRoles && role in m.senders
  {
    if role :| role in policy.readOnlyRoles && role in m.senders {
      assert role in policy.readOnlyRoles * m.senders;
    }
  }

  /** The fragment has a number below the announced total, and the bit 0x10 marks the last one. */
  ghost predicate Placed(values: Values, flags: int) {
    exists i: int, n: int ::
      && Lookup(values.fields, "fragment_index") == Some(Num(i))
      && Lookup(values.fields, "total_fragments") == Some(Num(n))
      && 0 <= i < n
      && (On(flags, 0x10) <==> i + 1 == n)
  }

  lemma PlacedMeaning(values: Values, flags: int)
    ensures Placed(values, flags) <==> PositionValid(values) && (On(flags, 0x10) <==> PositionLast(values))
  {
    hide On, Lookup;
    if PositionValid(values) && (On(flags, 0x10) <==> PositionLast(values)) {
      var i, n := IntAt(values, "fragment_index").value, IntAt(values, "total_fragments").value;
      assert Lookup(values.fields, "fragment_index") == Some(Num(i));
      assert Lookup(values.fields, "total_fragments") == Some(Num(n));
    }
  }

  lemma FragmentComplains(policy: FramePolicy, m: Message, values: Values, flags: int)
    ensures FragmentFault(policy, m, values, Bits(flags)) ==
            When(m.name in policy.fragmentMessages && !Placed(values, flags), BadFragment)
  {
    hide Bits, On, PositionValid, PositionLast, Placed;
    BitsMeaning(flags);
    PlacedMeaning(values, flags);
  }

  /** A byte passes exactly when each of its bits says what it should, and no other bit is set. */
  lemma PassesMeaning(policy: FramePolicy, m: Message, values: Values, sender: Option<string>, variant: Option<string>,
                      flags: int)
    ensures Passes(policy, m, values, sender, variant, flags) <==>
              && 0 <= flags < 128
              && BitsFit(policy, m, variant, flags)
              && (On(flags, 0x40) <==> sender.Some? && sender.value in policy.readOnlyRoles)
              && (m.name in policy.fragmentMessages ==> Placed(values, flags))
  {
    hide Bits, On, FlagsFault, FragmentFault, BitsFit, Placed;
    FlagsComplain(policy, m, flags, sender, variant);
    FragmentComplains(policy, m, values, flags);
  }
}
