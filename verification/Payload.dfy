/** The five payload kinds, after `encode_payload`, `decode_payload` and `payload_size_bounds` in
 *  tools/generate_protocol.py. The semantic policy is an arbitrary judge of decoded values. */
module Payload {
  import opened Prelude
  import opened Layout
  import Tlv

  const MAX_PAYLOAD: nat := 208

  datatype Part = Part(size: nat, fields: seq<Field>)

  datatype Variant = Variant(name: string, part: Part)

  datatype Shape =
    | Fixed(part: Part)
    | Variants(variants: seq<Variant>)
    | Bounded(prefix: Part, record: Part, countField: string, countMax: nat)
    | Suffix(prefix: Part, suffixName: string, suffixMax: int, lengthField: Option<string>, command: bool)
    | Tlvs(prefix: Part, maxBytes: int)

  /** What a payload dict holds. Field names are kept apart from the keys `prefix`, `records`, `tlvs`
      and `variant`. */
  datatype Values = Values(fields: Record, prefix: Option<Record>, records: seq<Record>, tlvs: seq<Tlv.Entry>,
                           variant: Option<string>)

  /** The two TLV policies of the schema. */
  datatype Policies = Policies(tlv: Tlv.Policy, command: Tlv.Policy)

  // ---------------------------------------------------------------- what validate_schema enforces

  predicate PartOk(p: Part) {
    IsLayout(p.fields, p.size)
  }

  predicate CountFieldOk(fields: seq<Field>, name: string) {
    exists i :: 0 <= i < |fields| && fields[i].name == name && fields[i].kind.Scalar?
             && !fields[i].kind.signed && fields[i].kind.width <= 4
  }

  predicate ShapeOk(s: Shape) {
    match s
    case Fixed(part) => PartOk(part) && part.size <= MAX_PAYLOAD
    case Variants(vs) => vs != [] && forall i :: 0 <= i < |vs| ==> PartOk(vs[i].part) && vs[i].part.size <= MAX_PAYLOAD
    case Bounded(prefix, record, countField, countMax) =>
      PartOk(prefix) && PartOk(record) && CountFieldOk(prefix.fields, countField)
      && prefix.size + record.size * countMax <= MAX_PAYLOAD
    case Suffix(prefix, _, suffixMax, _, _) => PartOk(prefix) && prefix.size + suffixMax <= MAX_PAYLOAD
    case Tlvs(prefix, maxBytes) => PartOk(prefix) && prefix.size + maxBytes <= MAX_PAYLOAD
  }

  predicate DistinctVariants(vs: seq<Variant>) {
    && (forall i :: 0 <= i < |vs| ==> vs[i].name != "")
    && (forall i, j :: 0 <= i < j < |vs| ==> vs[i].name != vs[j].name && vs[i].part.size != vs[j].part.size)
  }

  /** What it does not enforce, but decoding by length and one flat result dict rely on. */
  predicate Unambiguous(s: Shape) {
    match s
    case Variants(vs) => DistinctVariants(vs)
    case Suffix(prefix, suffixName, _, _, _) => suffixName !in WireNames(prefix.fields)
    case _ => true
  }

  // ---------------------------------------------------------------- size bounds

  function SmallestSize(vs: seq<Variant>): nat
    requires vs != []
  {
    if |vs| == 1 || vs[0].part.size <= SmallestSize(vs[1..]) then vs[0].part.size else SmallestSize(vs[1..])
  }

  function LargestSize(vs: seq<Variant>): nat
    requires vs != []
  {
    if |vs| == 1 || vs[0].part.size >= LargestSize(vs[1..]) then vs[0].part.size else LargestSize(vs[1..])
  }

  function SizeBounds(s: Shape): (int, int)
    requires s.Variants? ==> s.variants != []
  {
    match s
    case Fixed(part) => (part.size, part.size)
    case Variants(vs) => (SmallestSize(vs), LargestSize(vs))
    case Bounded(prefix, record, _, countMax) => (prefix.size, prefix.size + record.size * countMax)
    case Suffix(prefix, _, suffixMax, _, _) => (prefix.size, prefix.size + suffixMax)
    case Tlvs(prefix, maxBytes) => (prefix.size, prefix.size + maxBytes)
  }

  lemma {:induction false} VariantWithinBounds(vs: seq<Variant>, i: nat)
    requires i < |vs|
    ensures SmallestSize(vs) <= vs[i].part.size <= LargestSize(vs)
  {
    if i > 0 {
      VariantWithinBounds(vs[1..], i - 1);
    }
  }

  // ---------------------------------------------------------------- encoding

  /** `a + b` when both are present. */
  function Chain(a: Option<seq<byte>>, b: Option<seq<byte>>): Option<seq<byte>> {
    if a.None? || b.None? then None else Some(a.value + b.value)
  }

  function PrefixValues(values: Values): Record {
    values.prefix.GetOr(values.fields)
  }

  function EncodeRecords(fields: seq<Field>, records: seq<Record>): Option<seq<byte>> {
    if records == [] then Some([])
    else Chain(EncodeFields(fields, records[0]), EncodeRecords(fields, records[1..]))
  }

  /** The prefix with the number of records filled in; None when the announced number is another. */
  function CountedPrefix(s: Shape, values: Values): Option<Record>
    requires s.Bounded?
  {
    var n := |values.records|;
    var declared := Lookup(PrefixValues(values), s.countField);
    if n > s.countMax || (declared.Some? && declared.value != Num(n)) then None
    else Some(PrefixValues(values)[s.countField := Num(n)])
  }

  function EncodeBounded(s: Shape, values: Values): Option<seq<byte>>
    requires s.Bounded?
  {
    var prefix := CountedPrefix(s, values);
    if prefix.None? then None
    else Chain(EncodeFields(s.prefix.fields, prefix.value), EncodeRecords(s.record.fields, values.records))
  }

  predicate EndsWithLength(name: string) {
    |name| >= 7 && name[|name| - 7..] == "_length"
  }

  /** The first prefix field that announces the length of the suffix. */
  function LengthFieldOf(fields: seq<Field>, lengthField: Option<string>): Option<string> {
    if fields == [] then None
    else if Some(fields[0].name) == lengthField || (lengthField.None? && EndsWithLength(fields[0].name)) then
      Some(fields[0].name)
    else LengthFieldOf(fields[1..], lengthField)
  }

  /** No length field of the prefix contradicts the length; a missing one counts as `default`. */
  predicate LengthAgrees(s: Shape, prefix: Record, default: FieldValue, length: nat)
    requires s.Suffix?
  {
    var lengthField := LengthFieldOf(s.prefix.fields, s.lengthField);
    lengthField.Some? ==> Lookup(prefix, lengthField.value).GetOr(default) == Num(length)
  }

  predicate CommandOk(policies: Policies, s: Shape, suffix: seq<byte>)
    requires s.Suffix?
  {
    s.command ==> Tlv.DecodeSpec(policies.command, suffix).Ok?
  }

  function SuffixOf(s: Shape, values: Values): Option<seq<byte>>
    requires s.Suffix?
  {
    var v := Lookup(values.fields, s.suffixName).GetOr(Raw([]));
    if v.Raw? then Some(v.bytes) else None
  }

  function EncodeSuffix(policies: Policies, s: Shape, values: Values): Option<seq<byte>>
    requires s.Suffix?
  {
    var head := EncodeFields(s.prefix.fields, PrefixValues(values));
    var suffix := SuffixOf(s, values);
    if head.None? || suffix.None? || |suffix.value| > s.suffixMax then None
    else if !LengthAgrees(s, PrefixValues(values), Num(|suffix.value|), |suffix.value|) then None
    else if !CommandOk(policies, s, suffix.value) then None
    else Some(head.value + suffix.value)
  }

  function EncodeTlvs(policies: Policies, s: Shape, values: Values): Option<seq<byte>>
    requires s.Tlvs?
  {
    var head := EncodeFields(s.prefix.fields, PrefixValues(values));
    if head.None? || exists i :: 0 <= i < |values.tlvs| && !values.tlvs[i].Fits() then None
    else
      var stream := Tlv.SerializeAll(values.tlvs);
      if |stream| > s.maxBytes || Tlv.DecodeSpec(policies.tlv, stream).Err? then None
      else Some(head.value + stream)
  }

  function VariantNamed(vs: seq<Variant>, name: string): Option<Variant> {
    if vs == [] then None else if vs[0].name == name then Some(vs[0]) else VariantNamed(vs[1..], name)
  }

  /** The variant a payload dict asks for; an empty name asks for none. */
  function VariantAsked(s: Shape, values: Values): Option<Variant>
    requires s.Variants?
  {
    if values.variant.GetOr("") == "" then None else VariantNamed(s.variants, values.variant.value)
  }

  function EncodeVariant(s: Shape, values: Values): Option<seq<byte>>
    requires s.Variants?
  {
    var v := VariantAsked(s, values);
    if v.None? then None else EncodeFields(v.value.part.fields, values.fields)
  }

  function EncodeShape(policies: Policies, s: Shape, values: Values): Option<seq<byte>> {
    match s
    case Fixed(part) => EncodeFields(part.fields, values.fields)
    case Variants(_) => EncodeVariant(s, values)
    case Bounded(_, _, _, _) => EncodeBounded(s, values)
    case Suffix(_, _, _, _, _) => EncodeSuffix(policies, s, values)
    case Tlvs(_, _) => EncodeTlvs(policies, s, values)
  }

  // ---------------------------------------------------------------- decoding

  function Flat(fields: Record): Values {
    Values(fields, None, [], [], None)
  }

  function VariantSized(vs: seq<Variant>, size: nat): Option<Variant> {
    if vs == [] then None else if vs[0].part.size == size then Some(vs[0]) else VariantSized(vs[1..], size)
  }

  function DecodeVariant(s: Shape, data: seq<byte>): Result<Values, Code>
    requires s.Variants?
  {
    var v := VariantSized(s.variants, |data|);
    if v.None? then Err(BadLength)
    else
      var fields :- DecodeFields(v.value.part.fields, data);
      Ok(Flat(fields).(variant := Some(v.value.name)))
  }

  function DecodeRecords(record: Part, data: seq<byte>, count: nat): Result<seq<Record>, Code>
    requires |data| == count * record.size
    decreases count
  {
    if count == 0 then Ok([])
    else
      RecordFits(record.size, |data|, count);
      var first :- DecodeFields(record.fields, data[..record.size]);
      var rest :- DecodeRecords(record, data[record.size..], count - 1);
      Ok([first] + rest)
  }

  lemma RecordFits(size: nat, total: nat, count: nat)
    requires count > 0 && total == count * size
    ensures size <= total && total - size == (count - 1) * size
  {
    assert count * size == (count - 1) * size + size;
  }

  function DecodeBounded(s: Shape, data: seq<byte>): Result<Values, Code>
    requires s.Bounded? && s.prefix.size <= |data|
  {
    var prefix :- DecodeFields(s.prefix.fields, data[..s.prefix.size]);
    var count := Lookup(prefix, s.countField).GetOr(Num(-1));
    if !count.Num? || count.n < 0 then Err(SchemaFault)
    else if count.n > s.countMax then Err(BadCount)
    else if s.prefix.size + count.n * s.record.size != |data| then Err(BadLength)
    else
      var records :- DecodeRecords(s.record, data[s.prefix.size..], count.n);
      Ok(Flat(prefix).(records := records))
  }

  function DecodeSuffix(policies: Policies, s: Shape, data: seq<byte>): Result<Values, Code>
    requires s.Suffix? && s.prefix.size <= |data|
  {
    var prefix :- DecodeFields(s.prefix.fields, data[..s.prefix.size]);
    var suffix := data[s.prefix.size..];
    if !LengthAgrees(s, prefix, Raw([]), |suffix|) then Err(BadLength)
    else if !CommandOk(policies, s, suffix) then Err(Tlv.DecodeSpec(policies.command, suffix).error)
    else Ok(Flat(prefix[s.suffixName := Raw(suffix)]))
  }

  function DecodeTlvs(policies: Policies, s: Shape, data: seq<byte>): Result<Values, Code>
    requires s.Tlvs? && s.prefix.size <= |data|
  {
    var prefix :- DecodeFields(s.prefix.fields, data[..s.prefix.size]);
    var entries :- Tlv.DecodeSpec(policies.tlv, data[s.prefix.size..]);
    Ok(Flat(prefix).(tlvs := entries))
  }

  predicate WithinBounds(s: Shape, n: nat)
    requires s.Variants? ==> s.variants != []
  {
    SizeBounds(s).0 <= n <= SizeBounds(s).1
  }

  function DecodeShape(policies: Policies, s: Shape, data: seq<byte>): Result<Values, Code>
    requires ShapeOk(s)
  {
    if !WithinBounds(s, |data|) then Err(BadLength)
    else
      match s
      case Fixed(part) =>
        var fields :- DecodeFields(part.fields, data);
        Ok(Flat(fields))
      case Variants(_) => DecodeVariant(s, data)
      case Bounded(_, _, _, _) => DecodeBounded(s, data)
      case Suffix(_, _, _, _, _) => DecodeSuffix(policies, s, data)
      case Tlvs(_, _) => DecodeTlvs(policies, s, data)
  }
}
